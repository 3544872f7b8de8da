/** The compare-and-swap queue of code/cas/cas.h with one pushing and one popping thread:
    every access to shared memory is a step, and the steps of the two threads interleave
    freely. A deleted address may be handed out again. */
module CasQueue {
  /** A node in memory; address 0 is null. */
  datatype Cell = Cell(elem: int, next: nat)

  /** Where the pushing thread is: the node is allocated; `_tail` was read into `oldp`; it was
      read again for the swap; the node is linked and `_tail` is to be moved. */
  datatype Pusher = PIdle | PNew(n: nat) | PLoop(n: nat, oldp: nat) | PSwap(n: nat, oldp: nat, t: nat) | PLinked(n: nat, oldp: nat)

  /** Where the popping thread is: in the loop; `_head` was read; its `_next` was not null; it
      was read again for the swap; the node is to be deleted. */
  datatype Popper = RIdle | RLoop | RHead(p: nat) | RFound(p: nat) | RSwap(p: nat, next: nat) | RDelete(p: nat)

  /** The memory and the two threads. `pushed` is the history of the calls of push, `popped` how
      often `_head` was moved; `fault` is set by an access to a deleted node. */
  datatype Queue = Queue(mem: map<nat, Cell>, head: nat, tail: nat, push: Pusher, pop: Popper, fault: bool,
                         pushed: seq<int>, popped: nat)

  datatype Step = StartPush(elem: int, address: nat) | PushStep | StartPop | PopStep

  /** The constructor: one dummy node. */
  function Initial(address: nat): Queue
    requires address != 0
  {
    Queue(map[address := Cell(0, 0)], address, address, PIdle, RIdle, false, [], 0)
  }

  predicate Enabled(q: Queue, s: Step) {
    match s
    case StartPush(_, address) => q.push == PIdle && address != 0 && address !in q.mem
    case PushStep => q.push != PIdle
    case StartPop => q.pop == RIdle
    case PopStep => q.pop != RIdle
  }

  function Next(q: Queue, s: Step): Queue
    requires Enabled(q, s)
  {
    match s
    case StartPush(elem, address) =>
      q.(mem := q.mem[address := Cell(elem, 0)], push := PNew(address), pushed := q.pushed + [elem])
    case PushStep => Push(q)
    case StartPop => q.(pop := RLoop)
    case PopStep => Pop(q)
  }

  function Push(q: Queue): Queue {
    match q.push
    case PIdle => q
    case PNew(n) => q.(push := PLoop(n, q.tail))
    case PLoop(n, oldp) => q.(push := PSwap(n, oldp, q.tail))
    case PSwap(n, oldp, t) =>
      if t !in q.mem || n !in q.mem then q.(fault := true)
      else if q.mem[t].next != 0 then q.(push := PLoop(n, oldp))
      else q.(mem := q.mem[t := q.mem[t].(next := n)], push := PLinked(n, oldp))
    case PLinked(n, oldp) => q.(tail := if q.tail == oldp then n else q.tail, push := PIdle)
  }

  function Pop(q: Queue): Queue {
    match q.pop
    case RIdle => q
    case RLoop => q.(pop := RHead(q.head))
    case RHead(p) =>
      if p !in q.mem then q.(fault := true)
      else if q.mem[p].next == 0 then q.(pop := RIdle)
      else q.(pop := RFound(p))
    case RFound(p) => if p !in q.mem then q.(fault := true) else q.(pop := RSwap(p, q.mem[p].next))
    case RSwap(p, next) =>
      if q.head == p then q.(head := next, popped := q.popped + 1, pop := RDelete(p)) else q.(pop := RLoop)
    case RDelete(p) => if p !in q.mem then q.(fault := true) else q.(mem := q.mem - {p}, pop := RIdle)
  }

  // ---- the invariant -----------------------------------------------------------------

  /** The nodes of `c` are linked in this order, and the last one ends the list. */
  ghost predicate Chain(mem: map<nat, Cell>, c: seq<nat>) {
    && c != [] && (forall i :: 0 <= i < |c| ==> c[i] != 0 && c[i] in mem)
    && (forall i, j :: 0 <= i < j < |c| ==> c[i] != c[j])
    && (forall i :: 0 <= i < |c| - 1 ==> mem[c[i]].next == c[i + 1]) && mem[c[|c| - 1]].next == 0
  }

  /** The elements behind the first node. */
  ghost predicate Elements(mem: map<nat, Cell>, c: seq<nat>, es: seq<int>)
    requires Chain(mem, c)
  {
    |c| == |es| + 1 && forall i :: 0 <= i < |es| ==> mem[c[i + 1]].elem == es[i]
  }

  ghost predicate PusherOk(q: Queue, c: seq<nat>)
    requires c != []
  {
    var last := c[|c| - 1];
    match q.push
    case PIdle => q.tail == last
    case PNew(n) => q.tail == last && Spare(q, c, n)
    case PLoop(n, oldp) => q.tail == last == oldp && Spare(q, c, n)
    case PSwap(n, oldp, t) => q.tail == last == oldp == t && Spare(q, c, n)
    case PLinked(n, oldp) => q.tail == oldp && n == last
  }

  /** A node that is not yet linked, with the element pushed last. */
  ghost predicate Spare(q: Queue, c: seq<nat>, n: nat) {
    && n != 0 && n in q.mem && q.mem[n].next == 0 && n !in c && q.pop != RDelete(n)
    && q.pushed != [] && q.mem[n].elem == q.pushed[|q.pushed| - 1]
  }

  /** The element of a call of push that has not linked its node in yet is on its way. */
  predicate OnItsWay(q: Queue) { q.push.PNew? || q.push.PLoop? || q.push.PSwap? }

  /** What was pushed, without an element on its way. */
  function Arrived(q: Queue): seq<int> {
    if OnItsWay(q) && q.pushed != [] then q.pushed[..|q.pushed| - 1] else q.pushed
  }

  /** Every node in memory is on the list, about to be linked in, or about to be deleted. */
  ghost predicate NoneLost(q: Queue, c: seq<nat>) {
    forall a :: a in q.mem ==> a in c || (OnItsWay(q) && a == q.push.n) || (q.pop.RDelete? && a == q.pop.p)
  }

  ghost predicate PopperOk(q: Queue, c: seq<nat>)
    requires c != []
  {
    match q.pop
    case RHead(p) => p == c[0]
    case RFound(p) => p == c[0] && |c| > 1
    case RSwap(p, next) => p == c[0] && |c| > 1 && next == c[1]
    case RDelete(p) => p in q.mem && p !in c
    case _ => true
  }

  /** `c` is the list from `_head` on, and behind its first node are the elements that arrived
      and were not yet popped. */
  ghost predicate Inv(q: Queue, c: seq<nat>) {
    && !q.fault && Chain(q.mem, c) && c[0] == q.head && q.popped <= |Arrived(q)|
    && Elements(q.mem, c, Arrived(q)[q.popped..]) && PusherOk(q, c) && PopperOk(q, c) && NoneLost(q, c)
  }

  /** Linking the node in puts it behind the list. */
  lemma LinkKeeps(q: Queue, c: seq<nat>) returns (c': seq<nat>)
    requires Inv(q, c) && q.push.PSwap?
    ensures Inv(Push(q), c')
  {
    var n, q' := q.push.n, Push(q);
    c' := c + [n];
    assert forall i :: 0 <= i < |c| ==> c'[i] == c[i];
    assert Arrived(q') == Arrived(q) + [q.mem[n].elem];
    assert Arrived(q')[q.popped..] == Arrived(q)[q.popped..] + [q.mem[n].elem];
    assert Chain(q'.mem, c') && Elements(q'.mem, c', Arrived(q')[q.popped..]) && PopperOk(q', c');
    assert NoneLost(q', c') by { Behind(c, n); }
  }

  lemma Behind(c: seq<nat>, n: nat)
    ensures forall a :: a in c + [n] <==> a in c || a == n
  {}

  lemma PushKeeps(q: Queue, c: seq<nat>) returns (c': seq<nat>)
    requires Inv(q, c) && q.push != PIdle
    ensures Inv(Push(q), c')
  {
    if q.push.PSwap? {
      c' := LinkKeeps(q, c);
    } else {
      hide Chain, Elements;
      c' := c;
      assert Arrived(Push(q)) == Arrived(q);
    }
  }

  /** Moving `_head` leaves the first node to be deleted. */
  lemma MoveKeeps(q: Queue, c: seq<nat>) returns (c': seq<nat>)
    requires Inv(q, c) && q.pop.RSwap?
    ensures Inv(Pop(q), c')
  {
    c' := c[1..];
    assert |c| > 1 && q.head == c[0] && q.pop.next == c[1];
    assert Arrived(q)[q.popped + 1..] == Arrived(q)[q.popped..][1..];
    TailOf(q.mem, c, Arrived(q)[q.popped..]);
    MovedParts(q, c);
    hide Chain, Elements, PusherOk, NoneLost;
  }

  lemma MovedParts(q: Queue, c: seq<nat>)
    requires Inv(q, c) && q.pop.RSwap? && |c| > 1 && c[0] !in c[1..]
    ensures PusherOk(Pop(q), c[1..]) && NoneLost(Pop(q), c[1..])
  {
    hide Chain, Elements;
    assert c == [c[0]] + c[1..];
  }

  lemma TailOf(mem: map<nat, Cell>, c: seq<nat>, es: seq<int>)
    requires Chain(mem, c) && Elements(mem, c, es) && |c| > 1
    ensures Chain(mem, c[1..]) && Elements(mem, c[1..], es[1..]) && c[0] in mem && c[0] !in c[1..] && c[1..] != []
  {
    var t := c[1..];
    assert forall i :: 0 <= i < |t| ==> t[i] == c[i + 1];
  }

  lemma DeleteKeeps(q: Queue, c: seq<nat>)
    requires Inv(q, c) && q.pop.RDelete?
    ensures Inv(Pop(q), c)
  {
    var q' := Pop(q);
    assert Chain(q'.mem, c) && Elements(q'.mem, c, Arrived(q')[q'.popped..]);
    assert PusherOk(q', c) && NoneLost(q', c);
  }

  lemma LookKeeps(q: Queue, c: seq<nat>)
    requires Inv(q, c) && (q.pop.RLoop? || q.pop.RHead? || q.pop.RFound?)
    ensures Inv(Pop(q), c)
  {
    hide Elements;
    if |c| > 1 { assert q.mem[c[0]].next == c[1]; }
    assert NoneLost(Pop(q), c);
  }

  lemma PopKeeps(q: Queue, c: seq<nat>) returns (c': seq<nat>)
    requires Inv(q, c) && q.pop != RIdle
    ensures Inv(Pop(q), c')
  {
    hide Inv;
    c' := c;
    if q.pop.RSwap? {
      c' := MoveKeeps(q, c);
    } else if q.pop.RDelete? {
      DeleteKeeps(q, c);
    } else {
      LookKeeps(q, c);
    }
  }

  lemma StartKeeps(q: Queue, s: Step, c: seq<nat>)
    requires Inv(q, c) && Enabled(q, s) && s.StartPush?
    ensures Inv(Next(q, s), c)
  {
    var q' := Next(q, s);
    assert Arrived(q') == Arrived(q);
    assert Chain(q'.mem, c) && Elements(q'.mem, c, Arrived(q')[q'.popped..]);
    hide Chain, Elements;
    assert NoneLost(q', c);
  }

  lemma StepKeeps(q: Queue, s: Step, c: seq<nat>) returns (c': seq<nat>)
    requires Inv(q, c) && Enabled(q, s)
    ensures Inv(Next(q, s), c')
  {
    match s
    case StartPush(elem, address) =>
      c' := c;
      StartKeeps(q, s, c);
    case PushStep => c' := PushKeeps(q, c);
    case StartPop => c' := c;
    case PopStep => c' := PopKeeps(q, c);
  }

  // ---- all interleavings -----------------------------------------------------------------

  predicate Runs(q: Queue, steps: seq<Step>)
    decreases |steps|
  {
    steps == [] || (Enabled(q, steps[0]) && Runs(Next(q, steps[0]), steps[1..]))
  }

  function Run(q: Queue, steps: seq<Step>): Queue
    requires Runs(q, steps)
    decreases |steps|
  {
    if steps == [] then q else Run(Next(q, steps[0]), steps[1..])
  }

  lemma {:induction false} RunKeeps(q: Queue, steps: seq<Step>, c: seq<nat>) returns (c': seq<nat>)
    requires Inv(q, c) && Runs(q, steps)
    ensures Inv(Run(q, steps), c')
    decreases |steps|
  {
    if steps == [] {
      c' := c;
    } else {
      var c1 := StepKeeps(q, steps[0], c);
      c' := RunKeeps(Next(q, steps[0]), steps[1..], c1);
    }
  }

  /** In every interleaving no deleted node is accessed, the list behind `_head` holds exactly
      the elements pushed and not yet popped, in the order of the calls of push, without the one
      of a call that has not linked it in yet, and no node is lost. */
  lemma FirstInFirstOut(address: nat, steps: seq<Step>) returns (c: seq<nat>)
    requires address != 0 && Runs(Initial(address), steps)
    ensures var q := Run(Initial(address), steps);
      var arrived := if OnItsWay(q) then |q.pushed| - 1 else |q.pushed|;
      && !q.fault && q.popped <= arrived && Chain(q.mem, c) && c[0] == q.head
      && Elements(q.mem, c, q.pushed[q.popped..arrived]) && NoneLost(q, c)
  {
    c := EndOf(address, steps);
    var q := Run(Initial(address), steps);
    assert OnItsWay(q) ==> q.pushed[..|q.pushed| - 1][q.popped..] == q.pushed[q.popped..|q.pushed| - 1];
  }

  lemma EndOf(address: nat, steps: seq<Step>) returns (c: seq<nat>)
    requires address != 0 && Runs(Initial(address), steps)
    ensures Inv(Run(Initial(address), steps), c)
  {
    assert Inv(Initial(address), [address]);
    c := RunKeeps(Initial(address), steps, [address]);
  }

  /** In every interleaving pop gives up exactly when everything pushed before it looked, but for
      an element on its way, was popped. */
  lemma EmptyMeansEmpty(address: nat, steps: seq<Step>)
    requires address != 0 && Runs(Initial(address), steps) && Run(Initial(address), steps).pop.RHead?
    ensures var q := Run(Initial(address), steps);
      Pop(q).pop == RIdle <==> q.popped == |q.pushed| - if OnItsWay(q) then 1 else 0
  {
    var c := EndOf(address, steps);
    LooksRight(Run(Initial(address), steps), c);
    hide *;
  }

  lemma LooksRight(q: Queue, c: seq<nat>)
    requires Inv(q, c) && q.pop.RHead?
    ensures Pop(q).pop == RIdle <==> q.popped == |q.pushed| - if OnItsWay(q) then 1 else 0
  {
    FirstNode(q.mem, c, Arrived(q)[q.popped..]);
    hide Chain, Elements, PusherOk, NoneLost;
  }

  lemma FirstNode(mem: map<nat, Cell>, c: seq<nat>, es: seq<int>)
    requires Chain(mem, c) && Elements(mem, c, es)
    ensures c[0] in mem && (mem[c[0]].next == 0 <==> es == [])
  {
    if |c| > 1 {
      assert mem[c[0]].next == c[0 + 1];
      assert c[1] != 0;
    }
  }

  // ---- no step is in vain ----------------------------------------------------------------------

  function PushRank(p: Pusher): nat {
    match p case PNew(_) => 4 case PLoop(_, _) => 3 case PSwap(_, _, _) => 2 case PLinked(_, _) => 1 case PIdle => 0
  }

  function PopRank(p: Popper): nat {
    match p case RLoop => 5 case RHead(_) => 4 case RFound(_) => 3 case RSwap(_, _) => 2 case RDelete(_) => 1 case RIdle => 0
  }

  function Count(steps: seq<Step>, s: Step): nat {
    if steps == [] then 0 else (if steps[0] == s then 1 else 0) + Count(steps[1..], s)
  }

  /** Whatever the other thread does meanwhile, a call of push takes four steps, and a call of
      pop at most five: no compare-and-swap fails. */
  lemma CallsEnd(address: nat, steps: seq<Step>, more: seq<Step>)
    requires address != 0 && Runs(Initial(address), steps) && Runs(Run(Initial(address), steps), more)
    ensures var q := Run(Initial(address), steps); var q' := Run(q, more);
      && (q.push.PNew? && Count(more, PushStep) == 4 && (forall i :: 0 <= i < |more| ==> !more[i].StartPush?) ==>
            q'.push == PIdle && q'.pushed == q.pushed == Arrived(q'))
      && (q.pop == RLoop && Count(more, PopStep) == 5 ==> exists i :: 0 <= i <= |more| && Runs(q, more[..i]) && Run(q, more[..i]).pop == RIdle)
  {
    var q := Run(Initial(address), steps);
    var c := EndOf(address, steps);
    if forall i :: 0 <= i < |more| ==> !more[i].StartPush? { PushSteps(q, more, c); }
    if q.pop == RLoop && Count(more, PopStep) == 5 { var i := PopSteps(q, more, c); }
  }

  lemma {:induction false} PushSteps(q: Queue, steps: seq<Step>, c: seq<nat>)
    requires Inv(q, c) && Runs(q, steps) && forall i :: 0 <= i < |steps| ==> !steps[i].StartPush?
    ensures PushRank(Run(q, steps).push) + Count(steps, PushStep) == PushRank(q.push) && Run(q, steps).pushed == q.pushed
    decreases |steps|
  {
    hide Inv, Enabled, Next;
    if steps != [] {
      var c1 := StepKeeps(q, steps[0], c);
      PushRanked(q, steps[0], c);
      PushSteps(Next(q, steps[0]), steps[1..], c1);
    }
  }

  lemma PushRanked(q: Queue, s: Step, c: seq<nat>)
    requires Inv(q, c) && Enabled(q, s) && !s.StartPush?
    ensures PushRank(Next(q, s).push) + (if s == PushStep then 1 else 0) == PushRank(q.push) && Next(q, s).pushed == q.pushed
  {}

  lemma {:induction false} PopSteps(q: Queue, steps: seq<Step>, c: seq<nat>) returns (i: nat)
    requires Inv(q, c) && Runs(q, steps) && PopRank(q.pop) <= Count(steps, PopStep)
    ensures i <= |steps| && Runs(q, steps[..i]) && Run(q, steps[..i]).pop == RIdle
    decreases |steps|
  {
    hide Inv, Enabled, Next;
    i := 0;
    if q.pop != RIdle {
      PopRanked(q, c);
      PopWaits(q, steps, c);
      var c1 := StepKeeps(q, steps[0], c);
      i := PopSteps(Next(q, steps[0]), steps[1..], c1);
      assert steps[..i + 1][1..] == steps[1..][..i];
      i := i + 1;
    }
  }

  lemma PopRanked(q: Queue, c: seq<nat>)
    requires Inv(q, c) && q.pop != RIdle
    ensures PopRank(Pop(q).pop) < PopRank(q.pop)
  {}

  /** The other steps leave the popping thread where it is. */
  lemma PopWaits(q: Queue, steps: seq<Step>, c: seq<nat>)
    requires q.pop != RIdle && Runs(q, steps) && PopRank(q.pop) <= Count(steps, PopStep)
    ensures steps != [] && Enabled(q, steps[0])
    ensures Next(q, steps[0]).pop == if steps[0] == PopStep then Pop(q).pop else q.pop
  {}
}

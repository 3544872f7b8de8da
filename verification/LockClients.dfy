/** The lock clients of code/zookeeper/main.c over a server whose requests are atomic:
    create a numbered node, list the nodes, look for the node in front, delete the own node. */
module LockClients {
  /** Where a client is. A request is on its way (`Creating`, `Listing`, ...) or was carried
      out by the server and the answer has not been handled (`Created`, `Listed`, ...). */
  datatype Phase =
    | Creating
    | Created(seq_me: nat)
    | Listing(seq_me: nat)
    | Listed(seq_me: nat, children: seq<nat>)
    | Looking(seq_me: nat, seq_watch: nat)
    | Waiting(seq_me: nat, seq_watch: nat, found: bool)
    | Notified(seq_me: nat, seq_watch: nat)
    | Holding(seq_me: nat)
    | Deleted(seq_me: nat)
    | Quit

  /** The nodes below /lock/res1 and the next number; `granted` is the history of the
      numbers whose clients took the lock. */
  datatype System = System(clients: seq<Phase>, nodes: set<nat>, number: nat, granted: seq<nat>)

  /** The server carries out a request of a client, or the client handles an answer; a list
      of children may come in any order. */
  datatype Step =
    | Create(c: nat)
    | HandleCreated(c: nat)
    | List(c: nat, children: seq<nat>)
    | HandleListed(c: nat)
    | Look(c: nat)
    | HandleNotified(c: nat)
    | Delete(c: nat)
    | HandleDeleted(c: nat)

  function Initial(n: nat): System { System(seq(n, _ => Creating), {}, 0, []) }

  // ---- the scan of the children -------------------------------------------------------

  /** The largest number below `me`, or -1. */
  function InFront(children: seq<nat>, me: nat): (w: int)
    ensures w == -1 || (w in children && 0 <= w < me)
    ensures forall v :: v in children && v < me ==> v <= w
  {
    if children == [] then -1
    else
      var w := InFront(children[1..], me);
      assert forall v :: v in children <==> v == children[0] || v in children[1..];
      if children[0] < me && children[0] > w then children[0] else w
  }

  /** The loop of zk_get_children_lock_res1: `n` counts, `seqWatch` is the number to watch. */
  method Scan(children: seq<nat>, me: nat) returns (n: nat, seqWatch: int)
    ensures n == 0 <==> InFront(children, me) == -1
    ensures n > 0 ==> seqWatch == InFront(children, me)
  {
    n, seqWatch := 0, 0;
    assert children[..0] == [];
    for i := 0 to |children|
      invariant n == 0 ==> forall v :: v in children[..i] ==> v >= me
      invariant n > 0 ==> seqWatch in children[..i] && 0 <= seqWatch < me
      invariant n > 0 ==> forall v :: v in children[..i] && v < me ==> v <= seqWatch
    {
      var v := children[i];
      assert children[..i + 1] == children[..i] + [v];
      assert forall x :: x in children[..i + 1] <==> x in children[..i] || x == v;
      if v < me {
        if n == 0 {
          seqWatch := v;
          n := n + 1;
        } else if v > seqWatch {
          seqWatch := v;
          n := n + 1;
        }
      }
    }
    assert children[..|children|] == children;
  }

  // ---- the steps ------------------------------------------------------------------------

  predicate Enabled(s: System, a: Step) {
    && a.c < |s.clients|
    && var p := s.clients[a.c];
       match a
       case Create(_) => p.Creating?
       case HandleCreated(_) => p.Created?
       case List(_, children) => p.Listing? && multiset(children) == multiset(s.nodes)
       case HandleListed(_) => p.Listed?
       case Look(_) => p.Looking?
       case HandleNotified(_) => p.Notified?
       case Delete(_) => p.Holding?
       case HandleDeleted(_) => p.Deleted?
  }

  /** A deletion fires the watches on the deleted node. */
  function Fire(p: Phase, gone: nat): Phase {
    if p.Waiting? && p.found && p.seq_watch == gone then Notified(p.seq_me, p.seq_watch) else p
  }

  function Next(s: System, a: Step): System
    requires Enabled(s, a)
  {
    var p := s.clients[a.c];
    match a
    case Create(_) =>
      s.(clients := s.clients[a.c := Created(s.number)], nodes := s.nodes + {s.number}, number := s.number + 1)
    case HandleCreated(_) =>
      if p.seq_me > 0 then s.(clients := s.clients[a.c := Listing(p.seq_me)])
      else s.(clients := s.clients[a.c := Holding(p.seq_me)], granted := s.granted + [p.seq_me])
    case List(_, children) => s.(clients := s.clients[a.c := Listed(p.seq_me, children)])
    case HandleListed(_) =>
      var w := InFront(p.children, p.seq_me);
      if w == -1 then s.(clients := s.clients[a.c := Holding(p.seq_me)], granted := s.granted + [p.seq_me])
      else s.(clients := s.clients[a.c := Looking(p.seq_me, w)])
    case Look(_) => s.(clients := s.clients[a.c := Waiting(p.seq_me, p.seq_watch, p.seq_watch in s.nodes)])
    case HandleNotified(_) => s.(clients := s.clients[a.c := Listing(p.seq_me)])
    case Delete(_) =>
      var cs := s.clients[a.c := Deleted(p.seq_me)];
      s.(clients := seq(|cs|, i requires 0 <= i < |cs| => Fire(cs[i], p.seq_me)), nodes := s.nodes - {p.seq_me})
    case HandleDeleted(_) => s.(clients := s.clients[a.c := Quit])
  }

  // ---- the invariant -----------------------------------------------------------------------

  /** The node of the client exists. */
  predicate Live(p: Phase) { !p.Creating? && !p.Deleted? && !p.Quit? }

  /** The client waits for the node with this number, or is about to. */
  predicate Watches(p: Phase, w: nat) { (p.Looking? || p.Waiting? || p.Notified?) && p.seq_watch == w }

  ghost predicate ClientOk(s: System, p: Phase) {
    && (Live(p) ==> p.seq_me in s.nodes)
    && match p
       case Listed(me, children) => forall v :: v in s.nodes && v < me ==> v in children
       case Looking(me, w) => w < me && forall v :: v in s.nodes && v < me ==> v <= w
       case Waiting(me, w, found) =>
         && w < me && (forall v :: v in s.nodes && v < me ==> v <= w) && (found <==> w in s.nodes)
       case Notified(me, w) => w < me && w !in s.nodes && forall v :: v in s.nodes && v < me ==> v <= w
       case Holding(me) => forall v :: v in s.nodes ==> me <= v
       case _ => true
  }

  ghost predicate ClientsOk(s: System) {
    && (forall v :: v in s.nodes ==> v < s.number)
    && (forall i :: 0 <= i < |s.clients| ==> ClientOk(s, s.clients[i]))
    && (forall i, j :: 0 <= i < j < |s.clients| && Live(s.clients[i]) && Live(s.clients[j]) ==>
          s.clients[i].seq_me != s.clients[j].seq_me)
  }

  /** The numbers granted rise, none is above a number that still exists, and a client whose
      number was granted holds the lock or has deleted its node. */
  ghost predicate GrantsOk(s: System) {
    && (forall k, v :: 0 <= k < |s.granted| && v in s.nodes ==> s.granted[k] <= v)
    && (forall k :: 0 <= k < |s.granted| ==> s.granted[k] < s.number)
    && (forall j, k :: 0 <= j < k < |s.granted| ==> s.granted[j] < s.granted[k])
    && (forall k, i :: 0 <= k < |s.granted| && 0 <= i < |s.clients| && Live(s.clients[i]) && s.clients[i].seq_me == s.granted[k] ==>
          s.clients[i].Holding?)
  }

  ghost predicate Inv(s: System) { ClientsOk(s) && GrantsOk(s) }

  lemma CreateKeeps(s: System, a: Step)
    requires Inv(s) && Enabled(s, a) && a.Create?
    ensures Inv(Next(s, a))
  {
    var s' := Next(s, a);
    forall i | 0 <= i < |s'.clients| ensures ClientOk(s', s'.clients[i]) {
      assert ClientOk(s, s.clients[i]);
    }
  }

  /** A list of all nodes without one below the own number: the own number is the least. */
  lemma GrantKeeps(s: System, a: Step)
    requires Inv(s) && Enabled(s, a) && (a.HandleListed? || a.HandleCreated?)
    ensures Inv(Next(s, a))
  {
    GrantClients(s, a);
    GrantHistory(s, a);
  }

  lemma GrantClients(s: System, a: Step)
    requires ClientsOk(s) && Enabled(s, a) && (a.HandleListed? || a.HandleCreated?)
    ensures ClientsOk(Next(s, a))
  {
    var s' := Next(s, a);
    assert ClientOk(s, s.clients[a.c]);
    forall i | 0 <= i < |s'.clients| ensures ClientOk(s', s'.clients[i]) {
      assert ClientOk(s, s.clients[i]);
    }
  }

  lemma GrantHistory(s: System, a: Step)
    requires Inv(s) && Enabled(s, a) && (a.HandleListed? || a.HandleCreated?)
    ensures GrantsOk(Next(s, a))
  {
    var s', p := Next(s, a), s.clients[a.c];
    assert ClientOk(s, p);
    hide InFront, ClientOk;
    if s'.clients[a.c].Holding? {
      GrantIsLeast(s, a);
      forall k | 0 <= k < |s.granted| ensures s.granted[k] < p.seq_me {
        assert s.granted[k] <= p.seq_me;
      }
    }
  }

  lemma GrantIsLeast(s: System, a: Step)
    requires ClientsOk(s) && Enabled(s, a) && (a.HandleListed? || a.HandleCreated?) && Next(s, a).clients[a.c].Holding?
    ensures s.clients[a.c].seq_me in s.nodes && forall v :: v in s.nodes ==> s.clients[a.c].seq_me <= v
  {
    assert ClientOk(s, s.clients[a.c]);
  }

  lemma ListKeeps(s: System, a: Step)
    requires Inv(s) && Enabled(s, a) && (a.List? || a.Look? || a.HandleNotified? || a.HandleDeleted?)
    ensures Inv(Next(s, a))
  {
    ListClients(s, a);
    assert s.nodes == Next(s, a).nodes && s.granted == Next(s, a).granted;
  }

  lemma ListClients(s: System, a: Step)
    requires ClientsOk(s) && Enabled(s, a) && (a.List? || a.Look? || a.HandleNotified? || a.HandleDeleted?)
    ensures ClientsOk(Next(s, a))
  {
    var s', p := Next(s, a), s.clients[a.c];
    assert ClientOk(s, p);
    if a.List? {
      forall v | v in s.nodes ensures v in a.children { assert v in multiset(s.nodes) && v in multiset(a.children); }
    }
    forall i | 0 <= i < |s'.clients| ensures ClientOk(s', s'.clients[i]) {
      assert ClientOk(s, s.clients[i]);
    }
  }

  lemma DeleteKeeps(s: System, a: Step)
    requires Inv(s) && Enabled(s, a) && a.Delete?
    ensures Inv(Next(s, a))
  {
    var s', p := Next(s, a), s.clients[a.c];
    forall i | 0 <= i < |s'.clients| ensures ClientOk(s', s'.clients[i]) {
      assert ClientOk(s, s.clients[i]);
      if i != a.c && Live(s.clients[i]) { assert s.clients[i].seq_me != p.seq_me; }
    }
  }

  lemma StepKeeps(s: System, a: Step)
    requires Inv(s) && Enabled(s, a)
    ensures Inv(Next(s, a))
  {
    match a
    case Create(_) => CreateKeeps(s, a);
    case HandleCreated(_) => GrantKeeps(s, a);
    case HandleListed(_) => GrantKeeps(s, a);
    case Delete(_) => DeleteKeeps(s, a);
    case _ => ListKeeps(s, a);
  }

  // ---- all runs ----------------------------------------------------------------------------

  predicate Runs(s: System, steps: seq<Step>)
    decreases |steps|
  {
    steps == [] || (Enabled(s, steps[0]) && Runs(Next(s, steps[0]), steps[1..]))
  }

  function Run(s: System, steps: seq<Step>): System
    requires Runs(s, steps)
    decreases |steps|
  {
    if steps == [] then s else Run(Next(s, steps[0]), steps[1..])
  }

  lemma {:induction false} RunKeeps(s: System, steps: seq<Step>)
    requires Inv(s) && Runs(s, steps)
    ensures Inv(Run(s, steps))
    decreases |steps|
  {
    if steps != [] {
      StepKeeps(s, steps[0]);
      RunKeeps(Next(s, steps[0]), steps[1..]);
    }
  }

  /** In every run of any number of clients at most one holds the lock, it was granted in the
      order of the numbers, and no two live clients watch the same node. */
  lemma MutualExclusion(n: nat, steps: seq<Step>)
    requires Runs(Initial(n), steps)
    ensures var s := Run(Initial(n), steps);
      (&& (forall i, j :: 0 <= i < j < |s.clients| ==> !(s.clients[i].Holding? && s.clients[j].Holding?))
       && (forall j, k :: 0 <= j < k < |s.granted| ==> s.granted[j] < s.granted[k])
       && (forall i, j, w :: 0 <= i < j < |s.clients| && Watches(s.clients[i], w) ==> !Watches(s.clients[j], w)))
  {
    RunKeeps(Initial(n), steps);
    var s := Run(Initial(n), steps);
    forall i, j | 0 <= i < j < |s.clients| ensures !(s.clients[i].Holding? && s.clients[j].Holding?) {
      assert ClientOk(s, s.clients[i]) && ClientOk(s, s.clients[j]);
    }
    forall i, j, w | 0 <= i < j < |s.clients| && Watches(s.clients[i], w) ensures !Watches(s.clients[j], w) {
      assert ClientOk(s, s.clients[i]) && ClientOk(s, s.clients[j]);
    }
  }

  // ---- waking up -----------------------------------------------------------------------------

  /** The answer to the look at the node in front is not used: a client whose look came too
      late waits for a deletion that has happened already. */
  predicate Stuck(s: System, c: nat) { c < |s.clients| && s.clients[c].Waiting? && !s.clients[c].found }

  lemma {:induction false} StuckForGood(s: System, steps: seq<Step>, c: nat)
    requires Runs(s, steps) && Stuck(s, c)
    ensures Stuck(Run(s, steps), c) && Run(s, steps).clients[c] == s.clients[c]
    decreases |steps|
  {
    if steps != [] { StuckForGood(Next(s, steps[0]), steps[1..], c); }
  }

  /** A waiting client is woken if and only if the node in front of it was still there when it
      looked: then the node is there and its deletion notifies the client; otherwise no run
      ever moves the client. */
  lemma WokenIffFound(s: System, c: nat)
    requires Inv(s) && c < |s.clients| && s.clients[c].Waiting?
    ensures s.clients[c].found ==> s.clients[c].seq_watch in s.nodes
    ensures s.clients[c].found ==> forall a :: Enabled(s, a) && a.Delete? && s.clients[a.c].seq_me == s.clients[c].seq_watch ==>
      c < |Next(s, a).clients| && Next(s, a).clients[c].Notified?
    ensures !s.clients[c].found ==> forall steps :: Runs(s, steps) ==> Stuck(Run(s, steps), c)
  {
    assert ClientOk(s, s.clients[c]);
    if !s.clients[c].found {
      forall steps | Runs(s, steps) ensures Stuck(Run(s, steps), c) { StuckForGood(s, steps, c); }
    }
  }

  // ---- getting the lock ------------------------------------------------------------------------

  /** A client takes the lock when it handles its listing if and only if the listing shows no
      smaller number. */
  lemma GrantedIff(s: System, c: nat)
    requires Enabled(s, HandleListed(c))
    ensures var p := s.clients[c];
      Next(s, HandleListed(c)).clients[c] == Holding(p.seq_me) <==> forall v :: v in p.children ==> p.seq_me <= v
  {}

  predicate Holds(s: System, c: nat) { c < |s.clients| && s.clients[c].Holding? }

  /** The client has the least number that exists. */
  predicate Least(s: System, c: nat) {
    c < |s.clients| && Live(s.clients[c]) && forall v :: v in s.nodes ==> s.clients[c].seq_me <= v
  }

  /** The client looks at a smaller number, or is about to. */
  predicate LooksAhead(p: Phase) {
    p.Looking? || p.Waiting? || (p.Listed? && exists v :: v in p.children && v < p.seq_me)
  }

  /** The client with the least number gets the lock by its own requests alone, unless it already
      goes by an old listing; then no run ever gives it the lock. */
  lemma LeastGetsLock(s: System, c: nat) returns (steps: seq<Step>)
    requires Inv(s) && Least(s, c)
    ensures !LooksAhead(s.clients[c]) ==>
      && Runs(s, steps) && Holds(Run(s, steps), c)
      && forall i :: 0 <= i < |steps| ==> steps[i].c == c
    ensures LooksAhead(s.clients[c]) ==> forall more :: Runs(s, more) ==> !Holds(Run(s, more), c)
  {
    var p := s.clients[c];
    steps := [];
    assert ClientOk(s, p);
    if LooksAhead(p) {
      forall more | Runs(s, more) ensures !Holds(Run(s, more), c) { PassedOver(s, more, c); }
    } else if p.Created? {
      if p.seq_me == 0 {
        steps := [HandleCreated(c)];
        NothingToDo(Next(s, steps[0]));
      } else {
        var s1 := Next(s, HandleCreated(c));
        steps := Relist(s1, c);
        FirstStep(s, HandleCreated(c), s1, steps, Run(s1, steps));
        steps := [HandleCreated(c)] + steps;
      }
    } else if p.Listing? {
      steps := Relist(s, c);
    } else if p.Listed? {
      steps := [HandleListed(c)];
      NothingToDo(Next(s, steps[0]));
    } else if p.Notified? {
      var s1 := Next(s, HandleNotified(c));
      steps := Relist(s1, c);
      FirstStep(s, HandleNotified(c), s1, steps, Run(s1, steps));
      steps := [HandleNotified(c)] + steps;
    }
  }

  /** A new listing gives the lock to the least number. */
  lemma Relist(s: System, c: nat) returns (steps: seq<Step>)
    requires Least(s, c) && s.clients[c].Listing?
    ensures Runs(s, steps) && Holds(Run(s, steps), c)
    ensures |steps| == 2 && steps[0].c == c && steps[1].c == c
  {
    var children := InSomeOrder(s.nodes);
    forall v | v in children ensures v in s.nodes { assert v in multiset(children) && v in multiset(s.nodes); }
    var a, b := List(c, children), HandleListed(c);
    var s1 := Next(s, a);
    var s2 := Next(s1, b);
    assert Holds(s2, c);
    NothingToDo(s2);
    hide Leads, Enabled, Next;
    FirstStep(s1, b, s2, [], s2);
    FirstStep(s, a, s1, [b] + [], s2);
    steps := [a] + ([b] + []);
    LeadsThere(s, steps, s2);
  }

  lemma {:induction false} InSomeOrder(nodes: set<nat>) returns (list: seq<nat>)
    ensures multiset(list) == multiset(nodes)
    decreases |nodes|
  {
    list := [];
    if nodes != {} {
      var v :| v in nodes;
      var rest := InSomeOrder(nodes - {v});
      list := [v] + rest;
      assert nodes == (nodes - {v}) + {v};
    }
  }

  /** A client that goes by an old listing while no smaller number exists. */
  ghost predicate Doomed(s: System, c: nat) {
    && Inv(s) && c < |s.clients| && LooksAhead(s.clients[c]) && (forall v :: v in s.nodes ==> s.clients[c].seq_me <= v)
    && s.clients[c].seq_me in s.nodes
  }

  lemma {:induction false} PassedOver(s: System, steps: seq<Step>, c: nat)
    requires Doomed(s, c) && Runs(s, steps)
    ensures Doomed(Run(s, steps), c)
    decreases |steps|
  {
    if steps != [] {
      DoomedStep(s, steps[0], c);
      PassedOver(Next(s, steps[0]), steps[1..], c);
    }
  }

  lemma DoomedStep(s: System, a: Step, c: nat)
    requires Doomed(s, c) && Enabled(s, a)
    ensures Doomed(Next(s, a), c)
  {
    StepKeeps(s, a);
    var p, p' := s.clients[c], Next(s, a).clients[c];
    assert ClientOk(s, p);
    if a.c != c && a.Delete? { assert Live(s.clients[a.c]); }
  }

  /** `s'` is where the steps lead from `s`. */
  predicate Leads(s: System, steps: seq<Step>, s': System) { Runs(s, steps) && Run(s, steps) == s' }

  lemma FirstStep(s: System, a: Step, s1: System, rest: seq<Step>, s': System)
    requires Enabled(s, a) && Next(s, a) == s1 && Leads(s1, rest, s')
    ensures Leads(s, [a] + rest, s')
  {
    assert ([a] + rest)[1..] == rest;
  }

  /** Two clients: the second lists the first one's node, the first deletes it, then the
      second looks for it. It never gets the lock although it is alone. */
  lemma LostWakeup() returns (steps: seq<Step>)
    ensures Runs(Initial(2), steps) && Stuck(Run(Initial(2), steps), 1)
    ensures Run(Initial(2), steps).clients[0] == Quit && Run(Initial(2), steps).nodes == {1}
  {
    var s0 := System([Creating, Creating], {}, 0, []);
    var s4 := System([Created(0), Listed(1, [0, 1])], {0, 1}, 2, []);
    var s9 := System([Quit, Waiting(1, 0, false)], {1}, 2, [0]);
    assert Initial(2) == s0;
    steps := TooLate(s4, s9);
    steps := BothListed(s0, s4, steps, s9);
  }

  lemma BothListed(s0: System, s4: System, rest: seq<Step>, s': System) returns (steps: seq<Step>)
    requires s0 == System([Creating, Creating], {}, 0, [])
    requires s4 == System([Created(0), Listed(1, [0, 1])], {0, 1}, 2, []) && Leads(s4, rest, s')
    ensures Leads(s0, steps, s')
  {
    hide Leads;
    var s1 := System([Created(0), Creating], {0}, 1, []);
    var s2 := System([Created(0), Created(1)], {0, 1}, 2, []);
    var s3 := System([Created(0), Listing(1)], {0, 1}, 2, []);
    assert multiset([0, 1]) == multiset(s3.nodes);
    FirstStep(s3, List(1, [0, 1]), s4, rest, s');
    steps := [List(1, [0, 1])] + rest;
    FirstStep(s2, HandleCreated(1), s3, steps, s');
    steps := [HandleCreated(1)] + steps;
    FirstStep(s1, Create(1), s2, steps, s');
    steps := [Create(1)] + steps;
    FirstStep(s0, Create(0), s1, steps, s');
    steps := [Create(0)] + steps;
  }

  lemma TooLate(s4: System, s9: System) returns (steps: seq<Step>)
    requires s4 == System([Created(0), Listed(1, [0, 1])], {0, 1}, 2, [])
    requires s9 == System([Quit, Waiting(1, 0, false)], {1}, 2, [0])
    ensures Leads(s4, steps, s9)
  {
    var s5 := System([Holding(0), Listed(1, [0, 1])], {0, 1}, 2, [0]);
    var s6 := System([Deleted(0), Listed(1, [0, 1])], {1}, 2, [0]);
    var s7 := System([Deleted(0), Looking(1, 0)], {1}, 2, [0]);
    var s8 := System([Deleted(0), Waiting(1, 0, false)], {1}, 2, [0]);
    NothingToDo(s9);
    hide Leads;
    FirstStep(s8, HandleDeleted(0), s9, [], s9);
    steps := [HandleDeleted(0)] + [];
    FirstStep(s7, Look(1), s8, steps, s9);
    steps := [Look(1)] + steps;
    assert InFront([0, 1], 1) == 0 by { assert InFront([1], 1) == -1; assert [0, 1][1..] == [1]; }
    FirstStep(s6, HandleListed(1), s7, steps, s9);
    steps := [HandleListed(1)] + steps;
    DeleteFirst(s5, s6);
    FirstStep(s5, Delete(0), s6, steps, s9);
    steps := [Delete(0)] + steps;
    FirstStep(s4, HandleCreated(0), s5, steps, s9);
    steps := [HandleCreated(0)] + steps;
  }

  lemma LeadsThere(s: System, steps: seq<Step>, s': System)
    requires Leads(s, steps, s')
    ensures Runs(s, steps) && Run(s, steps) == s'
  {}

  lemma NothingToDo(s: System)
    ensures Leads(s, [], s)
  {}

  lemma DeleteFirst(s: System, s': System)
    requires s == System([Holding(0), Listed(1, [0, 1])], {0, 1}, 2, [0])
    requires s' == System([Deleted(0), Listed(1, [0, 1])], {1}, 2, [0])
    ensures Enabled(s, Delete(0)) && Next(s, Delete(0)) == s'
  {
    assert s.clients[0 := Deleted(0)] == s'.clients;
  }
}

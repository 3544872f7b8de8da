/** The Try, Catch, Finally, Throw and EndTry macros of code/exception/trycatch_finally.c:
    a stack of frames and a flag per Try give structured exceptions. */
module Exceptions {
  datatype Option<T> = None | Some(value: T)

  /** Programs built with the macros; exceptions are numbers. */
  datatype Stmt =
    | Act(out: string)
    | Throw(e: nat)
    | Block(body: seq<Stmt>)
    | Try(body1: Stmt, catches: seq<Clause>, fin: Option<Stmt>)

  datatype Clause = Clause(e: nat, handler: Stmt)

  datatype Event = Out(out: string) | Uncaught(e: nat)

  // ---- what a program means --------------------------------------------------------------

  /** What was done, and the exception that leaves the statement. */
  datatype Result = Result(trace: seq<Event>, raised: Option<nat>)

  /** Behind a statement that went through, the next one. */
  function Then(r: Result, next: Result): Result {
    if r.raised.Some? then r else Result(r.trace + next.trace, next.raised)
  }

  /** With no Try around it, an exception is reported and the program goes on. */
  function Raise(e: nat, covered: bool): Result {
    if covered then Result([], Some(e)) else Result([Uncaught(e)], None)
  }

  /** The first handler for the exception. */
  function Find(cs: seq<Clause>, e: nat): (i: nat)
    ensures i <= |cs| && (i < |cs| ==> cs[i].e == e) && forall j :: 0 <= j < i ==> cs[j].e != e
  {
    if cs == [] || cs[0].e == e then 0 else 1 + Find(cs[1..], e)
  }

  /** The meaning; `covered` says that a Try is around the statement. */
  function Meaning(s: Stmt, covered: bool): Result
    decreases s, 1, 0
  {
    match s
    case Act(out) => Result([Out(out)], None)
    case Throw(e) => Raise(e, covered)
    case Block(body) => Sequence(s, 0, covered)
    case Try(body, cs, fin) =>
      var b := Meaning(body, true);
      if b.raised.None? then Then(b, Final(s, covered))
      else
        var i := Find(cs, b.raised.value);
        var done := Result(b.trace, None);
        if i < |cs| then Then(done, Then(Meaning(cs[i].handler, covered), Final(s, covered)))
        else Then(done, Then(Final(s, covered), Raise(b.raised.value, covered)))
  }

  function Sequence(s: Stmt, k: nat, covered: bool): Result
    requires s.Block? && k <= |s.body|
    decreases s, 0, |s.body| - k
  {
    if k == |s.body| then Result([], None) else Then(Meaning(s.body[k], covered), Sequence(s, k + 1, covered))
  }

  function Final(s: Stmt, covered: bool): Result
    requires s.Try?
    decreases s, 0, 0
  {
    if s.fin.Some? then Meaning(s.fin.value, covered) else Result([], None)
  }

  // ---- the machine -------------------------------------------------------------------------

  class Frame {
    var exception: nat
    const prev: Frame?

    constructor (p: Frame?)
      ensures prev == p
    {
      prev := p;
      exception := 0;
    }
  }

  datatype Flag = ExceptionEntered | ExceptionThrown | ExceptionHandled | ExceptionFinalized

  /** Control goes on behind the statement, or jumps to the setjmp of a frame. */
  datatype Signal = Done | Jump(target: Frame)

  class Thread {
    /** The top of the frame stack. */
    var top: Frame?
    var trace: seq<Event>

    constructor ()
      ensures top == null && trace == []
    {
      top, trace := null, [];
    }

    /** How a statement ends: behind it with the stack it found, or at the frame that was on
        top, which then is off the stack. */
    static ghost predicate Exit(r: Result, sig: Signal, found: Frame?, left: Frame?) {
      match r.raised
      case None => sig == Done && left == found
      case Some(e) => found != null && sig == Jump(found) && left == found.prev
    }

    /** ntyExceptionThrow. */
    method DoThrow(e: nat) returns (sig: Signal)
      modifies this, (if top == null then {} else {top})`exception
      ensures var r := Raise(e, old(top) != null); trace == old(trace) + r.trace && Exit(r, sig, old(top), top)
      ensures old(top) != null ==> old(top).exception == e
    {
      var frame := top;
      if frame != null {
        frame.exception := e;
        top := frame.prev;
        sig := Jump(frame);
      } else {
        trace := trace + [Uncaught(e)];
        sig := Done;
      }
    }

    /** Runs a program. On a normal exit the frame stack is as it was; an exception goes to
        the frame that was on top. */
    method Run(s: Stmt) returns (sig: Signal)
      modifies this, (if top == null then {} else {top})`exception
      ensures var r := Meaning(s, old(top) != null);
        (&& trace == old(trace) + r.trace && Exit(r, sig, old(top), top)
         && (r.raised.Some? ==> old(top).exception == r.raised.value))
      decreases s, 1, 0
    {
      match s
      case Act(out) =>
        trace := trace + [Out(out)];
        sig := Done;
      case Throw(e) => sig := DoThrow(e);
      case Block(body) => sig := RunBlock(s);
      case Try(body, cs, fin) => sig := RunTry(s);
    }

    method RunBlock(s: Stmt) returns (sig: Signal)
      requires s.Block?
      modifies this, (if top == null then {} else {top})`exception
      ensures var r := Sequence(s, 0, old(top) != null);
        (&& trace == old(trace) + r.trace && Exit(r, sig, old(top), top)
         && (r.raised.Some? ==> old(top).exception == r.raised.value))
      decreases s, 0, 0
    {
      hide Meaning;
      ghost var covered, done := top != null, [];
      sig := Done;
      for i := 0 to |s.body|
        invariant top == old(top) && sig == Done && trace == old(trace) + done
        invariant Then(Result(done, None), Sequence(s, i, covered)) == Sequence(s, 0, covered)
      {
        ghost var r, rest := Meaning(s.body[i], covered), Sequence(s, i + 1, covered);
        sig := Run(s.body[i]);
        Regroup(done, r.trace, rest.trace);
        Regroup(old(trace), done, r.trace);
        if sig != Done {
          return;
        }
        done := done + r.trace;
      }
      assert done + [] == done;
    }

    /** The Try part: a frame on the stack around the body. */
    method RunBody(s: Stmt) returns (sig: Signal, frame: Frame, flag: Flag)
      requires s.Try?
      modifies this
      ensures var b := Meaning(s.body1, true);
        (&& fresh(frame) && top == old(top) && trace == old(trace) + b.trace
         && flag == (if b.raised.None? then ExceptionEntered else ExceptionThrown)
         && (b.raised.Some? ==> frame.exception == b.raised.value))
      ensures sig == Done || sig == Jump(frame)
      decreases s, 0, 0
    {
      frame := new Frame(top);
      top := frame;
      flag := ExceptionEntered;
      sig := Run(s.body1);
      if sig == Jump(frame) {
        flag := ExceptionThrown;
      } else {
        assert sig == Done;
      }
      if flag == ExceptionEntered {
        top := top.prev;
      }
    }

    /** The chain of Catches. */
    method SelectCatch(cs: seq<Clause>, e: nat) returns (i: nat)
      ensures i == Find(cs, e)
    {
      i := 0;
      while i < |cs| && e != cs[i].e
        invariant i <= |cs| && forall j :: 0 <= j < i ==> cs[j].e != e
      {
        i := i + 1;
      }
    }

    /** Finally and EndTry. */
    method RunEnd(s: Stmt, flag0: Flag, frame: Frame) returns (sig: Signal)
      requires s.Try? && frame != top
      modifies this, (if top == null then {} else {top})`exception
      ensures var covered := old(top) != null;
        var r := if flag0 == ExceptionThrown then Then(Final(s, covered), Raise(frame.exception, covered)) else Final(s, covered);
        (&& trace == old(trace) + r.trace && Exit(r, sig, old(top), top)
         && (r.raised.Some? ==> old(top).exception == r.raised.value))
      decreases s, 0, 1
    {
      hide Meaning;
      var flag := flag0;
      sig := Done;
      ghost var t := trace;
      if s.fin.Some? {
        if flag == ExceptionEntered {
          flag := ExceptionFinalized;
        }
        sig := Run(s.fin.value);
        if sig.Jump? {
          return;
        }
      }
      ghost var f := Final(s, top != null);
      assert trace == t + f.trace;
      if flag == ExceptionThrown {
        Regroup(t, f.trace, Raise(frame.exception, top != null).trace);
        sig := DoThrow(frame.exception);
      }
    }

    /** The expansion of Try, the Catches, Finally and EndTry. */
    method RunTry(s: Stmt) returns (sig: Signal)
      requires s.Try?
      modifies this, (if top == null then {} else {top})`exception
      ensures var r := Meaning(s, old(top) != null);
        (&& trace == old(trace) + r.trace && Exit(r, sig, old(top), top)
         && (r.raised.Some? ==> old(top).exception == r.raised.value))
      decreases s, 0, 2
    {
      TryMeaning(s, top != null);
      hide Meaning;
      ghost var covered, t := top != null, trace;
      ghost var b, f := Meaning(s.body1, true), Final(s, covered);
      var frame, flag;
      sig, frame, flag := RunBody(s);
      if flag == ExceptionThrown {
        var i := SelectCatch(s.catches, frame.exception);
        if i < |s.catches| {
          flag := ExceptionHandled;
          ghost var h := Meaning(s.catches[i].handler, covered);
          sig := Run(s.catches[i].handler);
          Regroup(t, b.trace, h.trace);
          if sig.Jump? {
            return;
          }
          Regroup(t, b.trace + h.trace, f.trace);
          Regroup(b.trace, h.trace, f.trace);
          sig := RunEnd(s, flag, frame);
          return;
        }
      }
      ghost var rest := if flag == ExceptionThrown then Then(f, Raise(frame.exception, covered)) else f;
      Regroup(t, b.trace, rest.trace);
      sig := RunEnd(s, flag, frame);
    }
  }

  lemma Regroup(a: seq<Event>, b: seq<Event>, c: seq<Event>)
    ensures (a + b) + c == a + (b + c)
  {}

  lemma TryMeaning(s: Stmt, covered: bool)
    requires s.Try?
    ensures var b, f := Meaning(s.body1, true), Final(s, covered);
      Meaning(s, covered) ==
        if b.raised.None? then Then(b, f)
        else
          var i := Find(s.catches, b.raised.value);
          var done := Result(b.trace, None);
          if i < |s.catches| then Then(done, Then(Meaning(s.catches[i].handler, covered), f))
          else Then(done, Then(f, Raise(b.raised.value, covered)))
  {}

  // ---- consequences --------------------------------------------------------------------------

  /** An exception leaves a statement only if a Try is around it. */
  lemma {:induction false} NothingLeavesTheProgram(s: Stmt)
    ensures Meaning(s, false).raised.None?
    decreases s, 1
  {
    match s
    case Block(body) => NothingLeavesBlock(s, 0);
    case Try(body, cs, fin) =>
      TryMeaning(s, false);
      if fin.Some? { NothingLeavesTheProgram(fin.value); }
      var b := Meaning(body, true);
      if b.raised.Some? {
        var i := Find(cs, b.raised.value);
        if i < |cs| { NothingLeavesTheProgram(cs[i].handler); }
      }
    case _ =>
  }

  lemma {:induction false} NothingLeavesBlock(s: Stmt, k: nat)
    requires s.Block? && k <= |s.body|
    ensures Sequence(s, k, false).raised.None?
    decreases s, 0, |s.body| - k
  {
    if k < |s.body| {
      NothingLeavesTheProgram(s.body[k]);
      NothingLeavesBlock(s, k + 1);
    }
  }

  /** The marker is not written by the statement. */
  predicate Silent(s: Stmt, m: string)
    decreases s
  {
    match s
    case Act(out) => out != m
    case Throw(_) => true
    case Block(body) => forall i :: 0 <= i < |body| ==> Silent(body[i], m)
    case Try(body, cs, fin) =>
      Silent(body, m) && (forall i :: 0 <= i < |cs| ==> Silent(cs[i].handler, m)) && (fin.Some? ==> Silent(fin.value, m))
  }

  lemma {:induction false} SilentTrace(s: Stmt, m: string, covered: bool)
    requires Silent(s, m)
    ensures Out(m) !in Meaning(s, covered).trace
    decreases s, 1
  {
    match s
    case Block(body) => SilentBlock(s, 0, m, covered);
    case Try(body, cs, fin) =>
      TryMeaning(s, covered);
      SilentTrace(body, m, true);
      if fin.Some? { SilentTrace(fin.value, m, covered); }
      var b := Meaning(body, true);
      if b.raised.Some? {
        var i := Find(cs, b.raised.value);
        if i < |cs| { SilentTrace(cs[i].handler, m, covered); }
      }
    case _ =>
  }

  lemma {:induction false} SilentBlock(s: Stmt, k: nat, m: string, covered: bool)
    requires s.Block? && k <= |s.body| && Silent(s, m)
    ensures Out(m) !in Sequence(s, k, covered).trace
    decreases s, 0, |s.body| - k
  {
    if k < |s.body| {
      SilentTrace(s.body[k], m, covered);
      SilentBlock(s, k + 1, m, covered);
    }
  }

  /** An exception of the body finds a handler, and the handler itself ends with one. */
  predicate HandlerRaises(body: Stmt, cs: seq<Clause>, covered: bool) {
    var b := Meaning(body, true);
    b.raised.Some? && Find(cs, b.raised.value) < |cs| && Meaning(cs[Find(cs, b.raised.value)].handler, covered).raised.Some?
  }

  /** Finally does not run when a handler ends with an exception, and runs in all other cases. */
  lemma FinallyRunsUnless(body: Stmt, cs: seq<Clause>, m: string, covered: bool)
    requires Silent(Try(body, cs, None), m)
    ensures Out(m) in Meaning(Try(body, cs, Some(Act(m))), covered).trace <==> !HandlerRaises(body, cs, covered)
  {
    var s := Try(body, cs, Some(Act(m)));
    TryMeaning(s, covered);
    SilentTrace(body, m, true);
    var b := Meaning(body, true);
    assert Final(s, covered) == Result([Out(m)], None);
    if b.raised.Some? {
      var i := Find(cs, b.raised.value);
      if i < |cs| { SilentTrace(cs[i].handler, m, covered); }
    }
  }

  /** A handler that throws: the Finally of its own Try is left out. */
  lemma FinallySkipped(m: string)
    ensures Meaning(Try(Throw(1), [Clause(1, Throw(2))], Some(Act(m))), true) == Result([], Some(2))
  {
    TryMeaning(Try(Throw(1), [Clause(1, Throw(2))], Some(Act(m))), true);
  }
}

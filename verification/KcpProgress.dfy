/** From every state of every run, what was accepted can still be received: lost data is sent
    again, what arrives is acknowledged, and closed windows are asked for and opened. */
module KcpProgress {
  import opened Words
  import opened KcpTypes
  import opened KcpSpec
  import opened KcpDirection
  import opened KcpMessages
  import opened KcpNetwork
  import opened KcpDelivery
  import opened KcpTimers
  import opened KcpReply

  // ---- receivers that are settled ------------------------------------------------------------

  /** What is next in order is not waiting in rcv_buf, unless rcv_queue is full. */
  ghost predicate Settled(r: Receiver) { r.buf == [] || r.buf[0].sn != r.nxt || |r.queue| >= r.wnd }

  lemma {:induction false} MoveReadySettled(r: Receiver)
    ensures Settled(MoveReady(false, r))
    decreases |r.buf|
  {
    if r.buf != [] && r.buf[0].sn == r.nxt && |r.queue| < r.wnd {
      MoveReadySettled(r.(buf := r.buf[1..], queue := r.queue + [r.buf[0].body], nxt := r.nxt + 1));
    }
  }

  lemma ReceiverInputSettled(r: Receiver, s: Seg)
    requires Settled(r)
    ensures Settled(ReceiverInput(false, r, s))
  {
    MoveReadySettled(r.(acks := r.acks + [Ack(s.sn, s.ts)], buf := InsertSeg(false, r.buf, s)));
    hide MoveReady, InsertSeg;
  }

  lemma {:induction false} InputSegsSettled(k: Kcp, m: MaxAck, segs: seq<Seg>)
    requires Settled(k.rcv)
    ensures Settled(InputSegs(false, k, m, segs).0.rcv)
    decreases |segs|
  {
    hide ReceiverInput, Settled, SenderInput, Estimate, S32;
    if segs != [] {
      ReceiverInputSettled(k.rcv, segs[0]);
      InputSegsSettled(InputSeg(false, k, segs[0]), Later(false, m, segs[0]), segs[1..]);
    }
  }

  // ---- one sender ----------------------------------------------------------------------------

  /** There is a time at which a flush is due and a timer has run out. */
  lemma Moment(k: Kcp, timer: u32) returns (now: u32)
    ensures FlushDue(k, now) && S32(now - timer) >= 0
  {
    now := timer;
    if !FlushDue(k, now) {
      now := U32(timer + 20000);
      Turns(timer - k.tsFlush);
      var q, d := (timer + 20000) / MOD, S32(timer - k.tsFlush);
      var p := (timer - k.tsFlush - d) / MOD;
      assert timer + 20000 == q * MOD + now;
      SignedIs(now - timer, 20000, -q);
      SignedIs(now - k.tsFlush, d + 20000, p - q);
    }
  }

  lemma {:induction false} QuestionHeard(k: Kcp, m: MaxAck, segs: seq<Seg>, p: nat)
    requires k.askTell || (p < |segs| && segs[p].cmd == CMD_WASK)
    ensures InputSegs(false, k, m, segs).0.askTell
    decreases |segs|
  {
    hide ReceiverInput, SenderInput, Estimate, S32;
    if segs != [] {
      QuestionHeard(InputSeg(false, k, segs[0]), Later(false, m, segs[0]), segs[1..], if p > 0 then p - 1 else 0);
    }
  }

  // ---- walks of the network ------------------------------------------------------------------

  /** Windows with room for a whole message, and that the 16-bit field of a segment can hold. */
  predicate Usable(p: Peer) { p.k.sndWnd > 0 && WND_RCV <= p.k.rcv.wnd < 0x1_0000 }

  ghost predicate Good(n: Net) {
    Inv(n) && Settled(n.a.k.rcv) && Settled(n.b.k.rcv) && Usable(n.a) && Usable(n.b)
  }

  ghost predicate Walk(ns: seq<Net>) {
    ns != [] && forall i :: 0 <= i < |ns| - 1 ==> Step(ns[i], ns[i + 1])
  }

  /** Neither application sends anything new, and what was received stays received. */
  predicate Quiet(n: Net, n': Net) {
    && n'.a.accepted == n.a.accepted && n'.b.accepted == n.b.accepted
    && n.a.received <= n'.a.received && n.b.received <= n'.b.received
    && n'.a.k.mss == n.a.k.mss && n'.b.k.mss == n.b.k.mss && n'.a.k.rcv.wnd == n.a.k.rcv.wnd && n'.b.k.rcv.wnd == n.b.k.rcv.wnd
  }

  ghost predicate Connects(ns: seq<Net>, n: Net, n': Net) { Walk(ns) && ns[0] == n && ns[|ns| - 1] == n' }

  /** `n'` can come after `n` without new messages. */
  ghost predicate Reach(n: Net, n': Net) {
    Good(n') && Quiet(n, n') && exists ns :: Connects(ns, n, n')
  }

  lemma Stay(n: Net)
    requires Good(n)
    ensures Reach(n, n)
  {
    assert Connects([n], n, n);
  }

  lemma Join2(n: Net, n1: Net, n2: Net)
    requires Reach(n, n1) && Reach(n1, n2)
    ensures Reach(n, n2)
  {
    hide Good, Step;
    var s :| Connects(s, n, n1);
    var t :| Connects(t, n1, n2);
    var ns := s + t[1..];
    forall i | 0 <= i < |ns| - 1 ensures Step(ns[i], ns[i + 1]) {
      if i < |s| - 1 {
        assert Step(s[i], s[i + 1]);
      } else {
        assert ns[i] == t[i - |s| + 1] && ns[i + 1] == t[i - |s| + 2];
      }
    }
    assert Connects(ns, n, n2);
  }

  /** What a step leaves alone. */
  predicate Frame(p: Peer, p': Peer, e: Event) {
    && p'.k.mss == p.k.mss && p'.k.sndWnd == p.k.sndWnd && p'.k.rcv.wnd == p.k.rcv.wnd
    && (e.Accept? || p'.accepted == p.accepted) && p.received <= p'.received && p.out <= p'.out
  }

  lemma FlushReceiver(w: bool, k: Kcp)
    ensures Flush(w, k).0.rcv == if k.updated then k.rcv.(acks := []) else k.rcv
  {
    hide Filled, VisitAll, CountWhy, HitsDeadLink, Reduced, ProbeBackoff, Pack, FlushSegs, SendWindow, U32, Diff;
  }

  lemma ClockIs(p: Peer, now: u32)
    requires p.k.mss > 0
    ensures Frame(p, Act(p, Clock(now)), Clock(now))
    ensures var r := Act(p, Clock(now)).k.rcv; r == p.k.rcv || r == p.k.rcv.(acks := [])
  {
    DueIff(p.k, now);
    UpdateKeeps(false, p.k, now);
    FlushReceiver(false, Tick(p.k, now).0);
    hide Flush, Tick;
  }

  lemma TakeIs(p: Peer, len: int)
    requires p.k.mss > 0 && Settled(p.k.rcv)
    ensures Frame(p, Act(p, Take(len)), Take(len)) && Settled(Act(p, Take(len)).k.rcv)
  {
    var r1 := p.k.rcv.(queue := p.k.rcv.queue[|FirstMessage(p.k.rcv.queue)|..]);
    MoveReadySettled(p.k.rcv);
    MoveReadySettled(r1);
    MoveReadyFrame(false, p.k.rcv);
    MoveReadyFrame(false, r1);
    hide MoveReady, FirstMessage, Join, PeekSize, Settled;
  }

  lemma DeliverIs(p: Peer, segs: seq<Seg>)
    requires p.k.mss > 0 && Settled(p.k.rcv)
    ensures Frame(p, Act(p, Deliver(segs)), Deliver(segs)) && Settled(Act(p, Deliver(segs)).k.rcv)
  {
    InputSegsSettled(p.k, NoAck, segs);
    InputSegsWnd(p.k, NoAck, segs);
    InputReceiver(false, p.k, segs, 0);
    InputKeeps(false, p.k, segs, 0);
    hide Input, InputSegs;
  }

  lemma ActIs(p: Peer, e: Event)
    requires p.k.mss > 0 && Settled(p.k.rcv)
    ensures Frame(p, Act(p, e), e) && Settled(Act(p, e).k.rcv)
  {
    match e
    case Accept(msg) => hide Fragment;
    case Take(len) => TakeIs(p, len);
    case Clock(now) => ClockIs(p, now);
    case Deliver(segs) => DeliverIs(p, segs);
  }

  lemma OneStep(n: Net, n': Net)
    requires Step(n, n') && Good(n') && Quiet(n, n')
    ensures Reach(n, n')
  {
    assert Connects([n, n'], n, n') by { hide Step, Good; }
  }

  /** One step of the first peer, and of the second. */
  lemma StepA(n: Net, e: Event) returns (n': Net)
    requires Good(n) && Enabled(n.a, n.b, e) && !e.Accept?
    ensures n.a.k.mss > 0 && n' == n.(a := Act(n.a, e)) && Reach(n, n') && Frame(n.a, n'.a, e)
  {
    Positive(n);
    hide Act, Channel, Enabled, Settled, Reach;
    StepKeeps(n.a, n.b, e);
    ActIs(n.a, e);
    n' := n.(a := Act(n.a, e));
    assert Step(n, n');
    OneStep(n, n');
  }

  lemma StepB(n: Net, e: Event) returns (n': Net)
    requires Good(n) && Enabled(n.b, n.a, e) && !e.Accept?
    ensures n.b.k.mss > 0 && n' == n.(b := Act(n.b, e)) && Reach(n, n') && Frame(n.b, n'.b, e)
  {
    Positive(n);
    hide Act, Channel, Enabled, Settled, Reach;
    StepKeeps(n.b, n.a, e);
    ActIs(n.b, e);
    n' := n.(b := Act(n.b, e));
    assert Step(n, n');
    OneStep(n, n');
  }

  // ---- what gets through ---------------------------------------------------------------------

  /** A number the receiver waits for is still with the sender. */
  lemma StillHeld(n: Net) returns (i: nat)
    requires Good(n) && n.b.k.rcv.nxt < n.a.k.snd.nxt && |n.b.k.rcv.queue| < n.b.k.rcv.wnd
    ensures i < |n.a.k.snd.buf| && n.a.k.snd.buf[i].seg.sn == n.b.k.rcv.nxt && n.a.k.snd.buf[i].seg.cmd == CMD_PUSH
  {
    var r := n.b.k.rcv;
    if r.nxt in RcvSns(r.buf) {
      var h := RcvSnsWitness(r.buf, r.nxt);
      assert false;
    }
    i := HeldBySender(n, r.nxt);
  }

  /** It gets through when the entry is delivered. */
  lemma Arrives(n: Net, d: seq<Seg>, p: nat)
    requires Good(n) && d in n.a.out && p < |d| && d[p].cmd == CMD_PUSH && d[p].sn == n.b.k.rcv.nxt
    requires |n.b.k.rcv.queue| < n.b.k.rcv.wnd
    ensures Input(false, n.b.k, d, 0).rcv.nxt > n.b.k.rcv.nxt
  {
    var log := FragAll(n.a.k.mss, n.a.accepted);
    var sent, taken := log[..n.a.k.snd.nxt], Start(n.a.k.mss, n.a.accepted, |n.b.received|);
    assert AllDataOk(d, n.a.k.snd.nxt, log);
    DataWithin(d, n.a.k.snd.nxt, log);
    hide Channel, SenderOk, NoLoss, OutOk, Input, Settled, FragAll;
    NextArrivesWithin(n.b.k, NoAck, d, p, n.b.k.rcv.nxt, sent, taken);
    InputReceiver(false, n.b.k, d, 0);
  }

  /** The next number gets through if it was sent. */
  lemma PushThrough(n: Net) returns (n': Net)
    requires Good(n) && n.b.k.rcv.nxt < n.a.k.snd.nxt && |n.b.k.rcv.queue| < n.b.k.rcv.wnd
    ensures Reach(n, n') && n'.b.k.rcv.nxt > n.b.k.rcv.nxt && n'.b.received == n.b.received
  {
    var i := StillHeld(n);
    hide *;
    var now := Moment(n.a.k, n.a.k.snd.buf[i].resendts);
    var j, p := SendsEntry(n.a.k, now, i);
    var d := Update(false, n.a.k, now).1[j];
    var n1 := ClockA(n, now, j);
    n' := DeliverB(n1, d);
    Arrives(n1, d, p);
    Join2(n, n1, n');
  }

  lemma ClockA(n: Net, now: u32, j: nat) returns (n': Net)
    requires Good(n)
    ensures Reach(n, n') && Good(n') && n'.b == n.b && n'.a.k == Update(false, n.a.k, now).0 && n'.a.received == n.a.received
    ensures j < |Update(false, n.a.k, now).1| ==> Update(false, n.a.k, now).1[j] in n'.a.out
  {
    n' := StepA(n, Clock(now));
    hide Good, Update;
  }

  lemma ClockB(n: Net, now: u32, j: nat) returns (n': Net)
    requires Good(n)
    ensures Reach(n, n') && Good(n') && n'.a == n.a && n'.b.k == Update(false, n.b.k, now).0 && n'.b.received == n.b.received
    ensures j < |Update(false, n.b.k, now).1| ==> Update(false, n.b.k, now).1[j] in n'.b.out
  {
    n' := StepB(n, Clock(now));
    hide Good, Update;
  }

  lemma DeliverA(n: Net, d: seq<Seg>) returns (n': Net)
    requires Good(n) && d in n.b.out
    ensures Reach(n, n') && Good(n') && n'.b == n.b && n'.a == n.a.(k := Input(false, n.a.k, d, 0))
  {
    n' := StepA(n, Deliver(d));
    hide Good, Input;
  }

  lemma DeliverB(n: Net, d: seq<Seg>) returns (n': Net)
    requires Good(n) && d in n.a.out
    ensures Reach(n, n') && Good(n') && n'.a == n.a && n'.b == n.b.(k := Input(false, n.b.k, d, 0))
  {
    n' := StepB(n, Deliver(d));
    hide Good, Input;
  }

  // ---- what comes back -----------------------------------------------------------------------

  /** Everything sent was received and the receiver has room. */
  ghost predicate Waiting(n: Net) { n.b.k.rcv.nxt == n.a.k.snd.nxt && |n.b.k.rcv.queue| < n.b.k.rcv.wnd }

  /** The receiver has something to tell. */
  predicate Tells(k: Kcp) { k.rcv.acks != [] || k.askTell }

  /** Its next flush then makes a datagram. */
  lemma TellsSomething(k: Kcp, now: u32) returns (j: nat)
    requires Tells(k) && FlushDue(k, now)
    ensures var ds := Update(false, k, now).1; j < |ds| && ds[j] != []
    ensures forall p :: 0 <= p < |Update(false, k, now).1[j]| ==> Stamped(k, Update(false, k, now).1[j][p])
  {
    DueIff(k, now);
    var k1 := Tick(k, now).0;
    var ds := Flush(false, k1).1;
    hide Flush, Filled, Tick;
    FlushSends(false, k1);
    var s := if k.rcv.acks != [] then Command(k1, CMD_ACK, k.rcv.acks[0])
             else Command(k1, CMD_WINS, Ack(0, 0));
    j := InDatagram(ds, s);
    forall p | 0 <= p < |ds[j]| ensures Stamped(k, ds[j][p]) { FlushStamped(false, k1, j, ds[j][p]); }
  }

  /** What it tells empties the sender's snd_buf and opens the sender's window. */
  lemma Feedback(n: Net) returns (n': Net)
    requires Good(n) && Waiting(n) && Tells(n.b.k)
    ensures Reach(n, n') && Waiting(n') && n'.b.received == n.b.received && n'.a.k.snd.nxt == n.a.k.snd.nxt
    ensures n'.a.k.snd.buf == [] && n'.a.k.rmtWnd > 0
  {
    var now := Moment(n.b.k, 0);
    var j := TellsSomething(n.b.k, now);
    var d := Update(false, n.b.k, now).1[j];
    UpdateReceiver(n.b.k, now);
    var room := Room(n.b.k.rcv);
    assert room > 0 by { HasRoom(n); }
    var n1 := ClockB(n, now, j);
    n' := DeliverA(n1, d);
    TakesFeedback(n1, d, room);
    Join2(n, n1, n');
  }

  lemma HasRoom(n: Net)
    requires Good(n) && |n.b.k.rcv.queue| < n.b.k.rcv.wnd
    ensures Room(n.b.k.rcv) > 0
  {}

  lemma UpdateReceiver(k: Kcp, now: u32)
    ensures var r := Update(false, k, now).0.rcv; r == k.rcv || r == k.rcv.(acks := [])
  {
    DueIff(k, now);
    FlushReceiver(false, Tick(k, now).0);
    hide Flush, Tick;
  }

  lemma TakesFeedback(n: Net, d: seq<Seg>, room: u16)
    requires Good(n) && d in n.b.out && d != [] && forall p :: 0 <= p < |d| ==> d[p].una == n.a.k.snd.nxt && d[p].wnd == room
    ensures var k' := Input(false, n.a.k, d, 0); k'.snd.buf == [] && k'.rmtWnd == room && k'.snd.nxt == n.a.k.snd.nxt
  {
    EmptiesSndBuf(n.a.k, d, n.a.k.snd.nxt, room, FragAll(n.a.k.mss, n.a.accepted));
    SameNext(n.a.k, d);
    hide Input;
  }

  // ---- how the sender makes the receiver tell ------------------------------------------------

  /** rcv_queue holds what was received and not yet read; nothing more than what was sent. */
  lemma QueueIs(n: Net)
    requires Inv(n)
    ensures |n.b.received| <= |n.a.accepted| && Sendable(n.a.k.mss, n.a.accepted)
    ensures |n.b.k.rcv.queue| == n.b.k.rcv.nxt - Start(n.a.k.mss, n.a.accepted, |n.b.received|)
    ensures n.b.k.rcv.nxt <= n.a.k.snd.nxt <= |FragAll(n.a.k.mss, n.a.accepted)|
  {}

  /** A receiver that has everything gets nothing new by a datagram. */
  lemma StillWaiting(n: Net, d: seq<Seg>, n': Net)
    requires Good(n) && Waiting(n) && d in n.a.out && Good(n') && n' == n.(b := n.b.(k := Input(false, n.b.k, d, 0)))
    ensures Waiting(n')
  {
    QueueIs(n);
    QueueIs(n');
    InputSegsWnd(n.b.k, NoAck, d);
    InputReceiver(false, n.b.k, d, 0);
    RisesOnly(n, d);
    hide Good, Input, InputSegs, Start, FragAll;
  }

  lemma RisesOnly(n: Net, d: seq<Seg>)
    requires Good(n) && d in n.a.out
    ensures Input(false, n.b.k, d, 0).rcv.nxt >= n.b.k.rcv.nxt
  {
    RisesWithin(n, d, |d|);
    assert d[..|d|] == d;
    InputReceiver(false, n.b.k, d, 0);
    hide Good, Input, InputSegs;
  }

  lemma Acknowledges(n: Net, d: seq<Seg>, p: nat)
    requires Good(n) && d in n.a.out && p < |d| && d[p].cmd == CMD_PUSH && d[p].sn < n.b.k.rcv.nxt
    ensures Input(false, n.b.k, d, 0).rcv.acks != []
  {
    GetsAcknowledged(n, d, p);
  }

  /** The sender got ahead, or the receiver will tell. */
  ghost predicate AheadOrTells(n: Net, x: int) {
    && n.b.k.rcv.nxt == x && |n.b.k.rcv.queue| < n.b.k.rcv.wnd
    && (n.a.k.snd.nxt > x || (Waiting(n) && Tells(n.b.k)))
  }

  /** With something in flight the sender repeats it. */
  lemma AskByPush(n: Net) returns (n': Net)
    requires Good(n) && Waiting(n) && n.a.k.snd.buf != []
    ensures Reach(n, n') && n'.b.received == n.b.received && AheadOrTells(n', n.b.k.rcv.nxt)
  {
    InFlight(n);
    hide *;
    var now := Moment(n.a.k, n.a.k.snd.buf[0].resendts);
    var j, p := SendsEntry(n.a.k, now, 0);
    var n1 := ClockA(n, now, j);
    n' := HearsRepeat(n1, Update(false, n.a.k, now).1[j], p);
    Join2(n, n1, n');
  }

  lemma HearsRepeat(n: Net, d: seq<Seg>, p: nat) returns (n': Net)
    requires Good(n) && d in n.a.out && p < |d| && d[p].cmd == CMD_PUSH && d[p].sn < n.b.k.rcv.nxt
    requires |n.b.k.rcv.queue| < n.b.k.rcv.wnd
    ensures Reach(n, n') && n'.b.received == n.b.received && AheadOrTells(n', n.b.k.rcv.nxt)
  {
    if n.a.k.snd.nxt > n.b.k.rcv.nxt {
      Stay(n);
      n' := n;
    } else {
      StillEqual(n);
      n' := DeliverB(n, d);
      StillWaiting(n, d, n');
      Acknowledges(n, d, p);
      hide Good, Reach, Input;
    }
  }

  lemma InFlight(n: Net)
    requires Good(n) && n.a.k.snd.buf != []
    ensures n.a.k.snd.buf[0].seg.cmd == CMD_PUSH && n.a.k.snd.buf[0].seg.sn < n.a.k.snd.nxt
  {}

  /** A flush with the peer's window closed runs the probe timer, and asks when it has run out. */
  lemma ProbeRuns(k: Kcp, now: u32)
    requires k.rmtWnd == 0 && k.probeWait == 0 && FlushDue(k, now)
    ensures var k' := Update(false, k, now).0; k'.rmtWnd == 0 && k'.probeWait != 0
  {
    DueIff(k, now);
    UpdateKeeps(false, k, now);
    ProbeAgain(false, Tick(k, now).0);
    hide Flush, Tick;
  }

  lemma AsksForWindow(k: Kcp, now: u32) returns (j: nat, p: nat)
    requires k.rmtWnd == 0 && k.probeWait != 0 && FlushDue(k, now) && S32(now - k.tsProbe) >= 0
    ensures var ds := Update(false, k, now).1; j < |ds| && p < |ds[j]| && ds[j][p].cmd == CMD_WASK
  {
    DueIff(k, now);
    var k1 := Tick(k, now).0;
    var ds := Flush(false, k1).1;
    hide Flush, Filled, Tick, S32;
    FlushSends(false, k1);
    var s := Windows(k1)[0];
    assert s.cmd == CMD_WASK && s in Windows(k1);
    j := InDatagram(ds, s);
    p :| 0 <= p < |ds[j]| && ds[j][p] == s;
  }

  lemma HearsQuestion(k: Kcp, d: seq<Seg>, p: nat)
    requires p < |d| && d[p].cmd == CMD_WASK
    ensures Input(false, k, d, 0).askTell
  {
    QuestionHeard(k, NoAck, d, p);
    hide InputSegs, Grown;
  }

  /** With the peer's window closed the sender asks for it. */
  lemma AskByProbe(n: Net) returns (n': Net)
    requires Good(n) && Waiting(n) && n.a.k.rmtWnd == 0
    ensures Reach(n, n') && n'.b.received == n.b.received && AheadOrTells(n', n.b.k.rcv.nxt)
  {
    n' := n;
    Stay(n);
    if n.a.k.probeWait == 0 {
      var now := Moment(n.a.k, 0);
      ProbeRuns(n.a.k, now);
      n' := ClockA(n, now, 0);
    }
    if n'.a.k.snd.nxt <= n.b.k.rcv.nxt {
      StillEqual(n');
      var n1 := n';
      n' := ProbeGoesOut(n1);
      Join2(n, n1, n');
    }
  }

  lemma StillEqual(n: Net)
    requires Inv(n) && n.a.k.snd.nxt <= n.b.k.rcv.nxt
    ensures n.a.k.snd.nxt == n.b.k.rcv.nxt
  {
    QueueIs(n);
  }

  lemma ProbeGoesOut(n: Net) returns (n': Net)
    requires Good(n) && Waiting(n) && n.a.k.rmtWnd == 0 && n.a.k.probeWait != 0
    ensures Reach(n, n') && n'.b.received == n.b.received && AheadOrTells(n', n.b.k.rcv.nxt)
  {
    var now := Moment(n.a.k, n.a.k.tsProbe);
    var j, p := AsksForWindow(n.a.k, now);
    var d := Update(false, n.a.k, now).1[j];
    n' := ClockA(n, now, j);
    if n'.a.k.snd.nxt <= n.b.k.rcv.nxt {
      var n1 := n';
      StillEqual(n1);
      n' := DeliverB(n1, d);
      StillWaiting(n1, d, n');
      HearsQuestion(n1.b.k, d, p);
      hide *;
      Join2(n, n1, n');
    }
  }

  /** With the window open and nothing in flight, two flushes number something new. */
  lemma SendNew(n: Net) returns (n': Net)
    requires Good(n) && Waiting(n) && n.a.k.snd.buf == [] && n.a.k.rmtWnd > 0
    requires n.a.k.snd.nxt < |FragAll(n.a.k.mss, n.a.accepted)|
    ensures Reach(n, n') && n'.b == n.b && n'.a.k.snd.nxt > n.a.k.snd.nxt
  {
    var now := Moment(n.a.k, 0);
    n' := ClockA(n, now, 0);
    FlushNumbers(n, now);
    if n'.a.k.snd.nxt <= n.a.k.snd.nxt {
      var n1 := n';
      StillEqual(n1);
      var now1 := Moment(n1.a.k, 0);
      n' := ClockA(n1, now1, 0);
      FlushNumbers(n1, now1);
      hide *;
      Join2(n, n1, n');
    }
  }

  /** A flush with an open window numbers something; it may be the congestion window that is
      still closed, which the flush opens. */
  lemma FlushNumbers(n: Net, now: u32)
    requires Good(n) && n.a.k.snd.buf == [] && n.a.k.rmtWnd > 0 && FlushDue(n.a.k, now)
    requires n.a.k.snd.nxt < |FragAll(n.a.k.mss, n.a.accepted)|
    ensures var k' := Update(false, n.a.k, now).0;
      && k'.rmtWnd == n.a.k.rmtWnd
      && (n.a.k.cwnd > 0 ==> k'.snd.nxt > n.a.k.snd.nxt)
      && (k'.snd.nxt <= n.a.k.snd.nxt ==> k'.snd.buf == [] && k'.cwnd > 0)
  {
    SendableNow(n);
    hide Good, Update;
    NumbersOne(n.a.k, now);
  }

  lemma SendableNow(n: Net)
    requires Good(n) && n.a.k.snd.buf == [] && n.a.k.snd.nxt < |FragAll(n.a.k.mss, n.a.accepted)|
    ensures n.a.k.snd.queue != [] && n.a.k.snd.una == n.a.k.snd.nxt && n.a.k.sndWnd > 0
  {}

  lemma NumbersOne(k: Kcp, now: u32)
    requires k.snd.buf == [] && k.rmtWnd > 0 && k.sndWnd > 0 && FlushDue(k, now) && k.snd.queue != [] && k.snd.una == k.snd.nxt
    ensures var k' := Update(false, k, now).0;
      && k'.rmtWnd == k.rmtWnd && (k.cwnd > 0 ==> k'.snd.nxt > k.snd.nxt)
      && (k'.snd.nxt <= k.snd.nxt ==> k'.snd.buf == [] && k'.cwnd > 0)
  {
    DueIff(k, now);
    UpdateKeeps(false, k, now);
    var k1 := Tick(k, now).0;
    hide Flush, Filled, Tick, FlushDue;
    var m := FilledIs(false, k1);
    FlushedWindow(false, k1);
    FlushedSender(false, k1);
    assert m == 0 ==> !InWindow(false, k.snd.una, Window(k1), Number(false, k.snd.nxt, 0));
  }

  // ---- one more number, and all of them ------------------------------------------------------

  lemma OneMore(n: Net) returns (n': Net)
    requires Good(n) && |n.b.k.rcv.queue| < n.b.k.rcv.wnd
    requires n.b.k.rcv.nxt < |FragAll(n.a.k.mss, n.a.accepted)|
    ensures Reach(n, n') && n'.b.received == n.b.received && n'.b.k.rcv.nxt > n.b.k.rcv.nxt
  {
    n' := GetAhead(n);
    var n1 := n';
    n' := PushThrough(n1);
    hide *;
    Join2(n, n1, n');
  }

  /** The sender gets ahead of the receiver. */
  lemma GetAhead(n: Net) returns (n': Net)
    requires Good(n) && |n.b.k.rcv.queue| < n.b.k.rcv.wnd
    requires n.b.k.rcv.nxt < |FragAll(n.a.k.mss, n.a.accepted)|
    ensures Reach(n, n') && n'.b.received == n.b.received
    ensures n'.b.k.rcv.nxt == n.b.k.rcv.nxt < n'.a.k.snd.nxt && |n'.b.k.rcv.queue| < n'.b.k.rcv.wnd
  {
    Stay(n);
    n' := n;
    if n.a.k.snd.nxt <= n.b.k.rcv.nxt {
      StillEqual(n);
      n' := OpenUp(n);
      if n'.a.k.snd.nxt <= n.b.k.rcv.nxt {
        var n1 := n';
        SameLog(n, n1);
        n' := SendNew(n1);
        Join2(n, n1, n');
      }
    }
  }

  lemma SameLog(n: Net, n': Net)
    requires Good(n) && Reach(n, n')
    ensures Sendable(n.a.k.mss, n.a.accepted) && Sendable(n'.a.k.mss, n'.a.accepted)
    ensures FragAll(n'.a.k.mss, n'.a.accepted) == FragAll(n.a.k.mss, n.a.accepted)
  {}

  /** The sender gets ahead, or has nothing in flight and an open window. */
  lemma OpenUp(n: Net) returns (n': Net)
    requires Good(n) && Waiting(n)
    ensures Reach(n, n') && n'.b.received == n.b.received
    ensures n'.b.k.rcv.nxt == n.b.k.rcv.nxt && |n'.b.k.rcv.queue| < n'.b.k.rcv.wnd
    ensures n'.a.k.snd.nxt > n.b.k.rcv.nxt || (Waiting(n') && n'.a.k.snd.buf == [] && n'.a.k.rmtWnd > 0)
  {
    if n.a.k.snd.buf == [] && n.a.k.rmtWnd > 0 {
      Stay(n);
      n' := n;
    } else {
      if n.a.k.snd.buf != [] { n' := AskByPush(n); } else { n' := AskByProbe(n); }
      if n'.a.k.snd.nxt <= n.b.k.rcv.nxt {
        var n1 := n';
        n' := Feedback(n1);
        Join2(n, n1, n');
      }
    }
  }

  /** The receiving application reads all whole messages. */
  lemma {:induction false} Drain(n: Net) returns (n': Net)
    requires Good(n)
    ensures Reach(n, n') && PeekSize(n'.b.k.rcv.queue) < 0 && n'.b.k.rcv.nxt >= n.b.k.rcv.nxt && n'.a == n.a
    decreases |n.a.accepted| - |n.b.received|
  {
    QueueIs(n);
    if PeekSize(n.b.k.rcv.queue) < 0 {
      Stay(n);
      n' := n;
    } else {
      var n1 := Reads(n);
      QueueIs(n1);
      n' := Drain(n1);
      Join2(n, n1, n');
    }
  }

  lemma Reads(n: Net) returns (n': Net)
    requires Good(n) && PeekSize(n.b.k.rcv.queue) >= 0
    ensures Reach(n, n') && n'.a == n.a && |n'.b.received| == |n.b.received| + 1 && n'.b.k.rcv.nxt >= n.b.k.rcv.nxt
  {
    var len := PeekSize(n.b.k.rcv.queue);
    n' := StepB(n, Take(len));
    ReadsOne(n.b.k, len);
    hide Good, Recv;
  }

  lemma ReadsOne(k: Kcp, len: int)
    requires len == PeekSize(k.rcv.queue) >= 0
    ensures Recv(false, k, len).code >= 0 && Recv(false, k, len).k.rcv.nxt >= k.rcv.nxt
  {
    MoveReadyRises(k.rcv.(queue := k.rcv.queue[|FirstMessage(k.rcv.queue)|..]));
    hide MoveReady, FirstMessage, Join;
  }

  /** A drained receiver has room. */
  lemma DrainedHasRoom(n: Net)
    requires Good(n) && PeekSize(n.b.k.rcv.queue) < 0
    ensures |n.b.k.rcv.queue| < n.b.k.rcv.wnd
  {
    if |n.b.k.rcv.queue| >= n.b.k.rcv.wnd {
      FullQueueIsReadable(n.b.k.rcv, FragAll(n.a.k.mss, n.a.accepted)[..n.a.k.snd.nxt], n.a.k.mss, n.a.accepted, |n.b.received|);
    }
  }

  /** A drained receiver that got every number has given every message to its application. */
  lemma DrainedIsDone(n: Net)
    requires Good(n) && PeekSize(n.b.k.rcv.queue) < 0
    requires n.b.k.rcv.nxt >= |FragAll(n.a.k.mss, n.a.accepted)|
    ensures n.b.received == n.a.accepted
  {
    QueueIs(n);
    var mss, msgs, c := n.a.k.mss, n.a.accepted, |n.b.received|;
    if c < |msgs| {
      var fs := NextMessage(mss, msgs, c);
      var gs := QueueHead(n.b.k.rcv, FragAll(mss, msgs)[..n.a.k.snd.nxt], mss, msgs, c);
      PeekWhole(n.b.k.rcv.queue, gs);
    }
  }

  lemma {:induction false} CatchUp(n: Net) returns (n': Net)
    requires Good(n)
    ensures Reach(n, n') && n'.b.received == n.a.accepted
    decreases Missing(n)
  {
    QueueIs(n);
    var n1 := Drain(n);
    QueueIs(n1);
    DrainedHasRoom(n1);
    if n1.b.k.rcv.nxt >= |FragAll(n1.a.k.mss, n1.a.accepted)| {
      DrainedIsDone(n1);
      n' := n1;
    } else {
      var n2 := OneMore(n1);
      SameLog(n1, n2);
      QueueIs(n2);
      n' := CatchUp(n2);
      Join2(n1, n2, n');
      Join2(n, n1, n');
    }
  }

  /** How many numbers the receiver still waits for. */
  ghost function Missing(n: Net): nat
    requires Good(n)
  {
    QueueIs(n);
    |FragAll(n.a.k.mss, n.a.accepted)| - n.b.k.rcv.nxt
  }

  // ---- both directions -----------------------------------------------------------------------

  function Swap(n: Net): Net { Net(n.b, n.a) }

  lemma StepSwaps(n: Net, n': Net)
    requires Step(n, n')
    ensures Step(Swap(n), Swap(n'))
  {
    hide Act, Enabled;
    var e: Event :|
      || (Enabled(n.a, n.b, e) && n' == n.(a := Act(n.a, e)))
      || (Enabled(n.b, n.a, e) && n' == n.(b := Act(n.b, e)));
    var m, m' := Swap(n), Swap(n');
    assert (Enabled(m.a, m.b, e) && m' == m.(a := Act(m.a, e))) || (Enabled(m.b, m.a, e) && m' == m.(b := Act(m.b, e)));
  }

  lemma ReachSwaps(n: Net, n': Net)
    requires Reach(n, n')
    ensures Reach(Swap(n), Swap(n'))
  {
    hide Step, Inv, Settled;
    var ns :| Connects(ns, n, n');
    var ms := seq(|ns|, i requires 0 <= i < |ns| => Swap(ns[i]));
    forall i | 0 <= i < |ms| - 1 ensures Step(ms[i], ms[i + 1]) { StepSwaps(ns[i], ns[i + 1]); }
    assert Connects(ms, Swap(n), Swap(n'));
    InvSwaps(n');
  }

  lemma InvSwaps(n: Net)
    requires Inv(n)
    ensures Inv(Swap(n))
  {}

  lemma GoodSwaps(n: Net)
    requires Good(n)
    ensures Good(Swap(n))
  {}

  lemma BothCatchUp(n: Net) returns (n': Net)
    requires Good(n)
    ensures Reach(n, n') && n'.b.received == n.a.accepted && n'.a.received == n.b.accepted
  {
    var n1 := CatchUp(n);
    GoodSwaps(n1);
    var m := CatchUp(Swap(n1));
    n' := Swap(m);
    ReachSwaps(Swap(n1), m);
    Join2(n, n1, n');
    QueueIs(n');
  }

  lemma {:induction false} RunSettled(ns: seq<Net>)
    requires Run(ns)
    ensures Settled(ns[|ns| - 1].a.k.rcv) && Settled(ns[|ns| - 1].b.k.rcv)
    decreases |ns|
  {
    hide Act, Enabled, Settled;
    if |ns| == 1 {
      FreshSettled(ns[0]);
    } else {
      RunSettled(ns[..|ns| - 1]);
      var n, n' := ns[|ns| - 2], ns[|ns| - 1];
      assert Step(n, n');
      var e: Event :|
        || (Enabled(n.a, n.b, e) && n' == n.(a := Act(n.a, e)))
        || (Enabled(n.b, n.a, e) && n' == n.(b := Act(n.b, e)));
      ActIs(n.a, e);
      ActIs(n.b, e);
    }
  }

  lemma FreshSettled(n: Net)
    requires Fresh(n.a) && Fresh(n.b)
    ensures Settled(n.a.k.rcv) && Settled(n.b.k.rcv)
  {}

  /** From the end of every run, whatever the network lost and wherever the windows are, the
      run can go on, without new messages, until both applications received everything that
      was accepted. */
  lemma EverythingCanArrive(ns: seq<Net>) returns (more: seq<Net>)
    requires Run(ns) && Usable(ns[|ns| - 1].a) && Usable(ns[|ns| - 1].b)
    ensures Run(ns + more)
    ensures var n := ns[|ns| - 1]; var n' := (ns + more)[|ns + more| - 1];
      && n'.a.accepted == n.a.accepted && n'.b.accepted == n.b.accepted
      && n'.b.received == n.a.accepted && n'.a.received == n.b.accepted
  {
    var n := ns[|ns| - 1];
    RunInv(ns);
    RunSettled(ns);
    hide Inv, Settled, Usable;
    assert Good(n);
    var n' := BothCatchUp(n);
    hide Good, Step;
    var s :| Connects(s, n, n');
    more := s[1..];
    var all := ns + more;
    forall i | 0 <= i < |all| - 1 ensures Step(all[i], all[i + 1]) {
      if i < |ns| - 1 {
        assert Step(ns[i], ns[i + 1]);
      } else {
        assert all[i] == s[i - |ns| + 1] && all[i + 1] == s[i - |ns| + 2];
      }
    }
  }
}

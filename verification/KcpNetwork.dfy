/** Two endpoints and a network that drops, duplicates and reorders datagrams.

    `out` is every datagram a peer ever sent. Delivering any member, any number of
    times and in any order, or never, is all such a network can do. */
module KcpNetwork {
  import opened Words
  import opened KcpTypes
  import opened KcpSpec
  import opened KcpDirection
  import opened KcpMessages

  /** An endpoint, the messages its application got accepted by ikcp_send and those
      it received from ikcp_recv. */
  datatype Peer = Peer(k: Kcp, accepted: seq<seq<u8>>, received: seq<seq<u8>>, out: set<seq<Seg>>)

  datatype Event =
    | Accept(msg: seq<u8>)
    | Take(len: int)
    | Clock(now: u32)
    | Deliver(segs: seq<Seg>)

  predicate Enabled(p: Peer, other: Peer, e: Event) {
    e.Deliver? ==> e.segs in other.out
  }

  function Act(p: Peer, e: Event): Peer
    requires p.k.mss > 0
  {
    match e
    case Accept(msg) =>
      var (k, code) := Send(p.k, msg);
      p.(k := k, accepted := if code == 0 then p.accepted + [msg] else p.accepted)
    case Take(len) =>
      var r := Recv(false, p.k, len);
      p.(k := r.k, received := if r.code >= 0 && len >= 0 then p.received + [r.data] else p.received)
    case Clock(now) =>
      var (k, ds) := Update(false, p.k, now);
      p.(k := k, out := p.out + set i | 0 <= i < |ds| :: ds[i])
    case Deliver(segs) => p.(k := Input(false, p.k, segs, 0))
  }

  datatype Net = Net(a: Peer, b: Peer)

  /** One step of either peer. */
  ghost predicate Step(n: Net, n': Net) {
    n.a.k.mss > 0 && n.b.k.mss > 0 && exists e: Event ::
      || (Enabled(n.a, n.b, e) && n' == n.(a := Act(n.a, e)))
      || (Enabled(n.b, n.a, e) && n' == n.(b := Act(n.b, e)))
  }

  /** Fresh control blocks; windows, mtu and timer settings are arbitrary but fixed. */
  predicate Fresh(p: Peer) {
    && p.k.mss > 0 && p.k.mtu == p.k.mss + OVERHEAD && p.k.snd == Sender(0, 0, [], [])
    && p.k.rcv == Receiver(0, p.k.rcv.wnd, [], [], [])
    && p.accepted == [] && p.received == [] && p.out == {}
  }

  ghost predicate Run(ns: seq<Net>) {
    && ns != [] && Fresh(ns[0].a) && Fresh(ns[0].b)
    && forall i :: 0 <= i < |ns| - 1 ==> Step(ns[i], ns[i + 1])
  }

  // ---- the invariant -------------------------------------------------------

  ghost predicate OutOk(p: Peer, log: seq<Frag>) {
    forall d :: d in p.out ==> AllDataOk(d, p.k.snd.nxt, log) && AllFeedbackOk(d, p.k.rcv)
  }

  /** What `s` accepted and `r` received, and everything in between. */
  ghost predicate Channel(s: Peer, r: Peer) {
    && Sendable(s.k.mss, s.accepted) && s.k.mtu == s.k.mss + OVERHEAD
    && var log := FragAll(s.k.mss, s.accepted);
    && SenderOk(s.k.snd, log) && NoLoss(s.k.snd, r.k.rcv) && OutOk(s, log)
    && r.received <= s.accepted
    && ReceivedUpTo(r.k.rcv, log[..s.k.snd.nxt], s.k.mss, s.accepted, |r.received|)
  }

  ghost predicate Inv(n: Net) {
    Channel(n.a, n.b) && Channel(n.b, n.a)
  }

  lemma FreshInv(n: Net)
    requires Fresh(n.a) && Fresh(n.b)
    ensures Inv(n)
  {}

  lemma OutGrows(p: Peer, p': Peer, log: seq<Frag>, log': seq<Frag>)
    requires OutOk(p, log) && p'.out == p.out && Advances(p.k.rcv, p'.k.rcv) && log <= log'
    requires p.k.snd.nxt <= p'.k.snd.nxt <= |log'|
    ensures OutOk(p', log')
  {
    forall d | d in p'.out ensures AllDataOk(d, p'.k.snd.nxt, log') && AllFeedbackOk(d, p'.k.rcv) {
      forall i | 0 <= i < |d| ensures DataOk(d[i], p'.k.snd.nxt, log') && FeedbackOk(d[i], p'.k.rcv) {
        assert DataOk(d[i], p.k.snd.nxt, log) && FeedbackOk(d[i], p.k.rcv);
      }
    }
  }

  lemma AcceptKeeps(p: Peer, other: Peer, msg: seq<u8>)
    requires Channel(p, other) && Channel(other, p)
    ensures Channel(Act(p, Accept(msg)), other) && Channel(other, Act(p, Accept(msg)))
  {
    hide Fragment, ReceiverOk, SenderOk, Advances;
    var p' := Act(p, Accept(msg));
    if p' != p {
      var log, log' := FragAll(p.k.mss, p.accepted), FragAll(p.k.mss, p'.accepted);
      assert p'.accepted[..|p.accepted|] == p.accepted;
      assert p'.accepted[..|other.received|] == p.accepted[..|other.received|];
      assert log' == log + Fragment(p.k.mss, msg, FragCount(p.k.mss, |msg|));
      QueueGrows(p.k.snd, log, Fragment(p.k.mss, msg, FragCount(p.k.mss, |msg|)), other.k.rcv);
      assert log'[..p.k.snd.nxt] == log[..p.k.snd.nxt];
      AdvancesReflexive(p.k.rcv);
      OutGrows(p, p', log, log');
    }
  }

  lemma AdvancesReflexive(r: Receiver)
    ensures Advances(r, r)
  {}

  lemma QueueGrows(s: Sender, log: seq<Frag>, more: seq<Frag>, r: Receiver)
    requires SenderOk(s, log) && NoLoss(s, r)
    ensures SenderOk(s.(queue := s.queue + more), log + more) && NoLoss(s.(queue := s.queue + more), r)
    ensures s.nxt <= |log|
  {}

  lemma LogGrows(r: Receiver, log: seq<Frag>, log': seq<Frag>, taken: int)
    requires ReceiverOk(r, log, taken) && log <= log'
    ensures ReceiverOk(r, log', taken)
  {}

  lemma TakeKeeps(p: Peer, other: Peer, len: int)
    requires Channel(p, other) && Channel(other, p)
    ensures Channel(Act(p, Take(len)), other) && Channel(other, Act(p, Take(len)))
  {
    var p' := Act(p, Take(len));
    var n := |p.received|;
    var msgs, mss := other.accepted, other.k.mss;
    RecvDelivers(p.k, len, FragAll(mss, msgs)[..other.k.snd.nxt], mss, msgs, n);
    OutGrows(p, p', FragAll(p.k.mss, p.accepted), FragAll(p.k.mss, p.accepted));
  }

  lemma FlushKeepsReceiver(k: Kcp, log: seq<Frag>, taken: int)
    requires ReceiverOk(k.rcv, log, taken)
    ensures ReceiverOk(k.rcv.(acks := []), log, taken) && Advances(k.rcv, k.rcv.(acks := []))
  {}

  /** Packing only regroups: each datagram holds segments of the list, in order. */
  lemma {:induction false} PackMembers(mtu: nat, cur: seq<Seg>, segs: seq<Seg>, log: seq<Frag>, nxt: int, r: Receiver)
    requires AllDataOk(cur, nxt, log) && AllFeedbackOk(cur, r)
    requires AllDataOk(segs, nxt, log) && AllFeedbackOk(segs, r)
    ensures forall i :: 0 <= i < |Pack(mtu, cur, segs)| ==>
      AllDataOk(Pack(mtu, cur, segs)[i], nxt, log) && AllFeedbackOk(Pack(mtu, cur, segs)[i], r)
    decreases |segs|
  {
    hide TotalSize, WireSize, DataOk, FeedbackOk;
    if segs != [] {
      PackMembers(mtu, [segs[0]], segs[1..], log, nxt, r);
      PackMembers(mtu, cur + [segs[0]], segs[1..], log, nxt, r);
    }
  }

  lemma ClockKeeps(p: Peer, other: Peer, now: u32)
    requires Channel(p, other) && Channel(other, p)
    ensures Channel(Act(p, Clock(now)), other) && Channel(other, Act(p, Clock(now)))
  {
    hide Tick, Flush, FlushSegs, Filled, Pack;
    var (k, due) := Tick(p.k, now);
    TickFrame(p.k, now);
    var log := FragAll(p.k.mss, p.accepted);
    var p' := Act(p, Clock(now));
    var taken := Start(other.k.mss, other.accepted, |p.received|);
    if due {
      FlushOk(k, log, other.k.rcv);
      FlushKeepsReceiver(k, FragAll(other.k.mss, other.accepted)[..other.k.snd.nxt], taken);
      LogGrows(other.k.rcv, log[..p.k.snd.nxt], log[..p'.k.snd.nxt], Start(p.k.mss, p.accepted, |other.received|));
      var p1 := p.(k := p'.k);
      OutGrows(p, p1, log, log);
      FlushOutOk(k, log, other.k.rcv);
      var ds := Flush(false, k).1;
      assert p'.out == p.out + set i | 0 <= i < |ds| :: ds[i];
    } else {
      assert p'.out == p.out;
      OutGrows(p, p', log, log);
    }
  }

  lemma TickFrame(k: Kcp, now: u32)
    ensures var k' := Tick(k, now).0;
      && k'.snd == k.snd && k'.rcv == k.rcv && SameConfig(k, k')
      && SendWindow(k') == SendWindow(k) && k'.rmtWnd == k.rmtWnd
  {
    hide S32, U32;
  }

  lemma FlushOutOk(k: Kcp, log: seq<Frag>, peer: Receiver)
    requires SenderOk(k.snd, log) && NoLoss(k.snd, peer) && AcksOk(k.rcv) && k.rcv.nxt >= 0
    ensures var (k', ds) := Flush(false, k);
      forall i :: 0 <= i < |ds| ==> AllDataOk(ds[i], k'.snd.nxt, log) && AllFeedbackOk(ds[i], k'.rcv)
  {
    hide FlushSegs, Filled, CountWhy, VisitAll, HitsDeadLink, Reduced, ProbeBackoff, SendWindow, Pack, DataOk, FeedbackOk;
    if k.updated {
      FlushOk(k, log, peer);
      FlushSegsOk(k, log, peer);
      var s := Filled(false, k);
      PackMembers(k.mtu, [], FlushSegs(false, k), log, s.nxt, k.rcv);
      var (k', ds) := Flush(false, k);
      forall i | 0 <= i < |ds| ensures AllFeedbackOk(ds[i], k'.rcv) {
        assert AllFeedbackOk(ds[i], k.rcv);
        SameFeedback(ds[i], k.rcv);
      }
    }
  }

  lemma SameFeedback(d: seq<Seg>, r: Receiver)
    requires AllFeedbackOk(d, r)
    ensures AllFeedbackOk(d, r.(acks := []))
  {
    forall i | 0 <= i < |d| ensures FeedbackOk(d[i], r.(acks := [])) { assert FeedbackOk(d[i], r); }
  }

  lemma DataWithin(segs: seq<Seg>, nxt: int, log: seq<Frag>)
    requires AllDataOk(segs, nxt, log) && 0 <= nxt <= |log|
    ensures AllDataOk(segs, nxt, log[..nxt])
  {
    forall i | 0 <= i < |segs| ensures DataOk(segs[i], nxt, log[..nxt]) { assert DataOk(segs[i], nxt, log); }
  }

  lemma DeliverKeeps(p: Peer, other: Peer, segs: seq<Seg>)
    requires Channel(p, other) && Channel(other, p) && segs in other.out
    ensures Channel(Act(p, Deliver(segs)), other) && Channel(other, Act(p, Deliver(segs)))
  {
    hide Input;
    var log, out := FragAll(other.k.mss, other.accepted), FragAll(p.k.mss, p.accepted);
    var taken := Start(other.k.mss, other.accepted, |p.received|);
    DataWithin(segs, other.k.snd.nxt, log);
    InputOk(p.k, segs, 0, log[..other.k.snd.nxt], taken, other.k.snd.nxt, other.k.rcv, out);
    OutGrows(p, Act(p, Deliver(segs)), out, out);
  }

  lemma StepKeeps(p: Peer, other: Peer, e: Event)
    requires Channel(p, other) && Channel(other, p) && Enabled(p, other, e)
    ensures Channel(Act(p, e), other) && Channel(other, Act(p, e))
  {
    match e
    case Accept(msg) => AcceptKeeps(p, other, msg);
    case Take(len) => TakeKeeps(p, other, len);
    case Clock(now) => ClockKeeps(p, other, now);
    case Deliver(segs) => DeliverKeeps(p, other, segs);
  }

  lemma {:induction false} RunInv(ns: seq<Net>)
    requires Run(ns)
    ensures Inv(ns[|ns| - 1])
    decreases |ns|
  {
    hide Channel, Act, Enabled;
    if |ns| == 1 {
      FreshInv(ns[0]);
    } else {
      var m := |ns| - 2;
      RunInv(ns[..|ns| - 1]);
      var n, n' := ns[m], ns[m + 1];
      assert Step(n, n');
      var e: Event :|
        || (Enabled(n.a, n.b, e) && n' == n.(a := Act(n.a, e)))
        || (Enabled(n.b, n.a, e) && n' == n.(b := Act(n.b, e)));
      if Enabled(n.a, n.b, e) && n' == n.(a := Act(n.a, e)) {
        StepKeeps(n.a, n.b, e);
      } else {
        StepKeeps(n.b, n.a, e);
      }
    }
  }

  // ---- main results ----------------------------------------------------------

  /** Over every run, what an application received is a prefix of what the other got
      accepted: in order, each message once, bytes intact, in both directions. */
  lemma InOrderOnce(ns: seq<Net>)
    requires Run(ns)
    ensures var n := ns[|ns| - 1]; n.b.received <= n.a.accepted && n.a.received <= n.b.accepted
  {
    RunInv(ns);
  }

  /** Over every run, each number below snd_nxt is delivered, in the peer's rcv_buf, or
      still in snd_buf; snd_una heads snd_buf; rcv_buf ascends inside the window; and
      rcv_queue never outgrows it. */
  lemma NothingForgotten(ns: seq<Net>, x: int)
    requires Run(ns)
    ensures Held(ns[|ns| - 1], x)
  {
    RunInv(ns);
    HeldSomewhere(ns[|ns| - 1], x);
  }

  /** Number `x` is somewhere, and the queues are in order. */
  ghost predicate Held(n: Net, x: int) {
    var s := n.a.k.snd; var r := n.b.k.rcv;
      && (0 <= x < s.nxt ==>
            || x < r.nxt
            || (exists i :: 0 <= i < |r.buf| && r.buf[i].sn == x)
            || (exists i :: 0 <= i < |s.buf| && s.buf[i].seg.sn == x))
      && s.una == (if s.buf == [] then s.nxt else s.buf[0].seg.sn)
      && (forall i :: 0 <= i < |r.buf| ==> r.nxt <= r.buf[i].sn < r.nxt + r.wnd)
      && (forall i, j :: 0 <= i < j < |r.buf| ==> r.buf[i].sn < r.buf[j].sn)
      && |r.queue| <= r.wnd
  }

  lemma HeldSomewhere(n: Net, x: int)
    requires Inv(n)
    ensures Held(n, x)
  {
    if 0 <= x < n.a.k.snd.nxt {
      assert Got(n.b.k.rcv, x) || x in SndSns(n.a.k.snd.buf);
      if x in RcvSns(n.b.k.rcv.buf) { var i := RcvSnsWitness(n.b.k.rcv.buf, x); }
      if x in SndSns(n.a.k.snd.buf) { var i := SndSnsWitness(n.a.k.snd.buf, x); }
    }
  }

  lemma {:induction false} RcvSnsWitness(buf: seq<Seg>, x: int) returns (i: nat)
    requires x in RcvSns(buf)
    ensures i < |buf| && buf[i].sn == x
  {
    if buf[0].sn == x { i := 0; } else { i := RcvSnsWitness(buf[1..], x); i := i + 1; }
  }

  lemma {:induction false} SndSnsWitness(buf: seq<Sent>, x: int) returns (i: nat)
    requires x in SndSns(buf)
    ensures i < |buf| && buf[i].seg.sn == x
  {
    if buf[0].seg.sn == x { i := 0; } else { i := SndSnsWitness(buf[1..], x); i := i + 1; }
  }

  /** Over every run, a full receive queue can be read: no step of a run leaves a
      receiver whose window is closed by an incomplete message. */
  lemma FullQueueDelivers(ns: seq<Net>, len: int)
    requires Run(ns)
    ensures Readable(ns[|ns| - 1], len)
  {
    RunInv(ns);
    FullIsReadable(ns[|ns| - 1], len);
  }

  /** A full queue gives the next message to a reader with enough room. */
  ghost predicate Readable(n: Net, len: int) {
    var k := n.b.k;
      |k.rcv.queue| >= k.rcv.wnd >= WND_RCV && len >= PeekSize(k.rcv.queue) ==>
        |n.b.received| < |n.a.accepted|
        && Recv(false, k, len).data == n.a.accepted[|n.b.received|] && Recv(false, k, len).code >= 0
  }

  lemma FullIsReadable(n: Net, len: int)
    requires Inv(n)
    ensures Readable(n, len)
  {
    var k, msgs, c := n.b.k, n.a.accepted, |n.b.received|;
    if |k.rcv.queue| >= k.rcv.wnd >= WND_RCV && len >= PeekSize(k.rcv.queue) {
      var sent := FragAll(n.a.k.mss, msgs)[..n.a.k.snd.nxt];
      FullQueueIsReadable(k.rcv, sent, n.a.k.mss, msgs, c);
      RecvDelivers(k, len, sent, n.a.k.mss, msgs, c);
    }
  }
}

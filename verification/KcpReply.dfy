/** Over every run: what was lost is sent again, and what arrives is received and
    acknowledged. */
module KcpReply {
  import opened Words
  import opened KcpTypes
  import opened KcpSpec
  import opened KcpDirection
  import opened KcpMessages
  import opened KcpNetwork
  import opened KcpDelivery
  import opened KcpTimers

  // ---- one receiver --------------------------------------------------------------------------

  /** The number a receiver waits for arrives: rcv_nxt moves on. */
  lemma NextArrives(r: Receiver, s: Seg, log: seq<Frag>, taken: int)
    requires ReceiverOk(r, log, taken) && s.cmd == CMD_PUSH && s.sn == r.nxt < |log| && s.body == log[s.sn]
    requires |r.queue| < r.wnd
    ensures ReceiverInput(false, r, s).nxt > r.nxt
  {
    InsertSegOk(r.buf, s, r.nxt, r.nxt + r.wnd, log);
    InsertSegSns(false, r.buf, s);
    hide InsertSeg, MoveReady, ReceiverOk;
    HeadMoves(r.(acks := r.acks + [Ack(s.sn, s.ts)], buf := InsertSeg(false, r.buf, s)), log);
  }

  lemma HeadMoves(r: Receiver, log: seq<Frag>)
    requires RcvBufOk(r.buf, r.nxt, r.nxt + r.wnd, log) && r.nxt in RcvSns(r.buf) && |r.queue| < r.wnd
    ensures MoveReady(false, r).nxt > r.nxt
  {
    var i := RcvSnsWitness(r.buf, r.nxt);
    assert r.buf[0].sn == r.nxt;
    MoveReadyRises(r.(buf := r.buf[1..], queue := r.queue + [r.buf[0].body], nxt := r.nxt + 1));
  }

  lemma {:induction false} MoveReadyRises(r: Receiver)
    ensures MoveReady(false, r).nxt >= r.nxt
    decreases |r.buf|
  {
    if r.buf != [] && r.buf[0].sn == r.nxt && |r.queue| < r.wnd {
      MoveReadyRises(r.(buf := r.buf[1..], queue := r.queue + [r.buf[0].body], nxt := r.nxt + 1));
    }
  }

  /** The same for a datagram that holds it somewhere. */
  lemma {:induction false} NextArrivesWithin(k: Kcp, m: MaxAck, segs: seq<Seg>, p: nat, x: int, log: seq<Frag>, taken: int)
    requires ReceiverOk(k.rcv, log, taken) && AllDataOk(segs, |log|, log)
    requires p < |segs| && segs[p].cmd == CMD_PUSH && segs[p].sn == x <= k.rcv.nxt && x - taken < k.rcv.wnd
    ensures InputSegs(false, k, m, segs).0.rcv.nxt > x
    decreases |segs|
  {
    hide ReceiverInput, SenderInput, Estimate, S32;
    var s, k1 := segs[0], InputSeg(false, k, segs[0]);
    assert DataOk(s, |log|, log);
    ReceiverInputOk(k.rcv, s, log, taken, |log|);
    if k.rcv.nxt == x && p == 0 { NextArrives(k.rcv, s, log, taken); }
    if k1.rcv.nxt > x {
      NeverBack(k1, Later(false, m, s), segs[1..], log, taken);
    } else {
      NextArrivesWithin(k1, Later(false, m, s), segs[1..], p - 1, x, log, taken);
    }
  }

  lemma {:induction false} NeverBack(k: Kcp, m: MaxAck, segs: seq<Seg>, log: seq<Frag>, taken: int)
    requires ReceiverOk(k.rcv, log, taken) && AllDataOk(segs, |log|, log)
    ensures InputSegs(false, k, m, segs).0.rcv.nxt >= k.rcv.nxt
    decreases |segs|
  {
    hide ReceiverInput, SenderInput, Estimate, S32;
    if segs != [] {
      assert DataOk(segs[0], |log|, log);
      ReceiverInputOk(k.rcv, segs[0], log, taken, |log|);
      NeverBack(InputSeg(false, k, segs[0]), Later(false, m, segs[0]), segs[1..], log, taken);
    }
  }

  lemma {:induction false} InputSegsWnd(k: Kcp, m: MaxAck, segs: seq<Seg>)
    ensures InputSegs(false, k, m, segs).0.rcv.wnd == k.rcv.wnd
    decreases |segs|
  {
    hide SenderInput, Estimate, S32;
    if segs != [] {
      MoveReadyFrame(false, k.rcv.(acks := k.rcv.acks + [Ack(segs[0].sn, segs[0].ts)], buf := InsertSeg(false, k.rcv.buf, segs[0])));
      hide MoveReady, InsertSeg;
      InputSegsWnd(InputSeg(false, k, segs[0]), Later(false, m, segs[0]), segs[1..]);
    }
  }

  // ---- one sender ----------------------------------------------------------------------------

  /** A flush at a time when the timer of entry `i` has run out sends the entry. */
  lemma SendsEntry(k: Kcp, now: u32, i: nat) returns (j: nat, p: nat)
    requires i < |k.snd.buf| && FlushDue(k, now) && (k.snd.buf[i].xmit == 0 || S32(now - k.snd.buf[i].resendts) >= 0)
    ensures var ds := Update(false, k, now).1; var s := k.snd.buf[i].seg;
      j < |ds| && p < |ds[j]| && ds[j][p].cmd == s.cmd && ds[j][p].sn == s.sn && ds[j][p].body == s.body
  {
    DueIff(k, now);
    var k1 := Tick(k, now).0;
    hide Flush, Filled, Tick;
    var n := FilledIs(false, k1);
    var buf := Filled(false, k1).buf;
    assert buf[i] == buf[..|k.snd.buf|][i];
    j := DueGoesOut(false, k1, i);
    p :| 0 <= p < |Flush(false, k1).1[j]| && Flush(false, k1).1[j][p] == Copy(k1, buf[i]);
  }

  /** Every segment of a flush carries rcv_nxt and the free part of the window. */
  predicate Stamped(k: Kcp, s: Seg) { s.una == k.rcv.nxt && s.wnd == Room(k.rcv) }

  lemma {:induction false} AnswersStamped(k: Kcp, acks: seq<Ack>, s: Seg)
    requires s in Answers(k, acks)
    ensures Stamped(k, s)
    decreases |acks|
  {
    if s != Command(k, CMD_ACK, acks[0]) { AnswersStamped(k, acks[1..], s); }
  }

  lemma FlushStamped(w: bool, k: Kcp, j: nat, s: Seg)
    requires k.updated && j < |Flush(w, k).1| && s in Flush(w, k).1[j]
    ensures Stamped(k, s)
  {
    FlushSends(w, k);
    InConcat(Flush(w, k).1, j, s);
    hide Flush, Filled;
    if s in Answers(k, k.rcv.acks) {
      AnswersStamped(k, k.rcv.acks, s);
    } else if s in Copies(k, Filled(w, k).buf) {
      var i := CopyFrom(k, Filled(w, k).buf, s);
    }
  }

  /** A datagram that acknowledges everything sent empties snd_buf. */
  lemma {:induction false} AllAcknowledged(k: Kcp, m: MaxAck, segs: seq<Seg>, una: int, wnd: u16, log: seq<Frag>)
    requires segs != [] && forall i :: 0 <= i < |segs| ==> segs[i].una == una && segs[i].wnd == wnd
    requires SndBufOk(k.snd.buf, una, log)
    ensures var k' := InputSegs(false, k, m, segs).0; k'.snd.buf == [] && k'.rmtWnd == wnd
    decreases |segs|
  {
    hide ReceiverInput, Estimate, S32;
    DropsAll(k.snd.buf, una, log);
    var k1 := InputSeg(false, k, segs[0]);
    assert k1.snd.buf == [];
    if |segs| > 1 { AllAcknowledged(k1, Later(false, m, segs[0]), segs[1..], una, wnd, log); }
  }

  lemma {:induction false} DropsAll(buf: seq<Sent>, una: int, log: seq<Frag>)
    requires SndBufOk(buf, una, log)
    ensures DropBelow(false, buf, una) == []
    decreases |buf|
  {
    if buf != [] {
      assert forall i :: 0 <= i < |buf[1..]| ==> buf[1..][i] == buf[i + 1];
      DropsAll(buf[1..], una, log);
    }
  }

  lemma EmptiesSndBuf(k: Kcp, segs: seq<Seg>, una: int, wnd: u16, log: seq<Frag>)
    requires segs != [] && forall i :: 0 <= i < |segs| ==> segs[i].una == una && segs[i].wnd == wnd
    requires SndBufOk(k.snd.buf, una, log)
    ensures var k' := Input(false, k, segs, 0); k'.snd.buf == [] && k'.rmtWnd == wnd
  {
    AllAcknowledged(k, NoAck, segs, una, wnd, log);
    var (k1, m) := InputSegs(false, k, NoAck, segs);
    hide InputSegs, Grown, OutsideFlight, Diff;
    assert m.Highest? ==> ParseFastack(false, k1.snd, m.sn).buf == [];
  }

  lemma {:induction false} InputSegsNext(k: Kcp, m: MaxAck, segs: seq<Seg>)
    ensures InputSegs(false, k, m, segs).0.snd.nxt == k.snd.nxt
    decreases |segs|
  {
    hide ReceiverInput, Estimate, S32, DropBelow, RemoveSn;
    if segs != [] { InputSegsNext(InputSeg(false, k, segs[0]), Later(false, m, segs[0]), segs[1..]); }
  }

  /** An input numbers nothing. */
  lemma SameNext(k: Kcp, d: seq<Seg>)
    ensures Input(false, k, d, 0).snd.nxt == k.snd.nxt
  {
    InputSegsNext(k, NoAck, d);
    hide InputSegs, Grown, CountSkips;
  }

  lemma FlushedSender(w: bool, k: Kcp)
    requires k.updated
    ensures Flush(w, k).0.snd.nxt == Filled(w, k).nxt && |Flush(w, k).0.snd.buf| == |Filled(w, k).buf|
  {
    hide Visit, Pack, FlushSegs, CountWhy, Filled, Reduced, ProbeTimer, HitsDeadLink;
  }

  lemma NumbersNone(k: Kcp, now: u32)
    requires k.rmtWnd == 0 && k.snd.una == k.snd.nxt
    ensures Update(false, k, now).0.snd.nxt == k.snd.nxt
  {
    DueIff(k, now);
    var k1 := Tick(k, now).0;
    hide Flush, Filled, Tick, FlushDue;
    var m := FilledIs(false, k1);
    FlushedSender(false, k1);
    assert m > 0 ==> InWindow(false, k.snd.una, Window(k1), Number(false, k.snd.nxt, 0));
  }

  // ---- sent again ----------------------------------------------------------------------------

  lemma Positive(n: Net)
    requires Inv(n)
    ensures n.a.k.mss > 0 && n.b.k.mss > 0
  {}

  /** Entry `i` of snd_buf holds number `x`, and if it was never sent or its timer has run out at
      `now`, then segment `p` of the datagram `d` that goes out at `now` is this number with
      the fragment that was accepted under it. */
  ghost predicate Resends(n: Net, now: u32, x: int, i: nat, d: seq<Seg>, p: nat) {
    var k := n.a.k;
    && i < |k.snd.buf| && k.snd.buf[i].seg.sn == x && k.mss > 0
    && (k.snd.buf[i].xmit == 0 || S32(now - k.snd.buf[i].resendts) >= 0 ==>
          && d in Update(false, k, now).1 && d in Act(n.a, Clock(now)).out
          && p < |d| && d[p].cmd == CMD_PUSH && d[p].sn == x && IsAccepted(n.a, x, d[p].body))
  }

  /** The fragment under number `x` of everything accepted is `f`. */
  ghost predicate IsAccepted(p: Peer, x: int, f: Frag) {
    Sendable(p.k.mss, p.accepted) && 0 <= x < |FragAll(p.k.mss, p.accepted)| && f == FragAll(p.k.mss, p.accepted)[x]
  }

  /** Over every run: a number that was sent and not received is in snd_buf, and the first flush
      at or after its timer puts it on the network again. */
  lemma SentAgain(ns: seq<Net>, now: u32, x: int) returns (i: nat, d: seq<Seg>, p: nat)
    requires Run(ns)
    requires var n := ns[|ns| - 1]; 0 <= x < n.a.k.snd.nxt && !Got(n.b.k.rcv, x) && FlushDue(n.a.k, now)
    ensures Resends(ns[|ns| - 1], now, x, i, d, p)
  {
    var n := ns[|ns| - 1];
    RunInv(ns);
    i := HeldBySender(n, x);
    Positive(n);
    hide *;
    d, p := ResendsAt(n, now, x, i);
  }

  lemma ResendsAt(n: Net, now: u32, x: int, i: nat) returns (d: seq<Seg>, p: nat)
    requires n.a.k.mss > 0 && FlushDue(n.a.k, now) && i < |n.a.k.snd.buf|
    requires var s := n.a.k.snd.buf[i].seg; s.sn == x && s.cmd == CMD_PUSH && IsAccepted(n.a, x, s.body)
    ensures Resends(n, now, x, i, d, p)
  {
    hide Update, Act, IsAccepted;
    d, p := [], 0;
    if n.a.k.snd.buf[i].xmit == 0 || S32(now - n.a.k.snd.buf[i].resendts) >= 0 {
      var j;
      j, p := SendsEntry(n.a.k, now, i);
      d := Update(false, n.a.k, now).1[j];
      OutOfClock(n.a, now, j);
    }
  }

  lemma OutOfClock(p: Peer, now: u32, j: nat)
    requires p.k.mss > 0 && j < |Update(false, p.k, now).1|
    ensures Update(false, p.k, now).1[j] in Act(p, Clock(now)).out
  {
    hide Update;
  }

  lemma HeldBySender(n: Net, x: int) returns (i: nat)
    requires Inv(n) && 0 <= x < n.a.k.snd.nxt && !Got(n.b.k.rcv, x)
    ensures i < |n.a.k.snd.buf| && var s := n.a.k.snd.buf[i].seg; s.sn == x && s.cmd == CMD_PUSH && IsAccepted(n.a, x, s.body)
  {
    assert x in SndSns(n.a.k.snd.buf);
    i := SndSnsWitness(n.a.k.snd.buf, x);
  }

  // ---- acknowledged --------------------------------------------------------------------------

  /** A segment that acknowledges number `x`: all below its una, and the one an ack names. */
  predicate Takes(s: Seg, x: int) { s.una > x || (s.cmd == CMD_ACK && s.sn == x) }

  lemma {:induction false} DropExactly(buf: seq<Sent>, una: int, nxt: int, log: seq<Frag>, x: int)
    requires SndBufOk(buf, nxt, log)
    ensures x in SndSns(DropBelow(false, buf, una)) <==> x in SndSns(buf) && una <= x
    decreases |buf|
  {
    if buf != [] {
      if una > buf[0].seg.sn {
        DropExactly(buf[1..], una, nxt, log, x);
      } else if x in SndSns(buf) {
        var i := SndSnsWitness(buf, x);
        assert i > 0 ==> buf[0].seg.sn < buf[i].seg.sn;
      }
    }
  }

  lemma {:induction false} RemoveExactly(buf: seq<Sent>, sn: int, nxt: int, log: seq<Frag>, x: int)
    requires SndBufOk(buf, nxt, log)
    ensures x in SndSns(RemoveSn(false, buf, sn)) <==> x in SndSns(buf) && x != sn
    decreases |buf|
  {
    if buf != [] {
      if sn > buf[0].seg.sn {
        RemoveExactly(buf[1..], sn, nxt, log, x);
      } else {
        var rest := if sn == buf[0].seg.sn then buf[1..] else buf;
        if sn in SndSns(rest) { var i := SndSnsWitness(rest, sn); }
      }
    }
  }

  lemma NotInFlight(s: Sender, x: int, log: seq<Frag>)
    requires SenderOk(s, log) && OutsideFlight(false, s, x)
    ensures x !in SndSns(s.buf)
  {
    if x in SndSns(s.buf) { var i := SndSnsWitness(s.buf, x); }
  }

  lemma SegRemoves(s: Sender, seg: Seg, log: seq<Frag>, x: int)
    requires SenderOk(s, log)
    ensures x in SndSns(SenderInput(false, s, seg).buf) <==> x in SndSns(s.buf) && !Takes(seg, x)
  {
    DropBelowOk(s.buf, seg.una, s.nxt, log);
    DropExactly(s.buf, seg.una, s.nxt, log, x);
    var s1 := Shrink(ParseUna(false, s, seg.una));
    assert SenderOk(s1, log);
    if OutsideFlight(false, s1, seg.sn) { NotInFlight(s1, seg.sn, log); } else { RemoveExactly(s1.buf, seg.sn, s1.nxt, log, x); }
  }

  lemma {:induction false} SegsRemove(k: Kcp, m: MaxAck, segs: seq<Seg>, peer: Receiver, log: seq<Frag>, x: int)
    requires SenderOk(k.snd, log) && NoLoss(k.snd, peer) && AllFeedbackOk(segs, peer)
    ensures x in SndSns(InputSegs(false, k, m, segs).0.snd.buf)
      <==> x in SndSns(k.snd.buf) && forall p :: 0 <= p < |segs| ==> !Takes(segs[p], x)
    decreases |segs|
  {
    hide ReceiverInput, SenderInput, Estimate, S32, FeedbackOk, NoLoss, SenderOk, Takes;
    if segs != [] {
      SenderInputOk(k.snd, segs[0], peer, log);
      SegRemoves(k.snd, segs[0], log, x);
      SegsRemove(InputSeg(false, k, segs[0]), Later(false, m, segs[0]), segs[1..], peer, log, x);
      assert (forall p :: 0 <= p < |segs| ==> !Takes(segs[p], x))
        <==> !Takes(segs[0], x) && forall p :: 0 <= p < |segs[1..]| ==> !Takes(segs[1..][p], x)
      by {
        if forall p :: 0 <= p < |segs[1..]| ==> !Takes(segs[1..][p], x) {
          forall p | 0 < p < |segs| ensures !Takes(segs[p], x) { assert !Takes(segs[1..][p - 1], x); }
        }
      }
    }
  }

  /** Exactly the numbers that a segment of the datagram acknowledges leave snd_buf. */
  lemma InputRemoves(n: Net, d: seq<Seg>, x: int)
    requires Inv(n) && d in n.b.out
    ensures x in SndSns(Input(false, n.a.k, d, 0).snd.buf)
      <==> x in SndSns(n.a.k.snd.buf) && forall p :: 0 <= p < |d| ==> !Takes(d[p], x)
  {
    var log := FragAll(n.a.k.mss, n.a.accepted);
    FeedbackHolds(n, d);
    hide Inv, FragAll, SenderOk, NoLoss, AllFeedbackOk, InputSegs, Grown, CountSkips, SndSns, Takes;
    SegsRemove(n.a.k, NoAck, d, n.b.k.rcv, log, x);
    var (k1, m) := InputSegs(false, n.a.k, NoAck, d);
    if m.Highest? {
      CountSkipsSame(false, k1.snd.buf, m.sn);
      SamePayloadSns(k1.snd.buf, CountSkips(false, k1.snd.buf, m.sn));
    }
  }

  lemma FeedbackHolds(n: Net, d: seq<Seg>)
    requires Inv(n) && d in n.b.out
    ensures Sendable(n.a.k.mss, n.a.accepted) && AllFeedbackOk(d, n.b.k.rcv) && NoLoss(n.a.k.snd, n.b.k.rcv)
    ensures SenderOk(n.a.k.snd, FragAll(n.a.k.mss, n.a.accepted))
  {}

  // ---- passed over -----------------------------------------------------------------------------

  /** The datagram acknowledges a number above `x` by name. */
  predicate AckAbove(d: seq<Seg>, x: int) { exists p :: 0 <= p < |d| && d[p].cmd == CMD_ACK && d[p].sn > x }

  lemma {:induction false} HighestIs(k: Kcp, m: MaxAck, segs: seq<Seg>, x: int)
    ensures var m' := InputSegs(false, k, m, segs).1;
      (m'.Highest? && m'.sn > x) <==> (m.Highest? && m.sn > x) || AckAbove(segs, x)
    decreases |segs|
  {
    hide ReceiverInput, SenderInput, Estimate, S32;
    if segs != [] {
      HighestIs(InputSeg(false, k, segs[0]), Later(false, m, segs[0]), segs[1..], x);
      if AckAbove(segs[1..], x) {
        var p :| 0 <= p < |segs[1..]| && segs[1..][p].cmd == CMD_ACK && segs[1..][p].sn > x;
        assert segs[p + 1].cmd == CMD_ACK && segs[p + 1].sn > x;
      }
      if AckAbove(segs, x) && !(segs[0].cmd == CMD_ACK && segs[0].sn > x) {
        var p :| 0 <= p < |segs| && segs[p].cmd == CMD_ACK && segs[p].sn > x;
        assert segs[1..][p - 1].cmd == CMD_ACK && segs[1..][p - 1].sn > x;
      }
    }
  }

  /** The entries left are as they were. */
  lemma {:induction false} SegsKeep(k: Kcp, m: MaxAck, segs: seq<Seg>, e: Sent)
    requires e in InputSegs(false, k, m, segs).0.snd.buf
    ensures e in k.snd.buf
    decreases |segs|
  {
    hide ReceiverInput, Estimate, S32, DropBelow, RemoveSn;
    if segs != [] {
      SegsKeep(InputSeg(false, k, segs[0]), Later(false, m, segs[0]), segs[1..], e);
      var d := DropBelow(false, k.snd.buf, segs[0].una);
      if e in RemoveSn(false, d, segs[0].sn) { RemoveKeeps(d, segs[0].sn, e); }
      if e in d { DropKeeps(k.snd.buf, segs[0].una, e); }
    }
  }

  lemma {:induction false} DropKeeps(buf: seq<Sent>, una: int, e: Sent)
    requires e in DropBelow(false, buf, una)
    ensures e in buf
    decreases |buf|
  {
    if buf != [] && una > buf[0].seg.sn { DropKeeps(buf[1..], una, e); }
  }

  lemma {:induction false} RemoveKeeps(buf: seq<Sent>, sn: int, e: Sent)
    requires e in RemoveSn(false, buf, sn)
    ensures e in buf
    decreases |buf|
  {
    if sn > buf[0].seg.sn && e != buf[0] { RemoveKeeps(buf[1..], sn, e); }
  }

  /** One more skip for an entry that was passed over. */
  function Skipped(e: Sent, over: bool): Sent { if over then e.(fastack := U32(e.fastack + 1)) else e }

  lemma {:induction false} SkipsOf(buf: seq<Sent>, sn: int, nxt: int, log: seq<Frag>, e: Sent)
    requires SndBufOk(buf, nxt, log) && e in CountSkips(false, buf, sn)
    ensures exists o :: o in buf && e == Skipped(o, o.seg.sn < sn)
    decreases |buf|
  {
    if sn < buf[0].seg.sn {
      var i :| 0 <= i < |buf| && buf[i] == e;
      assert i > 0 ==> buf[0].seg.sn < buf[i].seg.sn;
      assert e == Skipped(e, e.seg.sn < sn);
    } else {
      var first := if sn == buf[0].seg.sn then buf[0] else buf[0].(fastack := U32(buf[0].fastack + 1));
      if e == first {
        assert e == Skipped(buf[0], buf[0].seg.sn < sn);
      } else {
        assert e in CountSkips(false, buf[1..], sn);
        SkipsOf(buf[1..], sn, nxt, log, e);
        var o :| o in buf[1..] && e == Skipped(o, o.seg.sn < sn);
        assert o in buf;
      }
    }
  }

  /** An entry that stays counts one more skip if and only if the datagram acknowledges a higher
      number by name; that is what brings a segment to be sent before its timer. */
  lemma PassedOver(n: Net, d: seq<Seg>, e: Sent)
    requires Inv(n) && d in n.b.out && e in Input(false, n.a.k, d, 0).snd.buf
    ensures exists o :: o in n.a.k.snd.buf && e == Skipped(o, AckAbove(d, o.seg.sn))
  {
    var log := FragAll(n.a.k.mss, n.a.accepted);
    FeedbackHolds(n, d);
    var (k1, m) := InputSegs(false, n.a.k, NoAck, d);
    SegsSenderOk(n.a.k, NoAck, d, n.b.k.rcv, log);
    InputBuf(n.a.k, d);
    hide Inv, FragAll, NoLoss, AllFeedbackOk, InputSegs, Input, CountSkips, AckAbove;
    var o := e;
    if m.Highest? && !OutsideFlight(false, k1.snd, m.sn) {
      SkipsOf(k1.snd.buf, m.sn, k1.snd.nxt, log, e);
      o :| o in k1.snd.buf && e == Skipped(o, o.seg.sn < m.sn);
    }
    SegsKeep(n.a.k, NoAck, d, o);
    HighestIs(n.a.k, NoAck, d, o.seg.sn);
    if m.Highest? && OutsideFlight(false, k1.snd, m.sn) { BelowFlight(n, k1.snd, d, m, o, log); }
  }

  lemma InputBuf(k: Kcp, d: seq<Seg>)
    ensures var (k1, m) := InputSegs(false, k, NoAck, d);
      Input(false, k, d, 0).snd.buf
        == if m.Highest? && !OutsideFlight(false, k1.snd, m.sn) then CountSkips(false, k1.snd.buf, m.sn) else k1.snd.buf
  {
    hide InputSegs, Grown, CountSkips, OutsideFlight, Diff;
  }

  lemma {:induction false} SegsSenderOk(k: Kcp, m: MaxAck, segs: seq<Seg>, peer: Receiver, log: seq<Frag>)
    requires SenderOk(k.snd, log) && NoLoss(k.snd, peer) && AllFeedbackOk(segs, peer)
    ensures var (k1, m1) := InputSegs(false, k, m, segs);
      SenderOk(k1.snd, log) && k1.snd.nxt == k.snd.nxt && (m1.Highest? ==> m1 == m || Got(peer, m1.sn))
    decreases |segs|
  {
    hide ReceiverInput, SenderInput, Estimate, S32, Got, NoLoss, SenderOk;
    if segs != [] {
      SenderInputOk(k.snd, segs[0], peer, log);
      SegsSenderOk(InputSeg(false, k, segs[0]), Later(false, m, segs[0]), segs[1..], peer, log);
      assert FeedbackOk(segs[0], peer);
    }
  }

  /** An acknowledged number outside the flight is below it. */
  lemma BelowFlight(n: Net, s: Sender, d: seq<Seg>, m: MaxAck, o: Sent, log: seq<Frag>)
    requires Inv(n) && m.Highest? && Got(n.b.k.rcv, m.sn) && OutsideFlight(false, s, m.sn) && SenderOk(s, log) && s.nxt == n.a.k.snd.nxt
    requires o in s.buf
    ensures m.sn <= o.seg.sn
  {
    var i :| 0 <= i < |s.buf| && s.buf[i] == o;
    if m.sn in RcvSns(n.b.k.rcv.buf) { var j := RcvSnsWitness(n.b.k.rcv.buf, m.sn); }
  }

  /** A data segment in front of the window's end is put on the list of acknowledgements. */
  lemma {:induction false} PairOf(k: Kcp, segs: seq<Seg>, n: nat, p: nat)
    requires p < n <= |segs| && segs[p].cmd == CMD_PUSH
    requires var r := Reached(false, k, segs, p).rcv; segs[p].sn < r.nxt + r.wnd
    ensures Ack(segs[p].sn, segs[p].ts) in Pairs(false, k, segs, n)
    decreases n
  {
    hide Reached;
    if p < n - 1 { PairOf(k, segs, n - 1, p); }
  }

  lemma {:induction false} AnswerOf(k: Kcp, acks: seq<Ack>, a: Ack)
    requires a in acks
    ensures Command(k, CMD_ACK, a) in Answers(k, acks)
    decreases |acks|
  {
    if a != acks[0] { AnswerOf(k, acks[1..], a); }
  }

  /** The next flush then sends the acknowledgement. */
  lemma AckGoesOut(k: Kcp, now: u32, a: Ack) returns (j: nat, p: nat)
    requires a in k.rcv.acks && FlushDue(k, now)
    ensures var ds := Update(false, k, now).1;
      j < |ds| && p < |ds[j]| && ds[j][p].cmd == CMD_ACK && ds[j][p].sn == a.sn && ds[j][p].ts == a.ts
  {
    DueIff(k, now);
    var k1 := Tick(k, now).0;
    var ds := Flush(false, k1).1;
    hide Flush, Filled, Tick;
    FlushSends(false, k1);
    AnswerOf(k1, k.rcv.acks, a);
    j := InDatagram(ds, Command(k1, CMD_ACK, a));
    p :| 0 <= p < |ds[j]| && ds[j][p] == Command(k1, CMD_ACK, a);
  }

  /** Over every run: a data segment in front of the window's end that is delivered is received;
      the receiver's next flush puts a datagram on the network that acknowledges it; and when
      that one is delivered, the number is no longer in the sender's snd_buf. */
  lemma Acknowledged(ns: seq<Net>, d: seq<Seg>, p: nat, now: u32) returns (n1: Net, n2: Net, e: seq<Seg>, n3: Net)
    requires Run(ns) && d in ns[|ns| - 1].a.out && p < |d| && d[p].cmd == CMD_PUSH
    requires var n := ns[|ns| - 1]; d[p].sn < n.b.k.rcv.nxt + n.b.k.rcv.wnd && n.b.k.mss > 0 && FlushDue(Act(n.b, Deliver(d)).k, now)
    ensures var n := ns[|ns| - 1];
      && n1 == n.(b := Act(n.b, Deliver(d))) && Got(n1.b.k.rcv, d[p].sn)
      && n1.b.k.mss > 0 && n2 == n1.(b := Act(n1.b, Clock(now))) && e in n2.b.out
      && (exists q :: 0 <= q < |e| && e[q].cmd == CMD_ACK && e[q].sn == d[p].sn && e[q].ts == d[p].ts)
      && n2.a.k.mss > 0 && n3 == n2.(a := Act(n2.a, Deliver(e))) && d[p].sn !in SndSns(n3.a.k.snd.buf)
  {
    var n := ns[|ns| - 1];
    RunInv(ns);
    n1 := DeliversB(n, d);
    var a := Ack(d[p].sn, d[p].ts);
    GetsAcknowledged(n, d, p);
    GotAcknowledged(n1, a);
    hide *;
    var j, q := AckGoesOut(n1.b.k, now, a);
    n2 := TicksB(n1, now, j);
    e := Update(false, n1.b.k, now).1[j];
    n3 := DeliversA(n2, e);
    InputRemoves(n2, e, d[p].sn);
  }

  lemma DeliversB(n: Net, d: seq<Seg>) returns (n': Net)
    requires Inv(n) && d in n.a.out
    ensures n.b.k.mss > 0 && n' == n.(b := Act(n.b, Deliver(d))) && Inv(n') && n'.b.k == Input(false, n.b.k, d, 0)
    ensures n'.b.k.mss > 0
  {
    Positive(n);
    StepKeeps(n.b, n.a, Deliver(d));
    hide Channel, Input;
    n' := n.(b := Act(n.b, Deliver(d)));
    Positive(n');
  }

  lemma DeliversA(n: Net, d: seq<Seg>) returns (n': Net)
    requires Inv(n) && d in n.b.out
    ensures n.a.k.mss > 0 && n' == n.(a := Act(n.a, Deliver(d))) && n'.a.k == Input(false, n.a.k, d, 0)
  {
    Positive(n);
    hide Channel, Input;
    n' := n.(a := Act(n.a, Deliver(d)));
  }

  lemma TicksB(n: Net, now: u32, j: nat) returns (n': Net)
    requires Inv(n) && j < |Update(false, n.b.k, now).1|
    ensures n.b.k.mss > 0 && n' == n.(b := Act(n.b, Clock(now))) && Inv(n') && Update(false, n.b.k, now).1[j] in n'.b.out
  {
    Positive(n);
    StepKeeps(n.b, n.a, Clock(now));
    OutOfClock(n.b, now, j);
    hide Channel, Act;
    n' := n.(b := Act(n.b, Clock(now)));
  }

  lemma GetsAcknowledged(n: Net, d: seq<Seg>, p: nat)
    requires Inv(n) && d in n.a.out && p < |d| && d[p].cmd == CMD_PUSH && d[p].sn < n.b.k.rcv.nxt + n.b.k.rcv.wnd
    ensures Ack(d[p].sn, d[p].ts) in Input(false, n.b.k, d, 0).rcv.acks
  {
    RisesWithin(n, d, p);
    hide Inv, Input, Reached;
    PairOf(n.b.k, d, |d|, p);
    InputAcknowledges(false, n.b.k, d, 0);
  }

  lemma GotAcknowledged(n: Net, a: Ack)
    requires Inv(n) && a in n.b.k.rcv.acks
    ensures Got(n.b.k.rcv, a.sn)
  {}

  lemma RisesWithin(n: Net, d: seq<Seg>, i: nat)
    requires Inv(n) && d in n.a.out && i <= |d|
    ensures var r := Reached(false, n.b.k, d, i).rcv; r.nxt >= n.b.k.rcv.nxt && r.wnd == n.b.k.rcv.wnd
  {
    var log := FragAll(n.a.k.mss, n.a.accepted);
    var sent, taken := log[..n.a.k.snd.nxt], Start(n.a.k.mss, n.a.accepted, |n.b.received|);
    assert AllDataOk(d, n.a.k.snd.nxt, log);
    DataWithin(d, n.a.k.snd.nxt, log);
    assert AllDataOk(d[..i], |sent|, sent);
    hide Channel, SenderOk, NoLoss, OutOk, InputSegs, FragAll;
    NeverBack(n.b.k, NoAck, d[..i], sent, taken);
    InputSegsWnd(n.b.k, NoAck, d[..i]);
  }

  // ---- windows that the header cannot hold ---------------------------------------------------

  /** The window a segment announces is the free part of the receive window if and only if that
      is below 2^16. */
  lemma RoomIff(w: bool, k: Kcp, j: nat, s: Seg)
    requires k.updated && j < |Flush(w, k).1| && s in Flush(w, k).1[j] && |k.rcv.queue| <= k.rcv.wnd
    ensures s.wnd == k.rcv.wnd - |k.rcv.queue| <==> k.rcv.wnd - |k.rcv.queue| < 0x1_0000
  {
    FlushStamped(w, k, j, s);
    hide Flush;
  }

  /** An empty receive window of 2^16 fragments is announced as closed: once the sender has
      everything acknowledged, its flush numbers nothing. */
  lemma WideWindowCloses(n: Net, now: u32, j: nat, later: u32)
    requires Inv(n) && n.b.k.rcv.wnd == 0x1_0000 && n.b.k.rcv.queue == [] && n.b.k.rcv.nxt == n.a.k.snd.nxt
    requires FlushDue(n.b.k, now) && j < |Update(false, n.b.k, now).1| && Update(false, n.b.k, now).1[j] != []
    ensures var k := Input(false, n.a.k, Update(false, n.b.k, now).1[j], 0);
      k.rmtWnd == 0 && k.snd.nxt == n.a.k.snd.nxt && Update(false, k, later).0.snd.nxt == k.snd.nxt
  {
    var d := Update(false, n.b.k, now).1[j];
    DueIff(n.b.k, now);
    var k1 := Tick(n.b.k, now).0;
    forall p | 0 <= p < |d| ensures d[p].una == n.a.k.snd.nxt && d[p].wnd == 0 { FlushStamped(false, k1, j, d[p]); }
    EmptiesSndBuf(n.a.k, d, n.a.k.snd.nxt, 0, FragAll(n.a.k.mss, n.a.accepted));
    SameNext(n.a.k, d);
    var k := Input(false, n.a.k, d, 0);
    InputUna(n.a.k, d);
    hide Input, Inv;
    NumbersNone(k, later);
  }

  /** With snd_buf empty, snd_una is snd_nxt. */
  lemma InputUna(k: Kcp, d: seq<Seg>)
    requires d != [] && Input(false, k, d, 0).snd.buf == []
    ensures Input(false, k, d, 0).snd.una == Input(false, k, d, 0).snd.nxt
  {
    InputSegsUna(k, NoAck, d);
    var (k1, m) := InputSegs(false, k, NoAck, d);
    if m.Highest? { CountSkipsSame(false, k1.snd.buf, m.sn); }
    hide InputSegs, Grown, CountSkips;
  }

  lemma {:induction false} InputSegsUna(k: Kcp, m: MaxAck, segs: seq<Seg>)
    requires segs != []
    ensures var s := InputSegs(false, k, m, segs).0.snd; s.buf == [] ==> s.una == s.nxt
    decreases |segs|
  {
    hide ReceiverInput, Estimate, S32, DropBelow, RemoveSn;
    if |segs| > 1 { InputSegsUna(InputSeg(false, k, segs[0]), Later(false, m, segs[0]), segs[1..]); }
  }
}

/** One direction of a KCP connection: what the sending half and the receiving half
    keep, for sequence numbers that do not wrap.

    `log` is the fragment given to each sequence number, `taken` how many fragments
    the receiving application has consumed. */
module KcpDirection {
  import opened Words
  import opened KcpTypes
  import opened KcpSpec

  // ---- invariants --------------------------------------------------------

  ghost predicate SndBufOk(buf: seq<Sent>, nxt: int, log: seq<Frag>) {
    && (forall i :: 0 <= i < |buf| ==>
          && 0 <= buf[i].seg.sn < nxt <= |log|
          && buf[i].seg.cmd == CMD_PUSH && buf[i].seg.body == log[buf[i].seg.sn])
    && (forall i, j :: 0 <= i < j < |buf| ==> buf[i].seg.sn < buf[j].seg.sn)
  }

  /** The sequence numbers held in snd_buf. */
  ghost function SndSns(buf: seq<Sent>): set<int> {
    if buf == [] then {} else {buf[0].seg.sn} + SndSns(buf[1..])
  }

  /** snd_una is the head of snd_buf, or snd_nxt when nothing is in flight. */
  ghost predicate SenderOk(s: Sender, log: seq<Frag>) {
    && 0 <= s.nxt <= |log| && s.queue == log[s.nxt..]
    && SndBufOk(s.buf, s.nxt, log)
    && s.una == (if s.buf == [] then s.nxt else s.buf[0].seg.sn)
  }

  ghost predicate RcvBufOk(buf: seq<Seg>, lo: int, hi: int, log: seq<Frag>) {
    && (forall i :: 0 <= i < |buf| ==>
          lo <= buf[i].sn < hi && 0 <= buf[i].sn < |log| && buf[i].body == log[buf[i].sn])
    && (forall i, j :: 0 <= i < j < |buf| ==> buf[i].sn < buf[j].sn)
  }

  /** The sequence numbers held in rcv_buf. */
  ghost function RcvSns(buf: seq<Seg>): set<int> {
    if buf == [] then {} else {buf[0].sn} + RcvSns(buf[1..])
  }

  /** Sequence number `x` reached the receiver: queued or consumed, or buffered. */
  ghost predicate Got(r: Receiver, x: int) {
    0 <= x < r.nxt || x in RcvSns(r.buf)
  }

  ghost predicate AcksOk(r: Receiver) {
    forall i :: 0 <= i < |r.acks| ==> Got(r, r.acks[i].sn)
  }

  /** rcv_queue is the next stretch of the log, rcv_buf ascends inside the window. */
  ghost predicate ReceiverOk(r: Receiver, log: seq<Frag>, taken: int) {
    && 0 <= taken <= r.nxt <= |log| && r.queue == log[taken..r.nxt] && |r.queue| <= r.wnd
    && RcvBufOk(r.buf, r.nxt, r.nxt + r.wnd, log)
    && AcksOk(r)
  }

  /** Whatever was sent is either with the receiver or still held by the sender. */
  ghost predicate NoLoss(s: Sender, r: Receiver) {
    forall x :: 0 <= x < s.nxt ==> Got(r, x) || x in SndSns(s.buf)
  }

  ghost predicate DataOk(seg: Seg, nxt: int, log: seq<Frag>) {
    seg.cmd == CMD_PUSH ==> 0 <= seg.sn < nxt <= |log| && seg.body == log[seg.sn]
  }

  ghost predicate FeedbackOk(seg: Seg, r: Receiver) {
    0 <= seg.una <= r.nxt && (seg.cmd == CMD_ACK ==> Got(r, seg.sn))
  }

  ghost predicate AllDataOk(segs: seq<Seg>, nxt: int, log: seq<Frag>) {
    forall i :: 0 <= i < |segs| ==> DataOk(segs[i], nxt, log)
  }

  ghost predicate AllFeedbackOk(segs: seq<Seg>, r: Receiver) {
    forall i :: 0 <= i < |segs| ==> FeedbackOk(segs[i], r)
  }

  /** The receiver moved on from `r` to `r'` without forgetting anything. */
  ghost predicate Advances(r: Receiver, r': Receiver) {
    r.nxt <= r'.nxt && r'.wnd == r.wnd && forall x :: x in RcvSns(r.buf) ==> Got(r', x)
  }

  predicate SameConfig(k: Kcp, k': Kcp) {
    k'.mss == k.mss && k'.mtu == k.mtu && k'.conv == k.conv && k'.sndWnd == k.sndWnd
  }

  // ---- receiving half ------------------------------------------------------

  lemma {:induction false} RcvSnsAppend(a: seq<Seg>, b: seq<Seg>)
    ensures RcvSns(a + b) == RcvSns(a) + RcvSns(b)
    decreases |a|
  {
    if a == [] {
      assert a + b == b;
    } else {
      assert (a + b)[1..] == a[1..] + b;
      RcvSnsAppend(a[1..], b);
    }
  }

  lemma {:induction false} MoveReadyOk(r: Receiver, log: seq<Frag>, taken: int)
    requires ReceiverOk(r, log, taken)
    ensures ReceiverOk(MoveReady(false, r), log, taken) && Advances(r, MoveReady(false, r))
    decreases |r.buf|
  {
    if r.buf != [] && r.buf[0].sn == r.nxt && |r.queue| < r.wnd {
      var r1 := r.(buf := r.buf[1..], queue := r.queue + [r.buf[0].body], nxt := r.nxt + 1);
      assert log[taken..r.nxt + 1] == log[taken..r.nxt] + [log[r.nxt]];
      assert RcvSns(r.buf) == {r.nxt} + RcvSns(r1.buf);
      MoveReadyOk(r1, log, taken);
    }
  }

  lemma {:induction false} InsertSegSns(w: bool, buf: seq<Seg>, s: Seg)
    ensures RcvSns(InsertSeg(w, buf, s)) == RcvSns(buf) + {s.sn}
    decreases |buf|
  {
    if buf == [] {
    } else {
      var last := buf[|buf| - 1];
      var init := buf[..|buf| - 1];
      assert buf == init + [last];
      RcvSnsAppend(init, [last]);
      if last.sn == s.sn {
      } else if Diff(w, s.sn, last.sn) > 0 {
        RcvSnsAppend(buf, [s]);
      } else {
        InsertSegSns(w, init, s);
        RcvSnsAppend(InsertSeg(w, init, s), [last]);
      }
    }
  }

  lemma {:induction false} InsertSegOk(buf: seq<Seg>, s: Seg, lo: int, hi: int, log: seq<Frag>)
    requires RcvBufOk(buf, lo, hi, log)
    requires lo <= s.sn < hi && 0 <= s.sn < |log| && s.body == log[s.sn]
    ensures RcvBufOk(InsertSeg(false, buf, s), lo, hi, log)
    decreases |buf|
  {
    if buf != [] {
      var front, last := buf[..|buf| - 1], buf[|buf| - 1];
      if s.sn < last.sn {
        assert RcvBufOk(front, lo, last.sn, log);
        InsertSegOk(front, s, lo, last.sn, log);
        var r := InsertSeg(false, front, s);
        hide InsertSeg;
        assert forall i :: 0 <= i < |r| ==> (r + [last])[i] == r[i];
      }
    }
  }

  lemma ReceiverInputOk(r: Receiver, s: Seg, log: seq<Frag>, taken: int, nxt: int)
    requires ReceiverOk(r, log, taken) && DataOk(s, nxt, log)
    ensures ReceiverOk(ReceiverInput(false, r, s), log, taken) && Advances(r, ReceiverInput(false, r, s))
  {
    if s.cmd == CMD_PUSH && s.sn < r.nxt + r.wnd {
      var r1 := r.(acks := r.acks + [Ack(s.sn, s.ts)]);
      if s.sn >= r.nxt {
        InsertSegOk(r.buf, s, r.nxt, r.nxt + r.wnd, log);
        InsertSegSns(false, r.buf, s);
        MoveReadyOk(r1.(buf := InsertSeg(false, r.buf, s)), log, taken);
      }
    }
  }

  // ---- sending half --------------------------------------------------------

  lemma {:induction false} SndSnsAppend(a: seq<Sent>, b: seq<Sent>)
    ensures SndSns(a + b) == SndSns(a) + SndSns(b)
    decreases |a|
  {
    if a == [] {
      assert a + b == b;
    } else {
      assert (a + b)[1..] == a[1..] + b;
      SndSnsAppend(a[1..], b);
    }
  }

  lemma {:induction false} DropBelowOk(buf: seq<Sent>, una: int, nxt: int, log: seq<Frag>)
    requires SndBufOk(buf, nxt, log)
    ensures var d := DropBelow(false, buf, una);
      && SndBufOk(d, nxt, log)
      && (forall x :: x in SndSns(buf) && una <= x ==> x in SndSns(d))
      && (d != [] ==> buf != [] && buf[0].seg.sn <= d[0].seg.sn)
    decreases |buf|
  {
    if buf != [] && una > buf[0].seg.sn {
      DropBelowOk(buf[1..], una, nxt, log);
    }
  }

  lemma {:induction false} RemoveSnSns(w: bool, buf: seq<Sent>, sn: int)
    ensures SndSns(buf) - {sn} <= SndSns(RemoveSn(w, buf, sn))
    decreases |buf|
  {
    if buf != [] { RemoveSnSns(w, buf[1..], sn); }
  }

  lemma {:induction false} RemoveSnOk(buf: seq<Sent>, sn: int, nxt: int, log: seq<Frag>)
    requires SndBufOk(buf, nxt, log)
    ensures var d := RemoveSn(false, buf, sn);
      && SndBufOk(d, nxt, log)
      && (d != [] ==> buf != [] && buf[0].seg.sn <= d[0].seg.sn)
    decreases |buf|
  {
    if buf != [] && sn > buf[0].seg.sn {
      var t := RemoveSn(false, buf[1..], sn);
      RemoveSnOk(buf[1..], sn, nxt, log);
      forall i | 0 <= i < |t| ensures buf[0].seg.sn < t[i].seg.sn {
        assert buf[0].seg.sn < buf[1].seg.sn <= t[0].seg.sn <= t[i].seg.sn;
      }
    }
  }

  /** Two buffers that differ in bookkeeping only. */
  ghost predicate SamePayload(a: seq<Sent>, b: seq<Sent>) {
    |a| == |b| && forall i :: 0 <= i < |a| ==>
      a[i].seg.sn == b[i].seg.sn && a[i].seg.body == b[i].seg.body && a[i].seg.cmd == b[i].seg.cmd
  }

  lemma {:induction false} SamePayloadSns(a: seq<Sent>, b: seq<Sent>)
    requires SamePayload(a, b)
    ensures SndSns(a) == SndSns(b)
    decreases |a|
  {
    if a != [] { SamePayloadSns(a[1..], b[1..]); }
  }

  lemma {:induction false} CountSkipsSame(w: bool, buf: seq<Sent>, sn: int)
    ensures SamePayload(buf, CountSkips(w, buf, sn))
    decreases |buf|
  {
    if buf != [] && Diff(w, sn, buf[0].seg.sn) >= 0 {
      CountSkipsSame(w, buf[1..], sn);
      assert buf == [buf[0]] + buf[1..];
    }
  }

  lemma {:induction false} VisitAllSame(k: Kcp, buf: seq<Sent>)
    ensures SamePayload(buf, VisitAll(k, buf))
    decreases |buf|
  {
    if buf != [] {
      VisitAllSame(k, buf[1..]);
      assert buf == [buf[0]] + buf[1..];
    }
  }

  lemma SenderInputOk(s: Sender, seg: Seg, r: Receiver, log: seq<Frag>)
    requires SenderOk(s, log) && NoLoss(s, r) && FeedbackOk(seg, r)
    ensures var s' := SenderInput(false, s, seg);
      SenderOk(s', log) && NoLoss(s', r) && s'.nxt == s.nxt && s.una <= s'.una
  {
    DropBelowOk(s.buf, seg.una, s.nxt, log);
    var s1 := Shrink(ParseUna(false, s, seg.una));
    assert NoLoss(s1, r);
    if seg.cmd == CMD_ACK {
      RemoveSnOk(s1.buf, seg.sn, s.nxt, log);
      RemoveSnSns(false, s1.buf, seg.sn);
    }
  }

  // ---- ikcp_input as a whole -------------------------------------------------

  lemma AdvancesTransitive(a: Receiver, b: Receiver, c: Receiver)
    requires Advances(a, b) && Advances(b, c)
    ensures Advances(a, c)
  {}

  lemma {:induction false} InputSegsOk(k: Kcp, m: MaxAck, segs: seq<Seg>,
                                       log: seq<Frag>, taken: int, nxt: int,
                                       peer: Receiver, out: seq<Frag>)
    requires ReceiverOk(k.rcv, log, taken) && AllDataOk(segs, nxt, log)
    requires SenderOk(k.snd, out) && NoLoss(k.snd, peer) && AllFeedbackOk(segs, peer)
    ensures var k' := InputSegs(false, k, m, segs).0;
      && ReceiverOk(k'.rcv, log, taken) && Advances(k.rcv, k'.rcv)
      && SenderOk(k'.snd, out) && NoLoss(k'.snd, peer) && k'.snd.nxt == k.snd.nxt && k.snd.una <= k'.snd.una
      && SameConfig(k, k')
    decreases |segs|
  {
    hide Estimate, S32, ReceiverOk, SenderOk, NoLoss, SenderInput, ReceiverInput;
    if segs != [] {
      ReceiverInputOk(k.rcv, segs[0], log, taken, nxt);
      SenderInputOk(k.snd, segs[0], peer, out);
      var k1 := InputSeg(false, k, segs[0]);
      InputSegsOk(k1, Later(false, m, segs[0]), segs[1..], log, taken, nxt, peer, out);
      AdvancesTransitive(k.rcv, k1.rcv, InputSegs(false, k, m, segs).0.rcv);
    }
  }

  lemma InputOk(k: Kcp, segs: seq<Seg>, code: int, log: seq<Frag>, taken: int, nxt: int,
                peer: Receiver, out: seq<Frag>)
    requires ReceiverOk(k.rcv, log, taken) && AllDataOk(segs, nxt, log)
    requires SenderOk(k.snd, out) && NoLoss(k.snd, peer) && AllFeedbackOk(segs, peer)
    ensures var k' := Input(false, k, segs, code);
      && ReceiverOk(k'.rcv, log, taken) && Advances(k.rcv, k'.rcv)
      && SenderOk(k'.snd, out) && NoLoss(k'.snd, peer) && k'.snd.nxt == k.snd.nxt && k.snd.una <= k'.snd.una
      && SameConfig(k, k')
  {
    hide Grown, InputSegs, ReceiverOk, Advances, SenderOk, NoLoss, CountSkips;
    InputSegsOk(k, NoAck, segs, log, taken, nxt, peer, out);
    var (k1, m) := InputSegs(false, k, NoAck, segs);
    if m.Highest? { SkipsOk(k1.snd, m.sn, out, peer); }
  }

  /** Counting skips changes no segment. */
  lemma SkipsOk(s: Sender, sn: int, log: seq<Frag>, peer: Receiver)
    requires SenderOk(s, log) && NoLoss(s, peer)
    ensures var s' := s.(buf := CountSkips(false, s.buf, sn)); SenderOk(s', log) && NoLoss(s', peer)
  {
    CountSkipsSame(false, s.buf, sn);
    SamePayloadSns(s.buf, CountSkips(false, s.buf, sn));
    hide CountSkips;
  }

  // ---- ikcp_flush --------------------------------------------------------------

  lemma {:induction false} MoveOutOk(k: Kcp, s: Sender, cwnd: u32, log: seq<Frag>, r: Receiver)
    requires SenderOk(s, log) && NoLoss(s, r)
    ensures var s' := MoveOut(false, k, s, cwnd);
      && SenderOk(s', log) && NoLoss(s', r) && s.nxt <= s'.nxt && s'.una == s.una
      && s'.nxt <= Max(s.nxt, s.una + cwnd)
    decreases |s.queue|
  {
    if s.nxt < s.una + cwnd && s.queue != [] {
      var n := NewSent(k, s.nxt, s.queue[0]);
      SndSnsAppend(s.buf, [n]);
      MoveOutOk(k, s.(queue := s.queue[1..], buf := s.buf + [n], nxt := s.nxt + 1), cwnd, log, r);
    }
  }

  lemma {:induction false} DataSegsOk(k: Kcp, buf: seq<Sent>, nxt: int, log: seq<Frag>)
    requires SndBufOk(buf, nxt, log)
    ensures forall i :: 0 <= i < |DataSegs(k, buf)| ==>
      var s := DataSegs(k, buf)[i]; DataOk(s, nxt, log) && s.cmd == CMD_PUSH && s.una == k.rcv.nxt
    decreases |buf|
  {
    if buf != [] {
      DataSegsOk(k, buf[1..], nxt, log);
    }
  }

  lemma {:induction false} AckSegsAt(r: Receiver, acks: seq<Ack>)
    ensures |AckSegs(r, acks)| == |acks|
    ensures forall i :: 0 <= i < |acks| ==> AckSegs(r, acks)[i] == Header(r, CMD_ACK, acks[i])
    decreases |acks|
  {
    if acks != [] { AckSegsAt(r, acks[1..]); }
  }

  /** Everything one flush sends is data of the log and true feedback. */
  lemma FlushSegsOk(k: Kcp, log: seq<Frag>, peer: Receiver)
    requires SenderOk(k.snd, log) && NoLoss(k.snd, peer) && AcksOk(k.rcv) && k.rcv.nxt >= 0
    ensures AllDataOk(FlushSegs(false, k), Filled(false, k).nxt, log)
    ensures AllFeedbackOk(FlushSegs(false, k), k.rcv)
  {
    hide ProbeBackoff, MoveOut, AckSegs, DataSegs, SendWindow, NoLoss;
    MoveOutOk(k, k.snd, SendWindow(k), log, peer);
    var s := Filled(false, k);
    AckSegsAt(k.rcv, k.rcv.acks);
    DataSegsOk(k, s.buf, s.nxt, log);
    var a, p, d := AckSegs(k.rcv, k.rcv.acks), ProbeSegs(ProbeTimer(k)), DataSegs(k, s.buf);
    forall i | 0 <= i < |FlushSegs(false, k)|
      ensures DataOk(FlushSegs(false, k)[i], s.nxt, log) && FeedbackOk(FlushSegs(false, k)[i], k.rcv)
    {
      if i < |a| {
        assert FlushSegs(false, k)[i] == a[i] == Header(k.rcv, CMD_ACK, k.rcv.acks[i]);
      } else if i < |a| + |p| {
        assert FlushSegs(false, k)[i] == p[i - |a|];
      } else {
        assert FlushSegs(false, k)[i] == d[i - |a| - |p|];
      }
    }
  }

  lemma FlushOk(k: Kcp, log: seq<Frag>, peer: Receiver)
    requires SenderOk(k.snd, log) && NoLoss(k.snd, peer)
    ensures var k' := Flush(false, k).0;
      && SenderOk(k'.snd, log) && NoLoss(k'.snd, peer) && k'.snd.una == k.snd.una
      && k.snd.nxt <= k'.snd.nxt <= Max(k.snd.nxt, k.snd.una + SendWindow(k))
      && k'.rcv == (if k.updated then k.rcv.(acks := []) else k.rcv)
      && (k.updated ==> k'.snd.nxt == Filled(false, k).nxt)
      && SameConfig(k, k')
  {
    hide ProbeBackoff, MoveOut, AckSegs, DataSegs, SendWindow, Reduced, VisitAll, Pack, HitsDeadLink, CountWhy;
    if k.updated {
      MoveOutOk(k, k.snd, SendWindow(k), log, peer);
      var s := Filled(false, k);
      VisitAllSame(k, s.buf);
      SamePayloadSns(s.buf, VisitAll(k, s.buf));
    }
  }
}

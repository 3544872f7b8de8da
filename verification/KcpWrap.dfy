/** The code's 32-bit sequence numbers against numbers that do not wrap: as long as
    nothing compared is half the number space away, each operation on the wrapped
    control block is the wrapped result of the operation on the unbounded one. */
module KcpWrap {
  import opened Words
  import opened KcpTypes
  import opened KcpSpec
  import opened KcpWire

  // ---- wrapping a control block ----------------------------------------------

  function NarrowSents(buf: seq<Sent>): (r: seq<Sent>)
    ensures |r| == |buf|
  {
    if buf == [] then [] else [buf[0].(seg := Narrow(buf[0].seg))] + NarrowSents(buf[1..])
  }

  function NarrowAcks(acks: seq<Ack>): (r: seq<Ack>)
    ensures |r| == |acks|
  {
    if acks == [] then [] else [Ack(U32(acks[0].sn), acks[0].ts)] + NarrowAcks(acks[1..])
  }

  function NarrowSender(s: Sender): Sender {
    Sender(U32(s.una), U32(s.nxt), s.queue, NarrowSents(s.buf))
  }

  function NarrowReceiver(r: Receiver): Receiver {
    r.(nxt := U32(r.nxt), buf := NarrowAll(r.buf), acks := NarrowAcks(r.acks))
  }

  function NarrowKcp(k: Kcp): Kcp {
    k.(snd := NarrowSender(k.snd), rcv := NarrowReceiver(k.rcv))
  }

  function NarrowMax(m: MaxAck): MaxAck {
    if m.NoAck? then m else Highest(U32(m.sn))
  }

  // ---- when comparisons agree ------------------------------------------------

  predicate Near(a: int, b: int) { -HALF <= a - b < HALF }

  /** _itimediff of two wrapped numbers is their true difference exactly when that
      difference fits a signed 32-bit word. */
  lemma DiffNarrow(a: int, b: int)
    ensures Diff(true, U32(a), U32(b)) == a - b <==> Near(a, b)
  {
    assert U32(U32(a) - U32(b)) == U32(a - b);
    assert Near(a, b) ==> S32(a - b) == a - b;
  }

  lemma EqualNarrow(a: int, b: int)
    requires Near(a, b)
    ensures U32(a) == U32(b) <==> a == b
  {
    DiffNarrow(a, b);
  }

  lemma PlusNarrow(a: int, b: int)
    ensures Plus(true, U32(a), b) == U32(a + b)
  {}

  ghost predicate AllNear(buf: seq<Seg>, sn: int) {
    forall i :: 0 <= i < |buf| ==> Near(sn, buf[i].sn)
  }

  ghost predicate AllSentNear(buf: seq<Sent>, sn: int) {
    forall i :: 0 <= i < |buf| ==> Near(sn, buf[i].seg.sn)
  }

  // ---- receiving half ----------------------------------------------------------

  /** rcv_buf lies in the window and the window is less than half the space. */
  ghost predicate NarrowWindow(r: Receiver) {
    r.wnd < HALF && forall i :: 0 <= i < |r.buf| ==> r.nxt <= r.buf[i].sn < r.nxt + r.wnd
  }

  lemma {:induction false} NarrowAllAppend(a: seq<Seg>, b: seq<Seg>)
    ensures NarrowAll(a + b) == NarrowAll(a) + NarrowAll(b)
    decreases |a|
  {
    if a == [] {
      assert a + b == b;
    } else {
      assert (a + b)[1..] == a[1..] + b;
      NarrowAllAppend(a[1..], b);
    }
  }

  lemma {:induction false} NarrowAcksAppend(a: seq<Ack>, b: seq<Ack>)
    ensures NarrowAcks(a + b) == NarrowAcks(a) + NarrowAcks(b)
    decreases |a|
  {
    if a == [] {
      assert a + b == b;
    } else {
      assert (a + b)[1..] == a[1..] + b;
      NarrowAcksAppend(a[1..], b);
    }
  }

  lemma {:induction false} NarrowSentsAppend(a: seq<Sent>, b: seq<Sent>)
    ensures NarrowSents(a + b) == NarrowSents(a) + NarrowSents(b)
    decreases |a|
  {
    if a == [] {
      assert a + b == b;
    } else {
      assert (a + b)[1..] == a[1..] + b;
      NarrowSentsAppend(a[1..], b);
    }
  }

  lemma {:induction false} MoveReadyNarrow(r: Receiver)
    requires NarrowWindow(r)
    requires forall i, j :: 0 <= i < j < |r.buf| ==> r.buf[i].sn < r.buf[j].sn
    ensures MoveReady(true, NarrowReceiver(r)) == NarrowReceiver(MoveReady(false, r))
    decreases |r.buf|
  {
    if r.buf != [] {
      EqualNarrow(r.buf[0].sn, r.nxt);
      PlusNarrow(r.nxt, 1);
      if r.buf[0].sn == r.nxt && |r.queue| < r.wnd {
        var r1 := r.(buf := r.buf[1..], queue := r.queue + [r.buf[0].body], nxt := r.nxt + 1);
        MoveReadyNarrow(r1);
        var n := NarrowReceiver(r);
        assert n.(buf := n.buf[1..], queue := n.queue + [n.buf[0].body], nxt := Plus(true, n.nxt, 1)) == NarrowReceiver(r1);
      }
    }
  }

  lemma {:induction false} InsertSegNarrow(buf: seq<Seg>, s: Seg)
    requires AllNear(buf, s.sn)
    ensures InsertSeg(true, NarrowAll(buf), Narrow(s)) == NarrowAll(InsertSeg(false, buf, s))
    decreases |buf|
  {
    if buf != [] {
      var last := buf[|buf| - 1];
      var init := buf[..|buf| - 1];
      assert buf == init + [last];
      NarrowAllAppend(init, [last]);
      var n := NarrowAll(buf);
      assert n[|n| - 1] == Narrow(last) && n[..|n| - 1] == NarrowAll(init);
      DiffNarrow(s.sn, last.sn);
      EqualNarrow(s.sn, last.sn);
      if last.sn == s.sn {
      } else if s.sn > last.sn {
        NarrowAllAppend(buf, [s]);
      } else {
        InsertSegNarrow(init, s);
        NarrowAllAppend(InsertSeg(false, init, s), [last]);
      }
    }
  }

  /** The segment is at most half the space behind the window's end, and not that far
      ahead of its start. */
  ghost predicate TimelyData(r: Receiver, s: Seg) {
    s.cmd == CMD_PUSH ==> Near(s.sn, r.nxt + r.wnd) && Near(s.sn, r.nxt)
  }

  ghost predicate Ascending(buf: seq<Seg>) {
    forall i, j :: 0 <= i < j < |buf| ==> buf[i].sn < buf[j].sn
  }

  lemma ReceiverInputNarrow(r: Receiver, s: Seg)
    requires NarrowWindow(r) && Ascending(r.buf) && TimelyData(r, s)
    requires s.cmd == CMD_PUSH && r.nxt <= s.sn < r.nxt + r.wnd ==>
      NarrowWindow(r.(buf := InsertSeg(false, r.buf, s))) && Ascending(InsertSeg(false, r.buf, s))
    ensures ReceiverInput(true, NarrowReceiver(r), Narrow(s)) == NarrowReceiver(ReceiverInput(false, r, s))
  {
    hide S32, U32, InsertSeg, MoveReady, NarrowAll;
    if s.cmd == CMD_PUSH {
      PlusNarrow(r.nxt, r.wnd);
      DiffNarrow(s.sn, r.nxt + r.wnd);
      DiffNarrow(s.sn, r.nxt);
      if s.sn < r.nxt + r.wnd {
        NarrowAcksAppend(r.acks, [Ack(s.sn, s.ts)]);
        var r1 := r.(acks := r.acks + [Ack(s.sn, s.ts)]);
        assert NarrowReceiver(r1) == NarrowReceiver(r).(acks := NarrowAcks(r.acks) + [Ack(U32(s.sn), s.ts)]);
        if s.sn >= r.nxt {
          InsertSegNarrow(r.buf, s);
          MoveReadyNarrow(r1.(buf := InsertSeg(false, r.buf, s)));
        }
      }
    }
  }

  // ---- sending half --------------------------------------------------------------

  /** What is in flight spans less than half the space. */
  ghost predicate NarrowFlight(s: Sender) {
    && 0 <= s.nxt - s.una < HALF
    && forall i :: 0 <= i < |s.buf| ==> s.una <= s.buf[i].seg.sn < s.nxt
  }

  ghost predicate TimelyFeedback(s: Sender, seg: Seg) {
    Near(seg.una, s.una) && Near(seg.una, s.nxt)
    && (seg.cmd == CMD_ACK ==> Near(seg.sn, s.una) && Near(seg.sn, s.nxt))
  }

  lemma {:induction false} DropBelowNarrow(buf: seq<Sent>, una: int)
    requires AllSentNear(buf, una)
    ensures DropBelow(true, NarrowSents(buf), U32(una)) == NarrowSents(DropBelow(false, buf, una))
    decreases |buf|
  {
    if buf != [] {
      DiffNarrow(una, buf[0].seg.sn);
      DropBelowNarrow(buf[1..], una);
    }
  }

  lemma {:induction false} RemoveSnNarrow(buf: seq<Sent>, sn: int)
    requires AllSentNear(buf, sn)
    ensures RemoveSn(true, NarrowSents(buf), U32(sn)) == NarrowSents(RemoveSn(false, buf, sn))
    decreases |buf|
  {
    if buf != [] {
      DiffNarrow(sn, buf[0].seg.sn);
      EqualNarrow(sn, buf[0].seg.sn);
      RemoveSnNarrow(buf[1..], sn);
    }
  }

  lemma {:induction false} CountSkipsNarrow(buf: seq<Sent>, sn: int)
    requires AllSentNear(buf, sn)
    ensures CountSkips(true, NarrowSents(buf), U32(sn)) == NarrowSents(CountSkips(false, buf, sn))
    decreases |buf|
  {
    if buf != [] {
      DiffNarrow(sn, buf[0].seg.sn);
      EqualNarrow(sn, buf[0].seg.sn);
      CountSkipsNarrow(buf[1..], sn);
    }
  }

  lemma SenderInputNarrow(s: Sender, seg: Seg)
    requires NarrowFlight(s) && TimelyFeedback(s, seg)
    requires var s1 := Shrink(ParseUna(false, s, seg.una)); NarrowFlight(s1) && TimelyFeedback(s1, seg)
    ensures SenderInput(true, NarrowSender(s), Narrow(seg)) == NarrowSender(SenderInput(false, s, seg))
  {
    hide S32, DropBelow, RemoveSn;
    DropBelowNarrow(s.buf, seg.una);
    var s1 := Shrink(ParseUna(false, s, seg.una));
    assert Shrink(ParseUna(true, NarrowSender(s), U32(seg.una))) == NarrowSender(s1);
    if seg.cmd == CMD_ACK {
      DiffNarrow(seg.sn, s1.una);
      DiffNarrow(seg.sn, s1.nxt);
      if !OutsideFlight(false, s1, seg.sn) {
        RemoveSnNarrow(s1.buf, seg.sn);
      }
      assert ParseAck(true, NarrowSender(s1), U32(seg.sn)) == NarrowSender(ParseAck(false, s1, seg.sn));
    }
  }

  lemma FastackNarrow(s: Sender, sn: int)
    requires NarrowFlight(s) && Near(sn, s.una) && Near(sn, s.nxt)
    ensures ParseFastack(true, NarrowSender(s), U32(sn)) == NarrowSender(ParseFastack(false, s, sn))
  {
    hide S32, CountSkips;
    DiffNarrow(sn, s.una);
    DiffNarrow(sn, s.nxt);
    if !OutsideFlight(false, s, sn) { CountSkipsNarrow(s.buf, sn); }
  }

  // ---- ikcp_flush ------------------------------------------------------------------

  lemma HeaderNarrow(r: Receiver, cmd: u8, a: Ack)
    ensures Header(NarrowReceiver(r), cmd, Ack(U32(a.sn), a.ts)) == Narrow(Header(r, cmd, a))
  {}

  lemma {:induction false} AckSegsNarrow(r: Receiver, acks: seq<Ack>)
    ensures AckSegs(NarrowReceiver(r), NarrowAcks(acks)) == NarrowAll(AckSegs(r, acks))
    decreases |acks|
  {
    if acks != [] {
      HeaderNarrow(r, CMD_ACK, acks[0]);
      AckSegsNarrow(r, acks[1..]);
    }
  }

  lemma {:induction false} LastAckNarrow(acks: seq<Ack>)
    ensures var a := LastAck(acks); LastAck(NarrowAcks(acks)) == Ack(U32(a.sn), a.ts)
    decreases |acks|
  {
    if acks != [] {
      LastAckNarrow(acks[1..]);
      if |acks| > 1 { assert LastAck(acks) == LastAck(acks[1..]); }
    }
  }

  lemma ProbeSegsNarrow(k: Kcp)
    ensures ProbeSegs(NarrowKcp(k)) == NarrowAll(ProbeSegs(k))
  {
    hide WndUnused;
    LastAckNarrow(k.rcv.acks);
    HeaderNarrow(k.rcv, CMD_WASK, LastAck(k.rcv.acks));
    HeaderNarrow(k.rcv, CMD_WINS, LastAck(k.rcv.acks));
    var a := if k.askSend then [Header(k.rcv, CMD_WASK, LastAck(k.rcv.acks))] else [];
    var b := if k.askTell then [Header(k.rcv, CMD_WINS, LastAck(k.rcv.acks))] else [];
    NarrowAllAppend(a, b);
  }

  lemma NewSentNarrow(k: Kcp, sn: int, f: Frag)
    ensures var n := NewSent(k, sn, f); n.seg.sn == sn && NewSent(NarrowKcp(k), U32(sn), f) == n.(seg := Narrow(n.seg))
  {
    HeaderNarrow(k.rcv, CMD_PUSH, Ack(sn, k.current));
  }

  lemma {:induction false} MoveOutNarrow(k: Kcp, s: Sender, cwnd: u32)
    requires NarrowFlight(s) && cwnd < HALF
    ensures MoveOut(true, NarrowKcp(k), NarrowSender(s), cwnd) == NarrowSender(MoveOut(false, k, s, cwnd))
    decreases |s.queue|
  {
    hide S32, U32, NewSent, NarrowKcp;
    PlusNarrow(s.una, cwnd);
    DiffNarrow(s.nxt, s.una + cwnd);
    if s.nxt < s.una + cwnd && s.queue != [] {
      PlusNarrow(s.nxt, 1);
      var n := NewSent(k, s.nxt, s.queue[0]);
      var s1 := s.(queue := s.queue[1..], buf := s.buf + [n], nxt := s.nxt + 1);
      NarrowSentsAppend(s.buf, [n]);
      NewSentNarrow(k, s.nxt, s.queue[0]);
      assert NarrowSents([n]) == [n.(seg := Narrow(n.seg))];
      MoveOutNarrow(k, s1, cwnd);
    }
  }

  lemma VisitNarrow(k: Kcp, s: Sent)
    ensures var v := Visit(k, s);
      Visit(NarrowKcp(k), s.(seg := Narrow(s.seg))) == v.(seg := Narrow(v.seg))
    ensures Reason(NarrowKcp(k), s.(seg := Narrow(s.seg))) == Reason(k, s)
  {
    hide BackoffRto, S32, Resent;
    assert Resent(NarrowKcp(k)) == Resent(k) by { ResentNarrow(k); }
    BackoffNarrow(k, s.rto);
  }

  lemma ResentNarrow(k: Kcp)
    ensures Resent(NarrowKcp(k)) == Resent(k)
  {}

  lemma BackoffNarrow(k: Kcp, rto: u32)
    ensures BackoffRto(NarrowKcp(k), rto) == BackoffRto(k, rto)
  {
    hide U32, HalfSigned;
  }

  lemma {:induction false} VisitAllNarrow(k: Kcp, buf: seq<Sent>)
    ensures VisitAll(NarrowKcp(k), NarrowSents(buf)) == NarrowSents(VisitAll(k, buf))
    ensures DataSegs(NarrowKcp(k), NarrowSents(buf)) == NarrowAll(DataSegs(k, buf))
    ensures forall why :: CountWhy(NarrowKcp(k), NarrowSents(buf), why) == CountWhy(k, buf, why)
    decreases |buf|
  {
    hide Visit, Reason, NarrowKcp;
    if buf != [] {
      VisitNarrow(k, buf[0]);
      VisitAllNarrow(k, buf[1..]);
      var head := if Reason(k, buf[0]).Quiet? then [] else [Visit(k, buf[0]).seg];
      NarrowAllAppend(head, DataSegs(k, buf[1..]));
    }
  }

  lemma {:induction false} DeadLinkNarrow(k: Kcp, buf: seq<Sent>)
    ensures HitsDeadLink(NarrowKcp(k), NarrowSents(buf)) == HitsDeadLink(k, buf)
    decreases |buf|
  {
    hide Visit, Reason;
    if buf != [] {
      VisitNarrow(k, buf[0]);
      DeadLinkNarrow(k, buf[1..]);
    }
  }

  function NarrowDatagrams(ds: seq<seq<Seg>>): (r: seq<seq<Seg>>)
    ensures |r| == |ds|
  {
    if ds == [] then [] else [NarrowAll(ds[0])] + NarrowDatagrams(ds[1..])
  }

  lemma {:induction false} TotalSizeNarrow(segs: seq<Seg>)
    ensures TotalSize(NarrowAll(segs)) == TotalSize(segs)
    decreases |segs|
  {
    if segs != [] { TotalSizeNarrow(segs[1..]); }
  }

  lemma NarrowAllUnfold(segs: seq<Seg>)
    ensures NarrowAll(segs) == if segs == [] then [] else [Narrow(segs[0])] + NarrowAll(segs[1..])
  {}

  lemma {:induction false} PackNarrow(mtu: nat, cur: seq<Seg>, segs: seq<Seg>)
    ensures Pack(mtu, NarrowAll(cur), NarrowAll(segs)) == NarrowDatagrams(Pack(mtu, cur, segs))
    decreases |segs|
  {
    hide TotalSize, NarrowAll;
    if segs == [] {
      NarrowAllUnfold(cur);
    } else {
      NarrowAllUnfold(segs);
      NarrowAllUnfold([segs[0]]);
      NarrowAllUnfold([]);
      assert [segs[0]][1..] == [];
      assert NarrowAll([segs[0]]) == [Narrow(segs[0])];
      assert NarrowAll(segs)[0] == Narrow(segs[0]) && NarrowAll(segs)[1..] == NarrowAll(segs[1..]);
      TotalSizeNarrow(cur);
      NarrowAllAppend(cur, [segs[0]]);
      PackNarrow(mtu, [segs[0]], segs[1..]);
      PackNarrow(mtu, cur + [segs[0]], segs[1..]);
      var rest := Pack(mtu, [segs[0]], segs[1..]);
      assert ([cur] + rest)[1..] == rest;
      assert NarrowDatagrams([cur] + rest) == [NarrowAll(cur)] + NarrowDatagrams(rest);
      if TotalSize(cur) + WireSize(segs[0]) > mtu {
        if cur == [] {
          var none: seq<seq<Seg>> := [];
          var narrowRest := Pack(mtu, [Narrow(segs[0])], NarrowAll(segs[1..]));
          assert none + rest == rest && none + narrowRest == narrowRest;
          assert NarrowAll(cur) == [] && NarrowAll([segs[0]]) == [Narrow(segs[0])];
        } else {
          assert Pack(mtu, cur, segs) == [cur] + rest;
        }
      }
    }
  }

  lemma FlushSegsNarrow(k: Kcp)
    requires NarrowFlight(k.snd) && SendWindow(k) < HALF
    ensures Filled(true, NarrowKcp(k)) == NarrowSender(Filled(false, k))
    ensures FlushSegs(true, NarrowKcp(k)) == NarrowAll(FlushSegs(false, k))
  {
    hide ProbeBackoff, MoveOut, AckSegs, DataSegs, ProbeSegs, Diff;
    MoveOutNarrow(k, k.snd, SendWindow(k));
    var s := Filled(false, k);
    AckSegsNarrow(k.rcv, k.rcv.acks);
    ProbeSegsNarrow(ProbeTimer(k));
    assert ProbeTimer(NarrowKcp(k)) == NarrowKcp(ProbeTimer(k));
    VisitAllNarrow(k, s.buf);
    NarrowAllAppend(AckSegs(k.rcv, k.rcv.acks), ProbeSegs(ProbeTimer(k)));
    NarrowAllAppend(AckSegs(k.rcv, k.rcv.acks) + ProbeSegs(ProbeTimer(k)), DataSegs(k, s.buf));
  }

  lemma ProbeTimerNarrow(k: Kcp)
    ensures ProbeTimer(NarrowKcp(k)) == NarrowKcp(ProbeTimer(k))
  {
    hide ProbeBackoff, NarrowSender, NarrowReceiver;
    if k.rmtWnd != 0 {
      assert ProbeTimer(k) == k.(tsProbe := 0, probeWait := 0);
    }
  }

  lemma FlushedNarrow(k: Kcp)
    requires Filled(true, NarrowKcp(k)) == NarrowSender(Filled(false, k))
    ensures Flushed(true, NarrowKcp(k)) == NarrowKcp(Flushed(false, k))
  {
    hide ProbeBackoff, ProbeTimer, Filled, HitsDeadLink, CountWhy, VisitAll, U32, NarrowAll;
    var n, buf := NarrowKcp(k), Filled(false, k).buf;
    VisitAllNarrow(k, buf);
    DeadLinkNarrow(k, buf);
    ProbeTimerNarrow(k);
    assert NarrowAcks([]) == [];
    assert Filled(true, n).(buf := VisitAll(n, NarrowSents(buf))) == NarrowSender(Filled(false, k).(buf := VisitAll(k, buf)));
    assert n.rcv.(acks := []) == NarrowReceiver(k.rcv.(acks := []));
  }

  lemma FlushNarrow(k: Kcp)
    requires NarrowFlight(k.snd) && SendWindow(k) < HALF
    requires 0 <= Filled(false, k).nxt - Filled(false, k).una < HALF
    ensures var (k', ds) := Flush(false, k);
      Flush(true, NarrowKcp(k)) == (NarrowKcp(k'), NarrowDatagrams(ds))
  {
    hide Filled, Flushed, FlushSegs, Congestion, CountWhy, Pack, SendWindow, U32, S32;
    if k.updated {
      FlushSegsNarrow(k);
      FlushedNarrow(k);
      var s := Filled(false, k);
      VisitAllNarrow(k, s.buf);
      PackNarrow(k.mtu, [], FlushSegs(false, k));
      InflightNarrow(s);
      SendWindowNarrow(k);
      assert NarrowAll([]) == [];
      var lost, fast := CountWhy(k, s.buf, Timeout), CountWhy(k, s.buf, Fast);
      CongestionNarrow(Flushed(false, k), fast > 0, lost > 0, SendWindow(k), U32(Diff(false, s.nxt, s.una)));
    }
  }

  lemma InflightNarrow(s: Sender)
    requires 0 <= s.nxt - s.una < HALF
    ensures Diff(true, U32(s.nxt), U32(s.una)) == Diff(false, s.nxt, s.una)
  {
    DiffNarrow(s.nxt, s.una);
  }

  lemma SendWindowNarrow(k: Kcp)
    ensures SendWindow(NarrowKcp(k)) == SendWindow(k)
  {}

  lemma CongestionNarrow(k: Kcp, fast: bool, lost: bool, cwnd: u32, inflight: u32)
    ensures Congestion(NarrowKcp(k), fast, lost, cwnd, inflight) == NarrowKcp(Congestion(k, fast, lost, cwnd, inflight))
  {
    hide U32, NarrowSender, NarrowReceiver;
  }
}

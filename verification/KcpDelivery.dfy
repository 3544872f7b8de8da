/** What one flush sends and what one input acknowledges, in terms of the control block's
    fields and of the datagrams; `w` selects the arithmetic of sequence numbers. */
module KcpDelivery {
  import opened Words
  import opened KcpTypes
  import opened KcpSpec
  import opened KcpWire

  // ---- what a flush has to send ----------------------------------------------

  /** An entry of snd_buf that has to go out: never sent, its timer has run out, or passed
      over by enough acknowledgements. */
  predicate Due(k: Kcp, s: Sent) {
    || s.xmit == 0
    || S32(k.current - s.resendts) >= 0
    || (&& s.fastack >= (if k.fastresend > 0 then U32(k.fastresend) else 0xFFFF_FFFF)
        && (k.fastlimit <= 0 || S32(s.xmit) <= k.fastlimit))
  }

  /** The free part of the receive window as the 16-bit field of a segment holds it. */
  function Room(r: Receiver): u16 { Max(r.wnd - |r.queue|, 0) % 0x1_0000 }

  /** The copy of an entry that goes out: stamped with the clock and with rcv_nxt. */
  function Copy(k: Kcp, s: Sent): Seg { s.seg.(ts := k.current, wnd := Room(k.rcv), una := k.rcv.nxt) }

  /** The copies of the entries that are due, in their order. */
  function Copies(k: Kcp, buf: seq<Sent>): seq<Seg> {
    if buf == [] then [] else (if Due(k, buf[0]) then [Copy(k, buf[0])] else []) + Copies(k, buf[1..])
  }

  function Command(k: Kcp, cmd: u8, a: Ack): Seg { Seg(cmd, Room(k.rcv), a.ts, a.sn, k.rcv.nxt, Frag(0, [])) }

  /** One acknowledgement for each pair of the list. */
  function Answers(k: Kcp, acks: seq<Ack>): seq<Seg> {
    if acks == [] then [] else [Command(k, CMD_ACK, acks[0])] + Answers(k, acks[1..])
  }

  /** The peer's window is asked for: the application's wish, or its window is closed and the
      probe timer has run out. */
  predicate Asks(k: Kcp) {
    k.askSend || (k.rmtWnd == 0 && k.probeWait != 0 && S32(k.current - k.tsProbe) >= 0)
  }

  /** The window commands: a question if one is due, an answer if one was asked for. */
  function Windows(k: Kcp): seq<Seg> {
    var last := if k.rcv.acks == [] then Ack(0, 0) else k.rcv.acks[|k.rcv.acks| - 1];
    (if Asks(k) then [Command(k, CMD_WASK, last)] else []) + (if k.askTell then [Command(k, CMD_WINS, last)] else [])
  }

  // ---- what snd_queue gives up -------------------------------------------------

  /** The window of a flush: the least of the limits that apply. */
  function Window(k: Kcp): u32 {
    var wnd := if k.sndWnd <= k.rmtWnd then k.sndWnd else k.rmtWnd;
    if !k.nocwnd && k.cwnd < wnd then k.cwnd else wnd
  }

  /** The number `i` fragments further on. */
  function Number(w: bool, nxt: int, i: nat): int { if w && i > 0 then U32(nxt + i) else nxt + i }

  predicate InWindow(w: bool, una: int, wnd: u32, sn: int) { Diff(w, sn, Plus(w, una, wnd)) < 0 }

  /** `s'` is the sending half `s` once its first `n` fragments have the next numbers. */
  ghost predicate Numbered(w: bool, s: Sender, n: nat, s': Sender) {
    && n <= |s.queue| && s'.una == s.una && s'.queue == s.queue[n..] && s'.nxt == Number(w, s.nxt, n)
    && |s'.buf| == |s.buf| + n && s'.buf[..|s.buf|] == s.buf
    && forall j :: |s.buf| <= j < |s'.buf| ==> Entered(w, s, j - |s.buf|, s'.buf[j])
  }

  /** `e` is a new entry for fragment `i` of snd_queue. */
  ghost predicate Entered(w: bool, s: Sender, i: nat, e: Sent)
    requires i < |s.queue|
  {
    e.seg.cmd == CMD_PUSH && e.seg.sn == Number(w, s.nxt, i) && e.seg.body == s.queue[i] && e.xmit == 0
  }

  /** `n` is the number of fragments that the window lets through. */
  ghost predicate LetThrough(w: bool, s: Sender, wnd: u32, n: nat) {
    && n <= |s.queue| && (forall i :: 0 <= i < n ==> InWindow(w, s.una, wnd, Number(w, s.nxt, i)))
    && (n == |s.queue| || !InWindow(w, s.una, wnd, Number(w, s.nxt, n)))
  }

  lemma NumberStep(w: bool, nxt: int, i: nat)
    ensures Number(w, Plus(w, nxt, 1), i) == Number(w, nxt, i + 1)
  {
    if w { WordPlus(nxt + 1, i); }
  }

  lemma {:induction false} MoveOutIs(w: bool, k: Kcp, s: Sender, wnd: u32) returns (n: nat)
    ensures Numbered(w, s, n, MoveOut(w, k, s, wnd)) && LetThrough(w, s, wnd, n)
    decreases |s.queue|
  {
    n := 0;
    if InWindow(w, s.una, wnd, s.nxt) && s.queue != [] {
      var s1 := s.(queue := s.queue[1..], buf := s.buf + [NewSent(k, s.nxt, s.queue[0])], nxt := Plus(w, s.nxt, 1));
      n := MoveOutIs(w, k, s1, wnd);
      assert MoveOut(w, k, s, wnd) == MoveOut(w, k, s1, wnd);
      NumberedStep(w, k, s, s1, n, MoveOut(w, k, s1, wnd), wnd);
      n := n + 1;
    }
  }

  lemma NumberedStep(w: bool, k: Kcp, s: Sender, s1: Sender, n: nat, s': Sender, wnd: u32)
    requires s.queue != [] && InWindow(w, s.una, wnd, s.nxt)
    requires s1 == s.(queue := s.queue[1..], buf := s.buf + [NewSent(k, s.nxt, s.queue[0])], nxt := Plus(w, s.nxt, 1))
    requires Numbered(w, s1, n, s') && LetThrough(w, s1, wnd, n)
    ensures Numbered(w, s, n + 1, s') && LetThrough(w, s, wnd, n + 1)
  {
    hide Plus, Number, InWindow;
    assert Number(w, s.nxt, 0) == s.nxt by { First(w, s.nxt); }
    forall i: nat | i <= n ensures Number(w, s.nxt, i + 1) == Number(w, s1.nxt, i) { NumberStep(w, s.nxt, i); }
    assert s.queue[1..][n..] == s.queue[n + 1..];
    assert s'.buf[..|s.buf|] == s'.buf[..|s1.buf|][..|s.buf|] == s.buf;
    assert s'.buf[|s.buf|] == s'.buf[..|s1.buf|][|s.buf|] == NewSent(k, s.nxt, s.queue[0]);
    forall j | |s.buf| <= j < |s'.buf| ensures Entered(w, s, j - |s.buf|, s'.buf[j]) {
      if j > |s.buf| { assert Entered(w, s1, j - |s1.buf|, s'.buf[j]); }
    }
    forall i | 0 <= i < n + 1 ensures InWindow(w, s.una, wnd, Number(w, s.nxt, i)) {
      if i > 0 { assert InWindow(w, s1.una, wnd, Number(w, s1.nxt, i - 1)); }
    }
  }

  lemma First(w: bool, nxt: int)
    ensures Number(w, nxt, 0) == nxt
  {}

  /** A flush numbers the fragments at the head of snd_queue, as many as the window lets
      through. */
  lemma FilledIs(w: bool, k: Kcp) returns (n: nat)
    ensures Numbered(w, k.snd, n, Filled(w, k)) && LetThrough(w, k.snd, Window(k), n)
  {
    n := MoveOutIs(w, k, k.snd, Window(k));
  }

  // ---- the datagrams of a flush ----------------------------------------------------

  lemma {:induction false} CopiesAre(k: Kcp, buf: seq<Sent>)
    ensures DataSegs(k, buf) == Copies(k, buf)
    decreases |buf|
  {
    if buf != [] { CopiesAre(k, buf[1..]); }
  }

  lemma {:induction false} AnswersAre(k: Kcp, acks: seq<Ack>)
    ensures AckSegs(k.rcv, acks) == Answers(k, acks)
    decreases |acks|
  {
    if acks != [] { AnswersAre(k, acks[1..]); }
  }

  /** The datagrams of a flush hold, in this order: an acknowledgement for each pair of the
      list, the window commands, and a copy of each entry that is due; nothing else. */
  lemma FlushSends(w: bool, k: Kcp)
    requires k.updated
    ensures Concat(Flush(w, k).1) == Answers(k, k.rcv.acks) + Windows(k) + Copies(k, Filled(w, k).buf)
  {
    PackConcat(k.mtu, [], FlushSegs(w, k));
    AnswersAre(k, k.rcv.acks);
    CopiesAre(k, Filled(w, k).buf);
    WindowsAre(k);
    FlushedSegs(w, k);
    hide *;
    var a, p, d := AckSegs(k.rcv, k.rcv.acks), ProbeSegs(ProbeTimer(k)), DataSegs(k, Filled(w, k).buf);
    assert [] + (a + p + d) == a + p + d;
  }

  lemma FlushedSegs(w: bool, k: Kcp)
    requires k.updated
    ensures Flush(w, k).1 == Pack(k.mtu, [], FlushSegs(w, k))
    ensures FlushSegs(w, k) == AckSegs(k.rcv, k.rcv.acks) + ProbeSegs(ProbeTimer(k)) + DataSegs(k, Filled(w, k).buf)
  {
    hide Pack, AckSegs, ProbeSegs, DataSegs, Congestion, Flushed, CountWhy;
  }

  lemma WindowsAre(k: Kcp)
    ensures ProbeSegs(ProbeTimer(k)) == Windows(k)
  {}

  // ---- one entry of snd_buf -----------------------------------------------------------

  /** The timeout of an entry that goes out: the estimate at first, more after a timeout. */
  function NextRto(k: Kcp, s: Sent): u32 {
    if s.xmit == 0 then k.est.rto
    else if S32(k.current - s.resendts) < 0 then s.rto
    else Backoff(k, s.rto)
  }

  /** After a timeout: at least doubled, or half as much more with nodelay. */
  function Backoff(k: Kcp, rto: u32): u32 {
    if k.nodelay == 0 then U32(rto + Max(rto, k.est.rto))
    else if k.nodelay >= 2 then U32(rto + k.est.rto / 2)
    else if rto < HALF then U32(rto + rto / 2)
    else U32(rto - (MOD - rto) / 2)
  }

  /** How long it then waits; the first time an eighth longer unless nodelay is set. */
  function Wait(k: Kcp, s: Sent): int {
    NextRto(k, s) + if s.xmit == 0 && k.nodelay == 0 then k.est.rto / 8 else 0
  }

  lemma {:induction false} VisitedAt(k: Kcp, buf: seq<Sent>, i: nat)
    requires i < |buf|
    ensures VisitAll(k, buf)[i] == Visit(k, buf[i])
    decreases |buf|
  {
    if i > 0 { VisitedAt(k, buf[1..], i - 1); }
  }

  lemma {:induction false} CopyOf(k: Kcp, buf: seq<Sent>, i: nat)
    requires i < |buf| && Due(k, buf[i])
    ensures Copy(k, buf[i]) in Copies(k, buf)
    decreases |buf|
  {
    if i > 0 { CopyOf(k, buf[1..], i - 1); }
  }

  lemma {:induction false} InDatagram(ds: seq<seq<Seg>>, s: Seg) returns (j: nat)
    requires s in Concat(ds)
    ensures j < |ds| && s in ds[j]
    decreases |ds|
  {
    if s in ds[0] { j := 0; } else { j := InDatagram(ds[1..], s); j := j + 1; }
  }

  /** An entry that is due goes out: some datagram holds its copy, it counts one more
      transmission, and its timer runs out `Wait` milliseconds after the clock. */
  lemma DueGoesOut(w: bool, k: Kcp, i: nat) returns (j: nat)
    requires k.updated && i < |Filled(w, k).buf| && Due(k, Filled(w, k).buf[i])
    ensures var s := Filled(w, k).buf[i]; var (k', ds) := Flush(w, k);
      && j < |ds| && Copy(k, s) in ds[j]
      && |k'.snd.buf| == |Filled(w, k).buf|
      && k'.snd.buf[i].seg == Copy(k, s) && k'.snd.buf[i].xmit == U32(s.xmit + 1)
      && k'.snd.buf[i].rto == NextRto(k, s) && k'.snd.buf[i].resendts == U32(k.current + Wait(k, s))
  {
    var buf := Filled(w, k).buf;
    FlushSends(w, k);
    CopyOf(k, buf, i);
    j := InDatagram(Flush(w, k).1, Copy(k, buf[i]));
    FlushedBuf(w, k, i);
    VisitDue(k, buf[i]);
    hide *;
  }

  lemma FlushedBuf(w: bool, k: Kcp, i: nat)
    requires k.updated && i < |Filled(w, k).buf|
    ensures |Flush(w, k).0.snd.buf| == |Filled(w, k).buf|
    ensures Flush(w, k).0.snd.buf[i] == Visit(k, Filled(w, k).buf[i])
  {
    VisitedAt(k, Filled(w, k).buf, i);
    hide Visit, VisitAll, Pack, FlushSegs, CountWhy, Filled, Reduced, ProbeTimer, HitsDeadLink;
  }

  lemma VisitDue(k: Kcp, s: Sent)
    requires Due(k, s)
    ensures var s' := Visit(k, s);
      s'.seg == Copy(k, s) && s'.xmit == U32(s.xmit + 1) && s'.rto == NextRto(k, s) && s'.resendts == U32(k.current + Wait(k, s))
  {
    BackoffIs(k, s.rto);
    hide BackoffRto, S32;
  }

  lemma BackoffIs(k: Kcp, rto: u32)
    ensures BackoffRto(k, rto) == Backoff(k, rto)
  {}

  /** No other entry is sent or changed: each PUSH of a datagram is the copy of a due entry. */
  lemma OnlyDue(w: bool, k: Kcp, j: nat, s: Seg)
    requires k.updated && j < |Flush(w, k).1| && s in Flush(w, k).1[j] && s.cmd == CMD_PUSH
    ensures exists i :: 0 <= i < |Filled(w, k).buf| && Due(k, Filled(w, k).buf[i]) && s == Copy(k, Filled(w, k).buf[i])
  {
    FlushSends(w, k);
    InConcat(Flush(w, k).1, j, s);
    NotAnswer(k, k.rcv.acks, s);
    var i := CopyFrom(k, Filled(w, k).buf, s);
  }

  lemma NotDueStays(w: bool, k: Kcp, i: nat)
    requires k.updated && i < |Filled(w, k).buf| && !Due(k, Filled(w, k).buf[i])
    ensures |Flush(w, k).0.snd.buf| == |Filled(w, k).buf| && Flush(w, k).0.snd.buf[i] == Filled(w, k).buf[i]
  {
    FlushedBuf(w, k, i);
    hide Flush, Filled;
  }

  lemma {:induction false} InConcat(ds: seq<seq<Seg>>, j: nat, s: Seg)
    requires j < |ds| && s in ds[j]
    ensures s in Concat(ds)
    decreases |ds|
  {
    if j > 0 { InConcat(ds[1..], j - 1, s); }
  }

  lemma {:induction false} NotAnswer(k: Kcp, acks: seq<Ack>, s: Seg)
    requires s.cmd == CMD_PUSH
    ensures s !in Answers(k, acks)
    decreases |acks|
  {
    if acks != [] { NotAnswer(k, acks[1..], s); }
  }

  lemma {:induction false} CopyFrom(k: Kcp, buf: seq<Sent>, s: Seg) returns (i: nat)
    requires s in Copies(k, buf)
    ensures i < |buf| && Due(k, buf[i]) && s == Copy(k, buf[i])
    decreases |buf|
  {
    if Due(k, buf[0]) && s == Copy(k, buf[0]) { i := 0; } else { i := CopyFrom(k, buf[1..], s); i := i + 1; }
  }

  // ---- what an input acknowledges ---------------------------------------------------------

  /** The control block when segment `n` of a datagram is reached. */
  ghost function Reached(w: bool, k: Kcp, segs: seq<Seg>, n: nat): Kcp
    requires n <= |segs|
  {
    InputSegs(w, k, NoAck, segs[..n]).0
  }

  /** A data segment in front of the window's end. */
  predicate Answered(w: bool, r: Receiver, s: Seg) {
    s.cmd == CMD_PUSH && Diff(w, s.sn, Plus(w, r.nxt, r.wnd)) < 0
  }

  /** One pair for each data segment, repeated ones included, that is in front of the window's
      end when it is reached. */
  ghost function Pairs(w: bool, k: Kcp, segs: seq<Seg>, n: nat): seq<Ack>
    requires n <= |segs|
  {
    if n == 0 then []
    else
      var s := segs[n - 1];
      Pairs(w, k, segs, n - 1) + if Answered(w, Reached(w, k, segs, n - 1).rcv, s) then [Ack(s.sn, s.ts)] else []
  }

  lemma {:induction false} InputSegsSnoc(w: bool, k: Kcp, m: MaxAck, segs: seq<Seg>, s: Seg)
    ensures InputSegs(w, k, m, segs + [s]).0 == InputSeg(w, InputSegs(w, k, m, segs).0, s)
    decreases |segs|
  {
    hide InputSeg, Later;
    if segs == [] {
      assert [] + [s] == [s];
    } else {
      assert (segs + [s])[1..] == segs[1..] + [s];
      InputSegsSnoc(w, InputSeg(w, k, segs[0]), Later(w, m, segs[0]), segs[1..], s);
    }
  }

  lemma {:induction false} MoveReadyFrame(w: bool, r: Receiver)
    ensures MoveReady(w, r).acks == r.acks && MoveReady(w, r).wnd == r.wnd
    decreases |r.buf|
  {
    if r.buf != [] && r.buf[0].sn == r.nxt && |r.queue| < r.wnd {
      MoveReadyFrame(w, r.(buf := r.buf[1..], queue := r.queue + [r.buf[0].body], nxt := Plus(w, r.nxt, 1)));
    }
  }

  lemma AnswersOne(w: bool, r: Receiver, s: Seg)
    ensures ReceiverInput(w, r, s).acks == r.acks + if Answered(w, r, s) then [Ack(s.sn, s.ts)] else []
  {
    MoveReadyFrame(w, r.(acks := r.acks + [Ack(s.sn, s.ts)], buf := InsertSeg(w, r.buf, s)));
    hide MoveReady, InsertSeg;
  }

  lemma {:induction false} ReachedAcks(w: bool, k: Kcp, segs: seq<Seg>, n: nat)
    requires n <= |segs|
    ensures Reached(w, k, segs, n).rcv.acks == k.rcv.acks + Pairs(w, k, segs, n)
    decreases n
  {
    hide ReceiverInput, Answered, InputSegs;
    if n == 0 {
      Nothing(w, k);
      assert segs[..0] == [];
    } else {
      ReachedAcks(w, k, segs, n - 1);
      InputSegsSnoc(w, k, NoAck, segs[..n - 1], segs[n - 1]);
      assert segs[..n] == segs[..n - 1] + [segs[n - 1]];
      AnswersOne(w, Reached(w, k, segs, n - 1).rcv, segs[n - 1]);
    }
  }

  lemma Nothing(w: bool, k: Kcp)
    ensures InputSegs(w, k, NoAck, []).0 == k
  {}

  /** An input adds to the list of acknowledgements exactly one pair for each data segment that
      is in front of the window's end when it is reached. */
  lemma InputAcknowledges(w: bool, k: Kcp, segs: seq<Seg>, code: int)
    ensures Input(w, k, segs, code).rcv.acks == k.rcv.acks + Pairs(w, k, segs, |segs|)
  {
    ReachedAcks(w, k, segs, |segs|);
    assert segs[..|segs|] == segs;
    InputReceiver(w, k, segs, code);
    hide InputSegs, Input, Pairs;
  }

  lemma InputReceiver(w: bool, k: Kcp, segs: seq<Seg>, code: int)
    ensures Input(w, k, segs, code).rcv == InputSegs(w, k, NoAck, segs).0.rcv
  {
    hide InputSegs, Grown, ParseFastack;
  }

  // ---- what the operations leave alone ----------------------------------------------------

  /** Only what ikcp_input may change differs. */
  predicate InputFrame(k: Kcp, k': Kcp) {
    k' == k.(snd := k'.snd, rcv := k'.rcv, est := k'.est, rmtWnd := k'.rmtWnd, askTell := k'.askTell, cwnd := k'.cwnd, incr := k'.incr)
  }

  lemma {:induction false} InputSegsFrame(w: bool, k: Kcp, m: MaxAck, segs: seq<Seg>)
    ensures InputFrame(k, InputSegs(w, k, m, segs).0)
    decreases |segs|
  {
    hide Estimate, SenderInput, ReceiverInput, S32, Later;
    if segs != [] {
      InputSegsFrame(w, InputSeg(w, k, segs[0]), Later(w, m, segs[0]), segs[1..]);
    }
  }

  lemma EndFrame(k: Kcp, k1: Kcp, s: Sender)
    requires InputFrame(k, k1)
    ensures var k2 := k1.(snd := s); InputFrame(k, k2) && InputFrame(k, GrowCwnd(k2)) && InputFrame(k, GrowCwnd(k1))
  {
    hide Grown;
  }

  lemma InputKeeps(w: bool, k: Kcp, segs: seq<Seg>, code: int)
    ensures InputFrame(k, Input(w, k, segs, code))
  {
    hide InputSegs, ParseFastack, GrowCwnd, Diff, InputFrame;
    InputSegsFrame(w, k, NoAck, segs);
    var (k1, m) := InputSegs(w, k, NoAck, segs);
    var k2 := if m.Highest? then k1.(snd := ParseFastack(w, k1.snd, m.sn)) else k1;
    EndFrame(k, k1, k2.snd);
    assert InputFrame(k, k2) && InputFrame(k, GrowCwnd(k2));
  }

  /** Only what ikcp_update may change differs. */
  predicate UpdateFrame(k: Kcp, k': Kcp) {
    k' == k.(snd := k'.snd, rcv := k'.rcv, askSend := k'.askSend, askTell := k'.askTell, probeWait := k'.probeWait, tsProbe := k'.tsProbe,
             xmit := k'.xmit, dead := k'.dead, cwnd := k'.cwnd, incr := k'.incr, ssthresh := k'.ssthresh,
             current := k'.current, updated := k'.updated, tsFlush := k'.tsFlush)
  }

  lemma FlushKeeps(w: bool, k: Kcp)
    ensures var k' := Flush(w, k).0;
      UpdateFrame(k, k') && k'.current == k.current && k'.updated == k.updated && k'.tsFlush == k.tsFlush
  {
    hide Filled, VisitAll, CountWhy, HitsDeadLink, Reduced, ProbeBackoff, Pack, FlushSegs, SendWindow, U32, Diff;
  }

  lemma UpdateKeeps(w: bool, k: Kcp, now: u32)
    ensures var k' := Update(w, k, now).0; var k1 := Tick(k, now).0;
      UpdateFrame(k, k') && k'.current == k1.current && k'.updated == k1.updated && k'.tsFlush == k1.tsFlush
  {
    hide Flush, S32, U32;
    FlushKeeps(w, Tick(k, now).0);
  }
}

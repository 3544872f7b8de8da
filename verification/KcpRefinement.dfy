/** The endpoints as the code runs them: 32-bit sequence numbers and datagrams of bytes.

    As long as no delivered segment is more than half the number space behind, these
    endpoints do exactly what the unbounded ones of KcpNetwork do. */
module KcpRefinement {
  import opened Words
  import opened KcpTypes
  import opened KcpSpec
  import opened KcpDirection
  import opened KcpMessages
  import opened KcpNetwork
  import opened KcpWire
  import opened KcpWrap

  // ---- the concrete system -----------------------------------------------------

  datatype Peer32 = Peer32(k: Kcp, accepted: seq<seq<u8>>, received: seq<seq<u8>>, out: set<seq<u8>>)

  datatype Event32 =
    | Accept32(msg: seq<u8>)
    | Take32(len: int)
    | Clock32(now: u32)
    | Deliver32(datagram: seq<u8>)

  /** ikcp_input on a datagram: the new control block and the returned code. */
  function InputBytes(k: Kcp, b: seq<u8>): (Kcp, int) {
    if |b| < OVERHEAD then (k, -1)
    else var (segs, code) := Decode(k.conv, b); (Input(true, k, segs, code), code)
  }

  function EncodeOut(conv: u32, ds: seq<seq<Seg>>): set<seq<u8>> {
    set i | 0 <= i < |ds| && AllEncodable(ds[i]) :: EncodeAll(conv, ds[i])
  }

  function Act32(p: Peer32, e: Event32): Peer32
    requires p.k.mss > 0
  {
    match e
    case Accept32(msg) =>
      var (k, code) := Send(p.k, msg);
      p.(k := k, accepted := if code == 0 then p.accepted + [msg] else p.accepted)
    case Take32(len) =>
      var r := Recv(true, p.k, len);
      p.(k := r.k, received := if r.code >= 0 && len >= 0 then p.received + [r.data] else p.received)
    case Clock32(now) =>
      var (k, ds) := Update(true, p.k, now);
      p.(k := k, out := p.out + EncodeOut(p.k.conv, ds))
    case Deliver32(b) => p.(k := InputBytes(p.k, b).0)
  }

  // ---- abstraction ---------------------------------------------------------------

  ghost function NarrowPeer(p: Peer): Peer32 {
    Peer32(NarrowKcp(p.k), p.accepted, p.received,
           set d | d in p.out && AllEncodable(d) :: EncodeAll(p.k.conv, d))
  }

  ghost function NarrowEvent(p: Peer, e: Event): Event32 {
    match e
    case Accept(msg) => Accept32(msg)
    case Take(len) => Take32(len)
    case Clock(now) => Clock32(now)
    case Deliver(segs) => Deliver32(if AllEncodable(segs) then EncodeAll(p.k.conv, segs) else [])
  }

  /** No number carried by the datagram is half the space behind its counter. */
  ghost predicate Recent(p: Peer, other: Peer, e: Event) {
    e.Deliver? ==> forall i :: 0 <= i < |e.segs| ==>
      && p.k.snd.nxt - e.segs[i].una <= HALF
      && (e.segs[i].cmd == CMD_ACK ==> p.k.snd.nxt - e.segs[i].sn <= HALF)
      && (e.segs[i].cmd == CMD_PUSH ==> other.k.snd.nxt + p.k.rcv.wnd - e.segs[i].sn <= HALF)
  }

  // ---- what the wire needs of a run ------------------------------------------------

  ghost predicate LogFits(mss: nat, log: seq<Frag>) {
    forall i :: 0 <= i < |log| ==> |log[i].data| <= mss
  }

  lemma {:induction false} FragAllFits(mss: nat, msgs: seq<seq<u8>>)
    requires Sendable(mss, msgs)
    ensures LogFits(mss, FragAll(mss, msgs))
    decreases |msgs|
  {
    if msgs != [] {
      var last := msgs[|msgs| - 1];
      FragAllFits(mss, msgs[..|msgs| - 1]);
      FragmentNumbers(mss, last, FragCount(mss, |last|));
    }
  }

  /** Every datagram has whole known segments, at least one, within the mtu. */
  ghost predicate DatagramOk(mtu: nat, d: seq<Seg>) {
    d != [] && AllEncodable(d) && TotalSize(d) <= mtu
  }

  ghost predicate OutFits(p: Peer) {
    forall d :: d in p.out ==> DatagramOk(p.k.mtu, d)
  }

  ghost predicate AllSmall(mss: nat, segs: seq<Seg>) {
    forall i :: 0 <= i < |segs| ==> KnownCmd(segs[i].cmd) && |segs[i].body.data| <= mss
  }

  lemma {:induction false} DataSegsSmall(k: Kcp, buf: seq<Sent>, nxt: int, log: seq<Frag>, mss: nat)
    requires SndBufOk(buf, nxt, log) && LogFits(mss, log)
    ensures AllSmall(mss, DataSegs(k, buf))
    decreases |buf|
  {
    if buf != [] {
      assert forall i :: 0 <= i < |buf| - 1 ==> buf[1..][i] == buf[i + 1];
      DataSegsSmall(k, buf[1..], nxt, log, mss);
    }
  }

  lemma FlushSegsSmall(k: Kcp, log: seq<Frag>, peer: Receiver)
    requires SenderOk(k.snd, log) && NoLoss(k.snd, peer) && LogFits(k.mss, log)
    ensures AllSmall(k.mss, FlushSegs(false, k))
  {
    hide ProbeBackoff, MoveOut, AckSegs, DataSegs, SendWindow, NoLoss;
    MoveOutOk(k, k.snd, SendWindow(k), log, peer);
    var s := Filled(false, k);
    AckSegsAt(k.rcv, k.rcv.acks);
    DataSegsSmall(k, s.buf, s.nxt, log, k.mss);
    var a, p, d := AckSegs(k.rcv, k.rcv.acks), ProbeSegs(ProbeTimer(k)), DataSegs(k, s.buf);
    assert AllSmall(k.mss, a) by {
      forall i | 0 <= i < |a| ensures a[i].cmd == CMD_ACK && a[i].body.data == [] {
        assert a[i] == Header(k.rcv, CMD_ACK, k.rcv.acks[i]);
      }
    }
  }

  /** Each flush emits datagrams of at most mtu bytes, each a whole number of segments,
      whose concatenation is the sequence of segments it had to send. */
  lemma FlushPacks(k: Kcp, log: seq<Frag>, peer: Receiver)
    requires SenderOk(k.snd, log) && NoLoss(k.snd, peer) && LogFits(k.mss, log)
    requires k.mtu == k.mss + OVERHEAD && k.mss < HALF && k.updated
    ensures var ds := Flush(false, k).1;
      Concat(ds) == FlushSegs(false, k) && forall i :: 0 <= i < |ds| ==> DatagramOk(k.mtu, ds[i])
  {
    hide FlushSegs, Filled, Pack, TotalSize, Congestion, Flushed;
    FlushSegsSmall(k, log, peer);
    var segs := FlushSegs(false, k);
    assert TotalSize([]) == 0 by { NoSize(); }
    PackOk(k.mtu, [], segs);
    assert [] + segs == segs;
    var ds := Flush(false, k).1;
    forall i | 0 <= i < |ds| ensures AllEncodable(ds[i]) {
      PackAllSmall(k.mtu, [], segs, k.mss, i);
    }
  }

  lemma NoSize()
    ensures TotalSize([]) == 0
  {}

  lemma {:induction false} PackAllSmall(mtu: nat, cur: seq<Seg>, segs: seq<Seg>, mss: nat, i: nat)
    requires AllSmall(mss, cur) && AllSmall(mss, segs) && i < |Pack(mtu, cur, segs)|
    ensures AllSmall(mss, Pack(mtu, cur, segs)[i])
    decreases |segs|
  {
    hide TotalSize;
    if segs != [] {
      if TotalSize(cur) + WireSize(segs[0]) <= mtu {
        PackAllSmall(mtu, cur + [segs[0]], segs[1..], mss, i);
      } else {
        var flushed := if cur == [] then 0 else 1;
        if i >= flushed { PackAllSmall(mtu, [segs[0]], segs[1..], mss, i - flushed); }
      }
    }
  }

  // ---- bounds on counters --------------------------------------------------------

  ghost predicate Paced(k: Kcp) { k.snd.nxt - k.snd.una <= k.sndWnd }

  /** Constant over a run. */
  ghost predicate Limits(p: Peer, other: Peer) {
    && p.k.sndWnd + other.k.rcv.wnd < HALF && p.k.mss < HALF && p.k.conv == other.k.conv
  }

  ghost predicate PeerOk(p: Peer, other: Peer) {
    Channel(p, other) && Paced(p.k) && OutFits(p) && Limits(p, other)
  }

  /** The receiver holds nothing the sender has not numbered. */
  lemma GotWasSent(r: Receiver, log: seq<Frag>, taken: int, x: int)
    requires ReceiverOk(r, log, taken) && Got(r, x)
    ensures 0 <= x < |log|
  {
    if x in RcvSns(r.buf) { var i := RcvSnsWitness(r.buf, x); }
  }

  /** The sender is never more than both windows ahead of the receiver. */
  lemma SenderNotFarAhead(k: Kcp, r: Receiver, log: seq<Frag>, rlog: seq<Frag>, taken: int)
    requires SenderOk(k.snd, log) && NoLoss(k.snd, r) && ReceiverOk(r, rlog, taken) && Paced(k)
    ensures k.snd.nxt <= r.nxt + r.wnd + k.sndWnd && k.snd.una <= k.snd.nxt
  {
    var x := k.snd.una - 1;
    if x >= r.nxt + r.wnd {
      assert Got(r, x) || x in SndSns(k.snd.buf);
      if x in RcvSns(r.buf) {
        var i := RcvSnsWitness(r.buf, x);
        assert false;
      } else {
        var i := SndSnsWitness(k.snd.buf, x);
        assert false;
      }
    }
  }

  // ---- commutation, operation by operation ------------------------------------------

  lemma RecvNarrow(k: Kcp, len: int, log: seq<Frag>, taken: int)
    requires ReceiverOk(k.rcv, log, taken) && k.rcv.wnd < HALF
    ensures var r := Recv(false, k, len);
      Recv(true, NarrowKcp(k), len) == Received(NarrowKcp(r.k), r.code, r.data)
  {
    hide MoveReady, FirstMessage, Join, PeekSize, U32, NarrowAll, NarrowAcks, NarrowSender;
    MoveReadyNarrow(k.rcv);
    var r1 := k.rcv.(queue := k.rcv.queue[|FirstMessage(k.rcv.queue)|..]);
    MoveReadyNarrow(r1);
    MoveReadyWnd(false, k.rcv);
    MoveReadyWnd(false, r1);
  }

  lemma {:induction false} MoveReadyWnd(w: bool, r: Receiver)
    ensures MoveReady(w, r).wnd == r.wnd
    decreases |r.buf|
  {
    if r.buf != [] && r.buf[0].sn == r.nxt && |r.queue| < r.wnd {
      MoveReadyWnd(w, r.(buf := r.buf[1..], queue := r.queue + [r.buf[0].body], nxt := Plus(w, r.nxt, 1)));
    }
  }

  lemma TickNarrow(k: Kcp, now: u32)
    ensures var (k', due) := Tick(k, now); Tick(NarrowKcp(k), now) == (NarrowKcp(k'), due)
  {
    hide S32, U32, NarrowSender, NarrowReceiver;
  }

  /** What one segment must satisfy for its step to commute, given the peer's state. */
  ghost predicate SegRecent(s: Seg, sndNxt: int, peerNxt: int, wnd: u32) {
    && sndNxt - s.una <= HALF
    && (s.cmd == CMD_ACK ==> sndNxt - s.sn <= HALF)
    && (s.cmd == CMD_PUSH ==> peerNxt + wnd - s.sn <= HALF)
  }

  ghost predicate SegsRecent(segs: seq<Seg>, sndNxt: int, peerNxt: int, wnd: u32) {
    forall i :: 0 <= i < |segs| ==> SegRecent(segs[i], sndNxt, peerNxt, wnd)
  }

  ghost predicate MaxRecent(m: MaxAck, sndNxt: int) {
    m.Highest? ==> 0 <= sndNxt - m.sn <= HALF && m.sn < sndNxt
  }

  lemma ReceiverSegNarrow(r: Receiver, s: Seg, log: seq<Frag>, taken: int, peerNxt: int, sndWnd: u32)
    requires ReceiverOk(r, log, taken) && DataOk(s, peerNxt, log)
    requires s.cmd == CMD_PUSH ==> peerNxt + r.wnd - s.sn <= HALF
    requires peerNxt <= r.nxt + r.wnd + sndWnd && sndWnd + r.wnd < HALF && |log| == peerNxt
    ensures ReceiverInput(true, NarrowReceiver(r), Narrow(s)) == NarrowReceiver(ReceiverInput(false, r, s))
  {
    hide InsertSeg, MoveReady, S32, U32;
    if s.cmd == CMD_PUSH && r.nxt <= s.sn < r.nxt + r.wnd {
      InsertSegOk(r.buf, s, r.nxt, r.nxt + r.wnd, log);
    }
    ReceiverInputNarrow(r, s);
  }

  lemma SenderSegNarrow(s: Sender, seg: Seg, peer: Receiver, log: seq<Frag>, plog: seq<Frag>, taken: int, sndWnd: u32)
    requires SenderOk(s, log) && NoLoss(s, peer) && FeedbackOk(seg, peer) && ReceiverOk(peer, plog, taken)
    requires |plog| == s.nxt && s.nxt - s.una <= sndWnd && sndWnd < HALF
    requires s.nxt - seg.una <= HALF && (seg.cmd == CMD_ACK ==> s.nxt - seg.sn <= HALF)
    ensures SenderInput(true, NarrowSender(s), Narrow(seg)) == NarrowSender(SenderInput(false, s, seg))
    ensures seg.cmd == CMD_ACK ==> seg.sn < s.nxt
  {
    hide S32, U32, RemoveSn, DropBelow;
    DropBelowOk(s.buf, seg.una, s.nxt, log);
    if seg.cmd == CMD_ACK { GotWasSent(peer, plog, taken, seg.sn); }
    SenderInputNarrow(s, seg);
  }

  lemma InputSegNarrow(k: Kcp, s: Seg)
    requires ReceiverInput(true, NarrowReceiver(k.rcv), Narrow(s)) == NarrowReceiver(ReceiverInput(false, k.rcv, s))
    requires SenderInput(true, NarrowSender(k.snd), Narrow(s)) == NarrowSender(SenderInput(false, k.snd, s))
    ensures InputSeg(true, NarrowKcp(k), Narrow(s)) == NarrowKcp(InputSeg(false, k, s))
  {
    hide Estimate, U32, S32, NarrowSender, NarrowReceiver, SenderInput, ReceiverInput;
  }

  lemma LaterNarrow(m: MaxAck, s: Seg, sndNxt: int)
    requires MaxRecent(m, sndNxt) && (s.cmd == CMD_ACK ==> s.sn < sndNxt && sndNxt - s.sn <= HALF)
    ensures Later(true, NarrowMax(m), Narrow(s)) == NarrowMax(Later(false, m, s)) && MaxRecent(Later(false, m, s), sndNxt)
  {
    if s.cmd == CMD_ACK && m.Highest? { DiffNarrow(s.sn, m.sn); }
  }

  lemma {:induction false} InputSegsNarrow(k: Kcp, m: MaxAck, segs: seq<Seg>, log: seq<Frag>, taken: int, peerNxt: int,
                                           peer: Receiver, out: seq<Frag>, plog: seq<Frag>, ptaken: int, peerWnd: u32)
    requires ReceiverOk(k.rcv, log, taken) && AllDataOk(segs, peerNxt, log) && |log| == peerNxt
    requires SenderOk(k.snd, out) && NoLoss(k.snd, peer) && AllFeedbackOk(segs, peer)
    requires ReceiverOk(peer, plog, ptaken) && |plog| == k.snd.nxt
    requires SegsRecent(segs, k.snd.nxt, peerNxt, k.rcv.wnd) && MaxRecent(m, k.snd.nxt)
    requires Paced(k) && k.sndWnd < HALF && peerWnd + k.rcv.wnd < HALF && peerNxt <= k.rcv.nxt + k.rcv.wnd + peerWnd
    ensures var (k', m') := InputSegs(false, k, m, segs);
      InputSegs(true, NarrowKcp(k), NarrowMax(m), NarrowAll(segs)) == (NarrowKcp(k'), NarrowMax(m'))
      && MaxRecent(m', k.snd.nxt)
    decreases |segs|
  {
    hide Estimate, S32, U32, ReceiverOk, SenderOk, NoLoss, SenderInput, ReceiverInput, NarrowSender, NarrowReceiver,
         NarrowMax, Later, MaxRecent;
    if segs != [] {
      var s := segs[0];
      assert DataOk(s, peerNxt, log) && FeedbackOk(s, peer) && SegRecent(s, k.snd.nxt, peerNxt, k.rcv.wnd);
      ReceiverSegNarrow(k.rcv, s, log, taken, peerNxt, peerWnd);
      SenderSegNarrow(k.snd, s, peer, out, plog, ptaken, k.sndWnd);
      InputSegNarrow(k, s);
      ReceiverInputOk(k.rcv, s, log, taken, peerNxt);
      SenderInputOk(k.snd, s, peer, out);
      LaterNarrow(m, s, k.snd.nxt);
      NarrowAllUnfold(segs);
      assert NarrowAll(segs)[0] == Narrow(s) && NarrowAll(segs)[1..] == NarrowAll(segs[1..]);
      InputSegsNarrow(InputSeg(false, k, s), Later(false, m, s), segs[1..], log, taken, peerNxt,
                      peer, out, plog, ptaken, peerWnd);
    }
  }

  lemma GrowNarrow(k: Kcp)
    ensures GrowCwnd(NarrowKcp(k)) == NarrowKcp(GrowCwnd(k))
  {
    hide Grown, NarrowSender, NarrowReceiver;
  }

  lemma SndBufInFlight(s: Sender, log: seq<Frag>)
    requires SenderOk(s, log) && s.nxt - s.una < HALF
    ensures NarrowFlight(s)
  {
    if s.buf != [] { assert s.buf[0].seg.sn < s.nxt; }
  }

  lemma InputNarrow(k: Kcp, segs: seq<Seg>, log: seq<Frag>, taken: int, peerNxt: int,
                    peer: Receiver, out: seq<Frag>, plog: seq<Frag>, ptaken: int, peerWnd: u32)
    requires ReceiverOk(k.rcv, log, taken) && AllDataOk(segs, peerNxt, log) && |log| == peerNxt
    requires SenderOk(k.snd, out) && NoLoss(k.snd, peer) && AllFeedbackOk(segs, peer)
    requires ReceiverOk(peer, plog, ptaken) && |plog| == k.snd.nxt
    requires SegsRecent(segs, k.snd.nxt, peerNxt, k.rcv.wnd)
    requires Paced(k) && k.sndWnd < HALF && peerWnd + k.rcv.wnd < HALF && peerNxt <= k.rcv.nxt + k.rcv.wnd + peerWnd
    ensures Input(true, NarrowKcp(k), NarrowAll(segs), 0) == NarrowKcp(Input(false, k, segs, 0))
  {
    hide InputSegs, S32, U32, NarrowReceiver, NarrowSender, ReceiverOk, NoLoss, GrowCwnd, ParseFastack, AllDataOk, AllFeedbackOk;
    InputSegsNarrow(k, NoAck, segs, log, taken, peerNxt, peer, out, plog, ptaken, peerWnd);
    InputSegsOk(k, NoAck, segs, log, taken, peerNxt, peer, out);
    var (k1, m) := InputSegs(false, k, NoAck, segs);
    var n := NarrowKcp(k);
    assert InputSegs(true, n, NoAck, NarrowAll(segs)) == (NarrowKcp(k1), NarrowMax(m));
    SndBufInFlight(k1.snd, out);
    SndBufInFlight(k.snd, out);
    var k2 := if m.Highest? then k1.(snd := ParseFastack(false, k1.snd, m.sn)) else k1;
    var n1 := NarrowKcp(k1);
    var n2 := if m.Highest? then n1.(snd := ParseFastack(true, n1.snd, U32(m.sn))) else n1;
    if m.Highest? {
      FastackNarrow(k1.snd, m.sn);
    }
    assert n2 == NarrowKcp(k2);
    FastackKeeps(k1.snd, m);
    DiffNarrowSender(k2.snd, k.snd);
    GrowNarrow(k2);
  }

  lemma FastackKeeps(s: Sender, m: MaxAck)
    ensures m.Highest? ==> ParseFastack(false, s, m.sn).una == s.una && ParseFastack(false, s, m.sn).nxt == s.nxt
  {}

  lemma DiffNarrowSender(a: Sender, b: Sender)
    requires Near(a.una, b.una)
    ensures Diff(true, NarrowSender(a).una, NarrowSender(b).una) == a.una - b.una
  {
    DiffNarrow(a.una, b.una);
  }

  lemma {:induction false} EncodableNarrow(conv: u32, segs: seq<Seg>)
    ensures AllEncodable(NarrowAll(segs)) <==> AllEncodable(segs)
    ensures AllEncodable(segs) ==> EncodeAll(conv, NarrowAll(segs)) == EncodeAll(conv, segs)
    decreases |segs|
  {
    if segs != [] {
      EncodableNarrow(conv, segs[1..]);
      var n := NarrowAll(segs);
      assert n[0] == Narrow(segs[0]) && n[1..] == NarrowAll(segs[1..]);
      assert AllEncodable(segs) <==> Encodable(segs[0]) && AllEncodable(segs[1..]) by {
        assert segs == [segs[0]] + segs[1..];
      }
      assert AllEncodable(n) <==> Encodable(n[0]) && AllEncodable(n[1..]) by {
        assert n == [n[0]] + n[1..];
      }
      if Encodable(segs[0]) { EncodeSegNarrow(conv, segs[0]); }
    }
  }

  lemma EncodeSegNarrow(conv: u32, s: Seg)
    requires Encodable(s)
    ensures EncodeSeg(conv, Narrow(s)) == EncodeSeg(conv, s)
  {
    hide Encode32, Encode16;
    assert U32(U32(s.sn)) == U32(s.sn) && U32(U32(s.una)) == U32(s.una);
  }

  lemma {:induction false} DatagramsAt(ds: seq<seq<Seg>>, i: nat)
    requires i < |ds|
    ensures NarrowDatagrams(ds)[i] == NarrowAll(ds[i])
    decreases i
  {
    if i > 0 { DatagramsAt(ds[1..], i - 1); }
  }

  lemma EncodeOutNarrow(conv: u32, ds: seq<seq<Seg>>)
    ensures EncodeOut(conv, NarrowDatagrams(ds)) == EncodeOut(conv, ds)
  {
    forall i | 0 <= i < |ds|
      ensures AllEncodable(NarrowDatagrams(ds)[i]) <==> AllEncodable(ds[i])
      ensures AllEncodable(ds[i]) ==> EncodeAll(conv, NarrowDatagrams(ds)[i]) == EncodeAll(conv, ds[i])
    {
      DatagramsAt(ds, i);
      EncodableNarrow(conv, ds[i]);
    }
  }

  // ---- one step --------------------------------------------------------------------

  /** The log the sender of `p` built, and how much of it was numbered. */
  ghost function LogOf(p: Peer): seq<Frag>
    requires Sendable(p.k.mss, p.accepted)
  {
    FragAll(p.k.mss, p.accepted)
  }

  lemma AcceptNarrow(p: Peer, msg: seq<u8>)
    requires p.k.mss > 0
    ensures Act32(NarrowPeer(p), Accept32(msg)) == NarrowPeer(Act(p, Accept(msg)))
  {
    hide Fragment, FragCount, NarrowReceiver, U32;
  }

  lemma TakeNarrow(p: Peer, other: Peer, len: int)
    requires PeerOk(p, other) && PeerOk(other, p)
    ensures Act32(NarrowPeer(p), Take32(len)) == NarrowPeer(Act(p, Take(len)))
    ensures Act(p, Take(len)).out == p.out && Act(p, Take(len)).k.snd == p.k.snd && SameConfig(p.k, Act(p, Take(len)).k)
  {
    var sent, n := LogOf(other)[..other.k.snd.nxt], |p.received|;
    hide Recv, NarrowKcp, FragAll, OutOk;
    RecvNarrow(p.k, len, sent, Start(other.k.mss, other.accepted, n));
    RecvDelivers(p.k, len, sent, other.k.mss, other.accepted, n);
  }

  lemma ClockNarrow(p: Peer, other: Peer, now: u32)
    requires PeerOk(p, other) && PeerOk(other, p)
    ensures Act32(NarrowPeer(p), Clock32(now)) == NarrowPeer(Act(p, Clock(now)))
    ensures var p' := Act(p, Clock(now)); Paced(p'.k) && OutFits(p') && SameConfig(p.k, p'.k)
  {
    hide Tick, Flush, NarrowSender, NarrowReceiver, FragAll, Filled, DatagramOk;
    var (k, due) := Tick(p.k, now);
    var log := LogOf(p);
    TickFrame(p.k, now);
    TickNarrow(p.k, now);
    var p' := Act(p, Clock(now));
    if due {
      FragAllFits(p.k.mss, p.accepted);
      FlushOk(k, log, other.k.rcv);
      SenderFlight(k, log);
      MoveOutBound(k, log, other.k.rcv);
      FlushNarrow(k);
      var ds := Flush(false, k).1;
      if k.updated { FlushPacks(k, log, other.k.rcv); } else { FlushIdle(k); }
      assert forall i :: 0 <= i < |ds| ==> DatagramOk(p.k.mtu, ds[i]);
      EncodeOutNarrow(p.k.conv, ds);
      assert p'.out == p.out + set i | 0 <= i < |ds| :: ds[i];
    }
  }

  lemma FlushIdle(k: Kcp)
    requires !k.updated
    ensures Flush(false, k).1 == []
  {}

  lemma SenderFlight(k: Kcp, log: seq<Frag>)
    requires SenderOk(k.snd, log) && Paced(k) && k.sndWnd < HALF
    ensures NarrowFlight(k.snd) && SendWindow(k) <= k.sndWnd
  {
    SndBufInFlight(k.snd, log);
  }

  lemma MoveOutBound(k: Kcp, log: seq<Frag>, peer: Receiver)
    requires SenderOk(k.snd, log) && NoLoss(k.snd, peer) && Paced(k) && k.sndWnd < HALF
    ensures 0 <= Filled(false, k).nxt - Filled(false, k).una < HALF
  {
    hide MoveOut;
    SenderFlight(k, log);
    MoveOutOk(k, k.snd, SendWindow(k), log, peer);
  }

  lemma DeliverNarrow(p: Peer, other: Peer, segs: seq<Seg>)
    requires PeerOk(p, other) && PeerOk(other, p) && segs in other.out && Recent(p, other, Deliver(segs))
    ensures Act32(NarrowPeer(p), NarrowEvent(p, Deliver(segs))) == NarrowPeer(Act(p, Deliver(segs)))
    ensures var p' := Act(p, Deliver(segs)); p'.out == p.out && Paced(p'.k) && SameConfig(p.k, p'.k)
  {
    hide Input, NarrowSender, NarrowReceiver, FragAll, Decode, SenderOk, ReceiverOk, NoLoss, S32, U32, TotalSize;
    assert DatagramOk(other.k.mtu, segs);
    var b := EncodeAll(p.k.conv, segs);
    DecodeEncode(p.k.conv, segs);
    NonemptySize(segs);
    SenderBounds(other.k.snd, LogOf(other));
    SenderBounds(p.k.snd, LogOf(p));
    var log, sent := LogOf(other), LogOf(other)[..other.k.snd.nxt];
    var plog := LogOf(p)[..p.k.snd.nxt];
    var taken := Start(other.k.mss, other.accepted, |p.received|);
    var ptaken := Start(p.k.mss, p.accepted, |other.received|);
    DataWithin(segs, other.k.snd.nxt, log);
    SenderNotFarAhead(other.k, p.k.rcv, log, sent, taken);
    InputNarrow(p.k, segs, sent, taken, other.k.snd.nxt, other.k.rcv, LogOf(p), plog, ptaken, other.k.sndWnd);
    InputOk(p.k, segs, 0, sent, taken, other.k.snd.nxt, other.k.rcv, LogOf(p));
  }

  lemma SenderBounds(s: Sender, log: seq<Frag>)
    requires SenderOk(s, log)
    ensures 0 <= s.nxt <= |log|
  {}

  lemma NonemptySize(segs: seq<Seg>)
    requires segs != []
    ensures TotalSize(segs) >= OVERHEAD
  {}

  lemma AcceptFrame(p: Peer, msg: seq<u8>)
    requires p.k.mss > 0
    ensures var p' := Act(p, Accept(msg));
      p'.out == p.out && p'.k.rcv == p.k.rcv && SameConfig(p.k, p'.k)
      && p'.k.snd.nxt == p.k.snd.nxt && p'.k.snd.una == p.k.snd.una
  {
    hide Fragment, FragCount;
  }

  lemma WindowKept(p: Peer, e: Event, other: Peer)
    requires Channel(p, other) && Channel(other, p) && Enabled(p, other, e)
    requires Channel(Act(p, e), other) && Channel(other, Act(p, e))
    ensures Act(p, e).k.rcv.wnd == p.k.rcv.wnd
  {
    hide Flush, Input, Recv, Tick, FragAll, SenderOk, NoLoss, OutOk;
    SenderBounds(other.k.snd, LogOf(other));
    var sent, n := LogOf(other)[..other.k.snd.nxt], |p.received|;
    var taken := Start(other.k.mss, other.accepted, n);
    match e
    case Accept(msg) => AcceptFrame(p, msg);
    case Take(len) => RecvDelivers(p.k, len, sent, other.k.mss, other.accepted, n);
    case Clock(now) =>
      TickFrame(p.k, now);
      FlushOk(Tick(p.k, now).0, LogOf(p), other.k.rcv);
    case Deliver(segs) =>
      OutAt(other, LogOf(other), segs);
      DataWithin(segs, other.k.snd.nxt, LogOf(other));
      InputOk(p.k, segs, 0, sent, taken, other.k.snd.nxt, other.k.rcv, LogOf(p));
  }

  lemma OutAt(p: Peer, log: seq<Frag>, d: seq<Seg>)
    requires OutOk(p, log) && d in p.out
    ensures AllDataOk(d, p.k.snd.nxt, log) && AllFeedbackOk(d, p.k.rcv)
  {}

  /** One step of the byte-level endpoint is the wrapped step of the unbounded one. */
  lemma StepNarrow(p: Peer, other: Peer, e: Event)
    requires PeerOk(p, other) && PeerOk(other, p) && Enabled(p, other, e) && Recent(p, other, e)
    ensures Act32(NarrowPeer(p), NarrowEvent(p, e)) == NarrowPeer(Act(p, e))
    ensures PeerOk(Act(p, e), other) && PeerOk(other, Act(p, e))
  {
    hide Act, Act32, NarrowPeer, Channel;
    StepKeeps(p, other, e);
    MssPositive(p, other);
    WindowKept(p, e, other);
    match e
    case Accept(msg) => AcceptNarrow(p, msg); AcceptFrame(p, msg);
    case Take(len) => TakeNarrow(p, other, len);
    case Clock(now) => ClockNarrow(p, other, now);
    case Deliver(segs) => DeliverNarrow(p, other, segs);
  }

  lemma MssPositive(p: Peer, other: Peer)
    requires Channel(p, other)
    ensures p.k.mss > 0
  {}

  // ---- whole runs --------------------------------------------------------------------

  datatype Move = Move(byA: bool, e: Event)

  ghost function MoveNet(n: Net, m: Move): Net
    requires n.a.k.mss > 0 && n.b.k.mss > 0
  {
    if m.byA then n.(a := Act(n.a, m.e)) else n.(b := Act(n.b, m.e))
  }

  datatype Net32 = Net32(a: Peer32, b: Peer32)

  ghost function NarrowNet(n: Net): Net32 { Net32(NarrowPeer(n.a), NarrowPeer(n.b)) }

  /** The same move on the byte-level network: the delivered datagram is the encoding
      of the copy the move names. */
  ghost function MoveNet32(c: Net32, n: Net, m: Move): Net32
    requires c.a.k.mss > 0 && c.b.k.mss > 0
  {
    if m.byA then c.(a := Act32(c.a, NarrowEvent(n.a, m.e))) else c.(b := Act32(c.b, NarrowEvent(n.b, m.e)))
  }

  /** A move the network allows and whose datagram, if any, is recent. */
  ghost predicate Timely(n: Net, m: Move) {
    if m.byA then Enabled(n.a, n.b, m.e) && Recent(n.a, n.b, m.e)
    else Enabled(n.b, n.a, m.e) && Recent(n.b, n.a, m.e)
  }

  ghost predicate NetOk(n: Net) { PeerOk(n.a, n.b) && PeerOk(n.b, n.a) }

  /** A byte-level run: `cs` are its states, `ns` the unbounded history that names the
      copies being delivered. Timeliness speaks of that history only. */
  ghost predicate Run32(cs: seq<Net32>, ns: seq<Net>, ms: seq<Move>) {
    && |cs| == |ns| == |ms| + 1
    && Fresh(ns[0].a) && Fresh(ns[0].b) && Limits(ns[0].a, ns[0].b) && Limits(ns[0].b, ns[0].a)
    && cs[0] == NarrowNet(ns[0])
    && forall i :: 0 <= i < |ms| ==>
         && ns[i].a.k.mss > 0 && ns[i].b.k.mss > 0 && cs[i].a.k.mss > 0 && cs[i].b.k.mss > 0
         && Timely(ns[i], ms[i]) && ns[i + 1] == MoveNet(ns[i], ms[i])
         && cs[i + 1] == MoveNet32(cs[i], ns[i], ms[i])
  }

  lemma {:induction false} RunNarrow(cs: seq<Net32>, ns: seq<Net>, ms: seq<Move>)
    requires Run32(cs, ns, ms)
    ensures NetOk(ns[|ms|]) && cs[|ms|] == NarrowNet(ns[|ms|])
    decreases |ms|
  {
    hide Act, Act32, NarrowPeer, PeerOk, Recent, Enabled, NarrowEvent;
    if ms == [] {
      FreshOk(ns[0].a, ns[0].b);
      FreshOk(ns[0].b, ns[0].a);
    } else {
      var i := |ms| - 1;
      RunNarrow(cs[..i + 1], ns[..i + 1], ms[..i]);
      var n, m := ns[i], ms[i];
      assert Timely(n, m);
      if m.byA { StepNarrow(n.a, n.b, m.e); } else { StepNarrow(n.b, n.a, m.e); }
    }
  }

  lemma FreshOk(p: Peer, other: Peer)
    requires Fresh(p) && Fresh(other) && Limits(p, other)
    ensures PeerOk(p, other)
  {}

  /** Main result for the code's own arithmetic: over every run of two byte-level
      endpoints in which no delivered segment is half the number space behind, each
      application receives a prefix of what the other got accepted. */
  lemma BytesInOrderOnce(cs: seq<Net32>, ns: seq<Net>, ms: seq<Move>)
    requires Run32(cs, ns, ms)
    ensures var c := cs[|ms|]; c.b.received <= c.a.accepted && c.a.received <= c.b.accepted
  {
    RunNarrow(cs, ns, ms);
  }

  /** Over every such run, in the code's own comparisons: each number from rcv_nxt up to
      snd_nxt is in the peer's rcv_buf or still in snd_buf; snd_una heads snd_buf; rcv_buf
      ascends inside the window; and rcv_queue never outgrows it. */
  lemma NothingForgotten32(cs: seq<Net32>, ns: seq<Net>, ms: seq<Move>, v: u32)
    requires Run32(cs, ns, ms)
    ensures var s, r := cs[|ms|].a.k.snd, cs[|ms|].b.k.rcv;
      && (Diff(true, v, r.nxt) >= 0 && Diff(true, v, s.nxt) < 0 ==>
            || (exists i :: 0 <= i < |r.buf| && r.buf[i].sn == v)
            || (exists i :: 0 <= i < |s.buf| && s.buf[i].seg.sn == v))
      && s.una == (if s.buf == [] then s.nxt else s.buf[0].seg.sn)
      && (forall i :: 0 <= i < |r.buf| ==> 0 <= Diff(true, r.buf[i].sn, r.nxt) < r.wnd)
      && (forall i, j :: 0 <= i < j < |r.buf| ==> Diff(true, r.buf[j].sn, r.buf[i].sn) > 0)
      && |r.queue| <= r.wnd
  {
    hide NarrowNet, NetOk, Held, Inv, NarrowSender, NarrowReceiver, MoveNet, MoveNet32, Timely, Fresh, Limits, U32, S32;
    RunNarrow(cs, ns, ms);
    var n := ns[|ms|];
    Spread(n);
    var x := n.b.k.rcv.nxt + Diff(true, v, U32(n.b.k.rcv.nxt));
    OkIsInv(n);
    HeldSomewhere(n, x);
    HeldNarrow(n, x, v);
    NarrowParts(n);
  }

  lemma OkIsInv(n: Net)
    requires NetOk(n)
    ensures Inv(n)
  {}

  /** How far the counters of a run are apart. */
  lemma Spread(n: Net)
    requires NetOk(n)
    ensures var s, r := n.a.k.snd, n.b.k.rcv; 0 <= r.nxt <= s.nxt && s.nxt - r.nxt < HALF && r.wnd < HALF
  {
    var log := LogOf(n.a);
    SenderNotFarAhead(n.a.k, n.b.k.rcv, log, log[..n.a.k.snd.nxt], Start(n.a.k.mss, n.a.accepted, |n.b.received|));
  }

  lemma NarrowParts(n: Net)
    ensures NarrowNet(n).a.k.snd == NarrowSender(n.a.k.snd) && NarrowNet(n).b.k.rcv == NarrowReceiver(n.b.k.rcv)
    ensures NarrowNet(n).a.accepted == n.a.accepted && NarrowNet(n).b.received == n.b.received
  {}

  lemma HeldNarrow(n: Net, x: int, v: u32)
    requires Held(n, x) && x == n.b.k.rcv.nxt + Diff(true, v, U32(n.b.k.rcv.nxt))
    requires var s, r := n.a.k.snd, n.b.k.rcv; 0 <= r.nxt <= s.nxt && s.nxt - r.nxt < HALF && r.wnd < HALF
    ensures var s, r := NarrowSender(n.a.k.snd), NarrowReceiver(n.b.k.rcv);
      && (Diff(true, v, r.nxt) >= 0 && Diff(true, v, s.nxt) < 0 ==>
            || (exists i :: 0 <= i < |r.buf| && r.buf[i].sn == v)
            || (exists i :: 0 <= i < |s.buf| && s.buf[i].seg.sn == v))
      && s.una == (if s.buf == [] then s.nxt else s.buf[0].seg.sn)
      && (forall i :: 0 <= i < |r.buf| ==> 0 <= Diff(true, r.buf[i].sn, r.nxt) < r.wnd)
      && (forall i, j :: 0 <= i < j < |r.buf| ==> Diff(true, r.buf[j].sn, r.buf[i].sn) > 0)
      && |r.queue| <= r.wnd
  {
    hide Diff, U32, S32;
    var s, r := n.a.k.snd, n.b.k.rcv;
    Unwrapped(v, r.nxt);
    if Diff(true, v, U32(r.nxt)) >= 0 { DiffNarrow(x, s.nxt); }
    forall i | 0 <= i < |r.buf| ensures NarrowAll(r.buf)[i] == Narrow(r.buf[i]) && 0 <= Diff(true, U32(r.buf[i].sn), U32(r.nxt)) < r.wnd {
      NarrowAllAt(r.buf, i);
      DiffNarrow(r.buf[i].sn, r.nxt);
    }
    forall i, j | 0 <= i < j < |r.buf| ensures Diff(true, U32(r.buf[j].sn), U32(r.buf[i].sn)) > 0 {
      DiffNarrow(r.buf[j].sn, r.buf[i].sn);
    }
    forall i | 0 <= i < |s.buf| ensures NarrowSents(s.buf)[i].seg.sn == U32(s.buf[i].seg.sn) { NarrowSentsAt(s.buf, i); }
  }

  /** The number that a word names when the difference is not negative. */
  lemma Unwrapped(v: u32, nxt: int)
    ensures U32(nxt + Diff(true, v, U32(nxt))) == v && Diff(true, v, U32(nxt)) < HALF
  {}

  lemma {:induction false} NarrowAllAt(segs: seq<Seg>, i: nat)
    requires i < |segs|
    ensures NarrowAll(segs)[i] == Narrow(segs[i])
  {
    if i > 0 { NarrowAllAt(segs[1..], i - 1); }
  }

  lemma {:induction false} NarrowSentsAt(buf: seq<Sent>, i: nat)
    requires i < |buf|
    ensures NarrowSents(buf)[i] == buf[i].(seg := Narrow(buf[i].seg))
  {
    if i > 0 { NarrowSentsAt(buf[1..], i - 1); }
  }

  /** Over every such run a full receive queue can be read: the next message comes out. */
  lemma FullQueueDelivers32(cs: seq<Net32>, ns: seq<Net>, ms: seq<Move>, len: int)
    requires Run32(cs, ns, ms)
    ensures var c := cs[|ms|]; var k := c.b.k;
      |k.rcv.queue| >= k.rcv.wnd >= WND_RCV && len >= PeekSize(k.rcv.queue) ==>
        |c.b.received| < |c.a.accepted|
        && Recv(true, k, len).data == c.a.accepted[|c.b.received|] && Recv(true, k, len).code >= 0
  {
    hide NarrowNet, NetOk, Inv, Readable, MoveNet, MoveNet32, Timely, Fresh, Limits, Recv, PeekSize;
    RunNarrow(cs, ns, ms);
    var n := ns[|ms|];
    OkIsInv(n);
    FullIsReadable(n, len);
    ReadableNarrow(n, len);
  }

  lemma ReadableNarrow(n: Net, len: int)
    requires Readable(n, len)
    ensures var c := NarrowNet(n); var k := c.b.k;
      |k.rcv.queue| >= k.rcv.wnd >= WND_RCV && len >= PeekSize(k.rcv.queue) ==>
        |c.b.received| < |c.a.accepted|
        && Recv(true, k, len).data == c.a.accepted[|c.b.received|] && Recv(true, k, len).code >= 0
  {
    hide MoveReady, Join, FirstMessage;
  }

  /** Over every such run all datagrams ever sent decode without error to whole
      segments and fit the sender's mtu, and every one of them has a copy that a move
      of the run could name. */
  lemma DatagramsDecode(cs: seq<Net32>, ns: seq<Net>, ms: seq<Move>, b: seq<u8>)
    requires Run32(cs, ns, ms) && b in cs[|ms|].a.out
    ensures |b| <= cs[|ms|].a.k.mtu
    ensures exists d :: d in ns[|ms|].a.out && Decode(cs[|ms|].a.k.conv, b) == (NarrowAll(d), 0)
  {
    RunNarrow(cs, ns, ms);
    var p := ns[|ms|].a;
    var d :| d in p.out && AllEncodable(d) && b == EncodeAll(p.k.conv, d);
    assert DatagramOk(p.k.mtu, d);
    DecodeEncode(p.k.conv, d);
  }
}

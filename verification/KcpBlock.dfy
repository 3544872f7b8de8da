/** The control block of code/kcp/ikcp.h, updated in place by the loops of ikcp.c.

    Every method is proved against its function in KcpSpec (with 32-bit arithmetic);
    `Value()` is the control block those functions speak of. Queues of segments are
    sequences; the acknowledgement list and the work buffer are arrays. */
module KcpBlock {
  import opened Words
  import opened KcpTypes
  import opened KcpSpec
  import opened KcpWire

  function EncodeList(conv: u32, ds: seq<seq<Seg>>): (r: seq<seq<u8>>)
    requires forall i :: 0 <= i < |ds| ==> AllEncodable(ds[i])
    ensures |r| == |ds| && forall i :: 0 <= i < |ds| ==> r[i] == EncodeAll(conv, ds[i])
  {
    seq(|ds|, i requires 0 <= i < |ds| => EncodeAll(conv, ds[i]))
  }

  predicate SentFit(mss: nat, buf: seq<Sent>) {
    forall i :: 0 <= i < |buf| ==> buf[i].seg.cmd == CMD_PUSH && |buf[i].seg.body.data| <= mss
  }

  lemma SentFitRemove(mss: nat, buf: seq<Sent>, i: nat)
    requires SentFit(mss, buf) && i < |buf|
    ensures SentFit(mss, buf[..i] + buf[i + 1..])
  {}

  class Ikcp {
    var conv: u32
    var mtu: nat
    var mss: nat
    var dead: bool
    var sndUna: int
    var sndNxt: int
    var rcvNxt: int
    var ssthresh: u32
    var rxRttval: int
    var rxSrtt: int
    var rxRto: u32
    var rxMinrto: u32
    var sndWnd: u32
    var rcvWnd: u32
    var rmtWnd: u32
    var cwnd: u32
    var incr: u32
    var askSend: bool
    var askTell: bool
    var current: u32
    var interval: u32
    var tsFlush: u32
    var xmit: u32
    var nodelay: nat
    var updated: bool
    var tsProbe: u32
    var probeWait: u32
    var deadLink: u32
    var fastresend: nat
    var fastlimit: int
    var nocwnd: bool
    var sndQueue: seq<Frag>
    var rcvQueue: seq<Frag>
    var sndBuf: seq<Sent>
    var rcvBuf: seq<Seg>
    var nsndQue: nat
    var nrcvQue: nat
    var nsndBuf: nat
    var nrcvBuf: nat
    var acklist: array<u32>
    /** The acknowledgements that acklist holds as pairs of words. */
    ghost var acks: seq<Ack>
    var ackcount: nat
    var ackblock: nat
    var buffer: array<u8>
    /** What the output callback was given, oldest first. */
    var sent: seq<seq<u8>>

    /** The counters are the queue lengths. */
    ghost predicate SndCounted()
      reads this`nsndQue, this`nsndBuf, this`sndQueue, this`sndBuf
    {
      nsndQue == |sndQueue| && nsndBuf == |sndBuf|
    }

    ghost predicate RcvCounted()
      reads this`nrcvQue, this`nrcvBuf, this`rcvQueue, this`rcvBuf
    {
      nrcvQue == |rcvQueue| && nrcvBuf == |rcvBuf|
    }

    ghost predicate ArraysFit()
      reads this`acklist, this`ackcount, this`ackblock, this`buffer, this`mtu, this`mss
    {
      && mss > 0 && mtu == mss + OVERHEAD && mtu < HALF
      && ackcount <= ackblock && acklist.Length == 2 * ackblock
      && buffer.Length == (mtu + OVERHEAD) * 3
    }

    ghost predicate BodiesFit()
      reads this`mss, this`sndQueue, this`sndBuf
    {
      && (forall i :: 0 <= i < |sndQueue| ==> |sndQueue[i].data| <= mss)
      && SentFit(mss, sndBuf)
    }

    ghost predicate AcksHeld()
      reads this`acks, this`acklist, this`ackcount, acklist
    {
      && ackcount == |acks| && 2 * ackcount <= acklist.Length
      && forall i :: 0 <= i < |acks| ==> acks[i].sn == acklist[2 * i] && acks[i].ts == acklist[2 * i + 1]
    }

    ghost predicate Valid()
      reads this`nsndQue, this`nsndBuf, this`sndQueue, this`sndBuf, this`nrcvQue, this`nrcvBuf, this`rcvQueue, this`rcvBuf
      reads this`acklist, this`ackcount, this`ackblock, this`buffer, this`mtu, this`mss, this`acks, acklist
    {
      SndCounted() && RcvCounted() && ArraysFit() && BodiesFit() && AcksHeld()
    }

    ghost function SenderValue(): Sender
      reads this`sndUna, this`sndNxt, this`sndQueue, this`sndBuf
    {
      Sender(sndUna, sndNxt, sndQueue, sndBuf)
    }

    ghost function ReceiverValue(): Receiver
      reads this`rcvNxt, this`rcvWnd, this`rcvQueue, this`rcvBuf, this`acks
    {
      Receiver(rcvNxt, rcvWnd, rcvQueue, rcvBuf, acks)
    }

    ghost function RttValue(): Rtt
      reads this`rxRttval, this`rxSrtt, this`rxRto
    {
      Rtt(rxRttval, rxSrtt, rxRto)
    }

    ghost function Value(): Kcp
      reads this
    {
      Kcp(conv, mtu, mss, dead, SenderValue(), ReceiverValue(),
          RttValue(), rxMinrto, sndWnd, rmtWnd, cwnd, incr, ssthresh,
          askSend, askTell, current, interval, tsFlush, xmit,
          nodelay, updated, tsProbe, probeWait, deadLink, fastresend, fastlimit, nocwnd)
    }

    /** ikcp_create: default windows, mtu and timers, everything else empty. */
    constructor (conversation: u32)
      ensures Valid() && fresh(acklist) && fresh(buffer)
      ensures Value() == Created(conversation) && sent == []
    {
      conv := conversation;
      sndUna, sndNxt, rcvNxt := 0, 0, 0;
      tsProbe, probeWait := 0, 0;
      sndWnd, rcvWnd, rmtWnd := WND_SND, WND_RCV, WND_RCV;
      cwnd, incr, askSend, askTell := 0, 0, false, false;
      mtu, mss := MTU_DEF, MTU_DEF - OVERHEAD;
      buffer := new u8[(MTU_DEF + OVERHEAD) * 3];
      sndQueue, rcvQueue, sndBuf, rcvBuf := [], [], [], [];
      nrcvBuf, nsndBuf, nrcvQue, nsndQue := 0, 0, 0, 0;
      dead := false;
      acklist := new u32[0];
      ackblock, ackcount, acks := 0, 0, [];
      rxSrtt, rxRttval, rxRto, rxMinrto := 0, 0, RTO_DEF, RTO_MIN;
      current, interval, tsFlush := 0, INTERVAL, INTERVAL;
      nodelay, updated := 0, false;
      ssthresh := THRESH_INIT;
      fastresend, fastlimit, nocwnd := 0, FASTACK_LIMIT, false;
      xmit, deadLink := 0, DEADLINK;
      sent := [];
    }

    // ---- ikcp_send, ikcp_peeksize, ikcp_recv -----------------------------------

    method Send(msg: seq<u8>) returns (code: int)
      requires Valid()
      modifies this`sndQueue, this`nsndQue
      ensures Valid()
      ensures var (k', c) := KcpSpec.Send(old(Value()), msg); code == c && SenderValue() == k'.snd
    {
      hide Fragment;
      ghost var before := sndQueue;
      var count := if |msg| <= mss then 1 else (|msg| + mss - 1) / mss;
      if count >= WND_RCV {
        return -2;
      }
      assert count == FragCount(mss, |msg|) && count >= 0;
      var rest := msg;
      var i := 0;
      while i < count
        invariant 0 <= i <= count
        invariant nsndQue == |sndQueue|
        invariant before + Fragment(mss, msg, count) == sndQueue + Fragment(mss, rest, count - i)
        invariant count == FragCount(mss, |msg|) < WND_RCV
        invariant forall j :: 0 <= j < |sndQueue| ==> |sndQueue[j].data| <= mss
      {
        var size := if |rest| > mss then mss else |rest|;
        var f := Frag(count - i - 1, rest[..size]);
        FragmentStep(mss, rest, count - i);
        assert sndQueue + Fragment(mss, rest, count - i) == (sndQueue + [f]) + Fragment(mss, rest[size..], count - i - 1);
        sndQueue := sndQueue + [f];
        nsndQue := nsndQue + 1;
        rest := rest[size..];
        i := i + 1;
      }
      FragmentEnd(mss, rest);
      assert sndQueue == before + Fragment(mss, msg, count);
      code := 0;
    }

    static lemma JoinFrom(q: seq<Frag>, i: nat)
      requires i < |q|
      ensures |Join(FirstMessage(q[i..]))| == |q[i].data| + if q[i].frg == 0 then 0 else |Join(FirstMessage(q[i + 1..]))|
    {
      hide FirstMessage, Join;
      assert q[i..][0] == q[i] && q[i..][1..] == q[i + 1..];
      JoinFirst(q[i..]);
    }

    method PeekSize() returns (length: int)
      requires Valid()
      ensures length == KcpSpec.PeekSize(rcvQueue)
    {
      if rcvQueue == [] { return -1; }
      if rcvQueue[0].frg == 0 { return |rcvQueue[0].data|; }
      if nrcvQue < rcvQueue[0].frg + 1 { return -1; }
      length := SumFirst();
    }

    /** The loop that adds up the sizes of the fragments of the first message. */
    method SumFirst() returns (length: nat)
      ensures length == |Join(FirstMessage(rcvQueue))|
    {
      hide FirstMessage, Join;
      length := 0;
      var i := 0;
      while i < |rcvQueue|
        invariant 0 <= i <= |rcvQueue|
        invariant |Join(FirstMessage(rcvQueue))| == length + |Join(FirstMessage(rcvQueue[i..]))|
      {
        var f := rcvQueue[i];
        length := length + |f.data|;
        JoinFrom(rcvQueue, i);
        if f.frg == 0 { return; }
        i := i + 1;
      }
      NoMessage();
    }

    /** `len < 0` peeks; the copied bytes are `data`. */
    method Recv(len: int) returns (code: int, data: seq<u8>)
      requires Valid()
      modifies this`rcvQueue, this`nrcvQue, this`rcvBuf, this`nrcvBuf, this`rcvNxt, this`askTell
      ensures Valid()
      ensures var t := TakeMessage(true, old(ReceiverValue()), len);
        code == t.code && data == t.data && ReceiverValue() == t.r && askTell == (old(askTell) || t.recovered)
    {
      data := [];
      if rcvQueue == [] { return -1, []; }
      var room := if len < 0 then -len else len;
      var peeksize := PeekSize();
      if peeksize < 0 { return -2, []; }
      if peeksize > room { return -3, []; }
      var recover := nrcvQue >= rcvWnd;
      ghost var r0 := ReceiverValue();
      data := MergeFragments(len < 0);
      code := |data|;
      assert code == peeksize by { PeekIsMerged(r0.queue); }
      hide MoveReady, FirstMessage, Join, KcpSpec.PeekSize;
      assert ReceiverValue() == if len < 0 then r0 else r0.(queue := r0.queue[|FirstMessage(r0.queue)|..]);
      MoveAvailable();
      if nrcvQue < rcvWnd && recover {
        askTell := true;
      }
    }

    /** The merging loop of ikcp_recv: unlinks the fragments unless it only peeks. */
    method MergeFragments(ispeek: bool) returns (data: seq<u8>)
      requires Valid()
      modifies this`rcvQueue, this`nrcvQue
      ensures Valid() && data == Join(FirstMessage(old(rcvQueue)))
      ensures rcvQueue == if ispeek then old(rcvQueue) else AfterFirst(old(rcvQueue))
    {
      hide FirstMessage, Join, AfterFirst, Merging;
      ghost var q := rcvQueue;
      data := [];
      var p := 0;
      MergeStart(q);
      while p < |rcvQueue|
        invariant 0 <= p <= |rcvQueue| && nrcvQue == |rcvQueue|
        invariant if ispeek then rcvQueue == q else p == 0
        invariant Merging(q, rcvQueue[p..], data)
        decreases |rcvQueue| - p
      {
        var f := rcvQueue[p];
        ghost var rest := rcvQueue[p..];
        assert rest[0] == f && rest[1..] == rcvQueue[p + 1..];
        MergeStep(q, rest, data);
        data := data + f.data;
        if ispeek {
          p := p + 1;
        } else {
          rcvQueue := rcvQueue[1..];
          nrcvQue := nrcvQue - 1;
        }
        if f.frg == 0 {
          return;
        }
      }
      assert rcvQueue[p..] == [];
      MergeEnd(q, data);
    }

    /** The loop that moves segments from rcv_buf to rcv_queue. */
    method MoveAvailable()
      requires Valid()
      modifies this`rcvQueue, this`nrcvQue, this`rcvBuf, this`nrcvBuf, this`rcvNxt
      ensures Valid() && ReceiverValue() == MoveReady(true, old(ReceiverValue()))
    {
      hide U32, ArraysFit, BodiesFit, SndCounted, AcksHeld;
      ghost var r0 := ReceiverValue();
      while rcvBuf != []
        invariant Valid()
        invariant MoveReady(true, ReceiverValue()) == MoveReady(true, r0)
        decreases |rcvBuf|
      {
        var seg := rcvBuf[0];
        if seg.sn == rcvNxt && nrcvQue < rcvWnd {
          rcvBuf := rcvBuf[1..];
          nrcvBuf := nrcvBuf - 1;
          rcvQueue := rcvQueue + [seg.body];
          nrcvQue := nrcvQue + 1;
          rcvNxt := U32(rcvNxt + 1);
        } else {
          break;
        }
      }
    }

    // ---- acknowledgements --------------------------------------------------------

    method ShrinkBuf()
      requires Valid()
      modifies this`sndUna
      ensures Valid() && SenderValue() == Shrink(old(SenderValue()))
    {
      if sndBuf != [] {
        sndUna := sndBuf[0].seg.sn;
      } else {
        sndUna := sndNxt;
      }
    }

    method ParseAck(sn: int)
      requires Valid()
      modifies this`sndBuf, this`nsndBuf
      ensures Valid() && SenderValue() == KcpSpec.ParseAck(true, old(SenderValue()), sn)
    {
      if S32(sn - sndUna) < 0 || S32(sn - sndNxt) >= 0 {
        return;
      }
      var i := FindSent(sn);
      RemoveSnIs(sndBuf, i, sn);
      hide RemoveSn, SentFit, PassedBy, S32;
      if i < |sndBuf| && sn == sndBuf[i].seg.sn {
        SentFitRemove(mss, sndBuf, i);
        sndBuf := sndBuf[..i] + sndBuf[i + 1..];
        nsndBuf := nsndBuf - 1;
      }
    }

    /** The scan of snd_buf for `sn`, which ends at the first later number. */
    method FindSent(sn: int) returns (i: nat)
      ensures PassedBy(sndBuf, i, sn)
      ensures i < |sndBuf| ==> sn == sndBuf[i].seg.sn || S32(sn - sndBuf[i].seg.sn) < 0
    {
      hide S32;
      i := 0;
      while i < |sndBuf|
        invariant 0 <= i <= |sndBuf| && PassedBy(sndBuf, i, sn)
      {
        var seg := sndBuf[i].seg;
        if sn == seg.sn || S32(sn - seg.sn) < 0 {
          break;
        }
        i := i + 1;
      }
    }

    method ParseUna(una: int)
      requires Valid()
      modifies this`sndBuf, this`nsndBuf
      ensures Valid() && SenderValue() == KcpSpec.ParseUna(true, old(SenderValue()), una)
    {
      ghost var buf := sndBuf;
      while sndBuf != []
        invariant nsndBuf == |sndBuf| && |sndBuf| <= |buf| && sndBuf == buf[|buf| - |sndBuf|..]
        invariant DropBelow(true, sndBuf, una) == DropBelow(true, buf, una)
        decreases |sndBuf|
      {
        if S32(una - sndBuf[0].seg.sn) > 0 {
          sndBuf := sndBuf[1..];
          nsndBuf := nsndBuf - 1;
        } else {
          break;
        }
      }
    }

    method ParseFastack(sn: int)
      requires Valid()
      modifies this`sndBuf
      ensures Valid() && SenderValue() == KcpSpec.ParseFastack(true, old(SenderValue()), sn)
    {
      if S32(sn - sndUna) < 0 || S32(sn - sndNxt) >= 0 {
        return;
      }
      ghost var buf := sndBuf;
      var i := 0;
      while i < |sndBuf|
        invariant 0 <= i <= |sndBuf| == |buf|
        invariant forall j :: 0 <= j < i ==> S32(sn - buf[j].seg.sn) >= 0 && sndBuf[j] == Skipped(buf[j], sn)
        invariant forall j :: i <= j < |buf| ==> sndBuf[j] == buf[j]
      {
        var s := sndBuf[i];
        if S32(sn - s.seg.sn) < 0 {
          break;
        } else if sn != s.seg.sn {
          sndBuf := sndBuf[i := s.(fastack := U32(s.fastack + 1))];
        }
        i := i + 1;
      }
      CountSkipsIs(buf, i, sn, sndBuf);
      assert forall j :: 0 <= j < |buf| ==> sndBuf[j].seg == buf[j].seg;
    }

    method UpdateAck(rtt: nat)
      modifies this`rxSrtt, this`rxRttval, this`rxRto
      ensures RttValue() == Estimate(old(RttValue()), interval, rxMinrto, rtt)
    {
      hide U32;
      if rxSrtt == 0 {
        rxSrtt := rtt;
        rxRttval := rtt / 2;
      } else {
        var delta := rtt - rxSrtt;
        if delta < 0 { delta := -delta; }
        rxRttval := (3 * rxRttval + delta) / 4;
        rxSrtt := (7 * rxSrtt + rtt) / 8;
        if rxSrtt < 1 { rxSrtt := 1; }
      }
      var rto := U32(rxSrtt + Max(interval, U32(4 * rxRttval)));
      rxRto := Min(Max(rxMinrto, rto), RTO_MAX);
    }

    /** Appends to the acklist, doubling its array when it is full. */
    method AckPush(sn: u32, ts: u32)
      requires Valid()
      modifies this`acks, this`acklist, this`ackcount, this`ackblock, acklist
      ensures Valid() && (acklist == old(acklist) || fresh(acklist))
      ensures acks == old(acks) + [Ack(sn, ts)]
    {
      if ackcount + 1 > ackblock {
        GrowAcklist();
      }
      acklist[ackcount * 2] := sn;
      acklist[ackcount * 2 + 1] := ts;
      ackcount := ackcount + 1;
      acks := acks + [Ack(sn, ts)];
    }

    method GrowAcklist()
      requires Valid()
      modifies this`acklist, this`ackblock
      ensures Valid() && fresh(acklist) && ackcount < ackblock
    {
      var newblock := 8;
      while newblock < ackcount + 1
        decreases ackcount - newblock
        invariant newblock >= 8
      {
        newblock := newblock * 2;
      }
      var wider := new u32[2 * newblock];
      var x := 0;
      while x < ackcount
        invariant 0 <= x <= ackcount && wider.Length == 2 * newblock
        invariant acklist == old(acklist) && ackblock == old(ackblock)
        invariant forall j :: 0 <= j < 2 * x ==> wider[j] == acklist[j]
      {
        wider[x * 2] := acklist[x * 2];
        wider[x * 2 + 1] := acklist[x * 2 + 1];
        x := x + 1;
      }
      acklist := wider;
      ackblock := newblock;
    }

    // ---- ikcp_parse_data and ikcp_input ------------------------------------------

    method ParseData(seg: Seg)
      requires Valid()
      modifies this`rcvQueue, this`nrcvQue, this`rcvBuf, this`nrcvBuf, this`rcvNxt
      ensures Valid() && ReceiverValue() == KcpSpec.ParseData(true, old(ReceiverValue()), seg)
    {
      hide MoveReady, InsertSeg, S32, U32;
      var sn := seg.sn;
      if S32(sn - U32(rcvNxt + rcvWnd)) >= 0 || S32(sn - rcvNxt) < 0 {
        return;
      }
      StoreSeg(seg);
      MoveAvailable();
    }

    /** Puts a segment into rcv_buf unless its number is there. */
    method StoreSeg(seg: Seg)
      requires Valid()
      modifies this`rcvBuf, this`nrcvBuf
      ensures Valid() && rcvBuf == InsertSeg(true, old(rcvBuf), seg)
    {
      hide InsertSeg, S32;
      var p, repeated := ScanBack(seg.sn);
      InsertSegAt(rcvBuf, p, seg);
      if !repeated {
        rcvBuf := rcvBuf[..p] + [seg] + rcvBuf[p..];
        nrcvBuf := nrcvBuf + 1;
      }
    }

    /** Scans rcv_buf from its end for `sn` or for the place in front of which it goes. */
    method ScanBack(sn: int) returns (p: nat, repeated: bool)
      ensures p <= |rcvBuf|
      ensures forall j :: p <= j < |rcvBuf| ==> rcvBuf[j].sn != sn && S32(sn - rcvBuf[j].sn) <= 0
      ensures repeated == (p > 0 && rcvBuf[p - 1].sn == sn)
      ensures p > 0 ==> rcvBuf[p - 1].sn == sn || S32(sn - rcvBuf[p - 1].sn) > 0
    {
      hide S32;
      p := |rcvBuf|;
      repeated := false;
      while p > 0
        invariant 0 <= p <= |rcvBuf| && !repeated
        invariant forall j :: p <= j < |rcvBuf| ==> rcvBuf[j].sn != sn && S32(sn - rcvBuf[j].sn) <= 0
      {
        var s := rcvBuf[p - 1];
        if s.sn == sn {
          repeated := true;
          break;
        }
        if S32(sn - s.sn) > 0 {
          break;
        }
        p := p - 1;
      }
    }

    /** The part of the ikcp_input loop common to all commands. */
    method TakeUna(una: int)
      requires Valid()
      modifies this`sndBuf, this`nsndBuf, this`sndUna
      ensures Valid() && SenderValue() == Shrink(KcpSpec.ParseUna(true, old(SenderValue()), una))
    {
      ParseUna(una);
      ShrinkBuf();
    }

    method InputAck(s: Seg)
      requires Valid() && s.cmd == CMD_ACK
      modifies this`sndBuf, this`nsndBuf, this`sndUna, this`rxSrtt, this`rxRttval, this`rxRto
      ensures Valid()
      ensures SenderValue() == Shrink(KcpSpec.ParseAck(true, old(SenderValue()), s.sn))
      ensures var rtt := S32(current - s.ts);
        RttValue() == if rtt >= 0 then Estimate(old(RttValue()), interval, rxMinrto, rtt) else old(RttValue())
    {
      hide Estimate, KcpSpec.ParseAck, Shrink, S32;
      var rtt := S32(current - s.ts);
      if rtt >= 0 {
        UpdateAck(rtt);
      }
      ParseAck(s.sn);
      ShrinkBuf();
    }

    method InputPush(s: Seg)
      requires Valid() && 0 <= s.sn < MOD && s.cmd == CMD_PUSH
      modifies this`rcvQueue, this`nrcvQue, this`rcvBuf, this`nrcvBuf, this`rcvNxt
      modifies this`acks, this`acklist, this`ackcount, this`ackblock, acklist
      ensures Valid() && (acklist == old(acklist) || fresh(acklist))
      ensures ReceiverValue() == ReceiverInput(true, old(ReceiverValue()), s)
    {
      hide KcpSpec.ParseData, S32, U32;
      if S32(s.sn - U32(rcvNxt + rcvWnd)) < 0 {
        AckPush(s.sn, s.ts);
        if S32(s.sn - rcvNxt) >= 0 {
          ParseData(s);
        }
      }
    }

    /** The part of the ikcp_input loop that depends on the command. */
    method Dispatch(s: Seg)
      requires Valid() && 0 <= s.sn < MOD
      modifies this`askTell, this`sndBuf, this`nsndBuf, this`sndUna, this`rxSrtt, this`rxRttval, this`rxRto
      modifies this`rcvQueue, this`nrcvQue, this`rcvBuf, this`nrcvBuf, this`rcvNxt
      modifies this`acks, this`acklist, this`ackcount, this`ackblock, acklist
      ensures Valid() && (acklist == old(acklist) || fresh(acklist))
      ensures SenderValue() ==
        if s.cmd == CMD_ACK then Shrink(KcpSpec.ParseAck(true, old(SenderValue()), s.sn)) else old(SenderValue())
      ensures ReceiverValue() == ReceiverInput(true, old(ReceiverValue()), s)
      ensures RttValue() == Sampled(old(RttValue()), s)
      ensures askTell == (old(askTell) || s.cmd == CMD_WASK)
    {
      hide Estimate, S32, KcpSpec.ParseAck, Shrink, ReceiverInput;
      ghost var rcv0 := ReceiverValue();
      if s.cmd == CMD_ACK {
        InputAck(s);
        PushOnly(true, rcv0, s);
      } else if s.cmd == CMD_PUSH {
        InputPush(s);
      } else {
        if s.cmd == CMD_WASK {
          askTell := true;
        }
        PushOnly(true, rcv0, s);
      }
    }

    /** The timer estimate after a segment: only an ack that is not from the future counts. */
    ghost function Sampled(e: Rtt, s: Seg): Rtt
      reads this`current, this`interval, this`rxMinrto
    {
      var rtt := S32(current - s.ts);
      if s.cmd == CMD_ACK && rtt >= 0 then Estimate(e, interval, rxMinrto, rtt) else e
    }

    /** The body of the loop of ikcp_input for one decoded segment. */
    method InputSegment(s: Seg)
      requires Valid() && 0 <= s.sn < MOD
      modifies this`rmtWnd, this`askTell, this`sndBuf, this`nsndBuf, this`sndUna, this`rxSrtt, this`rxRttval, this`rxRto
      modifies this`rcvQueue, this`nrcvQue, this`rcvBuf, this`nrcvBuf, this`rcvNxt
      modifies this`acks, this`acklist, this`ackcount, this`ackblock, acklist
      ensures Valid() && (acklist == old(acklist) || fresh(acklist))
      ensures SenderValue() == SenderInput(true, old(SenderValue()), s)
      ensures ReceiverValue() == ReceiverInput(true, old(ReceiverValue()), s)
      ensures RttValue() == Sampled(old(RttValue()), s)
      ensures rmtWnd == s.wnd && askTell == (old(askTell) || s.cmd == CMD_WASK)
    {
      hide Sampled, KcpSpec.ParseUna, KcpSpec.ParseAck, Shrink, ReceiverInput;
      rmtWnd := s.wnd;
      TakeUna(s.una);
      Dispatch(s);
    }

    // ---- ikcp_input --------------------------------------------------------------

    /** The fields of `k` that ikcp_input may change, and those it reads. */
    ghost predicate AgreesIn(k: Kcp)
      reads this
    {
      && SenderValue() == k.snd && ReceiverValue() == k.rcv && RttValue() == k.est
      && rmtWnd == k.rmtWnd && askTell == k.askTell
      && cwnd == k.cwnd && incr == k.incr && ssthresh == k.ssthresh && mss == k.mss
      && current == k.current && interval == k.interval && rxMinrto == k.rxMinrto
    }

    /** ikcp_input on the bytes of a datagram. */
    method Input(data: seq<u8>) returns (code: int)
      requires Valid()
      modifies this`rmtWnd, this`askTell, this`sndBuf, this`nsndBuf, this`sndUna, this`rxSrtt, this`rxRttval, this`rxRto
      modifies this`rcvQueue, this`nrcvQue, this`rcvBuf, this`nrcvBuf, this`rcvNxt
      modifies this`acks, this`acklist, this`ackcount, this`ackblock, acklist
      modifies this`cwnd, this`incr
      ensures Valid() && (acklist == old(acklist) || fresh(acklist))
      ensures |data| < OVERHEAD ==> code == -1 && AgreesIn(old(Value()))
      ensures |data| >= OVERHEAD ==>
        var (segs, c) := Decode(conv, data); code == c && AgreesIn(KcpSpec.Input(true, old(Value()), segs, c))
    {
      hide InputSegs, Decode, Grown, S32;
      ghost var k0 := Value();
      if |data| < OVERHEAD { return -1; }
      var prevUna := sndUna;
      var m := NoAck;
      ghost var k1;
      code, m, k1 := InputLoop(data, k0);
      if code != 0 { return; }
      InputEnd(m, prevUna, k1);
    }

    /** What ikcp_input does after a datagram decoded to its end. */
    method InputEnd(m: MaxAck, prevUna: int, ghost k1: Kcp)
      requires Valid() && AgreesIn(k1)
      modifies this`sndBuf, this`cwnd, this`incr
      ensures Valid()
      ensures var k2 := if m.Highest? then k1.(snd := KcpSpec.ParseFastack(true, k1.snd, m.sn)) else k1;
        AgreesIn(if Diff(true, k2.snd.una, prevUna) > 0 then GrowCwnd(k2) else k2)
    {
      hide Grown, S32, KcpSpec.ParseFastack;
      if m.Highest? {
        ParseFastack(m.sn);
      }
      if S32(sndUna - prevUna) > 0 {
        Grow();
      }
    }

    /** Where processing the rest of a datagram leads. */
    ghost function Remaining(k: Kcp, m: MaxAck, b: seq<u8>): ((Kcp, MaxAck), int)
      reads this`conv
    {
      (InputSegs(true, k, m, Decode(conv, b).0), Decode(conv, b).1)
    }

    lemma RemainingStep(k: Kcp, m: MaxAck, b: seq<u8>)
      ensures var t := DecodeSeg(conv, b);
        && (t.Stop? ==> Remaining(k, m, b) == ((k, m), t.code))
        && (t.Item? ==> Remaining(k, m, b) == Remaining(InputSeg(true, k, t.seg), Later(true, m, t.seg), b[t.size..]))
    {
      hide InputSeg, Later, DecodeSeg;
      DecodeUnfold(conv, b);
      InputSegsEnd(true, k, m);
      var t := DecodeSeg(conv, b);
      if t.Item? { InputSegsStep(true, k, m, Decode(conv, b).0); }
    }

    /** Decoding and processing until the datagram ends or is malformed. */
    method InputLoop(data: seq<u8>, ghost k0: Kcp) returns (code: int, m: MaxAck, ghost k': Kcp)
      requires Valid() && AgreesIn(k0)
      modifies this`rmtWnd, this`askTell, this`sndBuf, this`nsndBuf, this`sndUna, this`rxSrtt, this`rxRttval, this`rxRto
      modifies this`rcvQueue, this`nrcvQue, this`rcvBuf, this`nrcvBuf, this`rcvNxt
      modifies this`acks, this`acklist, this`ackcount, this`ackblock, acklist
      ensures Valid() && (acklist == old(acklist) || fresh(acklist))
      ensures ((k', m), code) == Remaining(k0, NoAck, data) && AgreesIn(k')
    {
      hide InputSegs, InputSeg, Later, Decode, DecodeSeg, AgreesIn, SndCounted, RcvCounted, ArraysFit, BodiesFit, AcksHeld, Remaining;
      k', m := k0, NoAck;
      var rest := data;
      while true
        invariant Valid() && (acklist == old(acklist) || fresh(acklist)) && AgreesIn(k')
        invariant Remaining(k0, NoAck, data) == Remaining(k', m, rest)
        decreases |rest|
      {
        var turn := DecodeSegment(rest);
        RemainingStep(k', m, rest);
        if turn.Stop? {
          code := turn.code;
          return;
        }
        var s := turn.seg;
        m := InputTurn(s, m, k');
        k' := InputSeg(true, k', s);
        rest := rest[turn.size..];
      }
    }

    /** One turn: the segment, then the highest acknowledged number. */
    method InputTurn(s: Seg, m: MaxAck, ghost k: Kcp) returns (m': MaxAck)
      requires Valid() && 0 <= s.sn < MOD && AgreesIn(k)
      modifies this`rmtWnd, this`askTell, this`sndBuf, this`nsndBuf, this`sndUna, this`rxSrtt, this`rxRttval, this`rxRto
      modifies this`rcvQueue, this`nrcvQue, this`rcvBuf, this`nrcvBuf, this`rcvNxt
      modifies this`acks, this`acklist, this`ackcount, this`ackblock, acklist
      ensures Valid() && (acklist == old(acklist) || fresh(acklist))
      ensures AgreesIn(InputSeg(true, k, s)) && m' == Later(true, m, s)
    {
      hide S32, SenderInput, ReceiverInput, Estimate;
      InputSegment(s);
      m' := m;
      if s.cmd == CMD_ACK {
        if m.NoAck? || S32(s.sn - m.sn) > 0 {
          m' := Highest(s.sn);
        }
      }
    }

    /** One header and payload, field by field. */
    method DecodeSegment(b: seq<u8>) returns (t: Turn)
      ensures t == DecodeSeg(conv, b)
      ensures t.Item? ==> 0 <= t.seg.sn < MOD
    {
      if |b| < OVERHEAD { return Stop(0); }
      var c := Decode32(b);
      if c != conv { return Stop(-1); }
      var cmd, frg, wnd := b[4], b[5], Decode16(b[6..]);
      var ts, sn, una, len := Decode32(b[8..]), Decode32(b[12..]), Decode32(b[16..]), Decode32(b[20..]);
      if |b| - OVERHEAD < len || S32(len) < 0 { return Stop(-2); }
      if cmd != CMD_PUSH && cmd != CMD_ACK && cmd != CMD_WASK && cmd != CMD_WINS { return Stop(-3); }
      t := Item(Seg(cmd, wnd, ts, sn, una, Frag(frg, b[OVERHEAD..OVERHEAD + len])), OVERHEAD + len);
    }

    /** The growth of cwnd at the end of ikcp_input. */
    method Grow()
      modifies this`cwnd, this`incr
      ensures (cwnd, incr) == Grown(old(cwnd), old(incr), ssthresh, mss, rmtWnd)
    {
      if cwnd < rmtWnd {
        if cwnd < ssthresh {
          cwnd := U32(cwnd + 1);
          incr := U32(incr + mss);
        } else {
          var base := if incr < mss then mss else incr;
          incr := U32(base + (if base == 0 then 0 else U32(mss * mss) / base) + mss / 16);
          if U32(U32(cwnd + 1) * mss) <= incr && mss > 0 {
            cwnd := U32(U32(incr + mss - 1) / mss);
          }
        }
        if cwnd > rmtWnd {
          cwnd := rmtWnd;
          incr := U32(rmtWnd * mss);
        }
      }
    }

    // ---- ikcp_flush --------------------------------------------------------------

    /** The datagrams finished by the current flush and the segments in the work buffer. */
    ghost var done: seq<seq<Seg>>
    ghost var open: seq<Seg>

    /** The work buffer holds `open`, what left it is `done`, and packing all segments of
        this flush comes down to packing `rest`. */
    ghost predicate Packing(ptr: nat, base: seq<seq<u8>>, all: seq<Seg>, rest: seq<Seg>)
      reads this`conv, this`mtu, this`buffer, this`sent, this`done, this`open, buffer
    {
      && (forall i :: 0 <= i < |done| ==> AllEncodable(done[i])) && AllEncodable(open)
      && sent == base + EncodeList(conv, done)
      && ptr == TotalSize(open) <= mtu && ptr <= buffer.Length && buffer[..ptr] == EncodeAll(conv, open)
      && Pack(mtu, [], all) == done + Pack(mtu, open, rest)
    }

    /** memcpy into the work buffer. */
    method Copy(ptr: nat, b: seq<u8>)
      requires ptr + |b| <= buffer.Length
      modifies buffer
      ensures buffer[..ptr + |b|] == old(buffer[..ptr]) + b
    {
      var i := 0;
      while i < |b|
        invariant 0 <= i <= |b|
        invariant buffer[..ptr] == old(buffer[..ptr])
        invariant buffer[ptr..ptr + i] == b[..i]
      {
        buffer[ptr + i] := b[i];
        assert buffer[ptr..ptr + i + 1] == buffer[ptr..ptr + i] + [b[i]];
        i := i + 1;
      }
      assert buffer[..ptr + |b|] == buffer[..ptr] + buffer[ptr..ptr + |b|];
    }

    method Output(size: nat)
      requires size <= buffer.Length
      modifies this`sent
      ensures sent == if size == 0 then old(sent) else old(sent) + [buffer[..size]]
    {
      if size == 0 { return; }
      sent := sent + [buffer[..size]];
    }

    /** Encodes one segment into the work buffer. */
    method Place(ptr: nat, s: Seg, ghost base: seq<seq<u8>>, ghost all: seq<Seg>, ghost rest: seq<Seg>)
      returns (ptr': nat)
      requires ArraysFit() && Packing(ptr, base, all, [s] + rest)
      requires Encodable(s) && ptr + WireSize(s) <= mtu
      modifies this`open, buffer
      ensures Packing(ptr', base, all, rest)
    {
      PackStep(mtu, open, s, rest);
      SizeStep(conv, open, s);
      hide EncodeSeg, Pack, TotalSize, EncodeAll, EncodeList, WireSize;
      Copy(ptr, EncodeSeg(conv, s));
      open := open + [s];
      ptr' := ptr + WireSize(s);
    }

    /** Makes room if needed, then encodes one segment. */
    method Emit(ptr: nat, s: Seg, ghost base: seq<seq<u8>>, ghost all: seq<Seg>, ghost rest: seq<Seg>)
      returns (ptr': nat)
      requires ArraysFit() && Packing(ptr, base, all, [s] + rest)
      requires Encodable(s) && WireSize(s) <= mtu
      modifies this`sent, this`done, this`open, buffer
      ensures Packing(ptr', base, all, rest)
    {
      ptr' := ptr;
      if ptr + WireSize(s) > mtu {
        ptr' := CloseDatagram(ptr, s, base, all, rest);
      }
      hide Packing, WireSize;
      ptr' := Place(ptr', s, base, all, rest);
    }

    /** Hands the filled part of the work buffer to the output callback. */
    method CloseDatagram(ptr: nat, s: Seg, ghost base: seq<seq<u8>>, ghost all: seq<Seg>, ghost rest: seq<Seg>)
      returns (ptr': nat)
      requires ArraysFit() && Packing(ptr, base, all, [s] + rest)
      requires Encodable(s) && ptr + WireSize(s) > mtu && WireSize(s) <= mtu
      modifies this`sent, this`done, this`open
      ensures Packing(ptr', base, all, [s] + rest) && ptr' == 0 && open == []
    {
      PackStep(mtu, open, s, rest);
      PackStep(mtu, [], s, rest);
      NothingOpen(conv);
      assert [] + [s] == [s];
      ghost var more := Pack(mtu, [s], rest);
      assert done + ([open] + more) == (done + [open]) + more;
      hide EncodeSeg, Pack, TotalSize, EncodeAll, WireSize;
      Output(ptr);
      assert EncodeList(conv, done + [open]) == EncodeList(conv, done) + [EncodeAll(conv, open)];
      done := done + [open];
      open := [];
      ptr' := 0;
    }

    method FlushAcks(ghost base: seq<seq<u8>>, ghost all: seq<Seg>, ghost rest: seq<Seg>)
      returns (ptr: nat, last: Ack)
      requires Valid() && Packing(0, base, all, AckSegs(ReceiverValue(), acks) + rest)
      modifies this`sent, this`done, this`open, buffer
      ensures Packing(ptr, base, all, rest) && last == LastAck(acks)
    {
      hide Packing, EncodeSeg;
      var wnd := Unused();
      ptr, last := 0, Ack(0, 0);
      var i := 0;
      while i < ackcount
        invariant 0 <= i <= ackcount
        invariant Packing(ptr, base, all, AckSegs(ReceiverValue(), acks[i..]) + rest)
        invariant last == LastAck(acks[..i])
      {
        last := Ack(acklist[2 * i], acklist[2 * i + 1]);
        assert acks[i] == last && acks[..i + 1] == acks[..i] + [last];
        assert acks[i..][0] == last && acks[i..][1..] == acks[i + 1..];
        var s := Seg(CMD_ACK, wnd % 0x1_0000, last.ts, last.sn, rcvNxt, Frag(0, []));
        ghost var tail := AckSegs(ReceiverValue(), acks[i + 1..]) + rest;
        assert AckSegs(ReceiverValue(), acks[i..]) + rest == [s] + tail;
        ptr := Emit(ptr, s, base, all, tail);
        i := i + 1;
      }
      assert acks[..i] == acks && AckSegs(ReceiverValue(), acks[i..]) + rest == rest;
    }

    method Unused() returns (n: nat)
      requires RcvCounted()
      ensures n == WndUnused(ReceiverValue())
    {
      n := if nrcvQue < rcvWnd then rcvWnd - nrcvQue else 0;
    }

    /** The fields the sending loops read but do not change. */
    ghost predicate Clock(k: Kcp)
      reads this`rcvWnd, this`rcvQueue, this`rcvNxt, this`current, this`rxRto, this`nodelay, this`fastresend,
            this`fastlimit, this`deadLink
    {
      && rcvWnd == k.rcv.wnd && rcvQueue == k.rcv.queue && rcvNxt == k.rcv.nxt
      && current == k.current && rxRto == k.est.rto && nodelay == k.nodelay
      && fastresend == k.fastresend && fastlimit == k.fastlimit && deadLink == k.deadLink
    }

    /** The timers that probe a remote window of zero. */
    method ProbeCheck(ghost k: Kcp)
      requires rmtWnd == k.rmtWnd && probeWait == k.probeWait && tsProbe == k.tsProbe
      requires askSend == k.askSend && Clock(k)
      modifies this`probeWait, this`tsProbe, this`askSend
      ensures var p := ProbeTimer(k); probeWait == p.probeWait && tsProbe == p.tsProbe && askSend == p.askSend
    {
      if rmtWnd == 0 {
        if probeWait == 0 {
          probeWait := PROBE_INIT;
          tsProbe := U32(current + probeWait);
        } else if S32(current - tsProbe) >= 0 {
          if probeWait < PROBE_INIT { probeWait := PROBE_INIT; }
          probeWait := Min(U32(probeWait + probeWait / 2), PROBE_LIMIT);
          tsProbe := U32(current + probeWait);
          askSend := true;
        }
      } else {
        tsProbe := 0;
        probeWait := 0;
      }
    }

    /** Sends the window commands that the probe flags ask for, and clears the flags. */
    method FlushProbes(ptr: nat, last: Ack, ghost k: Kcp, ghost base: seq<seq<u8>>, ghost all: seq<Seg>, ghost rest: seq<Seg>)
      returns (ptr': nat)
      requires Valid() && Clock(k) && last == LastAck(k.rcv.acks)
      requires askSend == k.askSend && askTell == k.askTell && Packing(ptr, base, all, ProbeSegs(k) + rest)
      modifies this`askSend, this`askTell, this`sent, this`done, this`open, buffer
      ensures Packing(ptr', base, all, rest) && !askSend && !askTell
    {
      hide Packing;
      var wnd := Unused();
      ghost var r := ReceiverValue();
      assert wnd == WndUnused(k.rcv);
      ghost var ask := Header(k.rcv, CMD_WASK, last);
      ghost var tell := Header(k.rcv, CMD_WINS, last);
      ghost var tellSegs := if askTell then [tell] else [];
      assert ProbeSegs(k) + rest == (if askSend then [ask] else []) + (tellSegs + rest);
      ptr' := ptr;
      if askSend {
        var s := Seg(CMD_WASK, wnd % 0x1_0000, last.ts, last.sn, rcvNxt, Frag(0, []));
        ptr' := Emit(ptr', s, base, all, tellSegs + rest);
      } else {
        assert [] + (tellSegs + rest) == tellSegs + rest;
      }
      if askTell {
        var s := Seg(CMD_WINS, wnd % 0x1_0000, last.ts, last.sn, rcvNxt, Frag(0, []));
        ptr' := Emit(ptr', s, base, all, rest);
      } else {
        assert tellSegs + rest == rest;
      }
      askSend, askTell := false, false;
    }

    /** Moves segments from snd_queue to snd_buf while the window allows. */
    method Fill(cwnd: u32, ghost k: Kcp)
      requires SndCounted() && RcvCounted() && BodiesFit() && Clock(k)
      modifies this`sndQueue, this`nsndQue, this`sndBuf, this`nsndBuf, this`sndNxt
      ensures SndCounted() && BodiesFit() && SenderValue() == MoveOut(true, k, old(SenderValue()), cwnd)
    {
      hide S32, U32;
      var wnd := Unused();
      ghost var s0 := SenderValue();
      while S32(sndNxt - U32(sndUna + cwnd)) < 0
        invariant SndCounted() && BodiesFit()
        invariant MoveOut(true, k, SenderValue(), cwnd) == MoveOut(true, k, s0, cwnd)
        decreases |sndQueue|
      {
        if sndQueue == [] { break; }
        var f := sndQueue[0];
        sndQueue := sndQueue[1..];
        nsndQue := nsndQue - 1;
        sndBuf := sndBuf + [Sent(Seg(CMD_PUSH, wnd % 0x1_0000, current, sndNxt, rcvNxt, f), current, rxRto, 0, 0)];
        nsndBuf := nsndBuf + 1;
        sndNxt := U32(sndNxt + 1);
      }
    }

    /** Decides whether one entry of snd_buf is sent now, and why. */
    method VisitOne(s: Sent, ghost k: Kcp) returns (s': Sent, why: Why)
      requires Clock(k) && RcvCounted()
      ensures s' == Visit(k, s) && why == Reason(k, s)
    {
      hide S32, U32, HalfSigned;
      var resent := if fastresend > 0 then U32(fastresend) else MOD - 1;
      var rtomin := if nodelay == 0 then rxRto / 8 else 0;
      s' := s;
      why := Quiet;
      if s.xmit == 0 {
        why := First;
        s' := s'.(xmit := 1, rto := rxRto, resendts := U32(current + rxRto + rtomin));
      } else if S32(current - s.resendts) >= 0 {
        why := Timeout;
        var rto;
        if nodelay == 0 {
          rto := U32(s.rto + Max(s.rto, rxRto));
        } else {
          var step := if nodelay < 2 then HalfSigned(s.rto) else rxRto / 2;
          rto := U32(s.rto + step);
        }
        s' := s'.(xmit := U32(s.xmit + 1), rto := rto, resendts := U32(current + rto));
      } else if s.fastack >= resent {
        if S32(s.xmit) <= fastlimit || fastlimit <= 0 {
          why := Fast;
          s' := s'.(xmit := U32(s.xmit + 1), fastack := 0, resendts := U32(current + s.rto));
        }
      }
      if !why.Quiet? {
        var wnd := Unused();
        s' := s'.(seg := s.seg.(ts := current, wnd := wnd % 0x1_0000, una := rcvNxt));
      }
    }

    /** The first `i` entries of snd_buf were visited, the others are still those of `buf`. */
    ghost predicate Visited(i: nat, k: Kcp, buf: seq<Sent>)
      reads this`sndBuf
    {
      && i <= |buf| == |sndBuf| && sndBuf[i..] == buf[i..]
      && VisitAll(k, buf) == sndBuf[..i] + VisitAll(k, buf[i..])
    }

    /** The counts after the first `i` entries. */
    ghost predicate Tallied(i: nat, fast: nat, lost: nat, k: Kcp, buf: seq<Sent>, xmit0: u32, dead0: bool)
      reads this`xmit, this`dead
    {
      && i <= |buf| && xmit == U32(xmit0 + lost)
      && CountWhy(k, buf, Timeout) == lost + CountWhy(k, buf[i..], Timeout)
      && CountWhy(k, buf, Fast) == fast + CountWhy(k, buf[i..], Fast)
      && ((dead0 || HitsDeadLink(k, buf)) <==> (dead || HitsDeadLink(k, buf[i..])))
    }

    method StoreVisit(i: nat, s': Sent, ghost k: Kcp, ghost buf: seq<Sent>)
      requires SndCounted() && BodiesFit() && Visited(i, k, buf) && i < |buf| && s' == Visit(k, buf[i])
      modifies this`sndBuf
      ensures SndCounted() && BodiesFit() && Visited(i + 1, k, buf)
    {
      hide Visit;
      ghost var before := sndBuf;
      assert buf[i..][0] == buf[i] && buf[i..][1..] == buf[i + 1..];
      VisitUnfold(k, buf[i..]);
      VisitKeepsBody(k, buf[i]);
      assert before[i] == before[i..][0] == buf[i];
      hide VisitAll;
      sndBuf := sndBuf[i := s'];
      assert sndBuf[..i + 1] == before[..i] + [s'] && sndBuf[i + 1..] == before[i..][1..];
    }

    method Tally(i: nat, s': Sent, why: Why, fast: nat, lost: nat, ghost k: Kcp, ghost buf: seq<Sent>,
                 ghost xmit0: u32, ghost dead0: bool) returns (fast': nat, lost': nat)
      requires Tallied(i, fast, lost, k, buf, xmit0, dead0) && i < |buf| && deadLink == k.deadLink
      requires s' == Visit(k, buf[i]) && why == Reason(k, buf[i])
      modifies this`xmit, this`dead
      ensures Tallied(i + 1, fast', lost', k, buf, xmit0, dead0)
    {
      hide Visit, Reason;
      assert buf[i..][0] == buf[i] && buf[i..][1..] == buf[i + 1..];
      TallyUnfold(k, buf[i..]);
      hide CountWhy, HitsDeadLink;
      lost', fast' := lost, fast;
      if why.Timeout? {
        assert U32(U32(xmit0 + lost) + 1) == U32(xmit0 + (lost + 1));
        xmit := U32(xmit + 1);
        lost' := lost + 1;
      } else if why.Fast? {
        fast' := fast + 1;
      }
      if !why.Quiet? && s'.xmit >= deadLink {
        dead := true;
      }
    }

    /** One turn of the data loop. */
    method DataTurn(i: nat, ptr: nat, fast: nat, lost: nat, ghost k: Kcp, ghost buf: seq<Sent>,
                    ghost base: seq<seq<u8>>, ghost all: seq<Seg>, ghost xmit0: u32, ghost dead0: bool)
      returns (ptr': nat, fast': nat, lost': nat)
      requires ArraysFit() && SndCounted() && RcvCounted() && BodiesFit() && Clock(k) && i < |buf|
      requires Visited(i, k, buf) && Tallied(i, fast, lost, k, buf, xmit0, dead0)
      requires Packing(ptr, base, all, DataSegs(k, buf[i..]))
      modifies this`sndBuf, this`xmit, this`dead, this`sent, this`done, this`open, buffer
      ensures SndCounted() && BodiesFit()
      ensures Visited(i + 1, k, buf) && Tallied(i + 1, fast', lost', k, buf, xmit0, dead0)
      ensures Packing(ptr', base, all, DataSegs(k, buf[i + 1..]))
    {
      hide Visit, Reason, Packing, Tallied;
      var s := sndBuf[i];
      assert s == sndBuf[i..][0] == buf[i..][0] == buf[i] && buf[i..][1..] == buf[i + 1..];
      DataUnfold(k, buf[i..]);
      VisitKeepsBody(k, s);
      hide VisitAll, DataSegs, Visited;
      var s', why := VisitOne(s, k);
      ptr' := ptr;
      if !why.Quiet? {
        ptr' := Emit(ptr, s'.seg, base, all, DataSegs(k, buf[i + 1..]));
      }
      fast', lost' := Tally(i, s', why, fast, lost, k, buf, xmit0, dead0);
      StoreVisit(i, s', k, buf);
    }

    /** The congestion updates at the end of ikcp_flush. */
    method Congest(fast: bool, lost: bool, window: u32, inflight: u32, ghost k: Kcp)
      requires cwnd == k.cwnd && incr == k.incr && ssthresh == k.ssthresh && mss == k.mss && fastresend == k.fastresend
      modifies this`cwnd, this`incr, this`ssthresh
      ensures (ssthresh, cwnd, incr) == Reduced(k, fast, lost, window, inflight)
    {
      hide U32;
      var resent := if fastresend > 0 then U32(fastresend) else MOD - 1;
      if fast {
        ssthresh := Max(inflight / 2, THRESH_MIN);
        cwnd := U32(ssthresh + resent);
        incr := U32(cwnd * mss);
      }
      if lost {
        ssthresh := Max(window / 2, THRESH_MIN);
        cwnd := 1;
        incr := U32(mss);
      }
      if cwnd < 1 {
        cwnd := 1;
        incr := U32(mss);
      }
    }
    /** The loop over snd_buf: sends what is new, timed out or skipped too often. */
    method FlushData(ptr: nat, ghost k: Kcp, ghost base: seq<seq<u8>>, ghost all: seq<Seg>)
      returns (ptr': nat, fast: nat, lost: nat)
      requires ArraysFit() && SndCounted() && RcvCounted() && BodiesFit() && Clock(k)
      requires Packing(ptr, base, all, DataSegs(k, sndBuf))
      modifies this`sndBuf, this`xmit, this`dead, this`sent, this`done, this`open, buffer
      ensures SndCounted() && BodiesFit() && Packing(ptr', base, all, [])
      ensures sndBuf == VisitAll(k, old(sndBuf)) && xmit == U32(old(xmit) + CountWhy(k, old(sndBuf), Timeout))
      ensures dead == (old(dead) || HitsDeadLink(k, old(sndBuf)))
      ensures fast == CountWhy(k, old(sndBuf), Fast) && lost == CountWhy(k, old(sndBuf), Timeout)
    {
      hide U32, Packing, VisitAll, DataSegs, CountWhy, HitsDeadLink, Visited, Tallied, BodiesFit, Clock;
      ghost var buf, xmit0, dead0 := sndBuf, xmit, dead;
      ptr', fast, lost := ptr, 0, 0;
      var i := 0;
      assert buf[0..] == buf;
      StartData(k);
      while i < |sndBuf|
        invariant 0 <= i <= |sndBuf| == |buf| && SndCounted() && BodiesFit()
        invariant Visited(i, k, buf) && Tallied(i, fast, lost, k, buf, xmit0, dead0)
        invariant Packing(ptr', base, all, DataSegs(k, buf[i..]))
      {
        ptr', fast, lost := DataTurn(i, ptr', fast, lost, k, buf, base, all, xmit0, dead0);
        VisitedLength(i + 1, k, buf);
        i := i + 1;
      }
      assert buf[i..] == [];
      EndData(k, buf, fast, lost, xmit0, dead0);
      NothingLeft(k);
    }

    lemma StartData(k: Kcp)
      ensures Visited(0, k, sndBuf) && Tallied(0, 0, 0, k, sndBuf, xmit, dead)
    {
      hide VisitAll, CountWhy, HitsDeadLink;
      assert sndBuf[0..] == sndBuf && U32(xmit + 0) == xmit;
      assert sndBuf[..0] + VisitAll(k, sndBuf) == VisitAll(k, sndBuf);
    }

    lemma VisitedLength(i: nat, k: Kcp, buf: seq<Sent>)
      requires Visited(i, k, buf)
      ensures i <= |buf| == |sndBuf|
    {}

    lemma EndData(k: Kcp, buf: seq<Sent>, fast: nat, lost: nat, xmit0: u32, dead0: bool)
      requires Visited(|buf|, k, buf) && Tallied(|buf|, fast, lost, k, buf, xmit0, dead0)
      ensures sndBuf == VisitAll(k, buf) && xmit == U32(xmit0 + CountWhy(k, buf, Timeout))
      ensures dead == (dead0 || HitsDeadLink(k, buf))
      ensures fast == CountWhy(k, buf, Fast) && lost == CountWhy(k, buf, Timeout)
    {
      hide U32;
      NothingLeft(k);
      assert buf[|buf|..] == [] && sndBuf[..|buf|] == sndBuf;
    }

    /** The fields of `k` that ikcp_flush may change. */
    ghost predicate AgreesOut(k: Kcp)
      reads this`sndUna, this`sndNxt, this`sndQueue, this`sndBuf, this`rcvNxt, this`rcvWnd, this`rcvQueue, this`rcvBuf, this`acks
      reads this`askSend, this`askTell, this`probeWait, this`tsProbe, this`xmit, this`dead, this`cwnd, this`incr, this`ssthresh
    {
      && SenderValue() == k.snd && ReceiverValue() == k.rcv
      && askSend == k.askSend && askTell == k.askTell && probeWait == k.probeWait && tsProbe == k.tsProbe
      && xmit == k.xmit && dead == k.dead && cwnd == k.cwnd && incr == k.incr && ssthresh == k.ssthresh
    }

    method ClearAcks()
      requires Valid()
      modifies this`acks, this`ackcount
      ensures Valid() && ReceiverValue() == old(ReceiverValue()).(acks := [])
    {
      ackcount := 0;
      acks := [];
    }

    lemma ProbeClock(k: Kcp)
      requires Clock(k)
      ensures Clock(ProbeTimer(k))
    {
      ProbeKeeps(k);
    }

    lemma AcksAreHeld()
      ensures ReceiverValue().acks == acks
    {}

    /** The acknowledgements and the window commands of one flush. */
    method FlushControl(ghost k: Kcp, ghost p: Kcp, ghost base: seq<seq<u8>>, ghost all: seq<Seg>, ghost rest: seq<Seg>)
      returns (ptr: nat)
      requires Valid() && Clock(k) && ReceiverValue() == k.rcv
      requires rmtWnd == k.rmtWnd && probeWait == k.probeWait && tsProbe == k.tsProbe
      requires askSend == k.askSend && askTell == k.askTell && p == ProbeTimer(k)
      requires Packing(0, base, all, AckSegs(k.rcv, k.rcv.acks) + (ProbeSegs(p) + rest))
      modifies this`acks, this`ackcount, this`probeWait, this`tsProbe, this`askSend, this`askTell
      modifies this`sent, this`done, this`open, buffer
      ensures Valid() && Packing(ptr, base, all, rest) && ReceiverValue() == k.rcv.(acks := [])
      ensures probeWait == p.probeWait && tsProbe == p.tsProbe && !askSend && !askTell
    {
      hide *;
      AcksAreHeld();
      ProbeKeeps(k);
      ProbeClock(k);
      var last;
      ptr, last := FlushAcks(base, all, ProbeSegs(p) + rest);
      ClearAcks();
      ProbeCheck(k);
      ptr := FlushProbes(ptr, last, p, base, all, rest);
    }

    /** The window filling and the data segments of one flush. */
    method FlushWindow(ptr: nat, window: u32, ghost k: Kcp, ghost base: seq<seq<u8>>, ghost all: seq<Seg>)
      returns (ptr': nat, fast: nat, lost: nat)
      requires Valid() && Clock(k) && SenderValue() == k.snd && window == SendWindow(k)
      requires xmit == k.xmit && dead == k.dead
      requires Packing(ptr, base, all, DataSegs(k, Filled(true, k).buf))
      modifies this`sndQueue, this`nsndQue, this`sndBuf, this`nsndBuf, this`sndNxt
      modifies this`xmit, this`dead, this`sent, this`done, this`open, buffer
      ensures Valid() && Packing(ptr', base, all, [])
      ensures var s := Filled(true, k);
        && SenderValue() == s.(buf := VisitAll(k, s.buf)) && xmit == U32(k.xmit + CountWhy(k, s.buf, Timeout))
        && dead == (k.dead || HitsDeadLink(k, s.buf))
        && fast == CountWhy(k, s.buf, Fast) && lost == CountWhy(k, s.buf, Timeout)
    {
      hide Packing, MoveOut, VisitAll, DataSegs, CountWhy, HitsDeadLink, SendWindow, U32;
      Fill(window, k);
      ptr', fast, lost := FlushData(ptr, k, base, all);
    }

    /** The segments of one flush, in order. */
    method SendAll(window: u32, ghost k: Kcp, ghost p: Kcp, ghost base: seq<seq<u8>>, ghost all: seq<Seg>) returns (fast: nat, lost: nat)
      requires Valid() && Clock(k) && SenderValue() == k.snd && ReceiverValue() == k.rcv && window == SendWindow(k) && p == ProbeTimer(k)
      requires rmtWnd == k.rmtWnd && probeWait == k.probeWait && tsProbe == k.tsProbe
      requires askSend == k.askSend && askTell == k.askTell && xmit == k.xmit && dead == k.dead
      requires Packing(0, base, all, AckSegs(k.rcv, k.rcv.acks) + (ProbeSegs(p) + DataSegs(k, Filled(true, k).buf)))
      modifies this`sndQueue, this`nsndQue, this`sndBuf, this`nsndBuf, this`sndNxt
      modifies this`acks, this`ackcount, this`probeWait, this`tsProbe, this`askSend, this`askTell
      modifies this`xmit, this`dead, this`sent, this`done, this`open, buffer
      ensures Valid() && ReceiverValue() == k.rcv.(acks := []) && probeWait == p.probeWait && tsProbe == p.tsProbe && !askSend && !askTell
      ensures var s := Filled(true, k);
        && SenderValue() == s.(buf := VisitAll(k, s.buf)) && xmit == U32(k.xmit + CountWhy(k, s.buf, Timeout))
        && dead == (k.dead || HitsDeadLink(k, s.buf))
        && fast == CountWhy(k, s.buf, Fast) && lost == CountWhy(k, s.buf, Timeout)
      ensures (forall i :: 0 <= i < |done| ==> AllEncodable(done[i])) && done == Pack(mtu, [], all) && sent == base + EncodeList(conv, done)
    {
      hide *;
      var ptr := FlushControl(k, p, base, all, DataSegs(k, Filled(true, k).buf));
      ptr, fast, lost := FlushWindow(ptr, window, k, base, all);
      FinishFlush(ptr, base, all);
    }

    /** Everything of ikcp_flush but the congestion updates. */
    method Transmit(ghost k: Kcp) returns (fast: nat, lost: nat, window: u32)
      requires Valid() && k == Value() && done == [] && open == []
      modifies this`sndQueue, this`nsndQue, this`sndBuf, this`nsndBuf, this`sndNxt
      modifies this`acks, this`ackcount, this`probeWait, this`tsProbe, this`askSend, this`askTell
      modifies this`xmit, this`dead, this`sent, this`done, this`open, buffer
      ensures Valid() && AgreesOut(KcpSpec.Flushed(true, k))
      ensures forall i :: 0 <= i < |done| ==> AllEncodable(done[i])
      ensures done == Pack(k.mtu, [], FlushSegs(true, k)) && sent == old(sent) + EncodeList(conv, done)
      ensures var s := Filled(true, k);
        && fast == CountWhy(k, s.buf, Fast) && lost == CountWhy(k, s.buf, Timeout) && window == SendWindow(k)
    {
      hide *;
      ghost var base, p, all := sent, ProbeTimer(k), FlushSegs(true, k);
      Opening(k, base);
      FlushedKeeps(k);
      FlushedQueues(k);
      window := LocalWindow(k);
      fast, lost := SendAll(window, k, p, base, all);
      Closing(KcpSpec.Flushed(true, k));
    }

    /** The state before the first segment of a flush. */
    lemma Opening(k: Kcp, base: seq<seq<u8>>)
      requires Valid() && k == Value() && done == [] && open == [] && sent == base
      ensures Clock(k) && SenderValue() == k.snd && ReceiverValue() == k.rcv && mtu == k.mtu
      ensures rmtWnd == k.rmtWnd && probeWait == k.probeWait && tsProbe == k.tsProbe
      ensures askSend == k.askSend && askTell == k.askTell && xmit == k.xmit && dead == k.dead
      ensures cwnd == k.cwnd && incr == k.incr && ssthresh == k.ssthresh
      ensures var all := FlushSegs(true, k);
        Packing(0, base, all, AckSegs(k.rcv, k.rcv.acks) + (ProbeSegs(ProbeTimer(k)) + DataSegs(k, Filled(true, k).buf)))
    {
      hide Packing, Filled, DataSegs, AckSegs, ProbeSegs, ProbeTimer, Valid;
      var all := FlushSegs(true, k);
      assert all == AckSegs(k.rcv, k.rcv.acks) + (ProbeSegs(ProbeTimer(k)) + DataSegs(k, Filled(true, k).buf)) by {
        ProbeKeeps(k);
      }
      StartPacking(base, all);
    }

    /** The window ikcp_flush sends within. */
    method LocalWindow(ghost k: Kcp) returns (window: u32)
      requires k == Value()
      ensures window == SendWindow(k)
    {
      window := Min(sndWnd, rmtWnd);
      if !nocwnd { window := Min(cwnd, window); }
    }

    lemma Closing(f: Kcp)
      requires SenderValue() == f.snd && ReceiverValue() == f.rcv && xmit == f.xmit && dead == f.dead
      requires askSend == f.askSend && askTell == f.askTell && probeWait == f.probeWait && tsProbe == f.tsProbe
      requires cwnd == f.cwnd && incr == f.incr && ssthresh == f.ssthresh
      ensures AgreesOut(f)
    {}

    /** ikcp_flush: the datagrams it outputs are the packed encodings of every segment
        due, and the work buffer is never written past its end. */
    method Flush()
      requires Valid()
      modifies this`sndQueue, this`nsndQue, this`sndBuf, this`nsndBuf, this`sndNxt
      modifies this`acks, this`ackcount, this`probeWait, this`tsProbe, this`askSend, this`askTell
      modifies this`xmit, this`dead, this`sent, this`done, this`open, this`cwnd, this`incr, this`ssthresh, buffer
      ensures Valid() && AgreesOut(KcpSpec.Flush(true, old(Value())).0)
      ensures done == KcpSpec.Flush(true, old(Value())).1 && forall i :: 0 <= i < |done| ==> AllEncodable(done[i])
      ensures sent == old(sent) + EncodeList(conv, done)
    {
      hide *;
      ghost var k := Value();
      StartFlush();
      FlushFields(k);
      if !updated {
        NotUpdated(k);
        return;
      }
      var fast, lost, window := Transmit(k);
      ghost var f, inflight := KcpSpec.Flushed(true, k), U32(sndNxt - sndUna);
      FlushedKeeps(k);
      FlushedQueues(k);
      OutFields(f);
      CongestionFields(f, fast > 0, lost > 0, window, inflight);
      Congest(fast > 0, lost > 0, window, U32(sndNxt - sndUna), f);
      FlushIs(k, f, fast, lost, window, inflight);
      Closing(KcpSpec.Flush(true, k).0);
    }

    method StartFlush()
      modifies this`done, this`open
      ensures done == [] && open == [] && Value() == old(Value())
    {
      done, open := [], [];
    }

    lemma FlushFields(k: Kcp)
      requires k == Value()
      ensures mss == k.mss && mtu == k.mtu && fastresend == k.fastresend && updated == k.updated
    {}

    lemma NotUpdated(k: Kcp)
      requires k == Value() && !k.updated && done == []
      ensures AgreesOut(KcpSpec.Flush(true, k).0) && done == KcpSpec.Flush(true, k).1 && sent == sent + EncodeList(conv, done)
    {}

    lemma OutFields(f: Kcp)
      requires AgreesOut(f)
      ensures SenderValue() == f.snd && ReceiverValue() == f.rcv && xmit == f.xmit && dead == f.dead
      ensures askSend == f.askSend && askTell == f.askTell && probeWait == f.probeWait && tsProbe == f.tsProbe
      ensures cwnd == f.cwnd && incr == f.incr && ssthresh == f.ssthresh
      ensures f.snd.una == sndUna && f.snd.nxt == sndNxt
    {}

    /** The clock part of ikcp_update. */
    method TickClock(now: u32) returns (due: bool)
      modifies this`current, this`updated, this`tsFlush
      ensures var (k1, d) := Tick(old(Value()), now);
        current == k1.current && updated == k1.updated && tsFlush == k1.tsFlush && due == d
    {
      hide S32, U32;
      current := now;
      if !updated {
        updated := true;
        tsFlush := current;
      }
      var slap := S32(current - tsFlush);
      if slap >= 10000 || slap < -10000 {
        tsFlush := current;
        slap := 0;
      }
      due := slap >= 0;
      if due {
        tsFlush := U32(tsFlush + interval);
        if S32(current - tsFlush) >= 0 {
          tsFlush := U32(current + interval);
        }
      }
    }

    /** The clock part touches nothing else. */
    static lemma TickFields(k: Kcp, now: u32)
      ensures var k1 := Tick(k, now).0; k1 == k.(current := k1.current, updated := k1.updated, tsFlush := k1.tsFlush)
    {}

    /** ikcp_update: the clock, then a flush when one is due. */
    method Update(now: u32)
      requires Valid()
      modifies this`current, this`updated, this`tsFlush
      modifies this`sndQueue, this`nsndQue, this`sndBuf, this`nsndBuf, this`sndNxt
      modifies this`acks, this`ackcount, this`probeWait, this`tsProbe, this`askSend, this`askTell
      modifies this`xmit, this`dead, this`sent, this`done, this`open, this`cwnd, this`incr, this`ssthresh, buffer
      ensures Valid() && AgreesOut(KcpSpec.Update(true, old(Value()), now).0)
      ensures done == KcpSpec.Update(true, old(Value()), now).1 && forall i :: 0 <= i < |done| ==> AllEncodable(done[i])
      ensures sent == old(sent) + EncodeList(conv, done)
      ensures var k1 := Tick(old(Value()), now).0; current == k1.current && updated == k1.updated && tsFlush == k1.tsFlush
    {
      hide *;
      ghost var k := Value();
      var due := DoTick(now);
      Untouched(Value());
      if due {
        Flush();
      } else {
        done := [];
        NoUpdate(k, now);
      }
      UpdateIs(k, now);
    }

    /** The clock part in terms of the whole block. */
    method DoTick(now: u32) returns (due: bool)
      modifies this`current, this`updated, this`tsFlush
      ensures (Value(), due) == Tick(old(Value()), now)
      ensures current == Value().current && updated == Value().updated && tsFlush == Value().tsFlush
    {
      hide Tick;
      TickFields(Value(), now);
      due := TickClock(now);
    }

    lemma Untouched(k: Kcp)
      requires k == Value()
      ensures AgreesOut(k)
    {}

    lemma NoUpdate(k: Kcp, now: u32)
      requires var (k1, due) := Tick(k, now); !due && AgreesOut(k1)
      requires done == []
      ensures AgreesOut(KcpSpec.Update(true, k, now).0) && done == KcpSpec.Update(true, k, now).1
      ensures sent == sent + EncodeList(conv, done)
    {}

    static lemma UpdateIs(k: Kcp, now: u32)
      ensures var (k1, due) := Tick(k, now); due ==> KcpSpec.Update(true, k, now) == KcpSpec.Flush(true, k1)
    {}

    lemma StartPacking(base: seq<seq<u8>>, all: seq<Seg>)
      requires done == [] && open == [] && sent == base
      ensures Packing(0, base, all, all)
    {
      NothingOpen(conv);
      assert base + EncodeList(conv, []) == base;
      assert [] + Pack(mtu, [], all) == Pack(mtu, [], all);
    }

    /** Outputs what remains in the work buffer. */
    method FinishFlush(ptr: nat, ghost base: seq<seq<u8>>, ghost all: seq<Seg>)
      requires Valid() && Packing(ptr, base, all, [])
      modifies this`sent, this`done, this`open
      ensures done == Pack(mtu, [], all) && sent == base + EncodeList(conv, done)
      ensures forall i :: 0 <= i < |done| ==> AllEncodable(done[i])
    {
      PackEnd(mtu, open);
      SizeZero(open);
      hide EncodeAll, TotalSize, EncodeList, Pack;
      Output(ptr);
      if ptr > 0 {
        EncodeListAppend(conv, done, open);
        done := done + [open];
      } else {
        assert done + [] == done;
      }
    }
  }

  lemma VisitUnfold(k: Kcp, buf: seq<Sent>)
    requires buf != []
    ensures VisitAll(k, buf) == [Visit(k, buf[0])] + VisitAll(k, buf[1..])
  {
    hide Visit;
  }

  lemma DataUnfold(k: Kcp, buf: seq<Sent>)
    requires buf != []
    ensures DataSegs(k, buf) ==
      if Reason(k, buf[0]).Quiet? then DataSegs(k, buf[1..]) else [Visit(k, buf[0]).seg] + DataSegs(k, buf[1..])
  {
    hide Visit, Reason;
    if Reason(k, buf[0]).Quiet? { assert [] + DataSegs(k, buf[1..]) == DataSegs(k, buf[1..]); }
  }

  lemma TallyUnfold(k: Kcp, buf: seq<Sent>)
    requires buf != []
    ensures forall why :: CountWhy(k, buf, why) == (if Reason(k, buf[0]) == why then 1 else 0) + CountWhy(k, buf[1..], why)
    ensures HitsDeadLink(k, buf) <==>
      (!Reason(k, buf[0]).Quiet? && Visit(k, buf[0]).xmit >= k.deadLink) || HitsDeadLink(k, buf[1..])
  {
    hide Visit, Reason;
  }

  lemma ProbeKeeps(k: Kcp)
    ensures var p := ProbeTimer(k);
      (&& p.rcv == k.rcv && p.snd == k.snd && p.est == k.est && p.current == k.current
       && p.askTell == k.askTell && p.nodelay == k.nodelay && p.fastresend == k.fastresend
       && p.fastlimit == k.fastlimit && p.deadLink == k.deadLink)
  {
    hide ProbeBackoff;
  }

  lemma FlushedQueues(k: Kcp)
    ensures var f, s := KcpSpec.Flushed(true, k), Filled(true, k);
      (&& f.snd == s.(buf := VisitAll(k, s.buf)) && f.rcv == k.rcv.(acks := [])
       && f.xmit == U32(k.xmit + CountWhy(k, s.buf, Timeout)) && f.dead == (k.dead || HitsDeadLink(k, s.buf)))
  {
    hide ProbeTimer, Filled, VisitAll, CountWhy, HitsDeadLink, U32;
  }

  lemma FlushedKeeps(k: Kcp)
    ensures var f, p := KcpSpec.Flushed(true, k), ProbeTimer(k);
      (&& f.mss == k.mss && f.fastresend == k.fastresend && !f.askSend && !f.askTell
       && f.probeWait == p.probeWait && f.tsProbe == p.tsProbe
       && f.cwnd == k.cwnd && f.incr == k.incr && f.ssthresh == k.ssthresh)
  {
    hide ProbeTimer, Filled, VisitAll, CountWhy, HitsDeadLink, U32;
    ProbeKeepsWindow(k);
  }

  lemma ProbeKeepsWindow(k: Kcp)
    ensures var p := ProbeTimer(k);
      p.mss == k.mss && p.fastresend == k.fastresend && p.cwnd == k.cwnd && p.incr == k.incr && p.ssthresh == k.ssthresh
  {
    hide ProbeBackoff;
  }

  lemma FlushIs(k: Kcp, f: Kcp, fast: nat, lost: nat, window: u32, inflight: u32)
    requires k.updated && f == KcpSpec.Flushed(true, k) && window == SendWindow(k) && inflight == U32(f.snd.nxt - f.snd.una)
    requires var s := Filled(true, k); fast == CountWhy(k, s.buf, Fast) && lost == CountWhy(k, s.buf, Timeout)
    ensures KcpSpec.Flush(true, k) == (Congestion(f, fast > 0, lost > 0, window, inflight), Pack(k.mtu, [], FlushSegs(true, k)))
  {
    hide Filled, CountWhy, U32, SendWindow, Pack, FlushSegs, Congestion, KcpSpec.Flushed;
    FlushedQueues(k);
    InflightWord(f.snd.nxt, f.snd.una);
  }

  lemma CongestionFields(k: Kcp, fast: bool, lost: bool, cwnd: u32, inflight: u32)
    ensures var c := Congestion(k, fast, lost, cwnd, inflight);
      (&& (c.ssthresh, c.cwnd, c.incr) == Reduced(k, fast, lost, cwnd, inflight)
       && c.snd == k.snd && c.rcv == k.rcv && c.askSend == k.askSend && c.askTell == k.askTell
       && c.probeWait == k.probeWait && c.tsProbe == k.tsProbe && c.xmit == k.xmit && c.dead == k.dead)
  {
    hide Reduced;
  }

  lemma VisitKeepsBody(k: Kcp, s: Sent)
    ensures Visit(k, s).seg.body == s.seg.body && Visit(k, s).seg.cmd == s.seg.cmd
  {
    hide Reason, S32, U32, BackoffRto;
  }

  lemma NothingLeft(k: Kcp)
    ensures VisitAll(k, []) == [] && DataSegs(k, []) == [] && !HitsDeadLink(k, [])
    ensures forall why :: CountWhy(k, [], why) == 0
  {}

  lemma InflightWord(nxt: int, una: int)
    ensures U32(Diff(true, nxt, una)) == U32(nxt - una)
  {}

  lemma PackEnd(mtu: nat, open: seq<Seg>)
    ensures Pack(mtu, open, []) == if open == [] then [] else [open]
  {}

  lemma SizeZero(open: seq<Seg>)
    ensures TotalSize(open) == 0 <==> open == []
  {}

  lemma EncodeListAppend(conv: u32, ds: seq<seq<Seg>>, d: seq<Seg>)
    requires AllEncodable(d) && forall i :: 0 <= i < |ds| ==> AllEncodable(ds[i])
    ensures forall i :: 0 <= i < |ds + [d]| ==> AllEncodable((ds + [d])[i])
    ensures EncodeList(conv, ds + [d]) == EncodeList(conv, ds) + [EncodeAll(conv, d)]
  {}

  lemma NothingOpen(conv: u32)
    ensures TotalSize([]) == 0 && EncodeAll(conv, []) == []
  {}

  lemma PackStep(mtu: nat, cur: seq<Seg>, s: Seg, rest: seq<Seg>)
    requires WireSize(s) <= mtu
    ensures Pack(mtu, cur, [s] + rest) ==
      if TotalSize(cur) + WireSize(s) > mtu then [cur] + Pack(mtu, [s], rest) else Pack(mtu, cur + [s], rest)
  {
    assert ([s] + rest)[1..] == rest;
    if cur == [] { assert TotalSize(cur) == 0; }
  }

  lemma {:induction false} SizeStep(conv: u32, cur: seq<Seg>, s: Seg)
    requires AllEncodable(cur) && Encodable(s)
    ensures TotalSize(cur + [s]) == TotalSize(cur) + WireSize(s)
    ensures EncodeAll(conv, cur + [s]) == EncodeAll(conv, cur) + EncodeSeg(conv, s)
    ensures cur == [] ==> EncodeAll(conv, cur) == []
    decreases |cur|
  {
    hide EncodeSeg, WireSize;
    if cur == [] {
      assert [] + [s] == [s] && [s][1..] == [];
    } else {
      assert (cur + [s])[1..] == cur[1..] + [s];
      SizeStep(conv, cur[1..], s);
    }
  }

  lemma DecodeUnfold(conv: u32, b: seq<u8>)
    ensures var t := DecodeSeg(conv, b);
      && (t.Stop? ==> Decode(conv, b) == ([], t.code))
      && (t.Item? ==>
            && Decode(conv, b).0 == [t.seg] + Decode(conv, b[t.size..]).0
            && Decode(conv, b).1 == Decode(conv, b[t.size..]).1)
  {}

  lemma InputSegsEnd(w: bool, k: Kcp, m: MaxAck)
    ensures InputSegs(w, k, m, []) == (k, m)
  {}

  lemma InputSegsStep(w: bool, k: Kcp, m: MaxAck, segs: seq<Seg>)
    requires segs != []
    ensures InputSegs(w, k, m, segs) == InputSegs(w, InputSeg(w, k, segs[0]), Later(w, m, segs[0]), segs[1..])
  {}

  lemma PushOnly(w: bool, r: Receiver, s: Seg)
    requires s.cmd != CMD_PUSH
    ensures ReceiverInput(w, r, s) == r
  {}

  // ---- what the scanning loops find ---------------------------------------------

  /** The scan for `sn` went past the first `i` entries. */
  predicate PassedBy(buf: seq<Sent>, i: nat, sn: int) {
    i <= |buf| && forall j :: 0 <= j < i ==> sn != buf[j].seg.sn && S32(sn - buf[j].seg.sn) >= 0
  }

  lemma {:induction false} RemoveSnIs(buf: seq<Sent>, i: nat, sn: int)
    requires PassedBy(buf, i, sn)
    requires i < |buf| ==> sn == buf[i].seg.sn || S32(sn - buf[i].seg.sn) < 0
    ensures RemoveSn(true, buf, sn) == if i < |buf| && sn == buf[i].seg.sn then buf[..i] + buf[i + 1..] else buf
    decreases i
  {
    hide S32;
    if i > 0 {
      assert forall j :: 0 <= j < |buf| - 1 ==> buf[1..][j] == buf[j + 1];
      RemoveSnIs(buf[1..], i - 1, sn);
      if i < |buf| {
        assert buf[1..][..i - 1] == buf[1..i] && buf[1..][i..] == buf[i + 1..];
        assert [buf[0]] + buf[1..i] == buf[..i];
      }
    }
  }

  /** snd_buf's entry after an acknowledgement of `sn` passed it by. */
  function Skipped(s: Sent, sn: int): Sent {
    if sn == s.seg.sn then s else s.(fastack := U32(s.fastack + 1))
  }

  lemma CountSkipsStep(buf: seq<Sent>, sn: int)
    requires buf != [] && S32(sn - buf[0].seg.sn) >= 0
    ensures CountSkips(true, buf, sn) == [Skipped(buf[0], sn)] + CountSkips(true, buf[1..], sn)
  {
    hide S32, U32;
  }

  lemma {:induction false} CountSkipsIs(buf: seq<Sent>, i: nat, sn: int, r: seq<Sent>)
    requires i <= |buf| == |r|
    requires forall j :: 0 <= j < i ==> S32(sn - buf[j].seg.sn) >= 0 && r[j] == Skipped(buf[j], sn)
    requires forall j :: i <= j < |buf| ==> r[j] == buf[j]
    requires i < |buf| ==> S32(sn - buf[i].seg.sn) < 0
    ensures r == CountSkips(true, buf, sn)
    decreases i
  {
    hide S32, U32;
    if i > 0 {
      CountSkipsStep(buf, sn);
      hide CountSkips;
      assert forall j :: 0 <= j < |buf| - 1 ==> buf[1..][j] == buf[j + 1] && r[1..][j] == r[j + 1];
      CountSkipsIs(buf[1..], i - 1, sn, r[1..]);
      assert r == [r[0]] + r[1..];
    } else {
      assert r == buf;
    }
  }

  lemma InsertSegStep(init: seq<Seg>, last: Seg, s: Seg)
    ensures InsertSeg(true, init + [last], s) ==
      if last.sn == s.sn then init + [last]
      else if S32(s.sn - last.sn) > 0 then init + [last, s]
      else InsertSeg(true, init, s) + [last]
  {
    hide S32;
    var buf := init + [last];
    assert buf[|buf| - 1] == last && buf[..|buf| - 1] == init;
    assert buf + [s] == init + [last, s];
  }

  /** A scan from the end that stops between `pre` and `post` inserts there. */
  lemma SplitSegs(buf: seq<Seg>, p: nat)
    requires p <= |buf|
    ensures buf[..p] + buf[p..] == buf
  {}

  /** Where the scan from the end stops is where the segment goes. */
  lemma InsertSegAt(buf: seq<Seg>, p: nat, s: Seg)
    requires p <= |buf| && forall j :: p <= j < |buf| ==> buf[j].sn != s.sn && S32(s.sn - buf[j].sn) <= 0
    requires p > 0 ==> buf[p - 1].sn == s.sn || S32(s.sn - buf[p - 1].sn) > 0
    ensures InsertSeg(true, buf, s) == if p > 0 && buf[p - 1].sn == s.sn then buf else buf[..p] + [s] + buf[p..]
  {
    hide S32, InsertSeg;
    var pre, post := buf[..p], buf[p..];
    forall j | 0 <= j < |post| ensures post[j].sn != s.sn && S32(s.sn - post[j].sn) <= 0 {
      assert post[j] == buf[p + j];
    }
    assert p > 0 ==> pre[|pre| - 1] == buf[p - 1];
    InsertSegIs(pre, post, s);
    SplitSegs(buf, p);
  }

  lemma {:induction false} InsertSegIs(pre: seq<Seg>, post: seq<Seg>, s: Seg)
    requires forall j :: 0 <= j < |post| ==> post[j].sn != s.sn && S32(s.sn - post[j].sn) <= 0
    requires pre != [] ==> pre[|pre| - 1].sn == s.sn || S32(s.sn - pre[|pre| - 1].sn) > 0
    ensures InsertSeg(true, pre + post, s) ==
      if pre != [] && pre[|pre| - 1].sn == s.sn then pre + post else pre + [s] + post
    decreases |post|
  {
    hide S32, InsertSeg;
    if post != [] {
      var init, last := post[..|post| - 1], post[|post| - 1];
      assert pre + post == (pre + init) + [last];
      InsertSegStep(pre + init, last, s);
      InsertSegIs(pre, init, s);
      assert (pre + [s] + init) + [last] == pre + [s] + post;
    } else if pre != [] {
      var init, last := pre[..|pre| - 1], pre[|pre| - 1];
      assert pre + post == init + [last];
      InsertSegStep(init, last, s);
      assert init + [last, s] == pre + [s] + post;
    } else {
      InsertSegNone(s);
      assert pre + post == [] && pre + [s] + post == [s];
    }
  }

  lemma InsertSegNone(s: Seg)
    ensures InsertSeg(true, [], s) == [s]
  {}

  lemma FragmentStep(mss: nat, msg: seq<u8>, count: nat)
    requires mss > 0 && 0 < count <= 0x100
    ensures var size := Min(|msg|, mss);
      Fragment(mss, msg, count) == [Frag(count - 1, msg[..size])] + Fragment(mss, msg[size..], count - 1)
  {}

  lemma FragmentEnd(mss: nat, msg: seq<u8>)
    requires mss > 0
    ensures Fragment(mss, msg, 0) == []
  {}

  // ---- facts about one message at the head of a queue ------------------------------

  lemma FirstStep(q: seq<Frag>)
    requires q != []
    ensures FirstMessage(q) == if q[0].frg == 0 then [q[0]] else [q[0]] + FirstMessage(q[1..])
  {}

  lemma JoinStep(f: Frag, fs: seq<Frag>)
    ensures Join([f] + fs) == f.data + Join(fs)
  {
    assert ([f] + fs)[1..] == fs;
  }

  lemma JoinFirst(q: seq<Frag>)
    requires q != []
    ensures Join(FirstMessage(q)) == if q[0].frg == 0 then q[0].data else q[0].data + Join(FirstMessage(q[1..]))
  {
    hide FirstMessage, Join;
    FirstStep(q);
    if q[0].frg == 0 {
      assert [q[0]] == [q[0]] + [];
      JoinStep(q[0], []);
      JoinNone();
    } else {
      JoinStep(q[0], FirstMessage(q[1..]));
    }
  }

  /** `data` was merged from `q` and `rest` is still to be looked at. */
  ghost predicate Merging(q: seq<Frag>, rest: seq<Frag>, data: seq<u8>) {
    Join(FirstMessage(q)) == data + Join(FirstMessage(rest)) && AfterFirst(q) == AfterFirst(rest)
  }

  lemma MergeStart(q: seq<Frag>)
    ensures Merging(q, q, [])
  {
    assert [] + Join(FirstMessage(q)) == Join(FirstMessage(q));
  }

  lemma MergeStep(q: seq<Frag>, rest: seq<Frag>, data: seq<u8>)
    requires Merging(q, rest, data) && rest != []
    ensures rest[0].frg == 0 ==> Join(FirstMessage(q)) == data + rest[0].data && AfterFirst(q) == rest[1..]
    ensures rest[0].frg != 0 ==> Merging(q, rest[1..], data + rest[0].data)
  {
    hide FirstMessage, Join, AfterFirst;
    JoinFirst(rest);
    FirstTail(rest);
    var more := Join(FirstMessage(rest[1..]));
    assert data + (rest[0].data + more) == (data + rest[0].data) + more;
  }

  lemma MergeEnd(q: seq<Frag>, data: seq<u8>)
    requires Merging(q, [], data)
    ensures Join(FirstMessage(q)) == data && AfterFirst(q) == []
  {
    NoMessage();
  }

  lemma NoMessage()
    ensures FirstMessage([]) == [] && Join([]) == [] && AfterFirst([]) == []
  {}

  lemma JoinNone()
    ensures Join([]) == []
  {}

  /** What a queue holds behind its first message. */
  function AfterFirst(q: seq<Frag>): seq<Frag> {
    q[|FirstMessage(q)|..]
  }

  lemma FirstTail(q: seq<Frag>)
    requires q != []
    ensures AfterFirst(q) == if q[0].frg == 0 then q[1..] else AfterFirst(q[1..])
  {
    hide FirstMessage;
    FirstStep(q);
    if q[0].frg != 0 {
      var t := FirstMessage(q[1..]);
      assert |FirstMessage(q)| == 1 + |t|;
    }
  }

  lemma PeekIsMerged(q: seq<Frag>)
    requires KcpSpec.PeekSize(q) >= 0
    ensures KcpSpec.PeekSize(q) == |Join(FirstMessage(q))|
  {
    if q != [] { JoinFirst(q); }
  }
}

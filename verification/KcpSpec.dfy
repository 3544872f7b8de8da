/** What each operation of code/kcp/ikcp.c computes, as functions on control blocks.

    The flag `w` selects the arithmetic of sequence numbers: true is the code's
    IUINT32 arithmetic, false is arithmetic without wrap-around. Timestamps and
    timer values always wrap. */
module KcpSpec {
  import opened Words
  import opened KcpTypes

  // ---- sequence-number arithmetic --------------------------------------

  /** The comparison _itimediff. */
  function Diff(w: bool, later: int, earlier: int): int {
    if w then S32(later - earlier) else later - earlier
  }

  function Plus(w: bool, a: int, b: int): int {
    if w then U32(a + b) else a + b
  }

  // ---- ikcp_create -------------------------------------------------------

  /** A new control block. */
  function Created(conv: u32): Kcp {
    Kcp(conv, MTU_DEF, MTU_DEF - OVERHEAD, false,
        Sender(0, 0, [], []), Receiver(0, WND_RCV, [], [], []),
        Rtt(0, 0, RTO_DEF), RTO_MIN,
        WND_SND, WND_RCV, 0, 0, THRESH_INIT,
        false, false,
        0, INTERVAL, INTERVAL, 0,
        0, false, 0, 0, DEADLINK,
        0, FASTACK_LIMIT, false)
  }

  // ---- ikcp_send ---------------------------------------------------------

  function FragCount(mss: nat, len: nat): nat
    requires mss > 0
  {
    if len <= mss then 1 else (len + mss - 1) / mss
  }

  function Fragment(mss: nat, msg: seq<u8>, count: nat): seq<Frag>
    requires mss > 0 && count <= 0x100
    decreases count
  {
    if count == 0 then []
    else
      var size := Min(|msg|, mss);
      [Frag(count - 1, msg[..size])] + Fragment(mss, msg[size..], count - 1)
  }

  function Send(k: Kcp, msg: seq<u8>): (r: (Kcp, int))
    requires k.mss > 0
  {
    var count := FragCount(k.mss, |msg|);
    if count >= WND_RCV then (k, -2)
    else (k.(snd := k.snd.(queue := k.snd.queue + Fragment(k.mss, msg, count))), 0)
  }

  // ---- ikcp_peeksize and ikcp_recv ---------------------------------------

  /** The queue up to and including the first fragment that ends a message. */
  function FirstMessage(q: seq<Frag>): (m: seq<Frag>)
    ensures |m| <= |q| && m == q[..|m|]
  {
    if q == [] then []
    else if q[0].frg == 0 then [q[0]]
    else [q[0]] + FirstMessage(q[1..])
  }

  function Join(fs: seq<Frag>): seq<u8> {
    if fs == [] then [] else fs[0].data + Join(fs[1..])
  }

  function PeekSize(q: seq<Frag>): int {
    if q == [] then -1
    else if q[0].frg == 0 then |q[0].data|
    else if |q| < q[0].frg + 1 then -1
    else |Join(FirstMessage(q))|
  }

  /** Moves the segments that are next in order from rcv_buf to rcv_queue. */
  function MoveReady(w: bool, r: Receiver): Receiver
    decreases |r.buf|
  {
    if r.buf != [] && r.buf[0].sn == r.nxt && |r.queue| < r.wnd then
      MoveReady(w, r.(buf := r.buf[1..], queue := r.queue + [r.buf[0].body], nxt := Plus(w, r.nxt, 1)))
    else r
  }

  /** The receiving half once the first message left rcv_queue. */
  function Consume(w: bool, r: Receiver): Receiver {
    MoveReady(w, r.(queue := r.queue[|FirstMessage(r.queue)|..]))
  }

  /** The receiving half afterwards, the result code, the bytes copied out, and whether
      a full queue got room again. A negative `len` only peeks. */
  datatype Taken = Taken(r: Receiver, code: int, data: seq<u8>, recovered: bool)

  function TakeMessage(w: bool, r: Receiver, len: int): Taken {
    if r.queue == [] then Taken(r, -1, [], false)
    else if PeekSize(r.queue) < 0 then Taken(r, -2, [], false)
    else if PeekSize(r.queue) > (if len < 0 then -len else len) then Taken(r, -3, [], false)
    else
      var data := Join(FirstMessage(r.queue));
      var r' := if len < 0 then MoveReady(w, r) else Consume(w, r);
      Taken(r', |data|, data, |r'.queue| < r'.wnd && |r.queue| >= r.wnd)
  }

  datatype Received = Received(k: Kcp, code: int, data: seq<u8>)

  function Recv(w: bool, k: Kcp, len: int): Received {
    var t := TakeMessage(w, k.rcv, len);
    Received(k.(rcv := t.r, askTell := k.askTell || t.recovered), t.code, t.data)
  }

  // ---- acknowledgements ----------------------------------------------------

  function Shrink(s: Sender): Sender {
    s.(una := if s.buf == [] then s.nxt else s.buf[0].seg.sn)
  }

  function DropBelow(w: bool, buf: seq<Sent>, una: int): seq<Sent> {
    if buf != [] && Diff(w, una, buf[0].seg.sn) > 0 then DropBelow(w, buf[1..], una) else buf
  }

  function ParseUna(w: bool, s: Sender, una: int): Sender {
    s.(buf := DropBelow(w, s.buf, una))
  }

  function RemoveSn(w: bool, buf: seq<Sent>, sn: int): seq<Sent> {
    if buf == [] then []
    else if sn == buf[0].seg.sn then buf[1..]
    else if Diff(w, sn, buf[0].seg.sn) < 0 then buf
    else [buf[0]] + RemoveSn(w, buf[1..], sn)
  }

  predicate OutsideFlight(w: bool, s: Sender, sn: int) {
    Diff(w, sn, s.una) < 0 || Diff(w, sn, s.nxt) >= 0
  }

  function ParseAck(w: bool, s: Sender, sn: int): Sender {
    if OutsideFlight(w, s, sn) then s else s.(buf := RemoveSn(w, s.buf, sn))
  }

  function CountSkips(w: bool, buf: seq<Sent>, sn: int): seq<Sent> {
    if buf == [] then []
    else if Diff(w, sn, buf[0].seg.sn) < 0 then buf
    else
      [if sn == buf[0].seg.sn then buf[0] else buf[0].(fastack := U32(buf[0].fastack + 1))]
      + CountSkips(w, buf[1..], sn)
  }

  function ParseFastack(w: bool, s: Sender, sn: int): Sender {
    if OutsideFlight(w, s, sn) then s else s.(buf := CountSkips(w, s.buf, sn))
  }

  /** ikcp_update_ack, also for a first sample (srtt still 0). */
  function Estimate(e: Rtt, interval: u32, minrto: u32, rtt: nat): Rtt {
    var delta := if rtt < e.srtt then e.srtt - rtt else rtt - e.srtt;
    var rttval := if e.srtt == 0 then rtt / 2 else (3 * e.rttval + delta) / 4;
    var srtt := if e.srtt == 0 then rtt else Max((7 * e.srtt + rtt) / 8, 1);
    var rto := U32(srtt + Max(interval, U32(4 * rttval)));
    Rtt(rttval, srtt, Min(Max(minrto, rto), RTO_MAX))
  }

  // ---- ikcp_parse_data and ikcp_input --------------------------------------

  /** Insertion that scans rcv_buf from its end and drops a repeated number. */
  function InsertSeg(w: bool, buf: seq<Seg>, s: Seg): seq<Seg> {
    if buf == [] then [s]
    else
      var last := buf[|buf| - 1];
      if last.sn == s.sn then buf
      else if Diff(w, s.sn, last.sn) > 0 then buf + [s]
      else InsertSeg(w, buf[..|buf| - 1], s) + [last]
  }

  function ParseData(w: bool, r: Receiver, s: Seg): Receiver {
    if Diff(w, s.sn, Plus(w, r.nxt, r.wnd)) >= 0 || Diff(w, s.sn, r.nxt) < 0 then r
    else MoveReady(w, r.(buf := InsertSeg(w, r.buf, s)))
  }

  /** A push command: acknowledged when below the window's end, kept when inside it. */
  function ReceiverInput(w: bool, r: Receiver, s: Seg): Receiver {
    if s.cmd == CMD_PUSH && Diff(w, s.sn, Plus(w, r.nxt, r.wnd)) < 0 then
      var r1 := r.(acks := r.acks + [Ack(s.sn, s.ts)]);
      if Diff(w, s.sn, r.nxt) >= 0 then ParseData(w, r1, s) else r1
    else r
  }

  /** Every command carries the peer's una; an ack command also names one segment. */
  function SenderInput(w: bool, s: Sender, seg: Seg): Sender {
    var s1 := Shrink(ParseUna(w, s, seg.una));
    if seg.cmd == CMD_ACK then Shrink(ParseAck(w, s1, seg.sn)) else s1
  }

  /** The local variables of ikcp_input: no acknowledgement seen yet, or the highest. */
  datatype MaxAck = NoAck | Highest(sn: int)

  function Later(w: bool, m: MaxAck, s: Seg): MaxAck {
    if s.cmd == CMD_ACK && (m.NoAck? || Diff(w, s.sn, m.sn) > 0) then Highest(s.sn) else m
  }

  function InputSeg(w: bool, k: Kcp, s: Seg): Kcp {
    var rtt := S32(k.current - s.ts);
    var est := if s.cmd == CMD_ACK && rtt >= 0 then Estimate(k.est, k.interval, k.rxMinrto, rtt) else k.est;
    k.(rmtWnd := s.wnd, askTell := k.askTell || s.cmd == CMD_WASK, est := est,
       snd := SenderInput(w, k.snd, s), rcv := ReceiverInput(w, k.rcv, s))
  }

  function InputSegs(w: bool, k: Kcp, m: MaxAck, segs: seq<Seg>): (Kcp, MaxAck)
    decreases |segs|
  {
    if segs == [] then (k, m) else InputSegs(w, InputSeg(w, k, segs[0]), Later(w, m, segs[0]), segs[1..])
  }

  /** The congestion window and its byte count once an acknowledgement moved snd_una. */
  function Grown(cwnd: u32, incr: u32, ssthresh: u32, mss: nat, rmtWnd: u32): (u32, u32) {
    if cwnd >= rmtWnd then (cwnd, incr)
    else
      var (c, i) :=
        if cwnd < ssthresh then (U32(cwnd + 1), U32(incr + mss))
        else
          var base := Max(incr, mss);
          var up := U32(base + (if base == 0 then 0 else U32(mss * mss) / base) + mss / 16);
          (if U32(U32(cwnd + 1) * mss) <= up && mss > 0 then U32(U32(up + mss - 1) / mss) else cwnd, up);
      if c > rmtWnd then (rmtWnd, U32(rmtWnd * mss)) else (c, i)
  }

  function GrowCwnd(k: Kcp): Kcp {
    var (cwnd, incr) := Grown(k.cwnd, k.incr, k.ssthresh, k.mss, k.rmtWnd);
    k.(cwnd := cwnd, incr := incr)
  }

  /** ikcp_input after decoding: `code` is the reason decoding stopped, 0 at the end. */
  function Input(w: bool, k: Kcp, segs: seq<Seg>, code: int): Kcp {
    var (k1, m) := InputSegs(w, k, NoAck, segs);
    if code != 0 then k1
    else
      var k2 := if m.Highest? then k1.(snd := ParseFastack(w, k1.snd, m.sn)) else k1;
      if Diff(w, k2.snd.una, k.snd.una) > 0 then GrowCwnd(k2) else k2
  }

  // ---- ikcp_flush ------------------------------------------------------------

  function WndUnused(r: Receiver): nat {
    if |r.queue| < r.wnd then r.wnd - |r.queue| else 0
  }

  /** The header shared by every segment of one flush; the field is 16 bits wide. */
  function Header(r: Receiver, cmd: u8, a: Ack): Seg {
    Seg(cmd, WndUnused(r) % 0x1_0000, a.ts, a.sn, r.nxt, Frag(0, []))
  }

  function AckSegs(r: Receiver, acks: seq<Ack>): seq<Seg> {
    if acks == [] then [] else [Header(r, CMD_ACK, acks[0])] + AckSegs(r, acks[1..])
  }

  /** Probes reuse the sn and ts fields of the last acknowledgement. */
  function LastAck(acks: seq<Ack>): Ack {
    if acks == [] then Ack(0, 0) else acks[|acks| - 1]
  }

  /** Wait, deadline and whether to ask, for a remote window of zero. */
  function ProbeBackoff(wait: u32, deadline: u32, current: u32): (u32, u32, bool) {
    if wait == 0 then (PROBE_INIT, U32(current + PROBE_INIT), false)
    else if S32(current - deadline) >= 0 then
      var base := Max(wait, PROBE_INIT);
      var next := Min(U32(base + base / 2), PROBE_LIMIT);
      (next, U32(current + next), true)
    else (wait, deadline, false)
  }

  function ProbeTimer(k: Kcp): Kcp {
    if k.rmtWnd != 0 then k.(tsProbe := 0, probeWait := 0)
    else
      var (wait, deadline, ask) := ProbeBackoff(k.probeWait, k.tsProbe, k.current);
      k.(probeWait := wait, tsProbe := deadline, askSend := k.askSend || ask)
  }

  function ProbeSegs(k: Kcp): seq<Seg> {
    (if k.askSend then [Header(k.rcv, CMD_WASK, LastAck(k.rcv.acks))] else [])
    + (if k.askTell then [Header(k.rcv, CMD_WINS, LastAck(k.rcv.acks))] else [])
  }

  function SendWindow(k: Kcp): u32 {
    var wnd := Min(k.sndWnd, k.rmtWnd);
    if k.nocwnd then wnd else Min(k.cwnd, wnd)
  }

  /** snd_buf's entry for fragment `f` with number `sn`, not yet sent. */
  function NewSent(k: Kcp, sn: int, f: Frag): Sent {
    Sent(Header(k.rcv, CMD_PUSH, Ack(sn, k.current)).(body := f), k.current, k.est.rto, 0, 0)
  }

  /** Moves fragments from snd_queue to snd_buf while the window is open. */
  function MoveOut(w: bool, k: Kcp, s: Sender, cwnd: u32): Sender
    decreases |s.queue|
  {
    if Diff(w, s.nxt, Plus(w, s.una, cwnd)) < 0 && s.queue != [] then
      MoveOut(w, k, s.(queue := s.queue[1..], buf := s.buf + [NewSent(k, s.nxt, s.queue[0])],
                       nxt := Plus(w, s.nxt, 1)), cwnd)
    else s
  }

  function Resent(k: Kcp): u32 {
    if k.fastresend > 0 then U32(k.fastresend) else MOD - 1
  }

  datatype Why = First | Timeout | Fast | Quiet

  function Reason(k: Kcp, s: Sent): Why {
    if s.xmit == 0 then First
    else if S32(k.current - s.resendts) >= 0 then Timeout
    else if s.fastack >= Resent(k) && (S32(s.xmit) <= k.fastlimit || k.fastlimit <= 0) then Fast
    else Quiet
  }

  function BackoffRto(k: Kcp, rto: u32): u32 {
    if k.nodelay == 0 then U32(rto + Max(rto, k.est.rto))
    else U32(rto + (if k.nodelay < 2 then HalfSigned(rto) else k.est.rto / 2))
  }

  /** (IINT32)rto / 2, which truncates towards zero. */
  function HalfSigned(rto: u32): int {
    if S32(rto) >= 0 then S32(rto) / 2 else -(-S32(rto) / 2)
  }

  /** snd_buf's entry after one visit of the flush loop. */
  function Visit(k: Kcp, s: Sent): Sent {
    var seg := s.seg.(ts := k.current, wnd := WndUnused(k.rcv) % 0x1_0000, una := k.rcv.nxt);
    match Reason(k, s)
    case First =>
      var rtomin := if k.nodelay == 0 then k.est.rto / 8 else 0;
      s.(seg := seg, xmit := 1, rto := k.est.rto, resendts := U32(k.current + k.est.rto + rtomin))
    case Timeout =>
      var rto := BackoffRto(k, s.rto);
      s.(seg := seg, xmit := U32(s.xmit + 1), rto := rto, resendts := U32(k.current + rto))
    case Fast =>
      s.(seg := seg, xmit := U32(s.xmit + 1), fastack := 0, resendts := U32(k.current + s.rto))
    case Quiet => s
  }

  function VisitAll(k: Kcp, buf: seq<Sent>): (r: seq<Sent>)
    ensures |r| == |buf|
  {
    if buf == [] then [] else [Visit(k, buf[0])] + VisitAll(k, buf[1..])
  }

  function DataSegs(k: Kcp, buf: seq<Sent>): seq<Seg> {
    if buf == [] then []
    else (if Reason(k, buf[0]).Quiet? then [] else [Visit(k, buf[0]).seg]) + DataSegs(k, buf[1..])
  }

  function CountWhy(k: Kcp, buf: seq<Sent>, why: Why): nat {
    if buf == [] then 0
    else (if Reason(k, buf[0]) == why then 1 else 0) + CountWhy(k, buf[1..], why)
  }

  predicate HitsDeadLink(k: Kcp, buf: seq<Sent>) {
    buf != [] && ((!Reason(k, buf[0]).Quiet? && Visit(k, buf[0]).xmit >= k.deadLink) || HitsDeadLink(k, buf[1..]))
  }

  function WireSize(s: Seg): nat { OVERHEAD + |s.body.data| }

  function TotalSize(segs: seq<Seg>): nat {
    if segs == [] then 0 else WireSize(segs[0]) + TotalSize(segs[1..])
  }

  /** Greedy packing into datagrams: `cur` is what the work buffer holds. */
  function Pack(mtu: nat, cur: seq<Seg>, segs: seq<Seg>): seq<seq<Seg>>
    decreases |segs|
  {
    if segs == [] then (if cur == [] then [] else [cur])
    else if TotalSize(cur) + WireSize(segs[0]) > mtu then
      (if cur == [] then [] else [cur]) + Pack(mtu, [segs[0]], segs[1..])
    else Pack(mtu, cur + [segs[0]], segs[1..])
  }

  /** Threshold, window and byte count after a flush with fast resends or timeouts. */
  function Reduced(k: Kcp, fast: bool, lost: bool, cwnd: u32, inflight: u32): (u32, u32, u32) {
    var thresh := Max(inflight / 2, THRESH_MIN);
    var c1 := if fast then U32(thresh + Resent(k)) else k.cwnd;
    var i1 := if fast then U32(c1 * k.mss) else k.incr;
    var t2 := if lost then Max(cwnd / 2, THRESH_MIN) else if fast then thresh else k.ssthresh;
    var c2 := if lost then 1 else c1;
    var i2 := if lost then U32(k.mss) else i1;
    if c2 < 1 then (t2, 1, U32(k.mss)) else (t2, c2, i2)
  }

  function Congestion(k: Kcp, fast: bool, lost: bool, cwnd: u32, inflight: u32): Kcp {
    var (thresh, c, incr) := Reduced(k, fast, lost, cwnd, inflight);
    k.(ssthresh := thresh, cwnd := c, incr := incr)
  }

  /** snd_queue and snd_buf once the window was filled. */
  function Filled(w: bool, k: Kcp): Sender {
    MoveOut(w, k, k.snd, SendWindow(k))
  }

  /** Every segment one flush sends, in order. */
  function FlushSegs(w: bool, k: Kcp): seq<Seg> {
    AckSegs(k.rcv, k.rcv.acks) + ProbeSegs(ProbeTimer(k)) + DataSegs(k, Filled(w, k).buf)
  }

  /** The control block after the sending loops of ikcp_flush. */
  function Flushed(w: bool, k: Kcp): Kcp {
    var buf := Filled(w, k).buf;
    ProbeTimer(k).(askSend := false, askTell := false,
                   xmit := U32(k.xmit + CountWhy(k, buf, Timeout)),
                   dead := k.dead || HitsDeadLink(k, buf),
                   snd := Filled(w, k).(buf := VisitAll(k, buf)), rcv := k.rcv.(acks := []))
  }

  function Flush(w: bool, k: Kcp): (Kcp, seq<seq<Seg>>) {
    if !k.updated then (k, [])
    else
      var s := Filled(w, k);
      (Congestion(Flushed(w, k), CountWhy(k, s.buf, Fast) > 0, CountWhy(k, s.buf, Timeout) > 0,
                  SendWindow(k), U32(Diff(w, s.nxt, s.una))),
       Pack(k.mtu, [], FlushSegs(w, k)))
  }

  // ---- ikcp_update -----------------------------------------------------------

  /** The clock part of ikcp_update; the flag says whether it flushes. */
  function Tick(k: Kcp, now: u32): (Kcp, bool) {
    var k1 := k.(current := now, updated := true, tsFlush := if k.updated then k.tsFlush else now);
    var slap := S32(now - k1.tsFlush);
    var late := slap >= 10000 || slap < -10000;
    var k2 := if late then k1.(tsFlush := now) else k1;
    if late || slap >= 0 then
      var next := U32(k2.tsFlush + k.interval);
      (k2.(tsFlush := if S32(now - next) >= 0 then U32(now + k.interval) else next), true)
    else (k2, false)
  }

  function Update(w: bool, k: Kcp, now: u32): (Kcp, seq<seq<Seg>>) {
    var (k1, due) := Tick(k, now);
    if due then Flush(w, k1) else (k1, [])
  }
}

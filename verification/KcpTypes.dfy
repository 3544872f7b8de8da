/** Values exchanged and kept by a KCP endpoint (code/kcp/ikcp.h, code/kcp/ikcp.c). */
module KcpTypes {
  import opened Words

  const OVERHEAD := 24
  const CMD_PUSH: u8 := 81
  const CMD_ACK: u8 := 82
  const CMD_WASK: u8 := 83
  const CMD_WINS: u8 := 84
  const RTO_DEF: u32 := 200
  const RTO_MIN: u32 := 100
  const RTO_MAX: u32 := 60000
  const WND_SND: u32 := 32
  const WND_RCV: u32 := 128
  const MTU_DEF := 1400
  const INTERVAL: u32 := 100
  const DEADLINK: u32 := 20
  const THRESH_INIT: u32 := 2
  const THRESH_MIN: u32 := 2
  const PROBE_INIT: u32 := 7000
  const PROBE_LIMIT: u32 := 120000
  const FASTACK_LIMIT := 5

  function Min(a: int, b: int): int { if a <= b then a else b }

  function Max(a: int, b: int): int { if a >= b then a else b }

  /** One fragment of a message: `frg` counts the fragments still to come. */
  datatype Frag = Frag(frg: u8, data: seq<u8>)

  /** A segment as it travels; `conv` is fixed per connection and added on the wire. */
  datatype Seg = Seg(cmd: u8, wnd: u16, ts: u32, sn: int, una: int, body: Frag)

  /** A segment in snd_buf with its retransmission bookkeeping. */
  datatype Sent = Sent(seg: Seg, resendts: u32, rto: u32, fastack: u32, xmit: u32)

  datatype Ack = Ack(sn: int, ts: u32)

  /** Round-trip variance, smoothed round-trip time and timeout. */
  datatype Rtt = Rtt(rttval: int, srtt: int, rto: u32)

  /** The sending half: snd_una, snd_nxt, snd_queue and snd_buf. */
  datatype Sender = Sender(una: int, nxt: int, queue: seq<Frag>, buf: seq<Sent>)

  /** The receiving half: rcv_nxt, rcv_wnd, rcv_queue, rcv_buf and acklist. */
  datatype Receiver = Receiver(nxt: int, wnd: u32, queue: seq<Frag>, buf: seq<Seg>, acks: seq<Ack>)

  /** The control block. The counters nsnd_que, nrcv_buf, ... are the queue lengths;
      the bits of `probe` are askSend and askTell. */
  datatype Kcp = Kcp(
    conv: u32, mtu: nat, mss: nat, dead: bool,
    snd: Sender, rcv: Receiver,
    est: Rtt, rxMinrto: u32,
    sndWnd: u32, rmtWnd: u32, cwnd: u32, incr: u32, ssthresh: u32,
    askSend: bool, askTell: bool,
    current: u32, interval: u32, tsFlush: u32, xmit: u32,
    nodelay: nat, updated: bool, tsProbe: u32, probeWait: u32, deadLink: u32,
    fastresend: nat, fastlimit: int, nocwnd: bool)
}

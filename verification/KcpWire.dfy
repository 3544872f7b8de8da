/** The byte form of segments and their packing into datagrams. */
module KcpWire {
  import opened Words
  import opened KcpTypes
  import opened KcpSpec

  // ---- little-endian integers ------------------------------------------------

  function Encode16(x: u16): (b: seq<u8>)
    ensures |b| == 2
  { [x % 256, x / 256] }

  function Decode16(b: seq<u8>): u16
    requires |b| >= 2
  { b[0] as int + 256 * (b[1] as int) }

  function Encode32(x: u32): (b: seq<u8>)
    ensures |b| == 4
  { [x % 256, x / 256 % 256, x / 65536 % 256, x / 16777216] }

  function Decode32(b: seq<u8>): u32
    requires |b| >= 4
  { b[0] as int + 256 * (b[1] as int) + 65536 * (b[2] as int) + 16777216 * (b[3] as int) }

  lemma RoundTrip16(x: u16)
    ensures Decode16(Encode16(x)) == x
  {}

  lemma RoundTrip32(x: u32)
    ensures Decode32(Encode32(x)) == x
  {
    var q := x / 256;
    var r := q / 256;
    assert x / 65536 == r && x / 16777216 == r / 256;
    assert x == 256 * q + x % 256 && q == 256 * r + q % 256 && r == 256 * (r / 256) + r % 256;
  }

  // ---- segments ----------------------------------------------------------------

  /** The header fields as the 32-bit counters of the wire hold them. */
  function Narrow(s: Seg): Seg { s.(sn := U32(s.sn), una := U32(s.una)) }

  function NarrowAll(segs: seq<Seg>): (r: seq<Seg>)
    ensures |r| == |segs|
  {
    if segs == [] then [] else [Narrow(segs[0])] + NarrowAll(segs[1..])
  }

  /** ikcp_encode_seg followed by the payload. */
  function EncodeHeader(conv: u32, s: Seg): (b: seq<u8>)
    requires |s.body.data| < MOD
    ensures |b| == OVERHEAD
  {
    Encode32(conv) + [s.cmd, s.body.frg] + Encode16(s.wnd) + Encode32(s.ts)
    + Encode32(U32(s.sn)) + Encode32(U32(s.una)) + Encode32(|s.body.data|)
  }

  predicate KnownCmd(cmd: u8) {
    cmd == CMD_PUSH || cmd == CMD_ACK || cmd == CMD_WASK || cmd == CMD_WINS
  }

  /** What a sender may put on the wire. */
  predicate Encodable(s: Seg) { KnownCmd(s.cmd) && |s.body.data| < HALF }

  function EncodeSeg(conv: u32, s: Seg): (b: seq<u8>)
    requires Encodable(s)
    ensures |b| == WireSize(s)
  {
    EncodeHeader(conv, s) + s.body.data
  }

  predicate AllEncodable(segs: seq<Seg>) {
    forall i :: 0 <= i < |segs| ==> Encodable(segs[i])
  }

  function EncodeAll(conv: u32, segs: seq<Seg>): (b: seq<u8>)
    requires AllEncodable(segs)
    ensures |b| == TotalSize(segs)
  {
    if segs == [] then [] else EncodeSeg(conv, segs[0]) + EncodeAll(conv, segs[1..])
  }

  /** One turn of the decoding loop of ikcp_input. */
  datatype Turn = Stop(code: int) | Item(seg: Seg, size: nat)

  function DecodeSeg(conv: u32, b: seq<u8>): (t: Turn)
    ensures t.Item? ==> OVERHEAD <= t.size <= |b| && Encodable(t.seg) && t.size == WireSize(t.seg)
  {
    if |b| < OVERHEAD then Stop(0)
    else if Decode32(b) != conv then Stop(-1)
    else
      var len := Decode32(b[20..]);
      if |b| - OVERHEAD < len || S32(len) < 0 then Stop(-2)
      else if !KnownCmd(b[4]) then Stop(-3)
      else Item(Seg(b[4], Decode16(b[6..]), Decode32(b[8..]), Decode32(b[12..]), Decode32(b[16..]),
                    Frag(b[5], b[OVERHEAD..OVERHEAD + len])), OVERHEAD + len)
  }

  /** The segments ikcp_input processes and the code it ends with. */
  function Decode(conv: u32, b: seq<u8>): (seq<Seg>, int)
    decreases |b|
  {
    match DecodeSeg(conv, b)
    case Stop(code) => ([], code)
    case Item(seg, size) =>
      var (rest, code) := Decode(conv, b[size..]);
      ([seg] + rest, code)
  }

  lemma DecodeEncodeSeg(conv: u32, s: Seg, rest: seq<u8>)
    requires Encodable(s)
    ensures DecodeSeg(conv, EncodeSeg(conv, s) + rest) == Item(Narrow(s), WireSize(s))
  {
    var b := EncodeSeg(conv, s) + rest;
    var len := |s.body.data|;
    assert b[..4] == Encode32(conv) && b[4] == s.cmd && b[5] == s.body.frg;
    assert b[6..8] == Encode16(s.wnd) && b[8..12] == Encode32(s.ts) && b[12..16] == Encode32(U32(s.sn));
    assert b[16..20] == Encode32(U32(s.una)) && b[20..24] == Encode32(len);
    Prefix32(b, conv); Prefix32(b[8..], s.ts); Prefix32(b[12..], U32(s.sn));
    Prefix32(b[16..], U32(s.una)); Prefix32(b[20..], len);
    RoundTrip16(s.wnd);
    assert Decode16(b[6..]) == Decode16(b[6..8]);
    assert b[OVERHEAD..OVERHEAD + len] == s.body.data;
  }

  lemma Prefix32(b: seq<u8>, x: u32)
    requires |b| >= 4 && b[..4] == Encode32(x)
    ensures Decode32(b) == x
  {
    RoundTrip32(x);
    assert Decode32(b) == Decode32(b[..4]);
  }

  /** ikcp_input recovers exactly the segments of an encoded datagram. */
  lemma {:induction false} DecodeEncode(conv: u32, segs: seq<Seg>)
    requires AllEncodable(segs)
    ensures Decode(conv, EncodeAll(conv, segs)) == (NarrowAll(segs), 0)
    decreases |segs|
  {
    hide DecodeSeg, EncodeSeg;
    if segs == [] {
      assert DecodeSeg(conv, []) == Stop(0) by { DecodeNothing(conv); }
    } else {
      var rest := EncodeAll(conv, segs[1..]);
      DecodeEncodeSeg(conv, segs[0], rest);
      DecodeEncode(conv, segs[1..]);
      assert EncodeAll(conv, segs)[WireSize(segs[0])..] == rest;
    }
  }

  lemma DecodeNothing(conv: u32)
    ensures DecodeSeg(conv, []) == Stop(0)
  {}

  // ---- datagrams ----------------------------------------------------------------

  function Concat(ds: seq<seq<Seg>>): seq<Seg> {
    if ds == [] then [] else ds[0] + Concat(ds[1..])
  }

  lemma {:induction false} TotalSizeAppend(a: seq<Seg>, b: seq<Seg>)
    ensures TotalSize(a + b) == TotalSize(a) + TotalSize(b)
    decreases |a|
  {
    if a == [] {
      assert a + b == b;
    } else {
      assert (a + b)[1..] == a[1..] + b;
      TotalSizeAppend(a[1..], b);
    }
  }

  /** Packing only regroups. */
  lemma {:induction false} PackConcat(mtu: nat, cur: seq<Seg>, segs: seq<Seg>)
    ensures Concat(Pack(mtu, cur, segs)) == cur + segs
    decreases |segs|
  {
    hide TotalSize, WireSize;
    if segs == [] {
      assert Concat([cur]) == cur + Concat([]);
    } else {
      var rest := Pack(mtu, [segs[0]], segs[1..]);
      PackConcat(mtu, [segs[0]], segs[1..]);
      PackConcat(mtu, cur + [segs[0]], segs[1..]);
      assert [segs[0]] + segs[1..] == segs;
      assert cur + [segs[0]] + segs[1..] == cur + segs;
      assert Concat([cur] + rest) == cur + segs by { assert ([cur] + rest)[1..] == rest; }
      assert [] + rest == rest;
    }
  }

  /** Datagrams hold whole segments, are never empty, fit the mtu, and together are
      the segment sequence, provided that every single segment fits. */
  lemma {:induction false} PackOk(mtu: nat, cur: seq<Seg>, segs: seq<Seg>)
    requires TotalSize(cur) <= mtu && forall i :: 0 <= i < |segs| ==> WireSize(segs[i]) <= mtu
    ensures var ds := Pack(mtu, cur, segs);
      Concat(ds) == cur + segs && forall i :: 0 <= i < |ds| ==> ds[i] != [] && TotalSize(ds[i]) <= mtu
    decreases |segs|
  {
    PackConcat(mtu, cur, segs);
    hide WireSize, Concat;
    if segs == [] {
    } else if TotalSize(cur) + WireSize(segs[0]) > mtu {
      assert TotalSize([segs[0]]) == WireSize(segs[0]) + TotalSize([]);
      PackOk(mtu, [segs[0]], segs[1..]);
    } else {
      TotalSizeAppend(cur, [segs[0]]);
      assert TotalSize([segs[0]]) == WireSize(segs[0]) + TotalSize([]);
      PackOk(mtu, cur + [segs[0]], segs[1..]);
    }
  }
}

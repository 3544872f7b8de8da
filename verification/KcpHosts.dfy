/** The control blocks of code/kcp/ikcp.c put together: two applications that use the calls of a
    control block each, and a network that keeps every datagram. What the objects do is a run of
    KcpRefinement, so its results hold of them. */
module KcpHosts {
  import opened Words
  import opened KcpTypes
  import opened KcpSpec
  import opened KcpDelivery
  import opened KcpDirection
  import opened KcpMessages
  import opened KcpNetwork
  import opened KcpWire
  import opened KcpWrap
  import opened KcpBlock
  import opened KcpRefinement

  // ---- what the calls leave alone -----------------------------------------------------------

  lemma ReceiverOf(b: Ikcp)
    ensures b.Value().rcv == b.ReceiverValue()
  {}

  lemma ConvOf(b: Ikcp)
    ensures b.Value().conv == b.conv && b.Value().mss == b.mss && (b.Valid() ==> b.mss > 0)
  {}

  /** The settings of a control block, which no call changes. */
  ghost function Settings(b: Ikcp): (u32, nat, nat, u32, u32, u32, nat, u32, nat, int, bool)
    reads b
  {
    (b.conv, b.mtu, b.mss, b.rxMinrto, b.sndWnd, b.interval, b.nodelay, b.deadLink, b.fastresend, b.fastlimit, b.nocwnd)
  }

  twostate lemma Refreshed(new b: Ikcp, new now: u32)
    requires old(allocated(b)) && b.AgreesOut(KcpSpec.Update(true, old(b.Value()), now).0) && Settings(b) == old(Settings(b))
    requires b.RttValue() == old(b.RttValue()) && b.rmtWnd == old(b.rmtWnd)
    requires var k1 := Tick(old(b.Value()), now).0; b.current == k1.current && b.updated == k1.updated && b.tsFlush == k1.tsFlush
    ensures b.Value() == KcpSpec.Update(true, old(b.Value()), now).0
  {
    hide KcpSpec.Update, Tick;
    UpdateKeeps(true, old(b.Value()), now);
  }

  twostate lemma TakenIn(new b: Ikcp, new data: seq<u8>)
    requires old(allocated(b)) && Settings(b) == old(Settings(b))
    requires b.askSend == old(b.askSend) && b.tsFlush == old(b.tsFlush) && b.xmit == old(b.xmit) && b.updated == old(b.updated)
    requires b.dead == old(b.dead) && b.tsProbe == old(b.tsProbe) && b.probeWait == old(b.probeWait)
    requires |data| < OVERHEAD ==> b.AgreesIn(old(b.Value()))
    requires |data| >= OVERHEAD ==>
      var (segs, c) := Decode(b.conv, data); b.AgreesIn(KcpSpec.Input(true, old(b.Value()), segs, c))
    ensures b.Value() == InputBytes(old(b.Value()), data).0
  {
    hide KcpSpec.Input, Decode;
    var k := old(b.Value());
    InputKeeps(true, k, Decode(k.conv, data).0, Decode(k.conv, data).1);
  }

  twostate lemma ReadOff(new b: Ikcp, new t: Taken)
    requires old(allocated(b)) && Settings(b) == old(Settings(b)) && b.SenderValue() == old(b.SenderValue()) && b.RttValue() == old(b.RttValue())
    requires b.ReceiverValue() == t.r && b.askTell == (old(b.askTell) || t.recovered) && b.askSend == old(b.askSend)
    requires b.rmtWnd == old(b.rmtWnd) && b.cwnd == old(b.cwnd) && b.incr == old(b.incr) && b.ssthresh == old(b.ssthresh)
    requires b.current == old(b.current) && b.tsFlush == old(b.tsFlush) && b.xmit == old(b.xmit) && b.updated == old(b.updated)
    requires b.dead == old(b.dead) && b.tsProbe == old(b.tsProbe) && b.probeWait == old(b.probeWait)
    ensures b.Value() == old(b.Value()).(rcv := t.r, askTell := old(b.Value()).askTell || t.recovered)
  {}

  /** All datagrams given to the network. */
  ghost function AllSent(sent: seq<seq<u8>>): set<seq<u8>> { set b | b in sent }

  lemma SentMore(conv: u32, sent: seq<seq<u8>>, ds: seq<seq<Seg>>)
    requires forall i :: 0 <= i < |ds| ==> AllEncodable(ds[i])
    ensures AllSent(sent + EncodeList(conv, ds)) == AllSent(sent) + EncodeOut(conv, ds)
  {
    hide EncodeAll, AllEncodable;
    var more := EncodeList(conv, ds);
    forall b | b in AllSent(sent + more) ensures b in AllSent(sent) + EncodeOut(conv, ds) {
      if b !in sent {
        var i :| 0 <= i < |more| && more[i] == b;
        assert b == EncodeAll(conv, ds[i]);
      }
    }
    forall b | b in EncodeOut(conv, ds) ensures b in AllSent(sent + more) {
      var i :| 0 <= i < |ds| && AllEncodable(ds[i]) && EncodeAll(conv, ds[i]) == b;
      assert more[i] == b;
    }
  }

  // ---- an application with its control block ------------------------------------------------

  class Host {
    const block: Ikcp
    /** What ikcp_send accepted and what ikcp_recv returned, oldest first. */
    var accepted: seq<seq<u8>>
    var received: seq<seq<u8>>

    ghost function Repr(): set<object>
      reads this, block
    {
      {this, block, block.acklist, block.buffer}
    }

    ghost predicate Valid()
      reads this, block, block.acklist
    {
      block.Valid()
    }

    ghost function State(): Peer32
      reads this, block
    {
      Peer32(block.Value(), accepted, received, AllSent(block.sent))
    }

    constructor (conv: u32)
      ensures Valid() && fresh(Repr()) && State() == Peer32(Created(conv), [], [], {})
    {
      block := new Ikcp(conv);
      accepted, received := [], [];
    }

    /** ikcp_send. */
    method Submit(msg: seq<u8>)
      requires Valid()
      modifies Repr()
      ensures Valid() && fresh(Repr() - old(Repr())) && old(State()).k.mss > 0 && State() == Act32(old(State()), Accept32(msg))
      ensures block.sent == old(block.sent)
    {
      hide Fragment, FragCount, AllSent;
      var code := block.Send(msg);
      if code == 0 {
        accepted := accepted + [msg];
      }
    }

    /** ikcp_recv. */
    method Fetch(len: int)
      requires Valid()
      modifies Repr()
      ensures Valid() && fresh(Repr() - old(Repr())) && old(State()).k.mss > 0 && State() == Act32(old(State()), Take32(len))
      ensures block.sent == old(block.sent)
    {
      hide TakeMessage, AllSent, Ikcp.Value, KcpSpec.Recv;
      ConvOf(block);
      var code, data := Receive(len);
      if code >= 0 && len >= 0 {
        received := received + [data];
      }
    }

    method Receive(len: int) returns (code: int, data: seq<u8>)
      requires Valid()
      modifies block
      ensures Valid() && KcpSpec.Recv(true, old(block.Value()), len) == Received(block.Value(), code, data)
      ensures block.sent == old(block.sent) && block.buffer == old(block.buffer) && block.acklist == old(block.acklist)
    {
      hide TakeMessage, Ikcp.Valid, Ikcp.Value;
      ghost var t := TakeMessage(true, block.ReceiverValue(), len);
      ReceiverOf(block);
      label before:
      code, data := block.Recv(len);
      ReadOff@before(block, t);
    }

    /** ikcp_update. */
    method Clock(now: u32)
      requires Valid()
      modifies Repr()
      ensures Valid() && fresh(Repr() - old(Repr())) && old(State()).k.mss > 0 && State() == Act32(old(State()), Clock32(now))
      ensures old(block.sent) <= block.sent
    {
      hide KcpSpec.Update, AllSent, Ikcp.Value;
      ConvOf(block);
      Refresh(now);
      SentMore(block.conv, old(block.sent), block.done);
    }

    method Refresh(now: u32)
      requires Valid()
      modifies block, block.buffer
      ensures Valid() && KcpSpec.Update(true, old(block.Value()), now) == (block.Value(), block.done)
      ensures (forall i :: 0 <= i < |block.done| ==> AllEncodable(block.done[i])) && block.sent == old(block.sent) + EncodeList(block.conv, block.done)
      ensures block.buffer == old(block.buffer) && block.acklist == old(block.acklist) && block.conv == old(block.conv)
    {
      hide KcpSpec.Update, Tick, Ikcp.Valid, EncodeList, AllEncodable, Ikcp.Value, Ikcp.AgreesOut;
      label before:
      block.Update(now);
      Refreshed@before(block, now);
    }

    /** ikcp_input. */
    method Deliver(b: seq<u8>)
      requires Valid()
      modifies Repr()
      ensures Valid() && fresh(Repr() - old(Repr())) && old(State()).k.mss > 0 && State() == Act32(old(State()), Deliver32(b))
      ensures block.sent == old(block.sent)
    {
      hide InputBytes, AllSent, Ikcp.Value;
      ConvOf(block);
      Take(b);
    }

    method Take(b: seq<u8>)
      requires Valid()
      modifies block, block.acklist
      ensures Valid() && block.Value() == InputBytes(old(block.Value()), b).0
      ensures block.sent == old(block.sent) && block.buffer == old(block.buffer) && (block.acklist == old(block.acklist) || fresh(block.acklist))
    {
      hide KcpSpec.Input, Decode, Ikcp.Valid, Ikcp.Value, Ikcp.AgreesIn, InputBytes;
      label before:
      var code := block.Input(b);
      TakenIn@before(block, b);
    }
  }

  // ---- two applications and a network ---------------------------------------------------------

  /** A call by one of the two applications; `Pass` gives it the datagram number `j` of the other
      one, at any time and any number of times. */
  datatype Call =
    | Submit(byA: bool, msg: seq<u8>)
    | Fetch(byA: bool, len: int)
    | Clock(byA: bool, now: u32)
    | Pass(byA: bool, j: nat)

  /** The event of a call when the other application has sent `sent`. */
  function EventOf(call: Call, sent: seq<seq<u8>>): Event32
    requires call.Pass? ==> call.j < |sent|
  {
    match call
    case Submit(_, msg) => Accept32(msg)
    case Fetch(_, len) => Take32(len)
    case Clock(_, now) => Clock32(now)
    case Pass(_, j) => Deliver32(sent[j])
  }

  /** A call by `p`; a datagram that does not exist is not delivered. */
  method Turn(p: Host, other: Host, call: Call)
    requires p.Valid() && other.Valid() && p.Repr() !! other.Repr()
    modifies p.Repr()
    ensures p.Valid() && other.Valid() && fresh(p.Repr() - old(p.Repr())) && other.Repr() == old(other.Repr()) && other.State() == old(other.State())
    ensures call.Pass? && call.j >= |old(other.block.sent)| ==> p.State() == old(p.State())
    ensures !(call.Pass? && call.j >= |old(other.block.sent)|) ==>
      old(p.State()).k.mss > 0 && p.State() == Act32(old(p.State()), EventOf(call, old(other.block.sent)))
  {
    hide Act32, Host.Valid, Host.State;
    match call {
      case Submit(_, msg) => p.Submit(msg);
      case Fetch(_, len) => p.Fetch(len);
      case Clock(_, now) => p.Clock(now);
      case Pass(_, j) =>
        if j < |other.block.sent| {
          p.Deliver(other.block.sent[j]);
        }
    }
  }

  ghost function Self(n: Net, byA: bool): Peer { if byA then n.a else n.b }

  /** An event of the network that happens on the bytes too, if its datagram was sent. */
  ghost predicate Names(n: Net, m: Move, byA: bool, e: Event32) {
    m.byA == byA && NarrowEvent(Self(n, byA), m.e) == e && Enabled(Self(n, byA), Self(n, !byA), m.e)
  }

  /** Some copy in the network is the datagram that is delivered. */
  lemma NameOf(n: Net, byA: bool, e: Event32) returns (m: Move)
    requires NetOk(n) && (e.Deliver32? ==> e.datagram in NarrowPeer(Self(n, !byA)).out)
    ensures Names(n, m, byA, e)
  {
    hide Channel, Paced, OutFits;
    match e
    case Accept32(msg) => m := Move(byA, Accept(msg));
    case Take32(len) => m := Move(byA, KcpNetwork.Take(len));
    case Clock32(now) => m := Move(byA, KcpNetwork.Clock(now));
    case Deliver32(b) =>
      var other := Self(n, !byA);
      var d :| d in other.out && AllEncodable(d) && EncodeAll(other.k.conv, d) == b;
      m := Move(byA, Deliver(d));
  }

  /** The events of a run so far, and one more. */
  lemma RunMore(cs: seq<Net32>, ns: seq<Net>, ms: seq<Move>, m: Move)
    requires Run32(cs, ns, ms) && Timely(ns[|ms|], m)
    ensures ns[|ms|].a.k.mss > 0 && ns[|ms|].b.k.mss > 0 && cs[|ms|].a.k.mss > 0 && cs[|ms|].b.k.mss > 0
    ensures Run32(cs + [MoveNet32(cs[|ms|], ns[|ms|], m)], ns + [MoveNet(ns[|ms|], m)], ms + [m])
  {
    hide Act, Act32, NarrowEvent, PeerOk, Timely, Limits, Fresh, MoveNet, MoveNet32, NarrowNet, NetOk;
    RunNarrow(cs, ns, ms);
    Positive(ns[|ms|]);
    var cs', ns', ms' := cs + [MoveNet32(cs[|ms|], ns[|ms|], m)], ns + [MoveNet(ns[|ms|], m)], ms + [m];
    forall i | 0 <= i < |ms'| ensures Timely(ns'[i], ms'[i]) { if i < |ms| { assert Timely(ns[i], ms[i]); } }
  }

  lemma Positive(n: Net)
    requires NetOk(n)
    ensures n.a.k.mss > 0 && n.b.k.mss > 0 && NarrowNet(n).a.k.mss > 0 && NarrowNet(n).b.k.mss > 0
  {}

  ghost function NewPeer(conv: u32): Peer { Peer(Created(conv), [], [], {}) }

  lemma AtFirst(conv: u32)
    ensures NarrowPeer(NewPeer(conv)) == Peer32(Created(conv), [], [], {})
    ensures Run32([NarrowNet(Net(NewPeer(conv), NewPeer(conv)))], [Net(NewPeer(conv), NewPeer(conv))], [])
  {}

  /** Some datagram of the network is half the number space behind. */
  ghost predicate HasLate(n: Net) {
    exists m: Move :: Enabled(Self(n, m.byA), Self(n, !m.byA), m.e) && !Timely(n, m)
  }

  /** What is known of the objects: they are the last state of a run, unless a datagram half the
      number space behind was delivered. */
  ghost predicate Tracks(a: Host, b: Host, late: bool, cs: seq<Net32>, ns: seq<Net>, ms: seq<Move>)
    reads a, a.block, b, b.block
  {
    && Run32(cs, ns, ms)
    && if late then HasLate(ns[|ms|]) else cs[|ms|] == Net32(a.State(), b.State())
  }

  twostate lemma Follow(new a: Host, new b: Host, new late: bool, new cs: seq<Net32>, new ns: seq<Net>, new ms: seq<Move>, new byA: bool, new e: Event32)
    returns (late': bool, cs': seq<Net32>, ns': seq<Net>, ms': seq<Move>)
    requires old(allocated(a)) && old(allocated(b)) && old(allocated(a.block)) && old(allocated(b.block)) && old(Tracks(a, b, late, cs, ns, ms))
    requires e.Deliver32? ==> e.datagram in old(if byA then b.block.sent else a.block.sent)
    requires old((if byA then a else b).State()).k.mss > 0
    requires (if byA then a else b).State() == Act32(old((if byA then a else b).State()), e)
    requires (if byA then b else a).State() == old((if byA then b else a).State())
    ensures Tracks(a, b, late', cs', ns', ms') && |ns| > 0 && |ns'| > 0 && ns'[0] == ns[0] && |ms'| <= |ms| + 1
  {
    hide Run32, Act32, NarrowPeer, NetOk, Timely, NarrowEvent;
    LastStates(cs, ns, ms);
    late', cs', ns', ms' := late, cs, ns, ms;
    if !late {
      RunNarrow(cs, ns, ms);
      var n := ns[|ms|];
      var m := NameOf(n, byA, e);
      if Timely(n, m) {
        RunMore(cs, ns, ms, m);
        cs', ns', ms' := cs + [MoveNet32(cs[|ms|], n, m)], ns + [MoveNet(n, m)], ms + [m];
      } else {
        late' := true;
      }
    }
  }

  lemma LastStates(cs: seq<Net32>, ns: seq<Net>, ms: seq<Move>)
    requires Run32(cs, ns, ms)
    ensures |cs| == |ns| == |ms| + 1
  {}

  // ---- how long nothing can be late ---------------------------------------------------------------

  /** A message is at most WND_RCV fragments. */
  lemma {:induction false} FragAllShort(mss: nat, msgs: seq<seq<u8>>)
    requires Sendable(mss, msgs)
    ensures |FragAll(mss, msgs)| <= WND_RCV * |msgs|
    decreases |msgs|
  {
    hide Fragment;
    if msgs != [] {
      var last := msgs[|msgs| - 1];
      FragAllShort(mss, msgs[..|msgs| - 1]);
      FragmentNumbers(mss, last, FragCount(mss, |last|));
    }
  }

  /** A run accepts at most one message for each of its events, and keeps the windows. */
  lemma {:induction false} RunBounds(cs: seq<Net32>, ns: seq<Net>, ms: seq<Move>)
    requires Run32(cs, ns, ms)
    ensures var n := ns[|ms|];
      |n.a.accepted| + |n.b.accepted| <= |ms| && n.a.k.rcv.wnd == ns[0].a.k.rcv.wnd && n.b.k.rcv.wnd == ns[0].b.k.rcv.wnd
    decreases |ms|
  {
    hide Act, Act32, NarrowPeer, PeerOk, Recent, NarrowEvent;
    if ms != [] {
      var i := |ms| - 1;
      RunNarrow(cs, ns, ms);
      RunNarrow(cs[..i + 1], ns[..i + 1], ms[..i]);
      RunBounds(cs[..i + 1], ns[..i + 1], ms[..i]);
      var n, m := ns[i], ms[i];
      assert Timely(n, m);
      if m.byA { OneBound(n.a, n.b, m.e); } else { OneBound(n.b, n.a, m.e); }
    }
  }

  lemma OneBound(p: Peer, other: Peer, e: Event)
    requires PeerOk(p, other) && PeerOk(other, p) && Enabled(p, other, e) && p.k.mss > 0
    requires PeerOk(Act(p, e), other) && PeerOk(other, Act(p, e))
    ensures Act(p, e).k.rcv.wnd == p.k.rcv.wnd && |Act(p, e).accepted| <= |p.accepted| + 1
  {
    WindowKept(p, e, other);
    hide Channel, OutFits, Send, Recv, Update, Input;
  }

  /** As long as the counters stay below half the number space, no datagram is late. */
  lemma NoneLate(n: Net)
    requires NetOk(n) && n.a.k.snd.nxt + n.b.k.rcv.wnd <= HALF && n.b.k.snd.nxt + n.a.k.rcv.wnd <= HALF
    ensures !HasLate(n)
  {
    forall m: Move | Enabled(Self(n, m.byA), Self(n, !m.byA), m.e) ensures Timely(n, m) {
      RecentOk(Self(n, m.byA), Self(n, !m.byA), m.e);
    }
  }

  lemma RecentOk(p: Peer, other: Peer, e: Event)
    requires PeerOk(p, other) && PeerOk(other, p) && Enabled(p, other, e)
    requires p.k.snd.nxt <= HALF && other.k.snd.nxt + p.k.rcv.wnd <= HALF
    ensures Recent(p, other, e)
  {
    hide FragAll, NoLoss;
    if e.Deliver? {
      OutAt(other, LogOf(other), e.segs);
      forall i | 0 <= i < |e.segs| && e.segs[i].cmd == CMD_ACK ensures e.segs[i].sn >= 0 {
        GotWasSent(other.k.rcv, LogOf(p)[..p.k.snd.nxt], Start(p.k.mss, p.accepted, |other.received|), e.segs[i].sn);
      }
    }
  }

  lemma FewAreTimely(cs: seq<Net32>, ns: seq<Net>, ms: seq<Move>)
    requires Run32(cs, ns, ms) && WND_RCV * |ms| + ns[0].a.k.rcv.wnd + ns[0].b.k.rcv.wnd <= HALF
    ensures !HasLate(ns[|ms|])
  {
    RunNarrow(cs, ns, ms);
    RunBounds(cs, ns, ms);
    var n := ns[|ms|];
    SentBound(n.a, n.b);
    SentBound(n.b, n.a);
    hide HasLate, NetOk, Run32;
    NoneLate(n);
  }

  lemma SentBound(p: Peer, other: Peer)
    requires PeerOk(p, other)
    ensures p.k.snd.nxt <= WND_RCV * |p.accepted|
  {
    FragAllShort(p.k.mss, p.accepted);
    SenderBounds(p.k.snd, LogOf(p));
  }

  // ---- the objects ---------------------------------------------------------------------------------

  /** One call, and the event it is. */
  method Exchange(a: Host, b: Host, call: Call, ghost late: bool, ghost cs: seq<Net32>, ghost ns: seq<Net>, ghost ms: seq<Move>)
    returns (ghost late': bool, ghost cs': seq<Net32>, ghost ns': seq<Net>, ghost ms': seq<Move>)
    requires a.Valid() && b.Valid() && a.Repr() !! b.Repr() && Tracks(a, b, late, cs, ns, ms)
    modifies a.Repr(), b.Repr()
    ensures a.Valid() && b.Valid() && a.Repr() !! b.Repr() && Tracks(a, b, late', cs', ns', ms')
    ensures fresh(a.Repr() - old(a.Repr())) && fresh(b.Repr() - old(b.Repr()))
    ensures |ns| > 0 && |ns'| > 0 && ns'[0] == ns[0] && |ms'| <= |ms| + 1
  {
    hide Run32, Host.Valid, Host.State, HasLate, Act32;
    ghost var sent := if call.byA then b.block.sent else a.block.sent;
    if call.byA { Turn(a, b, call); } else { Turn(b, a, call); }
    if call.Pass? && call.j >= |sent| {
      LastStates(cs, ns, ms);
      late', cs', ns', ms' := late, cs, ns, ms;
    } else {
      late', cs', ns', ms' := Follow(a, b, late, cs, ns, ms, call.byA, EventOf(call, sent));
    }
  }

  /** Two new control blocks. */
  method Meet(conv: u32) returns (a: Host, b: Host, ghost n: Net)
    ensures a.Valid() && b.Valid() && fresh(a.Repr()) && fresh(b.Repr()) && a.Repr() !! b.Repr()
    ensures Tracks(a, b, false, [NarrowNet(n)], [n], []) && n.a.k.rcv.wnd == n.b.k.rcv.wnd == WND_RCV
  {
    hide Run32, Host.Valid, Host.State, HasLate, NarrowPeer;
    AtFirst(conv);
    a := new Host(conv);
    b := new Host(conv);
    n := Net(NewPeer(conv), NewPeer(conv));
  }

  lemma PrefixesHeld(a: Host, b: Host, cs: seq<Net32>, ns: seq<Net>, ms: seq<Move>)
    requires Tracks(a, b, false, cs, ns, ms)
    ensures b.received <= a.accepted && a.received <= b.accepted
  {
    BytesInOrderOnce(cs, ns, ms);
    hide Run32;
  }

  lemma Early(a: Host, b: Host, late: bool, cs: seq<Net32>, ns: seq<Net>, ms: seq<Move>)
    requires Tracks(a, b, late, cs, ns, ms) && |ns| > 0 && ns[0].a.k.rcv.wnd == ns[0].b.k.rcv.wnd == WND_RCV && WND_RCV * (|ms| + 2) <= HALF
    ensures !late
  {
    FewAreTimely(cs, ns, ms);
    hide Run32, HasLate;
  }

  /** Two control blocks made by ikcp_create, any sequence of calls, and a network that may deliver
      any datagram it was ever given: each application received a prefix of what the other one got
      accepted, unless a datagram half the number space behind was in the network, which takes more
      than 16 million calls. */
  method Talk(conv: u32, calls: seq<Call>)
    returns (a: Host, b: Host, ghost late: bool, ghost cs: seq<Net32>, ghost ns: seq<Net>, ghost ms: seq<Move>)
    ensures Tracks(a, b, late, cs, ns, ms)
    ensures !late ==> b.received <= a.accepted && a.received <= b.accepted
    ensures WND_RCV * (|calls| + 2) <= HALF ==> !late
  {
    hide Tracks, Host.Valid;
    ghost var n;
    a, b, n := Meet(conv);
    late, cs, ns, ms := false, [NarrowNet(n)], [n], [];
    var i := 0;
    while i < |calls|
      invariant a.Valid() && b.Valid() && fresh(a.Repr()) && fresh(b.Repr()) && a.Repr() !! b.Repr()
      invariant Tracks(a, b, late, cs, ns, ms) && |ms| <= i <= |calls| && |ns| > 0 && ns[0] == n
    {
      late, cs, ns, ms := Exchange(a, b, calls[i], late, cs, ns, ms);
      i := i + 1;
    }
    if !late { PrefixesHeld(a, b, cs, ns, ms); }
    if WND_RCV * (|calls| + 2) <= HALF { Early(a, b, late, cs, ns, ms); }
  }
}

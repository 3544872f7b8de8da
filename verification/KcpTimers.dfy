/** When things happen: the timers of the entries in snd_buf, the time of the next flush, and
    the windows that hold the sender back. */
module KcpTimers {
  import opened Words
  import opened KcpTypes
  import opened KcpSpec
  import opened KcpDelivery
  import opened KcpNetwork

  // ---- the retransmission timer ---------------------------------------------------------

  /** The new timer of an entry that goes out is ahead of the clock if and only if the wait is
      neither zero nor half the range of the clock. */
  lemma TimerAheadIff(w: bool, k: Kcp, i: nat)
    requires k.updated && i < |Filled(w, k).buf| && Due(k, Filled(w, k).buf[i])
    ensures |Flush(w, k).0.snd.buf| == |Filled(w, k).buf|
    ensures S32(k.current - Flush(w, k).0.snd.buf[i].resendts) < 0 <==> 0 < U32(Wait(k, Filled(w, k).buf[i])) <= HALF
  {
    var j := DueGoesOut(w, k, i);
    Ahead(k.current, Wait(k, Filled(w, k).buf[i]));
    hide *;
  }

  lemma Ahead(now: u32, wait: int)
    ensures S32(now - U32(now + wait)) < 0 <==> 0 < U32(wait) <= HALF
  {
    assert now + wait == (now + wait) / MOD * MOD + U32(now + wait);
    assert wait == wait / MOD * MOD + U32(wait);
    var d := now - U32(now + wait);
    var q := (now + wait) / MOD - wait / MOD;
    assert d == q * MOD - U32(wait);
    assert q == 0 || q == 1;
  }

  /** Timeouts measured by ikcp_update_ack and timers up to 2^30 milliseconds are safe. */
  lemma TimerAhead(w: bool, k: Kcp, i: nat)
    requires k.updated && i < |Filled(w, k).buf| && Due(k, Filled(w, k).buf[i])
    requires 0 < k.est.rto <= RTO_MAX && (Filled(w, k).buf[i].xmit > 0 ==> 0 < Filled(w, k).buf[i].rto <= HALF / 2)
    ensures |Flush(w, k).0.snd.buf| == |Filled(w, k).buf|
    ensures S32(k.current - Flush(w, k).0.snd.buf[i].resendts) < 0
  {
    TimerAheadIff(w, k, i);
    WaitIsShort(k, Filled(w, k).buf[i]);
    hide *;
  }

  lemma WaitIsShort(k: Kcp, s: Sent)
    requires 0 < k.est.rto <= RTO_MAX && (s.xmit > 0 ==> 0 < s.rto <= HALF / 2)
    ensures 0 < U32(Wait(k, s)) <= HALF
  {
    hide S32, Backoff, U32;
    BackoffIsShort(k, s.rto);
    var wait := Wait(k, s);
    assert 0 < wait <= HALF;
    InWord(wait);
  }

  lemma BackoffIsShort(k: Kcp, rto: u32)
    requires 0 < k.est.rto <= RTO_MAX
    ensures 0 < rto <= HALF / 2 ==> 0 < Backoff(k, rto) <= HALF
  {}

  /** In the worst case allowed by the bound on the estimate, sixteen timeouts in a row double
      the wait to 60000 * 2^16 milliseconds: the new timer is behind the clock. */
  lemma TimerBehind(k: Kcp, s: Sent)
    requires k.nodelay == 0 && k.current == 0 && k.est.rto == RTO_MAX
    requires s.xmit == 16 && s.rto == 1966080000 && s.resendts == 0
    ensures Due(k, s) && S32(k.current - U32(k.current + Wait(k, s))) >= 0
  {}

  // ---- the timers of a run ------------------------------------------------------------------

  /** RTO_MAX doubled n times. */
  function Doubled(n: nat): nat { if n == 0 then RTO_MAX else 2 * Doubled(n - 1) }

  /** An entry sent at most sixteen times waits for at most RTO_MAX, doubled after each time. */
  predicate Bounded(s: Sent) { 1 <= s.xmit <= 16 ==> 0 < s.rto <= Doubled(s.xmit - 1) }

  ghost predicate AllBounded(buf: seq<Sent>) { forall i :: 0 <= i < |buf| ==> Bounded(buf[i]) }

  ghost predicate Calm(k: Kcp) { 0 < k.est.rto <= RTO_MAX && k.rxMinrto > 0 && AllBounded(k.snd.buf) }

  lemma {:induction false} DoubledRises(n: nat)
    ensures Doubled(n) >= RTO_MAX && (n <= 14 ==> Doubled(n) <= HALF / 2)
    decreases n
  {
    if n > 0 { DoubledRises(n - 1); }
    assert Doubled(4) == 16 * RTO_MAX && Doubled(8) == 256 * RTO_MAX && Doubled(12) == 4096 * RTO_MAX;
  }

  lemma VisitBounded(k: Kcp, s: Sent)
    requires 0 < k.est.rto <= RTO_MAX && Bounded(s)
    ensures Bounded(Visit(k, s))
  {
    if Due(k, s) {
      VisitDue(k, s);
      NextBounded(k, s);
      hide *;
      SentOnce(k, s, Visit(k, s));
    } else {
      assert Visit(k, s) == s by { hide S32, BackoffRto; }
    }
  }

  lemma SentOnce(k: Kcp, s: Sent, s': Sent)
    requires Bounded(s) && s'.xmit == U32(s.xmit + 1) && s'.rto == NextRto(k, s)
    requires s.xmit == 0 ==> 0 < NextRto(k, s) <= RTO_MAX
    requires s.xmit > 0 && 0 < s.rto <= HALF / 2 ==> 0 < NextRto(k, s) <= s.rto + Max(s.rto, RTO_MAX)
    ensures Bounded(s')
  {
    hide NextRto;
    if 1 <= s.xmit <= 15 {
      DoubledRises(s.xmit - 1);
      assert Doubled(s.xmit) == 2 * Doubled(s.xmit - 1);
    }
  }

  lemma NextBounded(k: Kcp, s: Sent)
    requires 0 < k.est.rto <= RTO_MAX
    ensures s.xmit == 0 ==> NextRto(k, s) == k.est.rto
    ensures s.xmit > 0 && 0 < s.rto <= HALF / 2 ==> 0 < NextRto(k, s) <= s.rto + Max(s.rto, RTO_MAX)
  {
    hide S32;
  }

  lemma {:induction false} VisitAllBounded(k: Kcp, buf: seq<Sent>)
    requires 0 < k.est.rto <= RTO_MAX && AllBounded(buf)
    ensures AllBounded(VisitAll(k, buf))
    decreases |buf|
  {
    hide Bounded, Visit;
    if buf != [] {
      VisitBounded(k, buf[0]);
      VisitAllBounded(k, buf[1..]);
    }
  }

  lemma FlushCalm(k: Kcp)
    requires Calm(k)
    ensures Calm(Flush(false, k).0)
  {
    if k.updated {
      FilledBounded(k);
      VisitAllBounded(k, Filled(false, k).buf);
      FlushKeeps(false, k);
      FlushedAll(k);
      hide Flush, Filled, VisitAll;
    }
  }

  lemma FilledBounded(k: Kcp)
    requires AllBounded(k.snd.buf)
    ensures AllBounded(Filled(false, k).buf)
  {
    hide Filled;
    var n := FilledIs(false, k);
    var buf := Filled(false, k).buf;
    forall i | 0 <= i < |buf| ensures Bounded(buf[i]) {
      if i < |k.snd.buf| {
        assert buf[i] == buf[..|k.snd.buf|][i];
      } else {
        assert Entered(false, k.snd, i - |k.snd.buf|, buf[i]);
      }
    }
  }

  lemma FlushedAll(k: Kcp)
    requires k.updated
    ensures Flush(false, k).0.snd.buf == VisitAll(k, Filled(false, k).buf)
  {
    hide Visit, VisitAll, Pack, FlushSegs, CountWhy, Filled, Reduced, ProbeTimer, HitsDeadLink;
  }

  lemma EstimateBounds(e: Rtt, interval: u32, minrto: u32, rtt: nat)
    requires minrto > 0
    ensures 0 < Estimate(e, interval, minrto, rtt).rto <= RTO_MAX
  {
    hide U32;
  }

  lemma {:induction false} DropBounded(buf: seq<Sent>, una: int)
    requires AllBounded(buf)
    ensures AllBounded(DropBelow(false, buf, una))
    decreases |buf|
  {
    hide Bounded;
    if buf != [] { DropBounded(buf[1..], una); }
  }

  lemma {:induction false} RemoveBounded(buf: seq<Sent>, sn: int)
    requires AllBounded(buf)
    ensures AllBounded(RemoveSn(false, buf, sn))
    decreases |buf|
  {
    hide Bounded;
    if buf != [] { RemoveBounded(buf[1..], sn); }
  }

  lemma {:induction false} SkipsBounded(buf: seq<Sent>, sn: int)
    requires AllBounded(buf)
    ensures AllBounded(CountSkips(false, buf, sn))
    decreases |buf|
  {
    hide Doubled;
    if buf != [] { SkipsBounded(buf[1..], sn); }
  }

  lemma {:induction false} InputSegsCalm(k: Kcp, m: MaxAck, segs: seq<Seg>)
    requires Calm(k)
    ensures Calm(InputSegs(false, k, m, segs).0)
    decreases |segs|
  {
    hide ReceiverInput, Estimate, S32, DropBelow, RemoveSn, AllBounded;
    if segs != [] {
      var s := segs[0];
      var rtt := S32(k.current - s.ts);
      if rtt >= 0 { EstimateBounds(k.est, k.interval, k.rxMinrto, rtt); }
      DropBounded(k.snd.buf, s.una);
      RemoveBounded(DropBelow(false, k.snd.buf, s.una), s.sn);
      InputSegsCalm(InputSeg(false, k, s), Later(false, m, s), segs[1..]);
    }
  }

  lemma InputCalm(k: Kcp, segs: seq<Seg>)
    requires Calm(k)
    ensures Calm(Input(false, k, segs, 0))
  {
    InputSegsCalm(k, NoAck, segs);
    var (k1, m) := InputSegs(false, k, NoAck, segs);
    if m.Highest? { SkipsBounded(k1.snd.buf, m.sn); }
    hide InputSegs, Grown, AllBounded, CountSkips;
  }

  lemma ActCalm(p: Peer, e: Event)
    requires p.k.mss > 0 && Calm(p.k)
    ensures Calm(Act(p, e).k)
  {
    hide AllBounded, Fragment, TakeMessage, Flush, Input, Tick;
    match e
    case Accept(msg) =>
    case Take(len) =>
    case Clock(now) =>
      DueIff(p.k, now);
      FlushCalm(Tick(p.k, now).0);
    case Deliver(segs) => InputCalm(p.k, segs);
  }

  lemma {:induction false} RunCalm(ns: seq<Net>)
    requires Run(ns) && Calm(ns[0].a.k) && Calm(ns[0].b.k)
    ensures Calm(ns[|ns| - 1].a.k) && Calm(ns[|ns| - 1].b.k)
    decreases |ns|
  {
    hide Act, Enabled, Calm;
    if |ns| > 1 {
      RunCalm(ns[..|ns| - 1]);
      var n, n' := ns[|ns| - 2], ns[|ns| - 1];
      assert Step(n, n');
      var e: Event :|
        || (Enabled(n.a, n.b, e) && n' == n.(a := Act(n.a, e)))
        || (Enabled(n.b, n.a, e) && n' == n.(b := Act(n.b, e)));
      ActCalm(n.a, e);
      ActCalm(n.b, e);
    }
  }

  /** Over every run from an estimate of at most a minute: an entry that goes out for the
      sixteenth time at most has its new timer ahead of the clock, so that it waits. */
  lemma TimersAhead(ns: seq<Net>, now: u32, i: nat)
    requires Run(ns) && Calm(ns[0].a.k) && Calm(ns[0].b.k)
    requires var k := ns[|ns| - 1].a.k.(current := now, updated := true);
      i < |Filled(false, k).buf| && Due(k, Filled(false, k).buf[i]) && Filled(false, k).buf[i].xmit <= 15
    ensures var k' := Flush(false, ns[|ns| - 1].a.k.(current := now, updated := true)).0;
      i < |k'.snd.buf| && S32(now - k'.snd.buf[i].resendts) < 0
  {
    RunCalm(ns);
    var k := ns[|ns| - 1].a.k.(current := now, updated := true);
    FilledBounded(k);
    var s := Filled(false, k).buf[i];
    assert Bounded(s);
    if s.xmit > 0 { DoubledRises(s.xmit - 1); }
    hide Flush, Filled, Due;
    TimerAhead(false, k, i);
  }

  // ---- when a flush is due ------------------------------------------------------------------

  /** An update at time `now` has to flush: the first one, one at or after ts_flush, or one
      more than ten seconds away from it. */
  predicate FlushDue(k: Kcp, now: u32) {
    !k.updated || S32(now - k.tsFlush) >= 0 || S32(now - k.tsFlush) < -10000
  }

  /** ikcp_update flushes if and only if a flush is due. The next one is then due at most one
      interval ahead of the clock, and otherwise at most ten seconds ahead. */
  lemma UpdateFlushes(w: bool, k: Kcp, now: u32)
    requires 0 < k.interval < HALF
    ensures var (k', ds) := Update(w, k, now);
      && k'.current == now && k'.updated
      && (FlushDue(k, now) ==>
            && 0 < S32(k'.tsFlush - now) <= k.interval
            && (k', ds) == Flush(w, k.(current := now, updated := true, tsFlush := k'.tsFlush)))
      && (!FlushDue(k, now) ==>
            && 0 < S32(k'.tsFlush - now) <= 10000
            && k' == k.(current := now) && ds == [])
  {
    TickIs(k, now);
    FlushKeeps(w, Tick(k, now).0);
    hide Tick, Flush;
  }

  lemma TickIs(k: Kcp, now: u32)
    requires 0 < k.interval < HALF
    ensures var (k', due) := Tick(k, now);
      && k' == k.(current := now, updated := true, tsFlush := k'.tsFlush) && (due <==> FlushDue(k, now))
      && 0 < S32(k'.tsFlush - now) <= (if due then k.interval else 10000)
      && (!due ==> k'.tsFlush == k.tsFlush)
  {
    TickFields(k, now);
    TickTime(k.updated, k.tsFlush, k.interval, now);
    hide Tick, S32, U32;
  }

  /** ts_flush after the clock part, and whether there is a flush. */
  function NextFlush(updated: bool, tsFlush: u32, interval: u32, now: u32): (u32, bool) {
    var ts := if updated then tsFlush else now;
    var slap := S32(now - ts);
    if slap >= 10000 || slap < -10000 then (U32(now + interval), true)
    else if slap < 0 then (ts, false)
    else if S32(now - U32(ts + interval)) >= 0 then (U32(now + interval), true)
    else (U32(ts + interval), true)
  }

  lemma TickFields(k: Kcp, now: u32)
    requires 0 < k.interval < HALF
    ensures var (k', due) := Tick(k, now);
      && k' == k.(current := now, updated := true, tsFlush := k'.tsFlush)
      && (k'.tsFlush, due) == NextFlush(k.updated, k.tsFlush, k.interval, now)
  {
    Slap(now, now, k.interval);
    hide S32, U32;
  }

  lemma TickTime(updated: bool, tsFlush: u32, interval: u32, now: u32)
    requires 0 < interval < HALF
    ensures var (next, due) := NextFlush(updated, tsFlush, interval, now);
      && (due <==> !updated || S32(now - tsFlush) >= 0 || S32(now - tsFlush) < -10000)
      && 0 < S32(next - now) <= (if due then interval else 10000) && (!due ==> next == tsFlush)
  {
    Slap(now, if updated then tsFlush else now, interval);
    hide S32, U32;
  }

  /** The clock part changes the clock, and tells whether a flush is due. */
  lemma DueIff(k: Kcp, now: u32)
    ensures var (k', due) := Tick(k, now);
      k' == k.(current := now, updated := true, tsFlush := k'.tsFlush) && (due <==> FlushDue(k, now))
  {
    assert S32(now - now) == 0;
    hide S32, U32;
  }

  /** The differences of the clock, the time of a flush and the one after it. */
  lemma Slap(now: u32, ts: u32, interval: u32)
    requires 0 < interval < HALF
    ensures S32(now - now) == 0 && S32(U32(now + interval) - now) == interval
    ensures -10000 <= S32(now - ts) < 0 ==> S32(ts - now) == -S32(now - ts)
    ensures 0 <= S32(now - ts) < 10000 ==>
      var next := U32(ts + interval);
      (S32(now - next) >= 0 <==> S32(now - ts) >= interval) && (S32(now - next) < 0 ==> S32(next - now) == interval - S32(now - ts))
  {
    Later0(now, interval);
    var d := S32(now - ts);
    Turns(now - ts);
    if 0 <= d < 10000 { SlapAfter(now, ts, interval, d); }
    if -10000 <= d < 0 { SignedIs(ts - now, -d, -((now - ts - d) / MOD)); }
  }

  lemma Later0(now: u32, interval: u32)
    requires 0 < interval < HALF
    ensures S32(now - now) == 0 && S32(U32(now + interval) - now) == interval
  {}

  lemma SlapAfter(now: u32, ts: u32, interval: u32, d: int)
    requires 0 < interval < HALF && d == S32(now - ts) && 0 <= d < 10000
    ensures var next := U32(ts + interval);
      (S32(now - next) >= 0 <==> d >= interval) && (S32(now - next) < 0 ==> S32(next - now) == interval - d)
  {
    var next := U32(ts + interval);
    var p, q := (now - ts - d) / MOD, (ts + interval) / MOD;
    Turns(now - ts);
    assert ts + interval == q * MOD + next;
    assert now - next == d - interval + (p + q) * MOD;
    SignedIs(now - next, d - interval, p + q);
    if d < interval { SignedIs(next - now, interval - d, -(p + q)); }
  }

  // ---- the windows of the sender --------------------------------------------------------------

  /** After a flush the congestion window is at least one segment, and the threshold is at
      least two where it changed; a timeout brings the window down to one segment. */
  lemma FlushedWindow(w: bool, k: Kcp)
    requires k.updated
    ensures var k' := Flush(w, k).0; var buf := Filled(w, k).buf;
      && k'.cwnd >= 1 && (k'.ssthresh == k.ssthresh || k'.ssthresh >= THRESH_MIN)
      && ((exists i :: 0 <= i < |buf| && TimedOut(k, buf[i])) ==>
            k'.cwnd == 1 && k'.ssthresh == Max(Window(k) / 2, THRESH_MIN))
      && ((forall i :: 0 <= i < |buf| ==> Due(k, buf[i]) ==> buf[i].xmit == 0) ==>
            k'.cwnd == Max(k.cwnd, 1) && k'.ssthresh == k.ssthresh)
  {
    Reasons(k, Filled(w, k).buf);
    CongestionAfter(w, k);
    hide Filled, Due, TimedOut, CountWhy, Flush, Diff, U32, Window;
  }

  lemma Reasons(k: Kcp, buf: seq<Sent>)
    ensures (exists i :: 0 <= i < |buf| && TimedOut(k, buf[i])) ==> CountWhy(k, buf, Timeout) > 0
    ensures (forall i :: 0 <= i < |buf| ==> Due(k, buf[i]) ==> buf[i].xmit == 0) ==>
      CountWhy(k, buf, Timeout) == 0 && CountWhy(k, buf, Fast) == 0
  {
    if exists i :: 0 <= i < |buf| && TimedOut(k, buf[i]) {
      var i :| 0 <= i < |buf| && TimedOut(k, buf[i]);
      CountsOne(k, buf, i);
    }
    if forall i :: 0 <= i < |buf| ==> Due(k, buf[i]) ==> buf[i].xmit == 0 { CountsNone(k, buf); }
  }

  lemma CongestionAfter(w: bool, k: Kcp)
    requires k.updated
    ensures var k' := Flush(w, k).0; var s := Filled(w, k);
      (k'.ssthresh, k'.cwnd, k'.incr)
        == Reduced(k, CountWhy(k, s.buf, Fast) > 0, CountWhy(k, s.buf, Timeout) > 0, Window(k), U32(Diff(w, s.nxt, s.una)))
  {
    var s := Filled(w, k);
    var fast, lost, inflight := CountWhy(k, s.buf, Fast) > 0, CountWhy(k, s.buf, Timeout) > 0, U32(Diff(w, s.nxt, s.una));
    SameCongestion(w, k);
    SameReduced(k, Flushed(w, k), fast, lost, Window(k), inflight);
    FlushCongests(w, k, fast, lost, inflight);
    hide *;
  }

  lemma FlushCongests(w: bool, k: Kcp, fast: bool, lost: bool, inflight: u32)
    requires k.updated && inflight == U32(Diff(w, Filled(w, k).nxt, Filled(w, k).una))
    requires fast == (CountWhy(k, Filled(w, k).buf, Fast) > 0) && lost == (CountWhy(k, Filled(w, k).buf, Timeout) > 0)
    ensures var k' := Flush(w, k).0; (k'.ssthresh, k'.cwnd, k'.incr) == Reduced(Flushed(w, k), fast, lost, Window(k), inflight)
  {
    hide Filled, CountWhy, Pack, FlushSegs, Flushed, Diff, U32, Reduced;
  }

  lemma SameCongestion(w: bool, k: Kcp)
    ensures var k1 := Flushed(w, k);
      k1.cwnd == k.cwnd && k1.incr == k.incr && k1.ssthresh == k.ssthresh && k1.mss == k.mss && k1.fastresend == k.fastresend
  {
    hide Filled, CountWhy, HitsDeadLink, VisitAll, ProbeBackoff, U32;
  }

  lemma SameReduced(k: Kcp, k1: Kcp, fast: bool, lost: bool, cwnd: u32, inflight: u32)
    requires k1.cwnd == k.cwnd && k1.incr == k.incr && k1.ssthresh == k.ssthresh && k1.mss == k.mss && k1.fastresend == k.fastresend
    ensures Reduced(k1, fast, lost, cwnd, inflight) == Reduced(k, fast, lost, cwnd, inflight)
  {
    hide U32;
  }

  /** The timer of an entry that was sent before has run out. */
  predicate TimedOut(k: Kcp, s: Sent) { s.xmit > 0 && S32(k.current - s.resendts) >= 0 }

  lemma {:induction false} CountsOne(k: Kcp, buf: seq<Sent>, i: nat)
    requires i < |buf| && TimedOut(k, buf[i])
    ensures CountWhy(k, buf, Timeout) > 0
    decreases |buf|
  {
    if i > 0 { CountsOne(k, buf[1..], i - 1); }
  }

  lemma {:induction false} CountsNone(k: Kcp, buf: seq<Sent>)
    requires forall i :: 0 <= i < |buf| ==> Due(k, buf[i]) ==> buf[i].xmit == 0
    ensures CountWhy(k, buf, Timeout) == 0 && CountWhy(k, buf, Fast) == 0
    decreases |buf|
  {
    if buf != [] {
      assert Due(k, buf[0]) ==> buf[0].xmit == 0;
      CountsNone(k, buf[1..]);
    }
  }

  /** The link is given up if and only if an entry that goes out has been sent deadLink times. */
  lemma DeadLinkIff(w: bool, k: Kcp)
    requires k.updated
    ensures Flush(w, k).0.dead <==> k.dead || exists i :: 0 <= i < |Filled(w, k).buf| && GivenUp(k, Filled(w, k).buf[i])
  {
    HitsIff(k, Filled(w, k).buf);
    hide Filled, HitsDeadLink, GivenUp, CountWhy, Pack, FlushSegs, VisitAll, ProbeBackoff, Diff, Reduced;
  }

  predicate GivenUp(k: Kcp, s: Sent) { Due(k, s) && U32(s.xmit + 1) >= k.deadLink }

  lemma {:induction false} HitsIff(k: Kcp, buf: seq<Sent>)
    ensures HitsDeadLink(k, buf) <==> exists i :: 0 <= i < |buf| && GivenUp(k, buf[i])
    decreases |buf|
  {
    if buf != [] {
      HitsIff(k, buf[1..]);
      HitsOne(k, buf[0]);
      hide GivenUp, Visit, Reason;
      if GivenUp(k, buf[0]) { assert GivenUp(k, buf[0]); }
      forall i | 0 <= i < |buf[1..]| && GivenUp(k, buf[1..][i]) ensures GivenUp(k, buf[i + 1]) {}
      forall i | 0 < i < |buf| && GivenUp(k, buf[i]) ensures GivenUp(k, buf[1..][i - 1]) {}
    }
  }

  lemma HitsOne(k: Kcp, s: Sent)
    ensures GivenUp(k, s) <==> !Reason(k, s).Quiet? && Visit(k, s).xmit >= k.deadLink
  {
    hide S32, BackoffRto;
  }

  /** An input never opens the congestion window beyond the peer's window, and opens it by one
      segment below the threshold. */
  lemma GrownBound(cwnd: u32, incr: u32, ssthresh: u32, mss: nat, rmtWnd: u32)
    ensures var c := Grown(cwnd, incr, ssthresh, mss, rmtWnd).0;
      && c <= Max(cwnd, rmtWnd) && (cwnd >= rmtWnd ==> c == cwnd)
      && (cwnd < rmtWnd && cwnd < ssthresh ==> c == cwnd + 1)
  {}

  /** It never closes it either, as long as the byte counts stay in a word. */
  lemma GrownRises(cwnd: u32, incr: u32, ssthresh: u32, mss: nat, rmtWnd: u32)
    requires mss < 0x8000 && rmtWnd < 0x1_0000 && incr < HALF
    ensures cwnd <= Grown(cwnd, incr, ssthresh, mss, rmtWnd).0
  {
    if cwnd >= rmtWnd || cwnd < ssthresh || mss == 0 {
      GrownBound(cwnd, incr, ssthresh, mss, rmtWnd);
      if mss == 0 { GrownNothing(cwnd, incr, ssthresh, rmtWnd); }
    } else {
      hide Grown, U32;
      var base := Max(incr, mss);
      StepFits(mss, base);
      var up := base + mss * mss / base + mss / 16;
      Times(cwnd + 1, 0x1_0000, mss);
      WordsFit(cwnd, mss, up);
      if (cwnd + 1) * mss <= up { Quotient(up, cwnd + 1, mss); }
      Above(cwnd, incr, ssthresh, mss, rmtWnd, base, up);
    }
  }

  lemma GrownNothing(cwnd: u32, incr: u32, ssthresh: u32, rmtWnd: u32)
    ensures cwnd <= Grown(cwnd, incr, ssthresh, 0, rmtWnd).0
  {}

  lemma WordsFit(cwnd: nat, mss: nat, up: nat)
    requires 0 < mss < 0x8000 && cwnd < 0xFFFF && (cwnd + 1) * mss <= 0x1_0000 * mss && up < HALF + 0x1_0000
    ensures U32(U32(cwnd + 1) * mss) == (cwnd + 1) * mss && U32(up) == up
    ensures U32(U32(up + mss - 1) / mss) == (up + mss - 1) / mss
  {
    hide U32;
    InWord(cwnd + 1);
    InWord((cwnd + 1) * mss);
    InWord(up);
    InWord(up + mss - 1);
    Halves(up + mss - 1, mss);
    InWord((up + mss - 1) / mss);
  }

  lemma Halves(x: nat, c: nat)
    requires c > 0
    ensures 0 <= x / c <= x
  {
    var q := x / c;
    assert q * c <= x;
    assert x + 1 <= (x + 1) * c by { Times(1, c, x + 1); }
    if q > x { Times(x + 1, q, c); }
  }

  lemma Above(cwnd: u32, incr: u32, ssthresh: u32, mss: nat, rmtWnd: u32, base: nat, up: nat)
    requires ssthresh <= cwnd < rmtWnd && 0 < mss && base == Max(incr, mss)
    requires U32(mss * mss) == mss * mss && up == base + mss * mss / base + mss / 16
    requires U32(U32(cwnd + 1) * mss) == (cwnd + 1) * mss && U32(up) == up
    requires U32(U32(up + mss - 1) / mss) == (up + mss - 1) / mss
    requires (cwnd + 1) * mss <= up ==> (up + mss - 1) / mss >= cwnd + 1
    ensures cwnd <= Grown(cwnd, incr, ssthresh, mss, rmtWnd).0
  {
    hide U32;
  }

  lemma Times(a: nat, b: nat, c: nat)
    requires a <= b
    ensures a * c <= b * c
  {}

  lemma StepFits(mss: nat, base: nat)
    requires 0 < mss <= base && mss < 0x8000
    ensures U32(mss * mss) == mss * mss && 0 <= mss * mss / base <= mss
  {
    Times(mss, 0x8000, mss);
    Times(mss, base, mss);
    if mss * mss / base > mss { Times(mss + 1, mss * mss / base, base); }
  }

  lemma Quotient(up: nat, c: nat, mss: nat)
    requires mss > 0 && c * mss <= up
    ensures (up + mss - 1) / mss >= c
  {
    if (up + mss - 1) / mss < c { Times((up + mss - 1) / mss + 1, c, mss); }
  }

  /** While the peer's window is closed a flush keeps a probe timer of 7 to 120 seconds that is
      ahead of the clock, and waits longer each time it asks. */
  lemma ProbeAgain(w: bool, k: Kcp)
    requires k.updated && k.rmtWnd == 0 && k.probeWait <= PROBE_LIMIT
    ensures var k' := Flush(w, k).0;
      if k.probeWait == 0 then k'.probeWait == PROBE_INIT && k'.tsProbe == U32(k.current + PROBE_INIT)
      else if S32(k.current - k.tsProbe) >= 0 then
        && PROBE_INIT <= k'.probeWait <= PROBE_LIMIT && k'.tsProbe == U32(k.current + k'.probeWait)
        && (k'.probeWait > k.probeWait || k'.probeWait == PROBE_LIMIT)
      else k'.probeWait == k.probeWait && k'.tsProbe == k.tsProbe
  {
    ProbeNext(k);
    hide ProbeTimer, Filled, Reduced, CountWhy, HitsDeadLink, Pack, FlushSegs, VisitAll, Diff, S32;
  }

  lemma ProbeNext(k: Kcp)
    requires k.rmtWnd == 0 && k.probeWait <= PROBE_LIMIT
    ensures var k' := ProbeTimer(k);
      if k.probeWait == 0 then k'.probeWait == PROBE_INIT && k'.tsProbe == U32(k.current + PROBE_INIT)
      else if S32(k.current - k.tsProbe) >= 0 then
        && PROBE_INIT <= k'.probeWait <= PROBE_LIMIT && k'.tsProbe == U32(k.current + k'.probeWait)
        && (k'.probeWait > k.probeWait || k'.probeWait == PROBE_LIMIT)
      else k'.probeWait == k.probeWait && k'.tsProbe == k.tsProbe
  {}
}

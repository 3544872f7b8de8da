/** The timers of code/timer/sl-timer.c on the skip list: time is counted without end here, and the
    code keeps 32-bit words of it. */
module SlTimer {
  import opened Words
  import S = SkipList

  /** What a word holds of a time. */
  function Stamp(t: nat): u32 { U32(t) }

  /** The counter did not wrap between the two times. */
  predicate SameTurn(t: nat, now: nat) { t / MOD == now / MOD }

  /** The code's comparison is right if and only if the counter did not wrap in between. */
  lemma FiresIff(t: nat, now: nat)
    requires -MOD < t - now < MOD
    ensures (Stamp(t) <= Stamp(now) <==> t <= now) <==> SameTurn(t, now)
  {
    assert t == MOD * (t / MOD) + Stamp(t) && now == MOD * (now / MOD) + Stamp(now);
  }

  /** add_timer: the deadline is kept as a word. */
  method AddTimer(l: S.SkipList, msec: u32, now: nat, newlevel: nat) returns (x: S.Node)
    requires l.Valid() && 1 <= newlevel <= S.MAXLEVEL
    modifies l`length, l`level, l`nodes, l.header`forward, l.nodes`forward
    ensures l.Valid() && fresh(x) && x.score == Stamp(now + msec) && l.nodes == S.Inserted(old(l.nodes), x)
  {
    x := l.Insert(U32(msec + Stamp(now)), newlevel);
  }

  /** The times of the timers, in the order of the list. */
  ghost predicate Timed(l: S.SkipList, ts: seq<nat>, now: nat)
    reads l
  {
    |ts| == |l.nodes| && forall k :: 0 <= k < |ts| ==> l.nodes[k].score == Stamp(ts[k]) && -MOD < ts[k] - now < MOD
  }

  /** expire_timer: exactly the timers that are due go if and only if the counter wrapped between
      none of their times and the clock. */
  method ExpireTimer(l: S.SkipList, now: nat, ghost ts: seq<nat>) returns (ghost fired: seq<S.Node>)
    requires l.Valid() && Timed(l, ts, now)
    modifies l`length, l`level, l`nodes, l.header`forward
    ensures l.Valid() && old(l.nodes) == fired + l.nodes
    ensures (forall k :: 0 <= k < |ts| ==> (k < |fired| <==> ts[k] <= now)) <==> forall k :: 0 <= k < |ts| ==> SameTurn(ts[k], now)
  {
    hide S.SkipList.Valid;
    ghost var ns := l.nodes;
    fired := l.Expire(Stamp(now));
    forall k | 0 <= k < |ts| ensures (k < |fired| <==> ts[k] <= now) <==> SameTurn(ts[k], now) {
      FiresIff(ts[k], now);
      assert ns[k] == if k < |fired| then fired[k] else l.nodes[k - |fired|];
    }
  }

  /** A timer set to run 15 ticks later, behind the wrap, goes at once. */
  lemma EarlyTimer()
    ensures MOD + 10 == (MOD - 5) + 15 && Stamp(MOD + 10) <= Stamp(MOD - 5)
  {}
}

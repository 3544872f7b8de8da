/** The round-trip estimate of code/kcp/ikcp.c:543-558 in words of 32 bits: KcpSpec.Estimate counts
    without end, and here is when the code's signed words hold what it computes. */
module KcpEstimate {
  import opened Words
  import opened KcpTypes
  import opened KcpSpec

  predicate FitsWord(x: int) { -HALF <= x < HALF }

  /** The products and sums that one call of ikcp_update_ack forms in a signed word. */
  predicate Fits(e: Rtt, rtt: nat) {
    var delta := if rtt < e.srtt then e.srtt - rtt else rtt - e.srtt;
    if e.srtt == 0 then FitsWord(rtt) && FitsWord(4 * (rtt / 2))
    else FitsWord(3 * e.rttval) && FitsWord(7 * e.srtt + rtt) && FitsWord(4 * ((3 * e.rttval + delta) / 4))
  }

  /** The same over a run of measured times. */
  predicate AllFit(e: Rtt, interval: u32, minrto: u32, rtts: seq<nat>)
    decreases |rtts|
  {
    rtts == [] || (Fits(e, rtts[0]) && AllFit(Estimate(e, interval, minrto, rtts[0]), interval, minrto, rtts[1..]))
  }

  predicate AtMost(rtts: seq<nat>, bound: nat) { forall i :: 0 <= i < |rtts| ==> rtts[i] <= bound }

  /** The estimate and its variance stay below the largest time measured. */
  lemma EstimateStays(e: Rtt, interval: u32, minrto: u32, rtt: nat, bound: nat)
    requires 0 <= e.srtt <= bound && 0 <= e.rttval <= bound && rtt <= bound
    ensures var e' := Estimate(e, interval, minrto, rtt); 0 <= e'.srtt <= bound && 0 <= e'.rttval <= bound
  {
    hide U32;
  }

  lemma {:induction false} BoundedFits(e: Rtt, interval: u32, minrto: u32, rtts: seq<nat>, bound: nat)
    requires 0 <= e.srtt <= bound && 0 <= e.rttval <= bound && bound < 0x1000_0000 && AtMost(rtts, bound)
    ensures AllFit(e, interval, minrto, rtts)
    decreases |rtts|
  {
    if rtts != [] {
      EstimateStays(e, interval, minrto, rtts[0], bound);
      hide Estimate;
      BoundedFits(Estimate(e, interval, minrto, rtts[0]), interval, minrto, rtts[1..], bound);
    }
  }

  /** Every run of times up to a bound is computed as if words had no end, if and only if the bound
      is below 2^28 milliseconds. */
  lemma FitsIff(interval: u32, minrto: u32, bound: nat)
    ensures (forall rtts :: AtMost(rtts, bound) ==> AllFit(Rtt(0, 0, RTO_DEF), interval, minrto, rtts)) <==> bound < 0x1000_0000
  {
    if bound < 0x1000_0000 {
      forall rtts | AtMost(rtts, bound) ensures AllFit(Rtt(0, 0, RTO_DEF), interval, minrto, rtts) {
        BoundedFits(Rtt(0, 0, RTO_DEF), interval, minrto, rtts, bound);
      }
    } else {
      Overflows(interval, minrto);
      assert AtMost([0x1000_0000, 0x1000_0000], bound);
    }
  }

  /** Two times of 2^28 milliseconds. */
  lemma Overflows(interval: u32, minrto: u32)
    ensures !AllFit(Rtt(0, 0, RTO_DEF), interval, minrto, [0x1000_0000, 0x1000_0000])
  {
    var rtts: seq<nat> := [0x1000_0000, 0x1000_0000];
    var e := Estimate(Rtt(0, 0, RTO_DEF), interval, minrto, rtts[0]);
    assert e.srtt == 0x1000_0000 && rtts[1..][0] == 0x1000_0000;
    assert !Fits(e, 0x1000_0000);
  }

  /** The first time measured is the estimate. After that it moves from the old estimate towards the
      new time and not beyond it; it rests where the two agree, and moves up only for a time at
      least 8 above it. The timeout is within its bounds, and no shorter than the estimate. */
  lemma Smoothed(e: Rtt, interval: u32, minrto: u32, rtt: nat)
    requires e.srtt >= 0 && e.rttval >= 0 && e.srtt + rtt + interval < HALF / 8 && e.rttval < HALF / 8
    ensures var e' := Estimate(e, interval, minrto, rtt);
      && (e.srtt == 0 ==> e'.srtt == rtt)
      && (e.srtt > 0 && rtt >= 1 ==> if rtt < e.srtt then rtt <= e'.srtt < e.srtt else e.srtt <= e'.srtt <= rtt)
      && (e.srtt > 0 && rtt >= e.srtt ==> (e'.srtt > e.srtt <==> rtt >= e.srtt + 8))
      && Min(minrto, RTO_MAX) <= e'.rto <= RTO_MAX && (e'.srtt <= RTO_MAX ==> e'.rto >= e'.srtt)
  {
    var e' := Estimate(e, interval, minrto, rtt);
    InWord(4 * e'.rttval);
    InWord(e'.srtt + Max(interval, 4 * e'.rttval));
    hide U32;
  }
}

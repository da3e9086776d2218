/** The retransmission timeout estimator (section 2 of RFC 6298), with the machine's 32-bit arithmetic. */
module RoundTrip {
  import opened Serial

  const RTO_MAX := 60000

  /** `srtt`, `rttval`, `rto` and `minrto` are signed 32-bit integers. */
  datatype Rtt = Rtt(srtt: int, rttval: int, rto: int, minrto: int)

  function Abs(x: int): int { if x < 0 then -x else x }

  /** `_imax_` converts its arguments to unsigned, the sum is unsigned, and so is the bounding. */
  function Timeout(srtt: int, rttval: int, interval: u32, minrto: int): int {
    Bound(Wrap(minrto), Wrap(ToI32(srtt + Max(interval, Wrap(4 * rttval)))), RTO_MAX)
  }

  function Smoothed(srtt: int, rtt: int): int {
    if srtt == 0 then rtt else Max(1, ToI32(Quotient(ToI32(ToI32(7 * srtt) + rtt), 8)))
  }

  function Deviation(srtt: int, rttval: int, rtt: int): int {
    if srtt == 0 then Quotient(rtt, 2) else ToI32(Quotient(ToI32(3 * rttval) + Abs(ToI32(rtt - srtt)), 4))
  }

  function UpdateAck(t: Rtt, interval: u32, rtt: int): Rtt {
    var srtt, rttval := Smoothed(t.srtt, rtt), Deviation(t.srtt, t.rttval, rtt);
    Rtt(srtt, rttval, Timeout(srtt, rttval, interval, t.minrto), t.minrto)
  }

  function Samples(t: Rtt, interval: u32, rtts: seq<int>): Rtt
    decreases |rtts|
  {
    if rtts == [] then t
    else UpdateAck(Samples(t, interval, rtts[..|rtts| - 1]), interval, rtts[|rtts| - 1])
  }

  /** The same estimator over unbounded integers: gains 1/8 and 1/4, variance factor 4, clock
      granularity `interval`, bounds `minrto` and 60 seconds. */
  function IdealSmoothed(srtt: nat, rtt: nat): nat {
    if srtt == 0 then rtt else Max(1, (7 * srtt + rtt) / 8)
  }

  function IdealDeviation(srtt: nat, rttval: nat, rtt: nat): nat {
    if srtt == 0 then rtt / 2 else (3 * rttval + Abs(rtt - srtt)) / 4
  }

  function Ideal(t: Rtt, interval: nat, rtt: nat): Rtt
    requires t.srtt >= 0 && t.rttval >= 0
  {
    var srtt, rttval := IdealSmoothed(t.srtt, rtt), IdealDeviation(t.srtt, t.rttval, rtt);
    Rtt(srtt, rttval, Min(Max(t.minrto, srtt + Max(interval, 4 * rttval)), 60000), t.minrto)
  }

  ghost predicate Within(t: Rtt, m: nat) {
    0 <= t.srtt <= Max(m, 1) && 0 <= t.rttval <= m
  }

  /** With samples below 2^28 no intermediate term overflows: the machine computes the ideal
      estimator, and the bounds are inductive. */
  lemma UpdateExact(t: Rtt, interval: u32, rtt: nat, m: nat)
    requires rtt <= m < 0x1000_0000 && Within(t, m) && interval <= 5000 && 0 <= t.minrto <= RTO_MAX
    ensures UpdateAck(t, interval, rtt) == Ideal(t, interval, rtt)
    ensures Within(UpdateAck(t, interval, rtt), m)
  {
    hide Smoothed, Deviation, IdealSmoothed, IdealDeviation, Timeout;
    SmoothedExact(t.srtt, rtt, m);
    DeviationExact(t.srtt, t.rttval, rtt, m);
    TimeoutExact(IdealSmoothed(t.srtt, rtt), IdealDeviation(t.srtt, t.rttval, rtt), interval, t.minrto, m);
  }

  lemma SmoothedExact(srtt: nat, rtt: nat, m: nat)
    requires srtt <= Max(m, 1) && rtt <= m < 0x1000_0000
    ensures Smoothed(srtt, rtt) == IdealSmoothed(srtt, rtt) <= Max(m, 1)
  {
    assert 0 <= (7 * srtt + rtt) / 8 <= Max(m, 1);
    hide ToI32;
  }

  lemma DeviationExact(srtt: nat, rttval: nat, rtt: nat, m: nat)
    requires srtt <= Max(m, 1) && rttval <= m && rtt <= m < 0x1000_0000
    ensures Deviation(srtt, rttval, rtt) == IdealDeviation(srtt, rttval, rtt) <= m
  {
    assert 0 <= (3 * rttval + Abs(rtt - srtt)) / 4 <= m;
    hide ToI32;
  }

  lemma TimeoutExact(srtt: nat, rttval: nat, interval: u32, minrto: int, m: nat)
    requires m < 0x1000_0000 && srtt <= Max(m, 1) && rttval <= m && interval <= 5000 && 0 <= minrto <= RTO_MAX
    ensures Timeout(srtt, rttval, interval, minrto) == Min(Max(minrto, srtt + Max(interval, 4 * rttval)), RTO_MAX)
  {
    hide ToI32, Wrap;
  }

  lemma {:induction false} SamplesWithin(t: Rtt, interval: u32, rtts: seq<int>, m: nat)
    requires m < 0x1000_0000 && Within(t, m) && interval <= 5000 && 0 <= t.minrto <= RTO_MAX
    requires forall i :: 0 <= i < |rtts| ==> 0 <= rtts[i] <= m
    ensures Within(Samples(t, interval, rtts), m) && Samples(t, interval, rtts).minrto == t.minrto
    decreases |rtts|
  {
    if rtts != [] {
      var n := |rtts| - 1;
      SamplesWithin(t, interval, rtts[..n], m);
      UpdateExact(Samples(t, interval, rtts[..n]), interval, rtts[n], m);
    }
  }

  /** Whatever the sample, the timeout stays between its two bounds. */
  lemma TimeoutBounded(t: Rtt, interval: u32, rtt: int)
    requires 0 <= t.minrto <= RTO_MAX
    ensures t.minrto <= UpdateAck(t, interval, rtt).rto <= RTO_MAX
  {
    hide ToI32, Quotient;
  }
}

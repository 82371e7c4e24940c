/** The round-trip estimator: rtt_update of src/tcp/tcp_input.c.  `srtt` keeps eight times the
    smoothed value, `rttvar` four times the smoothed deviation. */
module Rtt {
  import opened SeqNum

  const RTT_MAX := 400_000
  const RTO_MAX := 120_000_000

  /** What tcp.rto_min may be set to (src/sock.c). */
  type RtoMin = x: u32 | x <= RTO_MAX

  datatype Est = Est(srtt: nat, rttvar: nat, rto: nat)

  function Abs(a: int): nat { if a < 0 then -a else a }

  /** The estimator over unbounded numbers. */
  function Update(e: Est, sample: nat, rtoMin: nat): (e': Est) {
    var rtt := Min(sample, RTT_MAX);
    var (srtt, rttvar) :=
      if e.srtt != 0 then
        (e.srtt - e.srtt / 8 + rtt, e.rttvar - e.rttvar / 4 + Min(Abs(rtt - e.srtt / 8), RTT_MAX))
      else (8 * rtt, 2 * rtt);
    Est(srtt, rttvar, Min(srtt / 8 + Max(rtoMin, rttvar), RTO_MAX))
  }

  function Run(e: Est, samples: seq<nat>, rtoMin: nat): Est
    decreases |samples|
  {
    if samples == [] then e else Run(Update(e, samples[0], rtoMin), samples[1..], rtoMin)
  }

  /** The smoothed value lies between `lo` and `hi`, the deviation within their reach. */
  predicate Bounded(e: Est, lo: nat, hi: nat) {
    8 * lo <= e.srtt <= 8 * hi && e.rttvar <= 4 * hi
  }

  predicate InRange(samples: seq<nat>, lo: nat, hi: nat) {
    forall i | 0 <= i < |samples| :: lo <= Min(samples[i], RTT_MAX) <= hi
  }

  lemma UpdateBounded(e: Est, sample: nat, rtoMin: nat, lo: nat, hi: nat)
    requires lo <= Min(sample, RTT_MAX) <= hi && (e.srtt != 0 ==> Bounded(e, lo, hi))
    ensures Bounded(Update(e, sample, rtoMin), lo, hi)
  {
    var rtt := Min(sample, RTT_MAX);
    if e.srtt != 0 {
      var q, v := e.srtt / 8, e.rttvar / 4;
      assert lo <= q <= hi && Abs(rtt - q) <= hi && v <= hi;
    }
  }

  /** After any run of samples the smoothed round-trip time lies between the smallest and the
      largest of them (each cut off at RTT_MAX), and the timeout between the configured minimum and
      the maximum. */
  lemma {:induction false} EstimateBounded(e: Est, samples: seq<nat>, rtoMin: nat, lo: nat, hi: nat)
    requires samples != [] && InRange(samples, lo, hi) && hi <= RTT_MAX && (e.srtt != 0 ==> Bounded(e, lo, hi))
    ensures
      var r := Run(e, samples, rtoMin);
      && Bounded(r, lo, hi) && lo <= r.srtt / 8 <= hi
      && Min(rtoMin, RTO_MAX) <= r.rto <= Min(RTO_MAX, hi + Max(rtoMin, 4 * hi))
    decreases |samples|
  {
    var e' := Update(e, samples[0], rtoMin);
    UpdateBounded(e, samples[0], rtoMin, lo, hi);
    if |samples| > 1 {
      EstimateBounded(e', samples[1..], rtoMin, lo, hi);
    } else {
      assert samples[1..] == [];
    }
  }

  // ---- the gains

  /** A sample takes an eighth of its distance to the smoothed value away, and a quarter of the deviation, to
      which it adds a quarter of that distance; the timeout is the smoothed value and four deviations, but at
      least the minimum.  The first sample is taken as it is, with half of it for the deviation. */
  lemma SampleMoves(e: Est, sample: nat, rtoMin: nat)
    requires sample <= RTT_MAX && Bounded(e, 0, RTT_MAX)
    ensures
      var e' := Update(e, sample, rtoMin);
      && (if e.srtt == 0 then e'.srtt == 8 * sample && e'.rttvar == 2 * sample
          else
            var d, d' := e.srtt - 8 * sample, e'.srtt - 8 * sample;
            && 7 * d <= 8 * d' <= 7 * d + 7
            && var off := Abs(sample - e.srtt / 8);
               3 * e.rttvar + 4 * off <= 4 * e'.rttvar <= 3 * e.rttvar + 4 * off + 3)
      && e'.rto == Min(RTO_MAX, Max(e'.srtt / 8 + rtoMin, e'.srtt / 8 + e'.rttvar))
  {
    if e.srtt != 0 {
      var q, v := e.srtt / 8, e.rttvar / 4;
      assert 8 * q <= e.srtt <= 8 * q + 7 && 4 * v <= e.rttvar <= 4 * v + 3;
      assert Abs(sample - q) <= RTT_MAX;
    }
  }

  function Steady(sample: nat, n: nat): seq<nat> { seq(n, _ => sample) }

  lemma RunSteady(e: Est, sample: nat, n: nat, rtoMin: nat)
    requires n > 0
    ensures Run(e, Steady(sample, n), rtoMin) == Run(Update(e, sample, rtoMin), Steady(sample, n - 1), rtoMin)
  {
    assert Steady(sample, n)[1..] == Steady(sample, n - 1);
  }

  /** Once the smoothed value is there it stays, and the deviation fades. */
  lemma {:induction false} Fades(e: Est, s: nat, n: nat, rtoMin: nat)
    requires e.srtt != 0 && e.srtt / 8 == s <= RTT_MAX && n > 0 && n + 3 >= e.rttvar
    ensures
      var r := Run(e, Steady(s, n), rtoMin);
      r.srtt / 8 == s && r.rttvar <= 3 && r.rto == Min(s + Max(rtoMin, r.rttvar), RTO_MAX)
    decreases n
  {
    RunSteady(e, s, n, rtoMin);
    var e' := Update(e, s, rtoMin);
    assert e'.srtt == e.srtt && e'.rttvar == e.rttvar - e.rttvar / 4;
    if n > 1 {
      Fades(e', s, n - 1, rtoMin);
    } else {
      assert Steady(s, 0) == [];
    }
  }

  /** A constant round-trip time draws the estimate to it: after enough samples the smoothed value is the sample,
      the deviation has faded, and the timeout is the sample plus the minimum. */
  lemma {:induction false} Settles(e: Est, s: nat, n: nat, rtoMin: nat)
    requires e.srtt != 0 && Bounded(e, 0, RTT_MAX) && s <= RTT_MAX && n > Abs(e.srtt - 8 * s) + 4 * RTT_MAX
    ensures
      var r := Run(e, Steady(s, n), rtoMin);
      r.srtt / 8 == s && r.rttvar <= 3 && r.rto == Min(s + Max(rtoMin, r.rttvar), RTO_MAX)
    decreases n
  {
    if e.srtt / 8 == s {
      Fades(e, s, n, rtoMin);
    } else {
      RunSteady(e, s, n, rtoMin);
      SampleMoves(e, s, rtoMin);
      UpdateBounded(e, s, rtoMin, 0, RTT_MAX);
      Settles(Update(e, s, rtoMin), s, n - 1, rtoMin);
    }
  }

  /** The two averages after a sample: a signed difference, unsigned averages, 32 bits each. */
  method Averages(srtt: u32, rttvar: u32, sample: nat) returns (s: u32, v: u32)
    requires srtt <= 8 * RTT_MAX && rttvar <= 4 * RTT_MAX && sample <= RTT_MAX
    ensures s == srtt - srtt / 8 + sample && v == rttvar - rttvar / 4 + Abs(sample - srtt / 8)
    ensures Abs(sample - srtt / 8) <= RTT_MAX
  {
    hide Wrap;
    hide Signed;
    var q, w := srtt / 8, rttvar / 4;
    assert q <= RTT_MAX && q <= srtt && w <= RTT_MAX && w <= rttvar;
    SignedExact(sample - q);
    var rtt: int := Signed(Wrap(sample - q));
    WrapSmall(srtt + rtt);
    s := Wrap(srtt + rtt);
    if rtt < 0 {
      rtt := -rtt;
      rtt := if rtt < RTT_MAX then rtt else RTT_MAX;
    }
    SignedExact(rtt - w);
    rtt := Signed(Wrap(rtt - w));
    WrapSmall(rttvar + rtt);
    v := Wrap(rttvar + rtt);
  }

  /** The timeout; no configuration makes the sum wrap. */
  method Timeout(srtt: u32, rttvar: u32, rtoMin: RtoMin) returns (rto: u32)
    requires srtt <= 8 * RTT_MAX && rttvar <= 4 * RTT_MAX
    ensures rto == Min(srtt / 8 + Max(rtoMin, rttvar), RTO_MAX)
  {
    var x := srtt / 8 + if rttvar > rtoMin then rttvar else rtoMin;
    WrapSmall(x);
    rto := Wrap(x);
    rto := if rto < RTO_MAX then rto else RTO_MAX;
  }

  class Estimator {
    var srtt: u32
    var rttvar: u32
    var rto: u32

    ghost predicate Valid()
      reads this
    {
      Bounded(Abstract(), 0, RTT_MAX)
    }

    ghost function Abstract(): Est
      reads this
    {
      Est(srtt, rttvar, rto)
    }

    constructor (rto: u32)
      ensures Valid() && srtt == 0
    {
      srtt, rttvar, this.rto := 0, 0, rto;
    }

    /** rtt_update: a signed sample, unsigned averages, 32 bits each, none of which wraps. */
    method RttUpdate(sample: int, rtoMin: RtoMin)
      requires Valid() && 0 <= sample < HALF
      modifies this
      ensures Valid() && Abstract() == Update(old(Abstract()), sample, rtoMin)
    {
      hide Wrap;
      hide Signed;
      UpdateBounded(Abstract(), sample, rtoMin, 0, RTT_MAX);
      var rtt := if sample < RTT_MAX then sample else RTT_MAX;
      if srtt != 0 {
        srtt, rttvar := Averages(srtt, rttvar, rtt);
      } else {
        srtt, rttvar := rtt * 8, rtt * 2;
      }
      rto := Timeout(srtt, rttvar, rtoMin);
    }
  }
}

/**
 The z-score detector, over exact reals.  The running mean and sum of squared deviations
 of Welford's method are proved to be those of the whole sample list, and comparisons
 with z are made on squares: `z >= t` is `(x - mean)^2 >= t^2 * variance` for `t >= 0`.
 */
module ZScores {
  import opened Text
  import opened Events
  import opened Permutations

  // ---- The batch definition ----------------------------------------------------------------

  function Sum(xs: seq<real>): real {
    if xs == [] then 0.0 else Sum(xs[..|xs| - 1]) + xs[|xs| - 1]
  }

  function Square(x: real): (r: real)
    ensures r >= 0.0
  {
    x * x
  }

  /** The sum of the squared distances from `m`. */
  function Spread(xs: seq<real>, m: real): (r: real)
    ensures r >= 0.0
  {
    if xs == [] then 0.0 else Spread(xs[..|xs| - 1], m) + Square(xs[|xs| - 1] - m)
  }

  function Mean(xs: seq<real>): real {
    if xs == [] then 0.0 else Sum(xs) / |xs| as real
  }

  function M2(xs: seq<real>): real {
    Spread(xs, Mean(xs))
  }

  const TINY: real := 0.000000000000000001   // (1e-9)^2

  datatype Anomaly = Anomaly(
    sourceHost: string,
    severity: Severity,
    rate: real,
    mean: real,
    sourceIp: string,
    logIds: seq<string>)

  /** `z < t`, for a squared deviation and a positive variance. */
  predicate ZBelow(dev2: real, variance: real, t: real) {
    t > 0.0 && dev2 < Square(t) * variance
  }

  function SeverityOf(dev2: real, variance: real): Severity {
    if dev2 > 36.0 * variance then CRITICAL
    else if dev2 > 20.25 * variance then HIGH
    else if dev2 > 9.0 * variance then MEDIUM
    else LOW
  }

  /** The verdict on the last of the samples, from the mean and variance of all of them. */
  function Verdict(xs: seq<real>, threshold: real): Option<Severity> {
    if |xs| < 2 then None
    else
      var variance := M2(xs) / (|xs| - 1) as real;
      var dev2 := Square(xs[|xs| - 1] - Mean(xs));
      if variance < TINY || ZBelow(dev2, variance, threshold) then None
      else Some(SeverityOf(dev2, variance))
  }

  /** What the caller is told about the last of the samples. */
  function Reply(host: string, xs: seq<real>, sourceIp: string, logId: string, threshold: real): Option<Anomaly> {
    match Verdict(xs, threshold)
    case None => None
    case Some(s) =>
      Some(Anomaly(host, s, xs[|xs| - 1], Mean(xs), sourceIp, if logId != "" then [logId] else []))
  }

  // ---- The detector ---------------------------------------------------------------------------

  datatype Welford = Welford(count: nat, mean: real, m2: real)

  function Batch(xs: seq<real>): Welford {
    Welford(|xs|, Mean(xs), M2(xs))
  }

  function SamplesOf(samples: map<string, seq<real>>, host: string): seq<real> {
    if host in samples then samples[host] else []
  }

  class ZScoreDetector {
    const threshold: real
    var states: map<string, Welford>
    // Every sample seen for a host since its last reset.
    ghost var samples: map<string, seq<real>>

    ghost predicate Valid()
      reads this
    {
      states.Keys == samples.Keys && forall h :: h in states ==> states[h] == Batch(samples[h])
    }

    constructor (threshold: real)
      ensures Valid() && this.threshold == threshold && samples == map[]
    {
      this.threshold := threshold;
      states, samples := map[], map[];
    }

    method Update(host: string, rate: real, sourceIp: string, logId: string) returns (alert: Option<Anomaly>)
      requires Valid()
      modifies this
      ensures Valid()
      ensures samples == old(samples)[host := SamplesOf(old(samples), host) + [rate]]
      ensures alert == Reply(host, samples[host], sourceIp, logId, threshold)
    {
      ghost var xs := SamplesOf(samples, host);
      var s := if host in states then states[host] else Welford(0, 0.0, 0.0);
      EmptyBatch();
      assert s == Batch(xs);
      WelfordRefinesBatch(xs, rate);
      s := WelfordUpdate(s, rate);
      hide WelfordUpdate;
      states := states[host := s];
      samples := samples[host := xs + [rate]];
      assert samples[host][|samples[host]| - 1] == rate;
      hide Mean, M2, Square, SeverityOf, ZBelow;
      if s.count < 2 {
        return None;
      }
      var variance := s.m2 / (s.count - 1) as real;
      if variance < TINY {
        return None;
      }
      var dev2 := Square(rate - s.mean);
      if ZBelow(dev2, variance, threshold) {
        return None;
      }
      alert := Some(Anomaly(host, SeverityOf(dev2, variance), rate, s.mean, sourceIp,
                            if logId != "" then [logId] else []));
    }

    method Reset(host: string)
      requires Valid()
      modifies this
      ensures Valid() && samples == old(samples) - {host}
    {
      states := states - {host};
      samples := samples - {host};
    }
  }

  // ---- Welford's step is the batch step ---------------------------------------------------

  lemma EmptyBatch()
    ensures Batch([]) == Welford(0, 0.0, 0.0)
  {
  }

  lemma SumSnoc(xs: seq<real>, x: real)
    ensures Sum(xs + [x]) == Sum(xs) + x
  {
    assert (xs + [x])[..|xs|] == xs;
  }

  lemma SpreadSnoc(xs: seq<real>, x: real, m: real)
    ensures Spread(xs + [x], m) == Spread(xs, m) + Square(x - m)
  {
    assert (xs + [x])[..|xs|] == xs;
  }

  /** What moving the centre of `k` samples with sum `s` from `m` to `m + e` adds to their spread. */
  function Shift(s: real, k: real, m: real, e: real): real {
    k * (e * e) - 2.0 * e * (s - k * m)
  }

  lemma ShiftStep(s: real, k: real, m: real, x: real, e: real)
    ensures Shift(s + x, k + 1.0, m, e) == Shift(s, k, m, e) + Square(x - (m + e)) - Square(x - m)
  {
    assert 2.0 * e * ((s + x) - (k + 1.0) * m) == 2.0 * e * (s - k * m) + 2.0 * e * (x - m);
  }

  lemma {:induction false} MoveCentre(xs: seq<real>, m: real, e: real)
    ensures Spread(xs, m + e) == Spread(xs, m) + Shift(Sum(xs), |xs| as real, m, e)
  {
    if xs == [] {
      assert Shift(0.0, 0.0, m, e) == 0.0;
    } else {
      var n := |xs| - 1;
      MoveCentre(xs[..n], m, e);
      ShiftStep(Sum(xs[..n]), n as real, m, xs[n], e);
      hide Square, Shift;
      assert |xs| as real == n as real + 1.0;
    }
  }

  lemma MeanTimesCount(xs: seq<real>)
    ensures Sum(xs) == |xs| as real * Mean(xs)
  {
  }

  /** With `k` samples so far, one more moves the mean by `e = (x - mean) / (k + 1)`. */
  lemma MeanStep(xs: seq<real>, x: real) returns (e: real)
    ensures Mean(xs + [x]) == Mean(xs) + e && e == (x - Mean(xs)) / (|xs| + 1) as real
    ensures x - Mean(xs) == (|xs| as real + 1.0) * e
  {
    SumSnoc(xs, x);
    MeanTimesCount(xs);
    var k := |xs| as real;
    e := (x - Mean(xs)) / (k + 1.0);
    var m := Mean(xs);
    assert Mean(xs + [x]) == (k * m + x) / (k + 1.0);
    assert k * m + x == (k + 1.0) * m + (x - m);
  }

  /** How much `M2` grows when the mean of `k` samples moves by `e`. */
  function Growth(k: real, e: real): real {
    k * (k + 1.0) * (e * e)
  }

  lemma GrowthAlgebra(s: real, k: real, m: real, m': real, x: real, e: real)
    requires s == k * m && m' == m + e && x - m == (k + 1.0) * e
    ensures x - m' == k * e
    ensures Shift(s, k, m, e) + Square(x - m') == Growth(k, e)
    ensures (x - m) * (x - m') == Growth(k, e)
  {
    assert Shift(k * m, k, m, e) == k * (e * e);
    assert ((k + 1.0) * e) * (k * e) == k * (k + 1.0) * (e * e);
    assert Square(k * e) == k * k * (e * e);
  }

  /** In terms of `e`, the last sample is `k * e` from the new mean, and `M2` grows by `Growth`. */
  lemma M2Step(xs: seq<real>, x: real) returns (e: real)
    ensures e == (x - Mean(xs)) / (|xs| + 1) as real && Mean(xs + [x]) == Mean(xs) + e
    ensures x - Mean(xs + [x]) == |xs| as real * e
    ensures (x - Mean(xs)) * (x - Mean(xs + [x])) == Growth(|xs| as real, e)
    ensures M2(xs + [x]) == M2(xs) + Growth(|xs| as real, e)
  {
    e := MeanStep(xs, x);
    MeanTimesCount(xs);
    GrowthAlgebra(Sum(xs), |xs| as real, Mean(xs), Mean(xs + [x]), x, e);
    M2Moves(xs, x, e);
    hide *;
  }

  lemma M2Moves(xs: seq<real>, x: real, e: real)
    requires Mean(xs + [x]) == Mean(xs) + e
    ensures M2(xs + [x]) == M2(xs) + Shift(Sum(xs), |xs| as real, Mean(xs), e) + Square(x - Mean(xs + [x]))
  {
    MoveCentre(xs, Mean(xs), e);
    SpreadSnoc(xs, x, Mean(xs) + e);
    hide Spread, Mean, Sum, Square, Shift;
  }

  /** One update, as the source computes it. */
  function WelfordUpdate(s: Welford, x: real): Welford {
    var count := s.count + 1;
    var delta := x - s.mean;
    var mean := s.mean + delta / count as real;
    var delta2 := x - mean;
    Welford(count, mean, s.m2 + delta * delta2)
  }

  /** Welford's update of the batch values is the batch values of one more sample. */
  lemma {:induction false} WelfordRefinesBatch(xs: seq<real>, x: real)
    ensures WelfordUpdate(Batch(xs), x) == Batch(xs + [x])
  {
    var e := M2Step(xs, x);
    hide Mean, M2, Growth;
  }

  // ---- How large z can get ------------------------------------------------------------------

  function Variance(xs: seq<real>): real
    requires |xs| >= 2
  {
    M2(xs) / (|xs| - 1) as real
  }

  function LastDeviation2(xs: seq<real>): real
    requires xs != []
  {
    Square(xs[|xs| - 1] - Mean(xs))
  }

  lemma BoundAlgebra(k: real, e: real, before: real, after: real, dev: real)
    requires k >= 1.0 && before >= 0.0 && after == before + Growth(k, e) && dev == k * e
    ensures (k + 1.0) * Square(dev) <= k * after
    ensures (k + 1.0) * Square(dev) == k * after <==> before == 0.0
  {
    assert Square(k * e) == k * k * (e * e);
    assert k * Growth(k, e) == (k + 1.0) * (k * k * (e * e));
    assert k * after == k * before + k * Growth(k, e);
    assert k * before >= before;
  }

  lemma VarianceTimes(m2: real, k: real)
    requires k >= 1.0
    ensures k * k * (m2 / k) == k * m2
  {
    assert k * (m2 / k) == m2;
    assert k * k * (m2 / k) == k * (k * (m2 / k));
  }

  /** `z^2 <= k^2 / (k + 1)`, without dividing by the variance. */
  predicate Topped(k: real, dev2: real, v: real) {
    (k + 1.0) * dev2 <= k * k * v
  }

  /** The same with equality. */
  predicate AtTop(k: real, dev2: real, v: real) {
    (k + 1.0) * dev2 == k * k * v
  }

  /**
   The sample under test is already part of the mean and the variance, so with `k`
   earlier samples, `n = k + 1` in all, `z^2 <= k^2 / n`; equality holds exactly when
   the earlier samples have no spread.
   */
  lemma {:induction false} ZIsBounded(xs: seq<real>)
    requires |xs| >= 2
    ensures var k := (|xs| - 1) as real;
            && Topped(k, LastDeviation2(xs), Variance(xs))
            && (AtTop(k, LastDeviation2(xs), Variance(xs)) <==> M2(xs[..|xs| - 1]) == 0.0)
  {
    var k := |xs| - 1;
    assert xs == xs[..k] + [xs[k]];
    var e := M2Step(xs[..k], xs[k]);
    BoundAlgebra(k as real, e, M2(xs[..k]), M2(xs), xs[k] - Mean(xs));
    VarianceTimes(M2(xs), k as real);
    hide M2, Mean, Square, Growth;
  }

  lemma Scale(a: real, b: real, v: real)
    requires v > 0.0 && a < b
    ensures a * v < b * v
  {
  }

  lemma ScaleUp(a: real, b: real, v: real)
    requires v >= 0.0 && a <= b
    ensures a * v <= b * v
  {
  }

  /** `z^2 >= t2`, without dividing by the variance. */
  predicate Reaches(dev2: real, v: real, t2: real) {
    dev2 >= t2 * v
  }

  /** After `k` earlier samples, `k^2 / (k + 1)` is at least `t2`. */
  predicate Allows(k: real, t2: real) {
    t2 * (k + 1.0) <= k * k
  }

  lemma ReachingNeedsSamples(k: real, t2: real, dev2: real, v: real)
    requires v > 0.0 && k > 0.0 && Topped(k, dev2, v)
    ensures Reaches(dev2, v, t2) ==> Allows(k, t2)
  {
    var n := k + 1.0;
    assert (t2 * n) * v == (t2 * v) * n && n * dev2 == dev2 * n;
    if dev2 >= t2 * v {
      ScaleUp(t2 * v, dev2, n);
      if t2 * n > k * k {
        Scale(k * k, t2 * n, v);
      }
    }
  }

  lemma VerdictParts(xs: seq<real>, threshold: real)
    requires Verdict(xs, threshold).Some?
    ensures |xs| >= 2 && Variance(xs) > 0.0
    ensures threshold > 0.0 ==> Reaches(LastDeviation2(xs), Variance(xs), Square(threshold))
    ensures var rank := Verdict(xs, threshold).value.Rank();
            && (rank >= 2 ==> Reaches(LastDeviation2(xs), Variance(xs), 9.0))
            && (rank >= 3 ==> Reaches(LastDeviation2(xs), Variance(xs), 20.25))
            && (rank >= 4 ==> Reaches(LastDeviation2(xs), Variance(xs), 36.0))
  {
    hide M2, Mean, Square;
  }

  /** How many samples an alert needs, for any threshold and for each severity. */
  lemma {:induction false} AlertNeedsSamples(xs: seq<real>, threshold: real)
    requires Verdict(xs, threshold).Some?
    ensures |xs| >= 2
    ensures var k, rank := (|xs| - 1) as real, Verdict(xs, threshold).value.Rank();
            && (threshold > 0.0 ==> Allows(k, Square(threshold)))
            && (rank >= 2 ==> Allows(k, 9.0))
            && (rank >= 3 ==> Allows(k, 20.25))
            && (rank >= 4 ==> Allows(k, 36.0))
  {
    VerdictParts(xs, threshold);
    ZIsBounded(xs);
    var k, dev2, v := (|xs| - 1) as real, LastDeviation2(xs), Variance(xs);
    hide *;
    ReachingNeedsSamples(k, Square(threshold), dev2, v);
    ReachingNeedsSamples(k, 9.0, dev2, v);
    ReachingNeedsSamples(k, 20.25, dev2, v);
    ReachingNeedsSamples(k, 36.0, dev2, v);
  }

  lemma Product(a: real, b: real, c: real)
    ensures a * (b - c) == a * b - a * c
  {
  }

  lemma Excess(k: real, t2: real, top: real)
    requires 0.0 <= k <= top && t2 >= 0.0 && top * (top - t2) < t2
    ensures k * k - k * t2 < t2
  {
    Product(k, k, t2);
    if k >= t2 {
      ScaleUp(k, top, k - t2);
      ScaleUp(k - t2, top - t2, top);
      assert k * (k - t2) <= top * (top - t2);
    } else {
      ScaleUp(k, t2, k);
      assert k * k <= t2 * k == k * t2;
    }
  }

  lemma TooFew(k: real, t2: real, top: real)
    requires 0.0 <= k <= top && t2 >= 0.0 && top * (top - t2) < t2
    ensures !Allows(k, t2)
  {
    Excess(k, t2, top);
    assert t2 * (k + 1.0) == k * t2 + t2;
  }

  /**
   At the default threshold of 3 there is no alert before sample 11; at any threshold
   there is none of severity HIGH before sample 23 and none CRITICAL before sample 38.
   */
  lemma {:induction false} EarliestAlerts(xs: seq<real>, threshold: real)
    requires Verdict(xs, threshold).Some?
    ensures threshold == 3.0 ==> |xs| >= 11
    ensures Verdict(xs, threshold).value == HIGH ==> |xs| >= 23
    ensures Verdict(xs, threshold).value == CRITICAL ==> |xs| >= 38
  {
    AlertNeedsSamples(xs, threshold);
    hide Verdict, Allows;
    var k := (|xs| - 1) as real;
    assert Square(3.0) == 9.0;
    if |xs| <= 10 {
      TooFew(k, 9.0, 9.0);
    }
    if |xs| <= 22 {
      TooFew(k, 20.25, 21.0);
    }
    if |xs| <= 37 {
      TooFew(k, 36.0, 36.0);
    }
  }

  // ---- The bound is reached ---------------------------------------------------------------------

  predicate AllEqual(xs: seq<real>, a: real) {
    forall i :: 0 <= i < |xs| ==> xs[i] == a
  }

  lemma {:induction false} FlatBatch(xs: seq<real>, a: real)
    requires AllEqual(xs, a)
    ensures Sum(xs) == |xs| as real * a && Spread(xs, a) == 0.0
  {
    if xs != [] {
      var n := |xs| - 1;
      FlatBatch(xs[..n], a);
      assert (n as real + 1.0) * a == n as real * a + a;
    }
  }

  lemma FlatMean(xs: seq<real>, a: real)
    requires AllEqual(xs, a) && xs != []
    ensures Mean(xs) == a && M2(xs) == 0.0
  {
    FlatBatch(xs, a);
    DivideBack(|xs| as real, a);
  }

  lemma DivideBack(n: real, a: real)
    requires n > 0.0
    ensures n * a / n == a
  {
  }

  lemma SpikeAlgebra(k: real, d: real, e: real)
    requires k >= 1.0 && d == (k + 1.0) * e
    ensures Growth(k, e) / k == d * e
  {
    assert Growth(k, e) == k * (((k + 1.0) * e) * e);
    DivideBack(k, d * e);
  }

  /** After `k` equal samples a different one gives the largest possible z. */
  lemma {:induction false} Spike(xs: seq<real>, a: real)
    requires |xs| >= 2 && AllEqual(xs[..|xs| - 1], a)
    ensures var k, d := (|xs| - 1) as real, xs[|xs| - 1] - a;
            && Variance(xs) == d * (d / (k + 1.0))
            && AtTop(k, LastDeviation2(xs), Variance(xs))
  {
    var k := |xs| - 1;
    assert xs == xs[..k] + [xs[k]];
    FlatMean(xs[..k], a);
    var e := M2Step(xs[..k], xs[k]);
    DivideSum(xs[k] - a, k as real);
    SpikeAlgebra(k as real, xs[k] - a, e);
    ZIsBounded(xs);
    hide M2, Mean, Square, Growth, LastDeviation2;
  }

  lemma DivideSum(d: real, k: real)
    requires k >= 0.0
    ensures d == (k + 1.0) * (d / (k + 1.0))
  {
  }

  lemma ReachVariance(k: real, t2: real, dev2: real, v: real)
    requires v > 0.0 && k > 0.0 && AtTop(k, dev2, v)
    ensures Reaches(dev2, v, t2) <==> Allows(k, t2)
  {
    ReachingNeedsSamples(k, t2, dev2, v);
    var n := k + 1.0;
    assert (t2 * n) * v == (t2 * v) * n && n * dev2 == dev2 * n;
    if t2 * n <= k * k {
      ScaleUp(t2 * n, k * k, v);
      if dev2 < t2 * v {
        Scale(dev2, t2 * v, n);
      }
    }
  }

  lemma VerdictIs(xs: seq<real>, threshold: real)
    requires |xs| >= 2 && threshold > 0.0 && Variance(xs) >= TINY
    ensures Verdict(xs, threshold).Some? <==> Reaches(LastDeviation2(xs), Variance(xs), Square(threshold))
  {
    hide M2, Mean, Square;
  }

  /**
   So after equal samples the detector fires exactly when the number of samples allows
   it: the bound on z is also what suffices.
   */
  lemma {:induction false} SpikeFires(xs: seq<real>, a: real, threshold: real)
    requires |xs| >= 2 && AllEqual(xs[..|xs| - 1], a) && threshold > 0.0
    requires Variance(xs) >= TINY
    ensures Verdict(xs, threshold).Some? <==> Allows((|xs| - 1) as real, Square(threshold))
  {
    Spike(xs, a);
    VerdictIs(xs, threshold);
    hide *;
    ReachVariance((|xs| - 1) as real, Square(threshold), LastDeviation2(xs), Variance(xs));
  }

  /** Ten equal samples and a different one: the default detector fires at sample 11. */
  lemma {:induction false} ElevenSamplesSuffice(xs: seq<real>, a: real)
    requires |xs| == 11 && AllEqual(xs[..10], a) && Variance(xs) >= TINY
    ensures Verdict(xs, 3.0).Some?
  {
    SpikeFires(xs, a, 3.0);
    hide Verdict, Variance;
    assert Square(3.0) == 9.0;
  }

  /** After equal samples a severity limit is reached exactly when the number of samples allows it. */
  lemma SpikeReaches(xs: seq<real>, a: real, t2: real)
    requires |xs| >= 2 && AllEqual(xs[..|xs| - 1], a) && Variance(xs) > 0.0
    ensures Reaches(LastDeviation2(xs), Variance(xs), t2) <==> Allows((|xs| - 1) as real, t2)
  {
    Spike(xs, a);
    hide *;
    ReachVariance((|xs| - 1) as real, t2, LastDeviation2(xs), Variance(xs));
  }

  /** Both severities below are bracketed by limits that are, and are not, reached. */
  lemma SeverityBetween(dev2: real, v: real)
    requires v > 0.0
    ensures Reaches(dev2, v, 20.5) && !Reaches(dev2, v, 36.0) ==> SeverityOf(dev2, v) == HIGH
    ensures Reaches(dev2, v, 36.01) ==> SeverityOf(dev2, v) == CRITICAL
    ensures Reaches(dev2, v, 20.5) ==> Reaches(dev2, v, 9.0)
  {
  }

  /** Twenty-two equal samples and a different one: HIGH at sample 23. */
  lemma {:induction false} TwentyThreeSamplesSuffice(xs: seq<real>, a: real)
    requires |xs| == 23 && AllEqual(xs[..22], a) && Variance(xs) >= TINY
    ensures Verdict(xs, 3.0) == Some(HIGH)
  {
    SpikeReaches(xs, a, 20.5);
    SpikeReaches(xs, a, 36.0);
    SeverityBetween(LastDeviation2(xs), Variance(xs));
    VerdictIs(xs, 3.0);
    hide M2, Mean, Square, SeverityOf;
    assert Square(3.0) == 9.0 by { NineIsSquare(); }
  }

  /** Thirty-seven equal samples and a different one: CRITICAL at sample 38. */
  lemma {:induction false} ThirtyEightSamplesSuffice(xs: seq<real>, a: real)
    requires |xs| == 38 && AllEqual(xs[..37], a) && Variance(xs) >= TINY
    ensures Verdict(xs, 3.0) == Some(CRITICAL)
  {
    SpikeReaches(xs, a, 20.5);
    SpikeReaches(xs, a, 36.01);
    SeverityBetween(LastDeviation2(xs), Variance(xs));
    VerdictIs(xs, 3.0);
    hide M2, Mean, Square, SeverityOf;
    assert Square(3.0) == 9.0 by { NineIsSquare(); }
  }

  lemma NineIsSquare()
    ensures Square(3.0) == 9.0
  {
  }

  lemma EnoughSamples(k: real, t2: real, bottom: real)
    requires k >= bottom >= t2 >= 0.0 && bottom * (bottom - t2) >= t2
    ensures Allows(k, t2)
  {
    Product(k, k, t2);
    ScaleUp(bottom, k, k - t2);
    ScaleUp(bottom - t2, k - t2, bottom);
    assert t2 * (k + 1.0) == k * t2 + t2;
  }

  lemma SeverityLimits(dev2: real, v: real)
    requires v > 0.0
    ensures Reaches(dev2, v, 9.05) && !Reaches(dev2, v, 20.25) ==> SeverityOf(dev2, v) == MEDIUM
    ensures Reaches(dev2, v, 20.5) && !Reaches(dev2, v, 36.0) ==> SeverityOf(dev2, v) == HIGH
    ensures Reaches(dev2, v, 36.01) ==> SeverityOf(dev2, v) == CRITICAL
  {
  }

  /**
   What the default detector says of a sample that differs from all the equal ones before it, as a
   function of their number.
   */
  lemma {:induction false} SeverityAfterEqualSamples(xs: seq<real>, a: real)
    requires |xs| >= 2 && AllEqual(xs[..|xs| - 1], a) && Variance(xs) >= TINY
    ensures Verdict(xs, 3.0) ==
            if |xs| < 11 then None
            else if |xs| < 23 then Some(MEDIUM)
            else if |xs| < 38 then Some(HIGH)
            else Some(CRITICAL)
  {
    var k := (|xs| - 1) as real;
    SpikeFires(xs, a, 3.0);
    NineIsSquare();
    SeverityLimits(LastDeviation2(xs), Variance(xs));
    VerdictSeverity(xs, 3.0);
    hide *;
    if |xs| < 11 {
      TooFew(k, 9.0, 9.0);
    } else {
      EnoughSamples(k, 9.0, 10.0);
      EnoughSamples(k, 9.05, 10.0);
      SpikeReaches(xs, a, 9.05);
      if |xs| < 23 {
        TooFew(k, 20.25, 21.0);
        SpikeReaches(xs, a, 20.25);
      } else {
        EnoughSamples(k, 20.5, 22.0);
        SpikeReaches(xs, a, 20.5);
        if |xs| < 38 {
          TooFew(k, 36.0, 36.0);
          SpikeReaches(xs, a, 36.0);
        } else {
          EnoughSamples(k, 36.01, 37.0);
          SpikeReaches(xs, a, 36.01);
        }
      }
    }
  }

  lemma VerdictSeverity(xs: seq<real>, threshold: real)
    requires |xs| >= 2
    ensures Verdict(xs, threshold).Some? ==>
              Verdict(xs, threshold).value == SeverityOf(LastDeviation2(xs), Variance(xs))
  {
    hide SeverityOf, M2, Mean, Square;
  }

  // ---- In terms of the root -----------------------------------------------------------------------

  lemma SquareLess(a: real, b: real)
    requires 0.0 <= a < b
    ensures a * a < b * b
  {
    var d := b - a;
    assert b * b - a * a == d * (a + b);
    Scale(0.0, d, a + b);
    assert 0.0 * (a + b) == 0.0;
  }

  lemma SquareOrder(a: real, b: real)
    requires a >= 0.0 && b >= 0.0
    ensures a * a < b * b <==> a < b
  {
    if a < b {
      SquareLess(a, b);
    } else if b < a {
      SquareLess(b, a);
    }
  }

  lemma ProductSquare(t: real, sd: real)
    ensures (t * sd) * (t * sd) == (t * t) * (sd * sd)
  {
  }

  lemma ProductOrder(z: real, t: real, sd: real)
    requires z >= 0.0 && t >= 0.0 && sd > 0.0
    ensures z * sd >= 0.0 && t * sd >= 0.0
    ensures z * sd < t * sd <==> z < t
    ensures z * sd > t * sd <==> z > t
  {
    ScaleUp(0.0, z, sd);
    ScaleUp(0.0, t, sd);
    if z < t {
      Scale(z, t, sd);
    } else if t < z {
      Scale(t, z, sd);
    }
  }

  /** Comparing `z` with a limit is comparing the squared deviation with the squared limit times the variance. */
  lemma RootOrder(z: real, t: real, t2: real, sd: real, dev2: real, v: real)
    requires z >= 0.0 && t >= 0.0 && sd > 0.0
    requires t2 == t * t && dev2 == (z * sd) * (z * sd) && v == sd * sd
    ensures dev2 < t2 * v <==> z < t
    ensures dev2 > t2 * v <==> z > t
  {
    ProductSquare(t, sd);
    ProductOrder(z, t, sd);
    SquareOrder(z * sd, t * sd);
    SquareOrder(t * sd, z * sd);
  }

  function Abs(x: real): real {
    if x < 0.0 then -x else x
  }

  lemma SquareOfAbs(x: real)
    ensures Square(x) == Abs(x) * Abs(x)
  {
  }

  /**
   The verdict in terms of the standard deviation `sd` and of `z`, as the numbers whose square and
   quotient they are: no alert below a deviation of 1e-9 or below the threshold, and the severity
   by the limits 3, 4.5 and 6.
   */
  lemma {:induction false} VerdictByRoot(xs: seq<real>, threshold: real, sd: real, z: real)
    requires |xs| >= 2 && sd >= 0.0 && z >= 0.0
    requires sd * sd == M2(xs) / (|xs| - 1) as real
    requires z * sd == Abs(xs[|xs| - 1] - Mean(xs))
    ensures Verdict(xs, threshold) ==
            if sd < 0.000000001 || z < threshold then None
            else if z > 6.0 then Some(CRITICAL)
            else if z > 4.5 then Some(HIGH)
            else if z > 3.0 then Some(MEDIUM)
            else Some(LOW)
  {
    hide *;
    var dev2, v := (z * sd) * (z * sd), sd * sd;
    SquareOfAbs(xs[|xs| - 1] - Mean(xs));
    VerdictByLimits(xs, threshold, dev2, v);
    SquareOrder(sd, 0.000000001);
    if sd >= 0.000000001 {
      RootOrder(z, 6.0, 36.0, sd, dev2, v);
      RootOrder(z, 4.5, 20.25, sd, dev2, v);
      RootOrder(z, 3.0, 9.0, sd, dev2, v);
      if threshold > 0.0 {
        RootOrder(z, threshold, threshold * threshold, sd, dev2, v);
      }
    }
  }

  /** What an alert tells: the sample, the mean of all samples with it, and where they come from. */
  lemma ReplyTells(host: string, xs: seq<real>, sourceIp: string, logId: string, threshold: real)
    requires Reply(host, xs, sourceIp, logId, threshold).Some?
    ensures var a := Reply(host, xs, sourceIp, logId, threshold).value;
            && |xs| >= 2 && a.rate == xs[|xs| - 1] && |xs| as real * a.mean == Sum(xs)
            && a.sourceHost == host && a.sourceIp == sourceIp
            && (logId == "" ==> a.logIds == []) && (logId != "" ==> a.logIds == [logId])
  {
    MeanTimesCount(xs);
    hide Mean, M2, Square, SeverityOf;
  }

  lemma VerdictByLimits(xs: seq<real>, threshold: real, dev2: real, v: real)
    requires |xs| >= 2 && v == M2(xs) / (|xs| - 1) as real && dev2 == Square(xs[|xs| - 1] - Mean(xs))
    ensures Verdict(xs, threshold) ==
            if v < 0.000000001 * 0.000000001 || (threshold > 0.0 && dev2 < (threshold * threshold) * v) then None
            else if dev2 > 36.0 * v then Some(CRITICAL)
            else if dev2 > 20.25 * v then Some(HIGH)
            else if dev2 > 9.0 * v then Some(MEDIUM)
            else Some(LOW)
  {
    hide M2, Mean;
    assert Square(threshold) == threshold * threshold;
    hide Square;
    assert 0.000000001 * 0.000000001 == TINY;
  }

  // ---- Order and origin do not matter ----------------------------------------------------------

  lemma {:induction false} SumConcat(a: seq<real>, b: seq<real>)
    ensures Sum(a + b) == Sum(a) + Sum(b)
  {
    if b == [] {
      assert a + b == a;
    } else {
      assert (a + b)[..|a + b| - 1] == a + b[..|b| - 1];
      SumConcat(a, b[..|b| - 1]);
    }
  }

  lemma {:induction false} SpreadConcat(a: seq<real>, b: seq<real>, m: real)
    ensures Spread(a + b, m) == Spread(a, m) + Spread(b, m)
  {
    hide Square;
    if b == [] {
      assert a + b == a;
    } else {
      assert (a + b)[..|a + b| - 1] == a + b[..|b| - 1];
      SpreadConcat(a, b[..|b| - 1], m);
    }
  }

  lemma SplitAround(t: seq<real>, j: nat)
    requires j < |t|
    ensures t == (t[..j] + [t[j]]) + t[j + 1..]
  {
  }

  lemma Extract(t: seq<real>, j: nat, m: real)
    requires j < |t|
    ensures Sum(t) == Sum(t[..j] + t[j + 1..]) + t[j]
    ensures Spread(t, m) == Spread(t[..j] + t[j + 1..], m) + Square(t[j] - m)
  {
    hide *;
    SplitAround(t, j);
    ExtractMiddle(t[..j], t[j], t[j + 1..], m);
  }

  lemma ExtractMiddle(b: seq<real>, x: real, c: seq<real>, m: real)
    ensures Sum((b + [x]) + c) == Sum(b + c) + x
    ensures Spread((b + [x]) + c, m) == Spread(b + c, m) + Square(x - m)
  {
    hide *;
    SumSnoc(b, x);
    SpreadSnoc(b, x, m);
    SumConcat(b + [x], c);
    SumConcat(b, c);
    SpreadConcat(b + [x], c, m);
    SpreadConcat(b, c, m);
  }

  lemma {:induction false} SumsIgnoreOrder(s: seq<real>, t: seq<real>, m: real)
    requires multiset(s) == multiset(t)
    ensures Sum(s) == Sum(t) && Spread(s, m) == Spread(t, m)
    decreases |s|
  {
    hide Square;
    if s == [] {
      assert |multiset(t)| == 0;
    } else {
      var j := FindLast(s, t);
      DropOne(s, t, j);
      SumsIgnoreOrder(s[..|s| - 1], t[..j] + t[j + 1..], m);
      Extract(t, j, m);
    }
  }

  /** The state of a host does not depend on the order of its samples. */
  lemma {:induction false} BatchIgnoresOrder(s: seq<real>, t: seq<real>)
    requires multiset(s) == multiset(t)
    ensures Batch(s) == Batch(t)
  {
    assert |multiset(s)| == |s| && |multiset(t)| == |t|;
    SumsIgnoreOrder(s, t, Mean(s));
  }

  function Offset(xs: seq<real>, c: real): (r: seq<real>)
    ensures |r| == |xs| && forall i :: 0 <= i < |xs| ==> r[i] == xs[i] + c
  {
    seq(|xs|, i requires 0 <= i < |xs| => xs[i] + c)
  }

  lemma {:induction false} OffsetSums(xs: seq<real>, c: real, m: real)
    ensures Sum(Offset(xs, c)) == Sum(xs) + |xs| as real * c
    ensures Spread(Offset(xs, c), m + c) == Spread(xs, m)
  {
    if xs != [] {
      var n := |xs| - 1;
      OffsetSums(xs[..n], c, m);
      assert Offset(xs, c)[..n] == Offset(xs[..n], c);
      assert (xs[n] + c) - (m + c) == xs[n] - m;
      assert (n as real + 1.0) * c == n as real * c + c;
    }
  }

  lemma OffsetMean(xs: seq<real>, c: real)
    requires xs != []
    ensures Mean(Offset(xs, c)) == Mean(xs) + c && M2(Offset(xs, c)) == M2(xs)
  {
    OffsetSums(xs, c, Mean(xs));
    DivideOffset(Sum(xs), |xs| as real, c);
    hide Sum, Spread;
  }

  lemma DivideOffset(s: real, n: real, c: real)
    requires n > 0.0
    ensures (s + n * c) / n == s / n + c
  {
  }

  /** Adding a constant to every sample changes neither `M2` nor any verdict. */
  lemma {:induction false} VerdictIgnoresOffset(xs: seq<real>, c: real, threshold: real)
    requires xs != []
    ensures M2(Offset(xs, c)) == M2(xs)
    ensures Verdict(Offset(xs, c), threshold) == Verdict(xs, threshold)
  {
    OffsetMean(xs, c);
    hide M2, Mean, Square, SeverityOf, ZBelow;
    var n := |xs| - 1;
    assert Offset(xs, c)[n] - Mean(Offset(xs, c)) == xs[n] - Mean(xs);
  }

  // ---- Hosts do not influence each other ---------------------------------------------------------

  datatype Op =
    | Sample(host: string, rate: real, sourceIp: string, logId: string)
    | ResetHost(host: string)

  function Apply(samples: map<string, seq<real>>, op: Op): map<string, seq<real>> {
    match op
    case Sample(h, rate, _, _) => samples[h := SamplesOf(samples, h) + [rate]]
    case ResetHost(h) => samples - {h}
  }

  /** The samples of every host after a run, as `Update` and `Reset` leave them. */
  function RunSamples(ops: seq<Op>): map<string, seq<real>> {
    if ops == [] then map[] else Apply(RunSamples(ops[..|ops| - 1]), ops[|ops| - 1])
  }

  function Only(ops: seq<Op>, host: string): seq<Op> {
    if ops == [] then []
    else Only(ops[..|ops| - 1], host) + if ops[|ops| - 1].host == host then [ops[|ops| - 1]] else []
  }

  lemma ApplyIsLocal(s1: map<string, seq<real>>, s2: map<string, seq<real>>, op: Op, host: string)
    requires SamplesOf(s1, host) == SamplesOf(s2, host)
    ensures op.host == host ==> SamplesOf(Apply(s1, op), host) == SamplesOf(Apply(s2, op), host)
    ensures op.host != host ==> SamplesOf(Apply(s1, op), host) == SamplesOf(s2, host)
  {
  }

  /** What a run answers to the samples of one host, in order. */
  function Replies(ops: seq<Op>, host: string, threshold: real): seq<Option<Anomaly>> {
    if ops == [] then []
    else
      var before, op := Replies(ops[..|ops| - 1], host, threshold), ops[|ops| - 1];
      if op.Sample? && op.host == host then
        before + [Reply(host, SamplesOf(RunSamples(ops), host), op.sourceIp, op.logId, threshold)]
      else before
  }

  /**
   A host's samples, and every answer about it, are the same whether or not other hosts are sampled
   or reset in between.
   */
  lemma {:induction false} HostsAreIndependent(ops: seq<Op>, host: string, threshold: real)
    ensures SamplesOf(RunSamples(ops), host) == SamplesOf(RunSamples(Only(ops, host)), host)
    ensures Replies(ops, host, threshold) == Replies(Only(ops, host), host, threshold)
  {
    hide Apply, SamplesOf, Reply;
    if ops != [] {
      var n := |ops| - 1;
      HostsAreIndependent(ops[..n], host, threshold);
      var mine := Only(ops[..n], host);
      ApplyIsLocal(RunSamples(ops[..n]), RunSamples(mine), ops[n], host);
      assert (mine + [ops[n]])[..|mine|] == mine;
      assert mine + [] == mine;
    }
  }
}

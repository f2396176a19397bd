/**
 Statistics of a metric over a window: mean, deviation, extremes and interpolated percentiles.
 */
module Analytics {
  import opened Common
  import opened RealArith
  import opened RealSeq

  datatype MetricStats = MetricStats(
    mean: real, stddev: real, min: real, max: real, p50: real, p95: real, p99: real, sampleCount: nat)

  // ---------- Sorting ----------

  function Insert(sorted: seq<real>, x: real): seq<real> {
    if |sorted| == 0 || sorted[|sorted| - 1] <= x then sorted + [x]
    else Insert(sorted[..|sorted| - 1], x) + [sorted[|sorted| - 1]]
  }

  function Sort(s: seq<real>): seq<real> {
    if |s| == 0 then [] else Insert(Sort(s[..|s| - 1]), s[|s| - 1])
  }

  ghost predicate Sorted(s: seq<real>) {
    forall i, j :: 0 <= i <= j < |s| ==> s[i] <= s[j]
  }

  lemma {:induction false} InsertKeeps(s: seq<real>, x: real)
    ensures multiset(Insert(s, x)) == multiset(s) + multiset{x}
  {
    if |s| == 0 || s[|s| - 1] <= x {
    } else {
      InsertKeeps(s[..|s| - 1], x);
      assert s == s[..|s| - 1] + [s[|s| - 1]];
    }
  }

  lemma {:induction false} InsertBounded(s: seq<real>, x: real, high: real)
    requires x <= high && forall i :: 0 <= i < |s| ==> s[i] <= high
    ensures forall i :: 0 <= i < |Insert(s, x)| ==> Insert(s, x)[i] <= high
  {
    if |s| == 0 || s[|s| - 1] <= x {
    } else {
      InsertBounded(s[..|s| - 1], x, high);
    }
  }

  lemma {:induction false} InsertSorts(s: seq<real>, x: real)
    requires Sorted(s)
    ensures Sorted(Insert(s, x))
  {
    if |s| == 0 || s[|s| - 1] <= x {
    } else {
      InsertSorts(s[..|s| - 1], x);
      InsertBounded(s[..|s| - 1], x, s[|s| - 1]);
    }
  }

  lemma {:induction false} SortSorts(s: seq<real>)
    ensures Sorted(Sort(s)) && multiset(Sort(s)) == multiset(s) && |Sort(s)| == |s|
  {
    if |s| == 0 {
    } else {
      var init, x := s[..|s| - 1], s[|s| - 1];
      SortSorts(init);
      InsertSorts(Sort(init), x);
      InsertKeeps(Sort(init), x);
      assert s == init + [x];
    }
    assert |Sort(s)| == |multiset(Sort(s))| == |multiset(s)|;
  }

  lemma LastIsGreatest(a: seq<real>, b: seq<real>)
    requires Sorted(a) && Sorted(b) && multiset(a) == multiset(b) && |a| > 0 && |b| > 0
    ensures a[|a| - 1] <= b[|b| - 1]
  {
    assert a[|a| - 1] in multiset(b);
    var k :| 0 <= k < |b| && b[k] == a[|a| - 1];
  }

  lemma LastEndsIt(s: seq<real>)
    requires |s| > 0
    ensures s == s[..|s| - 1] + [s[|s| - 1]]
  {
  }

  lemma WithoutLast(s: seq<real>)
    requires Sorted(s) && |s| > 0
    ensures Sorted(s[..|s| - 1]) && multiset(s[..|s| - 1]) == multiset(s) - multiset{s[|s| - 1]}
  {
    assert s == s[..|s| - 1] + [s[|s| - 1]];
  }

  /** There is only one sorted arrangement of the same values. */
  lemma {:induction false} SortedUnique(a: seq<real>, b: seq<real>)
    requires Sorted(a) && Sorted(b) && multiset(a) == multiset(b)
    ensures a == b
    decreases |a|
  {
    assert |a| == |multiset(a)| == |multiset(b)| == |b|;
    if |a| == 0 {
    } else {
      LastIsGreatest(a, b);
      LastIsGreatest(b, a);
      WithoutLast(a);
      WithoutLast(b);
      LastEndsIt(a);
      LastEndsIt(b);
      hide *;
      SortedUnique(a[..|a| - 1], b[..|b| - 1]);
    }
  }

  // ---------- Percentiles ----------

  function Ceil(x: real): int {
    if x.Floor as real == x then x.Floor else x.Floor + 1
  }

  function Part(f: real, m: real): real {
    f * m
  }

  /** The point a fraction of the way from `a` to `b`. */
  function Mix(a: real, b: real, f: real): real {
    a * (1.0 - f) + b * f
  }

  /** The position of a percentile between the first and the last index. */
  function Position(n: nat, pct: real): real
    requires n > 0
  {
    Part(pct / 100.0, n as real - 1.0)
  }

  /** The value at a fractional index of a sequence, interpolated between its neighbours. */
  function At(s: seq<real>, x: real): real
    requires 0.0 <= x <= |s| as real - 1.0
  {
    var lower, upper := x.Floor, Ceil(x);
    if lower == upper then s[lower]
    else
      var frac := x - lower as real;
      Mix(s[lower], s[upper], frac)
  }

  lemma PositionInRange(n: nat, pct: real)
    requires n > 0 && 0.0 <= pct <= 100.0
    ensures 0.0 <= Position(n, pct) <= n as real - 1.0
    ensures pct == 100.0 ==> Position(n, pct) == n as real - 1.0
  {
    hide Part;
    PartOf(pct / 100.0, n as real - 1.0);
  }

  lemma PartOf(f: real, m: real)
    requires 0.0 <= f <= 1.0 && m >= 0.0
    ensures 0.0 <= Part(f, m) <= m && (f == 1.0 ==> Part(f, m) == m)
  {
    NonNegativeProduct(f, m);
    ScaleUp(f, 1.0, m);
  }

  lemma PartMonotone(f: real, g: real, m: real)
    requires f <= g && m >= 0.0
    ensures Part(f, m) <= Part(g, m)
  {
    ScaleUp(f, g, m);
  }

  function Percentile(sorted: seq<real>, pct: real): real
    requires 0.0 <= pct <= 100.0
  {
    if |sorted| == 0 then 0.0
    else
      PositionInRange(|sorted|, pct);
      At(sorted, Position(|sorted|, pct))
  }

  lemma InterpolatedIs(a: real, b: real, f: real)
    ensures Mix(a, b, f) == a + Part(f, b - a)
  {
  }

  lemma Interpolated(a: real, b: real, f: real, g: real)
    requires a <= b && 0.0 <= f <= g <= 1.0
    ensures a <= Mix(a, b, f) <= Mix(a, b, g) <= b
  {
    hide *;
    InterpolatedIs(a, b, f);
    InterpolatedIs(a, b, g);
    PartOf(f, b - a);
    PartMonotone(f, g, b - a);
    PartOf(g, b - a);
  }

  /** A percentile lies between the order statistics on either side of its position. */
  lemma AtBetweenNeighbours(s: seq<real>, x: real)
    requires Sorted(s) && 0.0 <= x <= |s| as real - 1.0
    ensures s[x.Floor] <= At(s, x) <= s[Ceil(x)]
  {
    var lower, upper := x.Floor, Ceil(x);
    if lower != upper {
      var frac := x - lower as real;
      Interpolated(s[lower], s[upper], frac, frac);
    }
  }

  lemma AtMonotone(s: seq<real>, x: real, y: real)
    requires Sorted(s) && 0.0 <= x <= y <= |s| as real - 1.0
    ensures At(s, x) <= At(s, y)
  {
    AtBetweenNeighbours(s, x);
    AtBetweenNeighbours(s, y);
    if x.Floor < y.Floor {
      assert Ceil(x) <= y.Floor;
    } else if x.Floor as real != x {
      var lower := x.Floor;
      Interpolated(s[lower], s[lower + 1], x - lower as real, y - lower as real);
    }
  }

  lemma PositionMonotone(n: nat, p: real, q: real)
    requires n > 0 && p <= q
    ensures Position(n, p) <= Position(n, q)
  {
    hide Part;
    PartMonotone(p / 100.0, q / 100.0, n as real - 1.0);
  }

  /** A higher percentile is never a smaller value. */
  lemma PercentileMonotone(sorted: seq<real>, p: real, q: real)
    requires Sorted(sorted) && 0.0 <= p <= q <= 100.0
    ensures Percentile(sorted, p) <= Percentile(sorted, q)
  {
    if |sorted| > 0 {
      PositionInRange(|sorted|, p);
      PositionInRange(|sorted|, q);
      PositionMonotone(|sorted|, p, q);
      hide Position, At;
      AtMonotone(sorted, Position(|sorted|, p), Position(|sorted|, q));
    }
  }

  /** The ends of the scale are the smallest and the greatest value. */
  lemma PercentileEnds(sorted: seq<real>)
    requires |sorted| > 0
    ensures Percentile(sorted, 0.0) == sorted[0] && Percentile(sorted, 100.0) == sorted[|sorted| - 1]
  {
    PositionInRange(|sorted|, 100.0);
    assert Position(|sorted|, 0.0) == 0.0;
  }

  lemma RankBound(last: nat, pct: nat)
    requires pct <= 100
    ensures 0 <= last * pct <= last * 100
  {
  }

  /** The last rank at or below a whole percentage of the ranks. */
  function RankBelow(last: nat, pct: nat): (k: nat)
    requires pct <= 100
    ensures k <= last && k * 100 <= last * pct < (k + 1) * 100
  {
    RankBound(last, pct);
    last * pct / 100
  }

  /** The first rank at or above a whole percentage of the ranks. */
  function RankAbove(last: nat, pct: nat): (k: nat)
    requires pct <= 100
    ensures k <= last && k * 100 >= last * pct > (k - 1) * 100
  {
    RankBound(last, pct);
    (last * pct + 99) / 100
  }

  lemma PositionOfWhole(n: nat, pct: nat)
    requires n > 0 && pct <= 100
    ensures var x := Position(n, pct as real);
            x.Floor == RankBelow(n - 1, pct) && Ceil(x) == RankAbove(n - 1, pct)
  {
    var k, x := (n - 1) * pct, Position(n, pct as real);
    assert k as real == (n as real - 1.0) * pct as real;
    assert x == k as real / 100.0;
    hide Position, RankBelow, RankAbove;
    QuotientFloor(k, x, RankBelow(n - 1, pct), RankAbove(n - 1, pct));
  }

  lemma QuotientFloor(k: nat, x: real, below: nat, above: nat)
    requires x * 100.0 == k as real
    requires below * 100 <= k < (below + 1) * 100 && above * 100 >= k > (above - 1) * 100
    ensures x.Floor == below && Ceil(x) == above
  {
    assert below as real <= x < (below + 1) as real;
    assert (above - 1) as real < x <= above as real;
  }

  /** Between two neighbours the value moves in proportion to the index. */
  lemma AtInterpolates(s: seq<real>, k: nat, f: real)
    requires k + 1 < |s| && 0.0 <= f <= 1.0
    ensures At(s, k as real + f) - s[k] == f * (s[k + 1] - s[k])
  {
    var x := k as real + f;
    if f == 0.0 {
      assert x.Floor == k && Ceil(x) == k;
    } else if f == 1.0 {
      assert x.Floor == k + 1 && Ceil(x) == k + 1;
    } else {
      assert x.Floor == k && Ceil(x) == k + 1 && x - k as real == f;
      InterpolatedIs(s[k], s[k + 1], f);
    }
  }

  /** `p` is where a whole percentile of the sorted values must lie, by its rank; for the last rank it is that value. */
  predicate LiesAtRank(s: seq<real>, pct: nat, p: real)
    requires |s| > 0 && pct <= 100
  {
    var last := |s| - 1;
    var k := RankBelow(last, pct);
    if k == last then p == s[last]
    else 100.0 * (p - s[k]) == (last * pct - 100 * k) as real * (s[k + 1] - s[k])
  }

  lemma HundredthsAlgebra(p: real, a: real, f: real, d: real, r: real)
    requires p - a == f * d && f * 100.0 == r
    ensures 100.0 * (p - a) == r * d
  {
  }

  lemma PositionFraction(n: nat, pct: nat, k: nat)
    requires n > 0 && pct <= 100 && k == RankBelow(n - 1, pct)
    ensures var f := Position(n, pct as real) - k as real;
            0.0 <= f < 1.0 && f * 100.0 == ((n - 1) * pct - 100 * k) as real
  {
    var whole := (n - 1) * pct;
    assert whole as real == (n as real - 1.0) * pct as real;
    assert Position(n, pct as real) == whole as real / 100.0;
    hide Position, RankBelow;
    assert k * 100 <= whole < (k + 1) * 100;
  }

  /** A whole percentile is interpolated between the values of the ranks around it. */
  lemma PercentileAtRank(sorted: seq<real>, pct: nat)
    requires |sorted| > 0 && pct <= 100
    ensures LiesAtRank(sorted, pct, Percentile(sorted, pct as real))
  {
    var n, last := |sorted|, |sorted| - 1;
    var k, x := RankBelow(last, pct), Position(n, pct as real);
    PositionInRange(n, pct as real);
    PositionFraction(n, pct, k);
    var p := At(sorted, x);
    assert Percentile(sorted, pct as real) == p;
    hide Position, RankBelow, Percentile;
    if k == last {
      assert x == last as real && x.Floor == last == Ceil(x);
    } else {
      hide At;
      var f := x - k as real;
      assert k as real + f == x;
      AtInterpolates(sorted, k, f);
      HundredthsAlgebra(p, sorted[k], f, sorted[k + 1] - sorted[k], (last * pct - 100 * k) as real);
    }
  }

  /** The samples between which a percentile lies, by their ranks. */
  lemma PercentileRank(sorted: seq<real>, pct: nat)
    requires Sorted(sorted) && |sorted| > 0 && pct <= 100
    ensures var last := |sorted| - 1;
            sorted[RankBelow(last, pct)] <= Percentile(sorted, pct as real) <= sorted[RankAbove(last, pct)]
  {
    PositionInRange(|sorted|, pct as real);
    PositionOfWhole(|sorted|, pct);
    hide Position, At, Sorted, RankBelow, RankAbove;
    AtBetweenNeighbours(sorted, Position(|sorted|, pct as real));
  }

  // ---------- The summary ----------

  /** `stddev` is the root of the variance. */
  function Stats(values: seq<real>, stddev: real): MetricStats {
    if |values| == 0 then MetricStats(0.0, 0.0, 0.0, 0.0, 0.0, 0.0, 0.0, 0)
    else
      SortSorts(values);
      var sorted := Sort(values);
      MetricStats(Mean(values), stddev, sorted[0], sorted[|sorted| - 1],
                  Percentile(sorted, 50.0), Percentile(sorted, 95.0), Percentile(sorted, 99.0), |values|)
  }

  ghost predicate IsStddev(stddev: real, values: seq<real>) {
    |values| > 0 ==> IsRoot(stddev, Variance(values))
  }

  /** Summarises the values and leaves them sorted. */
  method Compute(values: array<real>, stddev: real) returns (stats: MetricStats)
    requires IsStddev(stddev, values[..])
    modifies values
    ensures stats == Stats(old(values[..]), stddev)
    ensures values[..] == Sort(old(values[..]))
  {
    SortSorts(values[..]);
    if values.Length == 0 {
      assert values[..] == [];
      return MetricStats(0.0, 0.0, 0.0, 0.0, 0.0, 0.0, 0.0, 0);
    }
    var mean := Mean(values[..]);
    var sorted := Sort(values[..]);
    forall i | 0 <= i < values.Length {
      values[i] := sorted[i];
    }
    assert values[..] == sorted;
    stats := MetricStats(mean, stddev, values[0], values[values.Length - 1],
                         Percentile(values[..], 50.0), Percentile(values[..], 95.0), Percentile(values[..], 99.0),
                         values.Length);
  }

  lemma MeanBetween(s: seq<real>, n: real, m: real, lo: real, hi: real)
    requires n > 0.0 && n * m == Sum(s) && n * lo <= Sum(s) <= n * hi
    ensures lo <= m <= hi
  {
    CancelFactor(lo, m, n);
    CancelFactor(m, hi, n);
  }

  /** The ends of the sorted samples bound every sample, and are samples. */
  lemma EndsBound(values: seq<real>, sorted: seq<real>)
    requires Sorted(sorted) && multiset(sorted) == multiset(values) && |sorted| == |values| > 0
    ensures sorted[0] in values && sorted[|sorted| - 1] in values
    ensures forall v :: v in values ==> sorted[0] <= v <= sorted[|sorted| - 1]
  {
    assert sorted[0] in multiset(values) && sorted[|sorted| - 1] in multiset(values);
    forall v | v in values ensures sorted[0] <= v <= sorted[|sorted| - 1] {
      assert v in multiset(sorted);
    }
  }

  lemma MeanInRange(values: seq<real>, lo: real, hi: real)
    requires |values| > 0 && forall v :: v in values ==> lo <= v <= hi
    ensures lo <= Mean(values) <= hi
  {
    var n := |values| as real;
    DivideThenMultiply(Sum(values), n);
    hide Sum;
    assert forall i :: 0 <= i < |values| ==> values[i] in values;
    SumBounds(values, lo, hi);
    MeanBetween(values, n, Sum(values) / n, lo, hi);
  }

  lemma PercentilesOrdered(sorted: seq<real>)
    requires Sorted(sorted) && |sorted| > 0
    ensures sorted[0] <= Percentile(sorted, 50.0) <= Percentile(sorted, 95.0)
         <= Percentile(sorted, 99.0) <= sorted[|sorted| - 1]
  {
    hide *;
    PercentileEnds(sorted);
    PercentileMonotone(sorted, 0.0, 50.0);
    PercentileMonotone(sorted, 50.0, 95.0);
    PercentileMonotone(sorted, 95.0, 99.0);
    PercentileMonotone(sorted, 99.0, 100.0);
  }

  /** The statistics are ordered as their names say, and the extremes are attained bounds of the samples. */
  lemma StatsOrdered(values: seq<real>, stddev: real)
    requires |values| > 0
    ensures var t := Stats(values, stddev);
            && t.min <= t.p50 <= t.p95 <= t.p99 <= t.max
            && t.min <= t.mean <= t.max
            && t.min in values && t.max in values
            && (forall v :: v in values ==> t.min <= v <= t.max)
  {
    hide Sum, Percentile, Sort, Sorted, Mean;
    var sorted := Sort(values);
    SortSorts(values);
    PercentilesOrdered(sorted);
    EndsBound(values, sorted);
    MeanInRange(values, sorted[0], sorted[|sorted| - 1]);
  }

  /** The three percentiles lie between the samples of the ranks that their names promise. */
  lemma StatsRanks(values: seq<real>, stddev: real)
    requires |values| > 0
    ensures var t, s, last := Stats(values, stddev), Sort(values), |values| - 1;
            && |s| == |values| == t.sampleCount && Sorted(s) && multiset(s) == multiset(values)
            && s[RankBelow(last, 50)] <= t.p50 <= s[RankAbove(last, 50)]
            && s[RankBelow(last, 95)] <= t.p95 <= s[RankAbove(last, 95)]
            && s[RankBelow(last, 99)] <= t.p99 <= s[RankAbove(last, 99)]
  {
    hide Percentile, Sort, Sorted, Mean, RankBelow, RankAbove;
    var sorted := Sort(values);
    SortSorts(values);
    PercentileRank(sorted, 50);
    PercentileRank(sorted, 95);
    PercentileRank(sorted, 99);
  }

  ghost predicate HasMean(values: seq<real>, m: real) {
    |values| as real * m == Sum(values)
  }

  /** The squares of the distances to `m` average `d * d`. */
  ghost predicate HasDeviation(values: seq<real>, m: real, d: real) {
    d >= 0.0 && |values| as real * (d * d) == SquaredDistance(values, m)
  }

  lemma MeanIs(values: seq<real>)
    requires |values| > 0
    ensures HasMean(values, Mean(values))
  {
    DivideThenMultiply(Sum(values), |values| as real);
    hide Sum;
  }

  lemma DeviationIs(values: seq<real>, stddev: real)
    requires |values| > 0 && IsStddev(stddev, values)
    ensures HasDeviation(values, Mean(values), stddev)
  {
    DivideThenMultiply(SquaredDistance(values, Mean(values)), |values| as real);
    assert stddev * stddev == Variance(values);
    hide SquaredDistance, Mean;
  }

  /** What each statistic is, without the code that computes it; `stddev` is the root of the variance. */
  lemma StatsAre(values: seq<real>, stddev: real)
    requires |values| > 0 && IsStddev(stddev, values)
    ensures var t, s := Stats(values, stddev), Sort(values);
            && HasMean(values, t.mean) && HasDeviation(values, t.mean, t.stddev)
            && |s| == |values|
            && LiesAtRank(s, 50, t.p50) && LiesAtRank(s, 95, t.p95) && LiesAtRank(s, 99, t.p99)
  {
    hide Mean, Sort, Percentile, LiesAtRank, HasMean, HasDeviation, IsStddev;
    var sorted := Sort(values);
    SortSorts(values);
    MeanIs(values);
    DeviationIs(values, stddev);
    PercentileAtRank(sorted, 50);
    PercentileAtRank(sorted, 95);
    PercentileAtRank(sorted, 99);
  }

  lemma HalfRank(last: nat)
    ensures RankBelow(last, 50) == last / 2
  {
  }

  lemma MedianAtRank(s: seq<real>, p: real)
    requires |s| > 0 && LiesAtRank(s, 50, p)
    ensures if |s| % 2 == 1 then p == s[|s| / 2] else 2.0 * p == s[|s| / 2 - 1] + s[|s| / 2]
  {
    var last := |s| - 1;
    HalfRank(last);
    hide RankBelow;
    var k := last / 2;
    if |s| % 2 == 1 {
      assert last * 50 - 100 * k == 0;
    } else {
      assert last * 50 - 100 * k == 50;
    }
  }

  /** The median of an odd number of samples is the middle one, of an even number the mean of the middle two. */
  lemma MedianIs(values: seq<real>, stddev: real)
    requires |values| > 0 && IsStddev(stddev, values)
    ensures var t, s, half := Stats(values, stddev), Sort(values), |values| / 2;
            && |s| == |values|
            && (if |values| % 2 == 1 then t.p50 == s[half] else 2.0 * t.p50 == s[half - 1] + s[half])
  {
    hide *;
    StatsAre(values, stddev);
    MedianAtRank(Sort(values), Stats(values, stddev).p50);
  }

  /** An empty list has zeros for its statistics. */
  lemma StatsOfNone(stddev: real)
    ensures Stats([], stddev) == MetricStats(0.0, 0.0, 0.0, 0.0, 0.0, 0.0, 0.0, 0)
    ensures forall pct :: 0.0 <= pct <= 100.0 ==> Percentile([], pct) == 0.0
  {
  }

  /** No statistic depends on the order of the samples. */
  lemma StatsIgnoreOrder(a: seq<real>, b: seq<real>, stddev: real)
    requires multiset(a) == multiset(b)
    ensures Stats(a, stddev) == Stats(b, stddev)
    ensures IsStddev(stddev, a) <==> IsStddev(stddev, b)
  {
    SortSorts(a);
    SortSorts(b);
    SortedUnique(Sort(a), Sort(b));
    SumOfPermutation(a, b, Identity());
    if |a| > 0 {
      SumOfPermutation(a, b, SquareFrom(Mean(a)));
    }
    hide SumOf, Sort, Percentile;
  }

  // ---------- Time between changes ----------

  datatype HealthSample = HealthSample(timestamp: int, overall: real)

  /** Whole seconds of a duration in nanoseconds, truncated towards zero. */
  function WholeSeconds(d: int): int {
    if d >= 0 then d / SECOND else -((-d) / SECOND)
  }

  /** The sum of the whole-second intervals between the first `k + 1` samples. */
  function IntervalSum(samples: seq<HealthSample>, k: nat): int
    requires k < |samples|
  {
    if k == 0 then 0
    else IntervalSum(samples, k - 1) + WholeSeconds(samples[k].timestamp - samples[k - 1].timestamp)
  }

  /** The mean that is reported as the time between changes. */
  function ReportedMean(samples: seq<HealthSample>): Option<real> {
    if |samples| > 1 then Some(IntervalSum(samples, |samples| - 1) as real / (|samples| - 1) as real) else None
  }

  method MeanTimeBetweenChanges(samples: seq<HealthSample>) returns (mean: Option<real>)
    ensures mean == ReportedMean(samples)
  {
    if |samples| <= 1 {
      return None;
    }
    var intervals := 0;
    for i := 1 to |samples|
      invariant intervals == IntervalSum(samples, i - 1)
    {
      var delta := WholeSeconds(samples[i].timestamp - samples[i - 1].timestamp);
      intervals := intervals + delta;
    }
    return Some(intervals as real / (|samples| - 1) as real);
  }

  lemma WholeSecondsNear(from: int, to: int)
    ensures from <= to ==> 0 <= to - from - WholeSeconds(to - from) * SECOND < SECOND
    ensures to <= from ==> 0 <= from - to + WholeSeconds(to - from) * SECOND < SECOND
    ensures from % SECOND == 0 && to % SECOND == 0 ==> WholeSeconds(to - from) * SECOND == to - from
  {
  }

  ghost predicate InOrder(samples: seq<HealthSample>) {
    forall i :: 0 < i < |samples| ==> samples[i - 1].timestamp <= samples[i].timestamp
  }

  ghost predicate OnSeconds(samples: seq<HealthSample>) {
    forall i :: 0 <= i < |samples| ==> samples[i].timestamp % SECOND == 0
  }

  /**
   The intervals telescope, so the mean depends on the first and last sample and their number alone,
   up to the fractions of a second that truncation drops.
   */
  lemma {:induction false} IntervalsTelescope(samples: seq<HealthSample>, k: nat)
    requires k < |samples|
    ensures var span := samples[k].timestamp - samples[0].timestamp;
            && (InOrder(samples) ==> 0 <= span - IntervalSum(samples, k) * SECOND <= k * (SECOND - 1))
            && (OnSeconds(samples) ==> IntervalSum(samples, k) * SECOND == span)
  {
    if k == 0 {
    } else {
      IntervalsTelescope(samples, k - 1);
      WholeSecondsNear(samples[k - 1].timestamp, samples[k].timestamp);
      hide WholeSeconds;
    }
  }

  // ---------- What the mean is documented to be ----------

  /** The states by the limits that the report counts degraded and outage samples with. */
  datatype Condition = Healthy | Degraded | Outage

  function ConditionOf(s: HealthSample): Condition {
    if s.overall < 10.0 then Outage else if s.overall < 50.0 then Degraded else Healthy
  }

  predicate ChangesAt(samples: seq<HealthSample>, i: nat) {
    0 < i < |samples| && ConditionOf(samples[i]) != ConditionOf(samples[i - 1])
  }

  /** The state changes when the score crosses one of the limits of the report, in either direction. */
  lemma ChangesAreCrossings(samples: seq<HealthSample>, i: nat)
    requires 0 < i < |samples|
    ensures var was, now := samples[i - 1].overall, samples[i].overall;
            ChangesAt(samples, i)
            <==> || (was < 50.0 <= now) || (now < 50.0 <= was)
                 || (was < 10.0 <= now) || (now < 10.0 <= was)
  {
  }

  /** The places of the first `k` samples at which the state changed. */
  function Changes(samples: seq<HealthSample>, k: nat): seq<nat> {
    if k == 0 then []
    else Changes(samples, k - 1) + (if ChangesAt(samples, k - 1) then [k - 1] else [])
  }

  lemma {:induction false} ChangesAre(samples: seq<HealthSample>, k: nat)
    ensures forall i: nat :: i in Changes(samples, k) <==> i < k && ChangesAt(samples, i)
    ensures Rising(Changes(samples, k))
  {
    if k == 0 {
    } else {
      ChangesAre(samples, k - 1);
      var before := Changes(samples, k - 1);
      assert forall a :: 0 <= a < |before| ==> before[a] in before;
      hide ChangesAt;
    }
  }

  ghost predicate Rising(at: seq<nat>) {
    forall a, b :: 0 <= a < b < |at| ==> at[a] < at[b]
  }

  function AllChanges(samples: seq<HealthSample>): (at: seq<nat>)
    ensures forall i: nat :: i in at <==> ChangesAt(samples, i)
    ensures Rising(at) && AllBelow(at, |samples|)
  {
    ChangesAre(samples, |samples|);
    var at := Changes(samples, |samples|);
    assert forall a :: 0 <= a < |at| ==> at[a] in at;
    at
  }

  predicate AllBelow(at: seq<nat>, n: nat) {
    forall a :: 0 <= a < |at| ==> at[a] < n
  }

  /** The sum of the durations between the first `k + 1` of the given samples. */
  function GapSum(samples: seq<HealthSample>, at: seq<nat>, k: nat): int
    requires k < |at| && AllBelow(at, |samples|)
  {
    if k == 0 then 0
    else GapSum(samples, at, k - 1) + (samples[at[k]].timestamp - samples[at[k - 1]].timestamp)
  }

  /** The average duration between state changes, in seconds, if there are two. */
  function DocumentedMean(samples: seq<HealthSample>): Option<real> {
    var at := AllChanges(samples);
    if |at| > 1 then Some(GapSum(samples, at, |at| - 1) as real / SECOND as real / (|at| - 1) as real) else None
  }

  lemma {:induction false} GapsTelescope(samples: seq<HealthSample>, at: seq<nat>, k: nat)
    requires k < |at| && AllBelow(at, |samples|)
    ensures GapSum(samples, at, k) == samples[at[k]].timestamp - samples[at[0]].timestamp
  {
    if k == 0 {
    } else {
      GapsTelescope(samples, at, k - 1);
    }
  }

  lemma QuotientsEqual(x: real, n: real, y: real, unit: real, k: real)
    requires n > 0.0 && unit > 0.0 && k > 0.0
    ensures x / n == y / unit / k <==> x * unit * k == y * n
  {
    var p, q := x / n, y / unit / k;
    assert p * n == x && q * k == y / unit && q * k * unit == y;
    assert x * unit * k == p * (n * unit * k) && y * n == q * (n * unit * k);
    SameProduct(p, q, n * unit * k);
  }

  lemma SameProduct(p: real, q: real, c: real)
    requires c != 0.0
    ensures p == q <==> p * c == q * c
  {
  }

  /**
   The reported mean is the documented one exactly when there is no more than one sample, or the
   state changed twice and the sampling was as dense as the changes: the span of all samples by their
   number is the span of the changes by theirs, fractions of a second dropped from each interval aside.
   */
  lemma MeansAgreeExactly(samples: seq<HealthSample>)
    ensures ReportedMean(samples) == DocumentedMean(samples)
       <==> || |samples| <= 1
            || (&& |AllChanges(samples)| > 1
                && var at, n, k := AllChanges(samples), |samples| - 1, |AllChanges(samples)| - 1;
                   IntervalSum(samples, n) * SECOND * k == (samples[at[k]].timestamp - samples[at[0]].timestamp) * n)
    ensures OnSeconds(samples) ==>
              (ReportedMean(samples) == DocumentedMean(samples)
               <==> || |samples| <= 1
                    || (&& |AllChanges(samples)| > 1
                        && var at, n, k := AllChanges(samples), |samples| - 1, |AllChanges(samples)| - 1;
                           (samples[n].timestamp - samples[0].timestamp) * k
                           == (samples[at[k]].timestamp - samples[at[0]].timestamp) * n))
  {
    hide AllChanges, IntervalSum, GapSum, OnSeconds;
    if |samples| > 0 {
      IntervalsTelescope(samples, |samples| - 1);
    }
    NoChanges(samples);
    var at := AllChanges(samples);
    if |samples| > 1 && |at| > 1 {
      var n, k := |samples| - 1, |at| - 1;
      var mean := IntervalSum(samples, n) as real / n as real;
      var documented := GapSum(samples, at, k) as real / SECOND as real / k as real;
      assert ReportedMean(samples) == Some(mean) && DocumentedMean(samples) == Some(documented);
      MeansOfMany(samples, at, n, k);
      hide *;
    }
  }

  lemma NoChanges(samples: seq<HealthSample>)
    ensures |samples| <= 1 ==> AllChanges(samples) == []
  {
    assert Changes(samples, 0) == [];
  }

  lemma MeansOfMany(samples: seq<HealthSample>, at: seq<nat>, n: nat, k: nat)
    requires n + 1 == |samples| && k + 1 == |at| && n > 0 && k > 0 && AllBelow(at, |samples|)
    ensures IntervalSum(samples, n) as real / n as real == GapSum(samples, at, k) as real / SECOND as real / k as real
       <==> IntervalSum(samples, n) * SECOND * k == (samples[at[k]].timestamp - samples[at[0]].timestamp) * n
  {
    GapsTelescope(samples, at, k);
    var x, y := IntervalSum(samples, n), GapSum(samples, at, k);
    hide IntervalSum, GapSum, AllBelow;
    MeansOfSums(x, n, y, k);
  }

  lemma MeansOfSums(x: int, n: int, y: int, k: int)
    requires n > 0 && k > 0
    ensures x as real / n as real == y as real / SECOND as real / k as real <==> x * SECOND * k == y * n
  {
    QuotientsEqual(x as real, n as real, y as real, SECOND as real, k as real);
    CrossProducts(x, n, y, SECOND, k);
  }

  lemma CrossProducts(x: int, n: int, y: int, unit: int, k: int)
    ensures x as real * unit as real * k as real == y as real * n as real <==> x * unit * k == y * n
  {
    assert (x * unit * k) as real == x as real * unit as real * k as real;
    assert (y * n) as real == y as real * n as real;
  }

  ghost predicate EveryPeriod(samples: seq<HealthSample>, period: int) {
    period > 0 && forall i :: 0 <= i < |samples| ==> samples[i].timestamp == samples[0].timestamp + i * period
  }

  lemma {:induction false} PeriodicSum(samples: seq<HealthSample>, period: int, k: nat)
    requires EveryPeriod(samples, period) && k < |samples|
    ensures IntervalSum(samples, k) == k * WholeSeconds(period)
  {
    if k == 0 {
    } else {
      PeriodicSum(samples, period, k - 1);
      assert samples[k].timestamp - samples[k - 1].timestamp == period by {
        assert k * period == (k - 1) * period + period;
      }
      hide WholeSeconds;
      assert k * WholeSeconds(period) == (k - 1) * WholeSeconds(period) + WholeSeconds(period);
    }
  }

  lemma {:induction false} GapAtLeast(at: seq<nat>, a: nat, b: nat)
    requires a <= b < |at| && Rising(at)
    ensures at[b] - at[a] >= b - a
  {
    if a == b {
    } else {
      GapAtLeast(at, a, b - 1);
    }
  }

  lemma ZeroFactor(a: int, b: int, product: int)
    requires a >= 0 && b > 0 && product == a * b && product <= 0
    ensures a == 0
  {
    if a > 0 {
      ProductAtLeast(a, b);
    }
  }

  lemma ProductAtLeast(a: int, b: int)
    requires a >= 0 && b >= 0
    ensures a * b >= 0 && (a > 0 ==> a * b >= b)
  {
  }

  lemma CancelLeft(n: int, x: int, y: int)
    requires n > 0
    ensures n * x == n * y <==> x == y
  {
  }

  /** `m` is the distance of the changes and `k` their number less one; `ws` is the truncated period. */
  lemma PeriodicAlgebra(ws: int, k: int, m: int, period: int)
    requires 1 <= k <= m && 0 <= ws <= period && period > 0
    ensures ws * k == m * period <==> ws == period && m == k
  {
    var lost, spare := (period - ws) * k, (m - k) * period;
    assert m * period - ws * k == lost + spare;
    ProductAtLeast(period - ws, k);
    ProductAtLeast(m - k, period);
    hide *;
    if lost + spare == 0 {
      ZeroFactor(period - ws, k, lost);
      ZeroFactor(m - k, period, spare);
    }
  }

  lemma PeriodicProducts(n: int, w: int, k: int, m: int, period: int)
    requires n > 0
    ensures n * w * SECOND * k == m * period * n <==> w * SECOND * k == m * period
  {
    CancelLeft(n, w * SECOND * k, m * period);
    assert n * w * SECOND * k == n * (w * SECOND * k);
  }

  /**
   For several samples taken at a fixed period the reported mean is right exactly when there are two
   changes, the period is whole seconds and the state changed at every single sample from the first
   change to the last.
   */
  lemma PeriodicMeansAgreeExactly(samples: seq<HealthSample>, period: int)
    requires EveryPeriod(samples, period)
    ensures ReportedMean(samples) == DocumentedMean(samples)
       <==> || |samples| <= 1
            || (&& |AllChanges(samples)| > 1 && period % SECOND == 0
                && var at := AllChanges(samples);
                   forall i: nat :: at[0] <= i <= at[|at| - 1] ==> ChangesAt(samples, i))
  {
    MeansAgreeExactly(samples);
    var at := AllChanges(samples);
    if |samples| > 1 && |at| > 1 {
      ChangesThroughout(samples);
      PeriodicSums(samples, period, at);
    }
    hide IntervalSum, ReportedMean, DocumentedMean, AllChanges, ChangesAt, EveryPeriod;
  }

  lemma PeriodicSums(samples: seq<HealthSample>, period: int, at: seq<nat>)
    requires EveryPeriod(samples, period) && |samples| > 1 && |at| > 1 && AllBelow(at, |samples|) && Rising(at)
    ensures var n, k := |samples| - 1, |at| - 1;
            IntervalSum(samples, n) * SECOND * k == (samples[at[k]].timestamp - samples[at[0]].timestamp) * n
            <==> period % SECOND == 0 && at[k] - at[0] == k
  {
    var n, k := |samples| - 1, |at| - 1;
    var m, w := at[k] - at[0], WholeSeconds(period);
    PeriodicSum(samples, period, n);
    GapAtLeast(at, 0, k);
    PeriodicGap(samples, period, at[0], at[k]);
    WholePeriod(period);
    hide *;
    PeriodicProducts(n, w, k, m, period);
    PeriodicAlgebra(w * SECOND, k, m, period);
  }

  lemma WholePeriod(period: int)
    requires period > 0
    ensures 0 <= WholeSeconds(period) * SECOND <= period
    ensures WholeSeconds(period) * SECOND == period <==> period % SECOND == 0
  {
  }

  lemma PeriodicGap(samples: seq<HealthSample>, period: int, i: nat, j: nat)
    requires EveryPeriod(samples, period) && i < |samples| && j < |samples|
    ensures samples[j].timestamp - samples[i].timestamp == (j - i) * period
  {
    assert (j - i) * period == j * period - i * period;
  }

  lemma ChangesThroughout(samples: seq<HealthSample>)
    requires |AllChanges(samples)| > 0
    ensures var at := AllChanges(samples);
            at[|at| - 1] - at[0] == |at| - 1 <==> forall i: nat :: at[0] <= i <= at[|at| - 1] ==> ChangesAt(samples, i)
  {
    var at := AllChanges(samples);
    var k := |at| - 1;
    hide AllChanges, ChangesAt;
    if at[k] - at[0] == k {
      forall i: nat | at[0] <= i <= at[k] ensures ChangesAt(samples, i) {
        GapAtLeast(at, 0, i - at[0]);
        GapAtLeast(at, i - at[0], k);
        assert at[i - at[0]] == i;
      }
    } else if forall i: nat :: at[0] <= i <= at[k] ==> ChangesAt(samples, i) {
      GapAtLeast(at, 0, k);
      DenseCount(at, k);
    }
  }

  /** A rising list that leaves out no number between its ends has as many as the distance of the ends. */
  lemma {:induction false} DenseCount(at: seq<nat>, k: nat)
    requires k < |at| && Rising(at)
    requires forall i: nat :: at[0] <= i <= at[k] ==> i in at
    ensures at[k] - at[0] == k
  {
    if k == 0 {
    } else {
      assert at[0] <= at[k - 1] < at[k];
      var before := at[k] - 1;
      assert before in at;
      var j :| 0 <= j < |at| && at[j] == before;
      assert j == k - 1;
      DenseCount(at, k - 1);
    }
  }

  function DipSamples(): seq<HealthSample> {
    [HealthSample(0, 90.0), HealthSample(SECOND, 40.0), HealthSample(2 * SECOND, 40.0), HealthSample(3 * SECOND, 90.0)]
  }

  lemma DipReported()
    ensures ReportedMean(DipSamples()) == Some(1.0)
  {
    var s := DipSamples();
    var gap := s[1].timestamp - s[0].timestamp;
    assert gap == s[2].timestamp - s[1].timestamp == s[3].timestamp - s[2].timestamp == SECOND;
    assert WholeSeconds(gap) == 1;
    hide DipSamples, WholeSeconds;
    assert IntervalSum(s, 1) == 1 && IntervalSum(s, 2) == 2 && IntervalSum(s, 3) == 3;
  }

  lemma DipChanges()
    ensures AllChanges(DipSamples()) == [1, 3]
  {
    var s := DipSamples();
    assert |s| == 4 && !ChangesAt(s, 0) && ChangesAt(s, 1) && !ChangesAt(s, 2) && ChangesAt(s, 3);
    hide DipSamples, ChangesAt, ConditionOf;
    assert Changes(s, 0) == [] && Changes(s, 1) == [] && Changes(s, 2) == [1];
    assert Changes(s, 3) == [1] && Changes(s, 4) == [1, 3];
  }

  /** Degraded for two seconds and back again: the changes are two seconds apart, the report says one. */
  lemma DisagreeingSamples() returns (samples: seq<HealthSample>)
    ensures ReportedMean(samples) == Some(1.0) && DocumentedMean(samples) == Some(2.0)
  {
    samples := DipSamples();
    DipReported();
    DipChanges();
    hide AllChanges, ReportedMean, GapSum;
    GapsTelescope(samples, [1, 3], 1);
  }
}

/**
 The predictive failover engine: a bounded history per interface, three indicators computed
 from it, and the rule that combines them into a prediction.
 */
module Predictive {
  import opened Common
  import opened RealArith
  import opened RealSeq
  import opened Regression

  datatype Severity = NoSeverity | Low | Medium | High | Critical

  datatype Reason = Stable | DownwardTrend | AcceleratingDegradation | Anomaly | MultiIndicator

  datatype Prediction = Prediction(
    interface: string, timeToFailure: Option<real>, confidence: real, severity: Severity, reason: Reason)
  {
    predicate ShouldAct(threshold: real) {
      confidence >= threshold && severity != NoSeverity
    }
  }

  datatype Trend = Trend(
    slope: real, rSquared: real, currentValue: real, timeToCritical: Option<real>, isDegrading: bool)

  const CRITICAL_SCORE: real := 20.0

  // ---------- The indicators ----------

  function Values(p: seq<DataPoint>): (v: seq<real>)
    ensures |v| == |p| && forall i :: 0 <= i < |p| ==> v[i] == p[i].value
  {
    seq(|p|, i requires 0 <= i < |p| => p[i].value)
  }

  function AnalyzeTrend(p: seq<DataPoint>): Trend {
    match LinearRegression(p)
    case None => Trend(0.0, 0.0, 0.0, None, false)
    case Some(line) =>
      var last := p[|p| - 1];
      var timeToCritical :=
        if line.slope < -0.01 then
          var ahead := (CRITICAL_SCORE - line.intercept) / line.slope - last.time;
          Some(if ahead > 0.0 then ahead else 0.0)
        else None;
      Trend(line.slope, line.rSquared, last.value, timeToCritical, line.slope < -0.01 && line.rSquared > 0.5)
  }

  predicate DetectAcceleration(p: seq<DataPoint>) {
    && |p| >= 10
    && var first, second := LinearRegression(p[..|p| / 2]), LinearRegression(p[|p| / 2..]);
       first.Some? && second.Some? && second.value.slope < first.value.slope && second.value.slope < -0.02
  }

  function ZScore(value: real, mean: real, stddev: real): real {
    if stddev < GUARD then 0.0 else (value - mean) / stddev
  }

  /** `stddev` is the root of the variance of the readings, needed only when there are ten of them. */
  function DetectAnomalies(p: seq<DataPoint>, stddev: real): real {
    if |p| < 10 then 0.0
    else
      var z := Abs(ZScore(p[|p| - 1].value, Mean(Values(p)), stddev));
      if z > 2.0 then z else 0.0
  }

  ghost predicate IsStddev(stddev: real, p: seq<DataPoint>) {
    |p| >= 10 ==> IsRoot(stddev, Variance(Values(p)))
  }

  // ---------- Combining them ----------

  function RawConfidence(trend: Trend, accelerating: bool, anomaly: real): real {
    (if trend.isDegrading then trend.rSquared * 0.5 else 0.0)
    + (if accelerating then 0.3 else 0.0)
    + (if anomaly > 3.0 then 0.4 else 0.0)
  }

  predicate SeveralIndicators(trend: Trend, accelerating: bool, anomaly: real) {
    RawConfidence(trend, accelerating, anomaly) > 0.6 && (trend.isDegrading || accelerating) && anomaly > 2.0
  }

  /** The prediction as one table; the last matching indicator names the reason. */
  function Combined(interface: string, trend: Trend, accelerating: bool, anomaly: real): Prediction {
    var confidence := RawConfidence(trend, accelerating, anomaly);
    var several := SeveralIndicators(trend, accelerating, anomaly);
    Prediction(
      interface,
      trend.timeToCritical,
      if confidence > 1.0 then 1.0 else confidence,
      if several then Critical
      else if accelerating || (trend.isDegrading && trend.slope < -0.1) then High
      else if trend.isDegrading || anomaly > 3.0 then Medium
      else NoSeverity,
      if several then MultiIndicator
      else if anomaly > 3.0 then Anomaly
      else if accelerating then AcceleratingDegradation
      else if trend.isDegrading then DownwardTrend
      else Stable)
  }

  function Rank(s: Severity): nat {
    match s
    case NoSeverity => 0
    case Low => 1
    case Medium => 2
    case High => 3
    case Critical => 4
  }

  function Worse(a: Severity, b: Severity): Severity {
    if Rank(b) >= Rank(a) then b else a
  }

  method CombineIndicators(interface: string, trend: Trend, accelerating: bool, anomaly: real)
    returns (prediction: Prediction)
    ensures prediction == Combined(interface, trend, accelerating, anomaly)
  {
    var confidence, severity, reason := 0.0, NoSeverity, Stable;
    if trend.isDegrading {
      confidence := confidence + trend.rSquared * 0.5;
      reason := DownwardTrend;
      severity := if trend.slope < -0.1 then High else Medium;
    }
    if accelerating {
      confidence := confidence + 0.3;
      reason := AcceleratingDegradation;
      severity := Worse(severity, High);
    }
    if anomaly > 3.0 {
      confidence := confidence + 0.4;
      reason := Anomaly;
      severity := Worse(severity, Medium);
    }
    if confidence > 0.6 && (trend.isDegrading || accelerating) && anomaly > 2.0 {
      reason := MultiIndicator;
      severity := Worse(severity, Critical);
    }
    confidence := if confidence > 1.0 then 1.0 else confidence;
    prediction := Prediction(interface, trend.timeToCritical, confidence, severity, reason);
  }

  // ---------- The history ----------

  /** The last `n` elements, or all of them when there are fewer. */
  function Tail<T>(s: seq<T>, n: nat): seq<T> {
    if |s| > n then s[|s| - n..] else s
  }

  lemma DropOneMore<T>(s: seq<T>, k: nat)
    requires k < |s|
    ensures s[k..][1..] == s[k + 1..]
  {
  }

  lemma TailAfterDrops<T>(s: seq<T>, k: nat, n: nat)
    requires k <= |s| && |s| - k <= n && (k > 0 ==> |s| - k >= n)
    ensures s[k..] == Tail(s, n)
  {
  }

  function Appended(h: seq<DataPoint>, score: real): seq<DataPoint> {
    h + [DataPoint(if |h| > 0 then h[|h| - 1].time + STEP else 0.0, score)]
  }

  function Entry(history: map<string, seq<DataPoint>>, interface: string): seq<DataPoint> {
    if interface in history then history[interface] else []
  }

  function Recorded(history: map<string, seq<DataPoint>>, interface: string, score: real, capacity: nat)
    : map<string, seq<DataPoint>>
  {
    history[interface := Tail(Appended(Entry(history, interface), score), capacity)]
  }

  function Silent(interface: string): Prediction {
    Prediction(interface, None, 0.0, NoSeverity, Stable)
  }

  function Predicted(history: map<string, seq<DataPoint>>, minSamples: nat, window: nat, interface: string,
                     stddev: real)
    : Prediction
  {
    var h := Entry(history, interface);
    if interface !in history || |h| < minSamples then Silent(interface)
    else
      Combined(interface, AnalyzeTrend(Tail(h, window)), DetectAcceleration(Tail(h, window)),
               DetectAnomalies(h, stddev))
  }

  class PredictiveEngine {
    const minSamples: nat
    const actionThreshold: real
    const recentWindow: nat
    var history: map<string, seq<DataPoint>>

    constructor (minSamples: nat, actionThreshold: real, recentWindow: nat)
      ensures this.minSamples == minSamples && this.actionThreshold == actionThreshold
      ensures this.recentWindow == recentWindow && history == map[]
    {
      this.minSamples, this.actionThreshold, this.recentWindow := minSamples, actionThreshold, recentWindow;
      history := map[];
    }

    method AddReading(interface: string, score: real)
      modifies this`history
      ensures history == Recorded(old(history), interface, score, 4 * recentWindow)
    {
      var entry := Entry(history, interface);
      var time := if |entry| > 0 then entry[|entry| - 1].time + STEP else 0.0;
      entry := entry + [DataPoint(time, score)];
      ghost var full := Appended(Entry(history, interface), score);
      assert entry == full;
      hide Appended, Entry;
      ghost var dropped := 0;
      while |entry| > recentWindow * 4
        invariant history == old(history)
        invariant dropped <= |full| && entry == full[dropped..]
        invariant dropped > 0 ==> |entry| >= 4 * recentWindow
      {
        DropOneMore(full, dropped);
        entry := entry[1..];
        dropped := dropped + 1;
      }
      TailAfterDrops(full, dropped, 4 * recentWindow);
      history := history[interface := entry];
    }

    method Analyze(interface: string, stddev: real) returns (prediction: Prediction)
      requires IsStddev(stddev, Entry(history, interface))
      ensures prediction == Predicted(history, minSamples, recentWindow, interface, stddev)
    {
      if interface !in history || |history[interface]| < minSamples {
        return Silent(interface);
      }
      var points := history[interface];
      var recent := Tail(points, recentWindow);
      prediction := CombineIndicators(
        interface, AnalyzeTrend(recent), DetectAcceleration(recent), DetectAnomalies(points, stddev));
    }
  }

  // ---------- What a run of readings leaves behind ----------

  datatype Reading = Reading(interface: string, score: real)

  function HistoryAfter(readings: seq<Reading>, capacity: nat): map<string, seq<DataPoint>> {
    if |readings| == 0 then map[]
    else
      var r := readings[|readings| - 1];
      Recorded(HistoryAfter(readings[..|readings| - 1], capacity), r.interface, r.score, capacity)
  }

  /** The scores an interface was given, in order. */
  function ScoresOf(readings: seq<Reading>, interface: string): seq<real> {
    if |readings| == 0 then []
    else
      var r := readings[|readings| - 1];
      ScoresOf(readings[..|readings| - 1], interface) + (if r.interface == interface then [r.score] else [])
  }

  lemma ValuesOfTail(h: seq<DataPoint>, n: nat)
    ensures Values(Tail(h, n)) == Tail(Values(h), n)
  {
  }

  lemma ValuesOfAppended(h: seq<DataPoint>, score: real)
    ensures Values(Appended(h, score)) == Values(h) + [score]
  {
  }

  lemma TailOfTail<T>(s: seq<T>, x: T, n: nat)
    ensures Tail(Tail(s, n) + [x], n) == Tail(s + [x], n)
  {
  }

  lemma SpacingKept(h: seq<DataPoint>, score: real, n: nat)
    requires EvenlySpaced(h)
    ensures EvenlySpaced(Tail(Appended(h, score), n))
  {
    assert EvenlySpaced(Appended(h, score));
  }

  /**
   Whatever the interleaving, an interface's history holds its latest scores, no more than the
   capacity allows, five seconds apart.
   */
  lemma {:induction false} HistoryHoldsLatestScores(readings: seq<Reading>, capacity: nat, interface: string)
    ensures var h := Entry(HistoryAfter(readings, capacity), interface);
            EvenlySpaced(h) && Values(h) == Tail(ScoresOf(readings, interface), capacity)
    ensures interface in HistoryAfter(readings, capacity) <==> ScoresOf(readings, interface) != []
  {
    if |readings| == 0 {
    } else {
      var before := readings[..|readings| - 1];
      var r := readings[|readings| - 1];
      HistoryHoldsLatestScores(before, capacity, interface);
      if r.interface == interface {
        var h := Entry(HistoryAfter(before, capacity), interface);
        SpacingKept(h, r.score, capacity);
        ValuesOfTail(Appended(h, r.score), capacity);
        ValuesOfAppended(h, r.score);
        TailOfTail(ScoresOf(before, interface), r.score, capacity);
      } else {
        assert ScoresOf(readings, interface) == ScoresOf(before, interface);
      }
    }
  }

  // ---------- What each indicator promises ----------

  lemma TrendSound(p: seq<DataPoint>)
    ensures var trend := AnalyzeTrend(p);
            && 0.0 <= trend.rSquared <= 1.0
            && (trend.isDegrading <==> trend.slope < -0.01 && trend.rSquared > 0.5)
            && (trend.timeToCritical.Some? <==> trend.slope < -0.01)
  {
    if LinearRegression(p).Some? {
      RSquaredInUnitInterval(p);
    }
  }

  /** A trend is the fitted line's, with the last reading as the current value; without a line nothing degrades. */
  lemma TrendIsFitted(p: seq<DataPoint>)
    ensures LinearRegression(p) == None ==> AnalyzeTrend(p) == Trend(0.0, 0.0, 0.0, None, false)
    ensures LinearRegression(p).Some? ==>
              && AnalyzeTrend(p).slope == LinearRegression(p).value.slope
              && AnalyzeTrend(p).rSquared == LinearRegression(p).value.rSquared
              && AnalyzeTrend(p).currentValue == p[|p| - 1].value
  {
    hide LinearRegression;
  }

  function Height(line: Line, t: real): real {
    line.slope * t + line.intercept
  }

  lemma Crossing(line: Line, t: real, d: real)
    requires line.slope < 0.0 && d == (CRITICAL_SCORE - line.intercept) / line.slope
    ensures Height(line, d) == CRITICAL_SCORE
    ensures Height(line, t) > CRITICAL_SCORE <==> t < d
  {
    DivideThenMultiply(CRITICAL_SCORE - line.intercept, line.slope);
    AboveBefore(line.slope, line.intercept, CRITICAL_SCORE, t, d);
  }

  lemma AboveBefore(a: real, b: real, level: real, t: real, d: real)
    requires a < 0.0 && a * d == level - b
    ensures a * t + b > level <==> t < d
  {
    var e := t - d;
    var product := e * a;
    assert a * t + b - level == product;
    hide *;
    SignOfProduct(e, a, product);
  }

  lemma SignOfProduct(e: real, a: real, product: real)
    requires a < 0.0 && product == e * a
    ensures product > 0.0 <==> e < 0.0
  {
    if e < 0.0 {
      SameSignProduct(e, a, product);
    } else if e > 0.0 {
      SameSignProduct(-e, a, -product);
    }
  }

  /**
   The time to failure is when the fitted line first meets the critical score: it is above it until
   then, and a zero means that it is there already.
   */
  lemma TimeToFailureIsCrossing(p: seq<DataPoint>, t: real)
    requires LinearRegression(p).Some? && AnalyzeTrend(p).timeToCritical.Some?
    ensures var line, ahead, now := LinearRegression(p).value, AnalyzeTrend(p).timeToCritical.value, p[|p| - 1].time;
            && ahead >= 0.0
            && (ahead == 0.0 <==> Height(line, now) <= 20.0)
            && (ahead > 0.0 ==> Height(line, now + ahead) == 20.0)
            && (ahead > 0.0 && t < now + ahead ==> Height(line, t) > 20.0)
  {
    var line, ahead, now := LinearRegression(p).value, AnalyzeTrend(p).timeToCritical.value, p[|p| - 1].time;
    var crossing := (CRITICAL_SCORE - line.intercept) / line.slope;
    assert line.slope < 0.0 && ahead == if crossing - now > 0.0 then crossing - now else 0.0;
    Crossing(line, t, crossing);
    Crossing(line, now, crossing);
    hide *;
    if ahead > 0.0 {
      assert now + ahead == crossing;
    }
  }

  /** On evenly spaced readings neither half of a window of ten lacks a line, so only the slopes decide. */
  lemma AccelerationComparesSlopes(p: seq<DataPoint>)
    requires EvenlySpaced(p) && |p| >= 10
    ensures var first, second := LinearRegression(p[..|p| / 2]), LinearRegression(p[|p| / 2..]);
            && first.Some? && second.Some?
            && (DetectAcceleration(p) <==> second.value.slope < first.value.slope && second.value.slope < -0.02)
  {
    SpacedRegressionExists(p[..|p| / 2]);
    SpacedRegressionExists(p[|p| / 2..]);
  }

  lemma SpacedTail(h: seq<DataPoint>, n: nat)
    requires EvenlySpaced(h)
    ensures EvenlySpaced(Tail(h, n))
  {
  }

  /** The engine's own windows are always evenly spaced, so they have a line as soon as they hold three readings. */
  lemma EngineWindowsFit(readings: seq<Reading>, window: nat, interface: string)
    ensures var recent := Tail(Entry(HistoryAfter(readings, 4 * window), interface), window);
            && (LinearRegression(recent).Some? <==> |recent| >= 3)
            && (|recent| >= 10 ==>
                  LinearRegression(recent[..|recent| / 2]).Some? && LinearRegression(recent[|recent| / 2..]).Some?)
  {
    hide LinearRegression, HistoryAfter, ScoresOf, Values, Entry, EvenlySpaced, DetectAcceleration;
    var h := Entry(HistoryAfter(readings, 4 * window), interface);
    var recent := Tail(h, window);
    HistoryHoldsLatestScores(readings, 4 * window, interface);
    SpacedTail(h, window);
    SpacedRegressionExists(recent);
    if |recent| >= 10 {
      AccelerationComparesSlopes(recent);
    }
  }

  lemma ZScoreBound(z2: real, r2: real, d2: real, n: real, squares: real)
    requires r2 > 0.0 && n > 0.0
    requires z2 * r2 == d2 && n * r2 == squares && n * d2 <= (n - 1.0) * squares
    ensures z2 <= n - 1.0
  {
    assert n * d2 == z2 * squares;
    SameSignProduct(n, r2, squares);
    CancelFactor(z2, n - 1.0, squares);
  }

  lemma ZScoreSquared(x: real, m: real, root: real, z: real)
    requires root > 0.0 && z == (x - m) / root
    ensures (z * z) * (root * root) == (x - m) * (x - m)
  {
    var e := z * root;
    assert e == x - m;
    assert e * e == (z * z) * (root * root);
  }

  lemma VarianceEquation(v: seq<real>, n: real)
    requires |v| > 0 && n == |v| as real
    ensures n * Mean(v) == Sum(v) && n * Variance(v) == SquaredDistance(v, Mean(v))
  {
    hide Sum, SquaredDistance;
    DivideThenMultiply(Sum(v), n);
    DivideThenMultiply(SquaredDistance(v, Mean(v)), n);
  }

  lemma AbsSquared(x: real)
    ensures Abs(x) * Abs(x) == x * x && Abs(x) >= 0.0
  {
  }

  /** The square of the last value's z-score is at most one less than the number of values. */
  lemma ZScoreOfLastValue(v: seq<real>, stddev: real)
    requires |v| > 0 && IsRoot(stddev, Variance(v))
    ensures var z := Abs(ZScore(v[|v| - 1], Mean(v), stddev)); z * z <= |v| as real - 1.0
  {
    var n, x, m := |v| as real, v[|v| - 1], Mean(v);
    var z := ZScore(x, m, stddev);
    assert z == if stddev < GUARD then 0.0 else (x - m) / stddev;
    AbsSquared(z);
    VarianceEquation(v, n);
    Samuelson(v, n, m);
    assert stddev * stddev == Variance(v);
    hide *;
    if stddev >= GUARD {
      ZScoreSquared(x, m, stddev, z);
      var r2 := stddev * stddev;
      SameSignProduct(stddev, stddev, r2);
      ZScoreBound(z * z, r2, (x - m) * (x - m), n, SquaredDistance(v, m));
    }
  }

  lemma SquareAtMostNine(z: real)
    requires z >= 0.0 && z * z <= 9.0
    ensures z <= 3.0
  {
    if z > 3.0 {
      SameSignProduct(z - 3.0, z + 3.0, (z - 3.0) * (z + 3.0));
    }
  }

  /** An anomaly needs eleven readings: with ten or fewer no last value strays more than three deviations. */
  lemma NoAnomalyInTenReadings(p: seq<DataPoint>, stddev: real)
    requires IsStddev(stddev, p) && |p| <= 10
    ensures 0.0 <= DetectAnomalies(p, stddev) <= 3.0
  {
    if |p| == 10 {
      ZScoreOfLastValue(Values(p), stddev);
      hide LinearRegression, Mean, Variance, ZScore;
      SquareAtMostNine(Abs(ZScore(Values(p)[9], Mean(Values(p)), stddev)));
    }
  }

  /** Eleven scores with mean 16 and deviation 19, the last of them 60 above the mean. */
  const SPIKE: seq<real> := [12.0, 8.0, 11.0, 9.0, 10.5, 9.5, 10.5, 9.5, 10.0, 10.0, 76.0]

  /** The sum of eleven values, written out. */
  lemma SumOfEleven(s: seq<real>, f: real -> real)
    requires |s| == 11
    ensures SumOf(s, f)
         == f(s[0]) + f(s[1]) + f(s[2]) + f(s[3]) + f(s[4]) + f(s[5]) + f(s[6]) + f(s[7]) + f(s[8]) + f(s[9]) + f(s[10])
  {
    SumOfNone(s[..0], f);
    hide SumOf;
    SumOfPrefix(s, 0, f);
    SumOfPrefix(s, 1, f);
    SumOfPrefix(s, 2, f);
    SumOfPrefix(s, 3, f);
    SumOfPrefix(s, 4, f);
    SumOfPrefix(s, 5, f);
    SumOfPrefix(s, 6, f);
    SumOfPrefix(s, 7, f);
    SumOfPrefix(s, 8, f);
    SumOfPrefix(s, 9, f);
    SumOfPrefix(s, 10, f);
    assert s[..11] == s;
  }

  lemma SpikeMean()
    ensures Mean(SPIKE) == 16.0
  {
    SumOfEleven(SPIKE, Identity());
    hide SumOf;
  }

  lemma SpikeVariance()
    ensures Variance(SPIKE) == 361.0
  {
    SpikeMean();
    SumOfEleven(SPIKE, SquareFrom(16.0));
    hide SumOf, Mean;
    assert SquaredDistance(SPIKE, 16.0) == 3971.0;
  }

  lemma SpikeIsAnomaly(p: seq<DataPoint>)
    requires Values(p) == SPIKE
    ensures IsStddev(19.0, p) && DetectAnomalies(p, 19.0) > 3.0
  {
    SpikeMean();
    SpikeVariance();
    assert |p| == 11 && p[10].value == 76.0;
    hide SPIKE, Mean, Variance;
    assert ZScore(76.0, 16.0, 19.0) == 60.0 / 19.0;
  }

  function ReadingsOf(interface: string, scores: seq<real>): seq<Reading> {
    if |scores| == 0 then []
    else ReadingsOf(interface, scores[..|scores| - 1]) + [Reading(interface, scores[|scores| - 1])]
  }

  lemma {:induction false} ScoresOfReadings(interface: string, scores: seq<real>)
    ensures ScoresOf(ReadingsOf(interface, scores), interface) == scores
  {
    if |scores| == 0 {
    } else {
      var init, r := ReadingsOf(interface, scores[..|scores| - 1]), Reading(interface, scores[|scores| - 1]);
      ScoresOfReadings(interface, scores[..|scores| - 1]);
      assert (init + [r])[..|init + [r]| - 1] == init;
    }
  }

  lemma ScaledZScore(value: real, mean: real, stddev: real)
    requires stddev >= 0.0000000001
    ensures Abs(ZScore(value, mean, stddev)) * stddev == Abs(value - mean)
    ensures Abs(ZScore(value, mean, stddev)) > 2.0 <==> Abs(value - mean) > 2.0 * stddev
  {
    var z, gap := ZScore(value, mean, stddev), value - mean;
    DivideThenMultiply(gap, stddev);
    assert z * stddev == gap;
    if gap >= 0.0 {
      QuotientSign(z, stddev, gap);
    } else {
      QuotientSign(-z, stddev, -gap);
    }
    hide ZScore;
    if Abs(z) > 2.0 {
      ScaleUpStrictly(2.0, Abs(z), stddev);
    } else {
      ScaleUp(Abs(z), 2.0, stddev);
    }
  }

  lemma QuotientSign(z: real, d: real, gap: real)
    requires d > 0.0 && z * d == gap && gap >= 0.0
    ensures z >= 0.0
  {
    CancelFactor(0.0, z, d);
  }

  lemma ScaleUpStrictly(a: real, b: real, c: real)
    requires a < b && c > 0.0
    ensures a * c < b * c
  {
    ProductSign(b - a, c);
  }

  /**
   The anomaly score counts how many deviations the last reading is off the mean, up or down alike,
   beyond two; it takes ten readings and a deviation above the guard.
   */
  lemma AnomalyIsDeviation(p: seq<DataPoint>, stddev: real)
    requires IsStddev(stddev, p)
    ensures var score := DetectAnomalies(p, stddev);
            if |p| < 10 || stddev < 0.0000000001 then score == 0.0
            else
              var gap := p[|p| - 1].value - Mean(Values(p));
              score * stddev == if gap > 2.0 * stddev then gap else if -gap > 2.0 * stddev then -gap else 0.0
  {
    if |p| >= 10 && stddev >= 0.0000000001 {
      hide Mean, IsStddev;
      ScaledZScore(p[|p| - 1].value, Mean(Values(p)), stddev);
      hide ZScore;
    }
  }

  /** In this history of at most `n` readings no last value counts as more than three deviations off. */
  ghost predicate NoAnomalyIn(readings: seq<Reading>, window: nat, interface: string, stddev: real, n: nat) {
    var h := Entry(HistoryAfter(readings, 4 * window), interface);
    |h| <= n && IsStddev(stddev, h) ==> DetectAnomalies(h, stddev) <= 3.0
  }

  lemma SpikeRun(window: nat, n: nat) returns (readings: seq<Reading>, interface: string)
    requires window >= 3 && n >= 11
    ensures !NoAnomalyIn(readings, window, interface, 19.0, n)
  {
    interface := "eth0";
    readings := ReadingsOf(interface, SPIKE);
    ScoresOfReadings(interface, SPIKE);
    HistoryHoldsLatestScores(readings, 4 * window, interface);
    var h := Entry(HistoryAfter(readings, 4 * window), interface);
    assert |SPIKE| == 11;
    hide SPIKE, HistoryAfter, ReadingsOf, ScoresOf;
    assert Values(h) == SPIKE;
    SpikeIsAnomaly(h);
    hide DetectAnomalies, IsStddev;
  }

  lemma QuietRun(readings: seq<Reading>, window: nat, interface: string, stddev: real, n: nat)
    requires n <= 10 || window <= 2
    ensures NoAnomalyIn(readings, window, interface, stddev, n)
  {
    HistoryHoldsLatestScores(readings, 4 * window, interface);
    hide HistoryAfter, ScoresOf, DetectAnomalies, IsStddev;
    var h := Entry(HistoryAfter(readings, 4 * window), interface);
    assert |h| == |Values(h)| <= 4 * window;
    if |h| <= n && IsStddev(stddev, h) {
      NoAnomalyInTenReadings(h, stddev);
    }
  }

  /**
   Ten is the exact limit: over every run of readings, histories of at most `n` hold no anomaly beyond
   three deviations if and only if `n` is at most ten, or the window is too small to keep eleven.
   */
  lemma AnomalyNeedsEleven(window: nat, n: nat)
    ensures (forall readings, interface, stddev :: NoAnomalyIn(readings, window, interface, stddev, n))
       <==> n <= 10 || window <= 2
  {
    if n <= 10 || window <= 2 {
      forall readings, interface, stddev ensures NoAnomalyIn(readings, window, interface, stddev, n) {
        QuietRun(readings, window, interface, stddev, n);
      }
    } else {
      var readings, interface := SpikeRun(window, n);
    }
  }

  // ---------- What a prediction promises ----------

  /** The goodness of fit is a fraction, and only a good fit counts as degrading. */
  ghost predicate SoundTrend(trend: Trend) {
    0.0 <= trend.rSquared <= 1.0 && (trend.isDegrading ==> trend.slope < -0.01 && trend.rSquared > 0.5)
  }

  /** The three fields of a combined prediction never disagree. */
  lemma CombinedConsistent(interface: string, trend: Trend, accelerating: bool, anomaly: real)
    requires SoundTrend(trend)
    ensures var p := Combined(interface, trend, accelerating, anomaly);
            && 0.0 <= p.confidence <= 1.0
            && (p.severity == NoSeverity <==> p.reason == Stable)
            && (p.severity == NoSeverity <==> p.confidence == 0.0)
            && (p.severity == Critical <==> p.reason == MultiIndicator)
            && p.severity != Low
  {
  }

  /** The severity and the reason that each combination of indicators gives, the worst and the last one naming them. */
  lemma CombinedExactly(interface: string, trend: Trend, accelerating: bool, anomaly: real)
    requires SoundTrend(trend)
    ensures var p := Combined(interface, trend, accelerating, anomaly);
            var steep := trend.isDegrading && trend.slope < -0.1;
            && p.interface == interface && p.timeToFailure == trend.timeToCritical
            && (trend.isDegrading && !accelerating && anomaly <= 3.0 ==> p.confidence == trend.rSquared / 2.0)
            && (!trend.isDegrading && accelerating && anomaly <= 3.0 ==> p.confidence == 0.3)
            && (!trend.isDegrading && !accelerating && anomaly > 3.0 ==> p.confidence == 0.4)
            && (trend.isDegrading && accelerating && anomaly <= 3.0 ==> p.confidence == trend.rSquared / 2.0 + 0.3)
            && (trend.isDegrading && !accelerating && anomaly > 3.0 ==> p.confidence == trend.rSquared / 2.0 + 0.4)
            && (!trend.isDegrading && accelerating && anomaly > 3.0 ==> p.confidence == 0.7)
            && (p.severity == Critical ==> anomaly > 2.0 && (trend.isDegrading || accelerating))
            && (p.severity == High ==> steep || accelerating)
            && (steep || accelerating ==> p.severity == High || p.severity == Critical)
            && (p.severity == Medium ==> !steep && !accelerating && (trend.isDegrading || anomaly > 3.0))
            && (p.reason == Anomaly ==> anomaly > 3.0)
            && (p.reason == AcceleratingDegradation ==> accelerating && anomaly <= 3.0)
            && (p.reason == DownwardTrend <==> trend.isDegrading && !accelerating && anomaly <= 3.0)
            && (anomaly > 3.0 && (trend.isDegrading || accelerating) ==> p.severity == Critical)
            && (anomaly <= 3.0 && !(trend.isDegrading && accelerating && anomaly > 2.0) ==> p.severity != Critical)
            && (anomaly > 2.0 && trend.isDegrading && accelerating ==>
                  (p.severity == Critical <==> anomaly > 3.0 || trend.rSquared > 0.6))
  {
  }

  /**
   At the threshold of 0.6 one indicator is never enough, and two are enough except for a decline
   that is steepening but fits its line with an R-squared below 0.6.
   */
  lemma CombinedActsExactly(interface: string, trend: Trend, accelerating: bool, anomaly: real)
    requires SoundTrend(trend)
    ensures Combined(interface, trend, accelerating, anomaly).ShouldAct(0.6)
       <==> || (anomaly > 3.0 && (trend.isDegrading || accelerating))
            || (trend.isDegrading && accelerating && trend.rSquared >= 0.6)
  {
  }

  /**
   The engine acts on an interface only with ten readings of it, and then only on two indicators;
   with exactly ten the anomaly indicator is not one of them.
   */
  lemma EngineActsExactly(readings: seq<Reading>, minSamples: nat, window: nat, interface: string, stddev: real)
    requires IsStddev(stddev, Entry(HistoryAfter(readings, 4 * window), interface))
    ensures var history := HistoryAfter(readings, 4 * window);
            var h := Entry(history, interface);
            var p := Predicted(history, minSamples, window, interface, stddev);
            var trend, accelerating := AnalyzeTrend(Tail(h, window)), DetectAcceleration(Tail(h, window));
            && 0.0 <= p.confidence <= 1.0
            && (p.severity == NoSeverity <==> p.reason == Stable)
            && (p.ShouldAct(0.6) ==> |h| >= 10 && |h| >= minSamples)
            && (p.ShouldAct(0.6) && |h| == 10 ==> trend.isDegrading && accelerating && trend.rSquared >= 0.6)
            && (|h| >= minSamples && interface in history ==>
                  (p.ShouldAct(0.6)
                   <==> || (DetectAnomalies(h, stddev) > 3.0 && (trend.isDegrading || accelerating))
                        || (trend.isDegrading && accelerating && trend.rSquared >= 0.6)))
  {
    hide AnalyzeTrend, DetectAcceleration, DetectAnomalies, HistoryAfter, IsStddev, Tail, Combined;
    var h := Entry(HistoryAfter(readings, 4 * window), interface);
    var trend, accelerating := AnalyzeTrend(Tail(h, window)), DetectAcceleration(Tail(h, window));
    TrendSound(Tail(h, window));
    FewReadings(h, window, stddev);
    CombinedConsistent(interface, trend, accelerating, DetectAnomalies(h, stddev));
    CombinedActsExactly(interface, trend, accelerating, DetectAnomalies(h, stddev));
  }

  /**
   What a prediction says in terms of the fitted line of the latest window: the time until that line meets
   the critical score, and a high severity for a steep or steepening decline that fits; below the minimum of
   samples it says nothing.
   */
  lemma EnginePredicts(readings: seq<Reading>, minSamples: nat, window: nat, interface: string, stddev: real)
    requires IsStddev(stddev, Entry(HistoryAfter(readings, 4 * window), interface))
    ensures var history := HistoryAfter(readings, 4 * window);
            var h := Entry(history, interface);
            var p := Predicted(history, minSamples, window, interface, stddev);
            var recent := Tail(h, window);
            if interface !in history || |h| < minSamples then p == Prediction(interface, None, 0.0, NoSeverity, Stable)
            else
              && p.interface == interface && p.timeToFailure == AnalyzeTrend(recent).timeToCritical
              && (LinearRegression(recent).Some? ==>
                    var line := LinearRegression(recent).value;
                    var urgent := (line.slope < -0.1 && line.rSquared > 0.5) || DetectAcceleration(recent);
                    var alone := !DetectAcceleration(recent) && DetectAnomalies(h, stddev) <= 3.0;
                    && (p.timeToFailure.Some? <==> line.slope < -0.01)
                    && (p.severity == High ==> urgent) && (urgent ==> p.severity == High || p.severity == Critical)
                    && (p.reason == DownwardTrend <==> line.slope < -0.01 && line.rSquared > 0.5 && alone))
  {
    hide AnalyzeTrend, DetectAcceleration, DetectAnomalies, HistoryAfter, IsStddev, Tail, Combined, LinearRegression;
    var h := Entry(HistoryAfter(readings, 4 * window), interface);
    var recent := Tail(h, window);
    TrendSound(recent);
    TrendIsFitted(recent);
    CombinedExactly(interface, AnalyzeTrend(recent), DetectAcceleration(recent), DetectAnomalies(h, stddev));
  }

  lemma FewReadings(h: seq<DataPoint>, window: nat, stddev: real)
    requires IsStddev(stddev, h)
    ensures |h| <= 10 ==> DetectAnomalies(h, stddev) <= 3.0
    ensures |h| < 10 ==> !DetectAcceleration(Tail(h, window)) && DetectAnomalies(h, stddev) == 0.0
  {
    hide LinearRegression;
    if |h| <= 10 {
      NoAnomalyInTenReadings(h, stddev);
    }
  }
}

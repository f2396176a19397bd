/**
 Health scores: normalisation of raw metrics, the weighted mean of the components, and
 exponential smoothing of one score towards the next.
 */
module Scoring {
  import opened RealArith

  type u8 = x: int | 0 <= x < 256

  datatype HealthScore = HealthScore(
    overall: real, rtt: real, jitter: real, loss: real, throughput: real, stability: real, failoverCandidate: bool)

  datatype Weights = Weights(rtt: u8, jitter: u8, loss: u8, throughput: u8, stability: u8)

  datatype Metrics = Metrics(rttMs: real, jitterMs: real, lossPercent: real, throughputMbps: real, stateChanges: nat)

  function Clamp(x: real, lo: real, hi: real): real {
    if x < lo then lo else if x > hi then hi else x
  }

  /** No point of the interval is nearer. */
  lemma ClampIsNearest(x: real, lo: real, hi: real, y: real)
    requires lo <= y <= hi
    ensures lo <= Clamp(x, lo, hi) <= hi
    ensures x <= y ==> x <= Clamp(x, lo, hi) <= y
    ensures y <= x ==> y <= Clamp(x, lo, hi) <= x
  {
  }

  // ---------- Normalisation ----------

  /** 100 at `ideal` or better, 0 at `worst` or worse, linear in between. */
  function NormalizeLinear(value: real, ideal: real, worst: real): real {
    if ideal == worst then 100.0
    else if ideal < worst then
      if value <= ideal then 100.0
      else if value >= worst then 0.0
      else (worst - value) / (worst - ideal) * 100.0
    else
      if value >= ideal then 100.0
      else if value <= worst then 0.0
      else (value - worst) / (ideal - worst) * 100.0
  }

  /** `a` is at least as good a value as `b` when good means close to `ideal`'s side of `worst`. */
  predicate AtLeastAsGood(a: real, b: real, ideal: real, worst: real) {
    if ideal < worst then a <= b else a >= b
  }

  lemma FractionBounds(part: real, whole: real)
    requires 0.0 < part < whole
    ensures 0.0 < part / whole * 100.0 < 100.0
  {
    var f := part / whole;
    assert f * whole == part;
    CancelFactorStrict(0.0, f, whole);
    CancelFactorStrict(f, 1.0, whole);
  }

  lemma FractionMonotone(a: real, b: real, whole: real)
    requires a <= b && whole > 0.0
    ensures a / whole * 100.0 <= b / whole * 100.0
  {
  }

  /** The score stays within 0 and 100 and reaches the ends exactly at the thresholds. */
  lemma NormalizeRange(value: real, ideal: real, worst: real)
    ensures 0.0 <= NormalizeLinear(value, ideal, worst) <= 100.0
    ensures NormalizeLinear(value, ideal, worst) == 100.0
       <==> ideal == worst || AtLeastAsGood(value, ideal, ideal, worst)
    ensures NormalizeLinear(value, ideal, worst) == 0.0 <==> ideal != worst && AtLeastAsGood(worst, value, ideal, worst)
  {
    if ideal < value < worst {
      FractionBounds(worst - value, worst - ideal);
    } else if worst < value < ideal {
      FractionBounds(value - worst, ideal - worst);
    }
  }

  /** A value at least as good never scores less. */
  lemma NormalizeMonotone(a: real, b: real, ideal: real, worst: real)
    requires AtLeastAsGood(a, b, ideal, worst)
    ensures NormalizeLinear(a, ideal, worst) >= NormalizeLinear(b, ideal, worst)
  {
    NormalizeRange(a, ideal, worst);
    NormalizeRange(b, ideal, worst);
    if ideal < worst {
      FractionMonotone(worst - b, worst - a, worst - ideal);
    } else if worst < ideal {
      FractionMonotone(b - worst, a - worst, ideal - worst);
    }
  }

  lemma FractionOf(f: real, span: real)
    requires span != 0.0
    ensures f * span / span * 100.0 == 100.0 * f
  {
    DivideThenMultiply(f * span, span);
    var q := f * span / span;
    assert span * (q - f) == 0.0;
    hide *;
    if q != f {
      OnlyZeroFactor(span, q - f);
    }
  }

  lemma OnlyZeroFactor(a: real, b: real)
    requires a != 0.0 && a * b == 0.0
    ensures b == 0.0
  {
  }

  lemma BetweenThem(f: real, span: real)
    requires 0.0 <= f <= 1.0 && span > 0.0
    ensures 0.0 <= f * span <= span
  {
    NonNegativeProduct(f, span);
    ScaleUp(f, 1.0, span);
  }

  lemma NormalizeLower(f: real, ideal: real, worst: real, value: real)
    requires ideal < worst && 0.0 <= f <= 1.0 && value == worst - f * (worst - ideal)
    ensures NormalizeLinear(value, ideal, worst) == 100.0 * f
  {
    BetweenThem(f, worst - ideal);
    FractionOf(f, worst - ideal);
    FractionEnds(f, worst - ideal);
  }

  lemma NormalizeHigher(f: real, ideal: real, worst: real, value: real)
    requires ideal > worst && 0.0 <= f <= 1.0 && value == worst + f * (ideal - worst)
    ensures NormalizeLinear(value, ideal, worst) == 100.0 * f
  {
    BetweenThem(f, ideal - worst);
    FractionOf(f, ideal - worst);
    FractionEnds(f, ideal - worst);
  }

  lemma FractionEnds(f: real, span: real)
    requires span > 0.0 && 0.0 <= f <= 1.0
    ensures f * span <= 0.0 ==> f == 0.0
    ensures f * span >= span ==> f == 1.0
  {
    if f * span <= 0.0 {
      CancelFactor(f, 0.0, span);
    }
    if f * span >= span {
      CancelFactor(1.0, f, span);
    }
  }

  /** Between the thresholds the score is the fraction of the way from the worst to the ideal value. */
  lemma NormalizeIsLinear(f: real, ideal: real, worst: real)
    requires ideal != worst && 0.0 <= f <= 1.0
    ensures NormalizeLinear(worst + f * (ideal - worst), ideal, worst) == 100.0 * f
  {
    var value := worst + f * (ideal - worst);
    if ideal < worst {
      assert f * (ideal - worst) == -(f * (worst - ideal));
      hide *;
      NormalizeLower(f, ideal, worst, value);
    } else {
      hide *;
      NormalizeHigher(f, ideal, worst, value);
    }
  }

  // ---------- The weighted mean ----------

  function TotalWeight(w: Weights): nat {
    w.rtt + w.jitter + w.loss + w.throughput + w.stability
  }

  /** The sum as the code adds it up, in eight bits; a build with overflow checks would stop instead of wrapping. */
  function WrappedWeight(w: Weights): u8 {
    TotalWeight(w) % 256
  }

  function Term(score: real, weight: real): real {
    score * weight
  }

  function WeightedSum(rtt: real, jitter: real, loss: real, throughput: real, stability: real, w: Weights): real {
    Term(rtt, w.rtt as real) + Term(jitter, w.jitter as real) + Term(loss, w.loss as real)
    + Term(throughput, w.throughput as real) + Term(stability, w.stability as real)
  }

  function Overall(sum: real, total: real): real
    requires total != 0.0
  {
    Clamp(sum / total, 0.0, 100.0)
  }

  function Compute(rtt: real, jitter: real, loss: real, throughput: real, stability: real, w: Weights): HealthScore {
    if WrappedWeight(w) == 0 then HealthScore(0.0, rtt, jitter, loss, throughput, stability, false)
    else
      HealthScore(
        Overall(WeightedSum(rtt, jitter, loss, throughput, stability, w), WrappedWeight(w) as real),
        Clamp(rtt, 0.0, 100.0), Clamp(jitter, 0.0, 100.0), Clamp(loss, 0.0, 100.0),
        Clamp(throughput, 0.0, 100.0), Clamp(stability, 0.0, 100.0), false)
  }

  function ComputeHealth(m: Metrics, w: Weights): HealthScore {
    Compute(
      NormalizeLinear(m.rttMs, 10.0, 500.0),
      NormalizeLinear(m.jitterMs, 1.0, 100.0),
      NormalizeLinear(m.lossPercent, 0.0, 10.0),
      NormalizeLinear(m.throughputMbps, 1000.0, 1.0),
      NormalizeLinear(m.stateChanges as real, 0.0, 10.0),
      w)
  }

  predicate Percent(x: real) {
    0.0 <= x <= 100.0
  }

  predicate InRange(s: HealthScore) {
    && Percent(s.overall) && Percent(s.rtt) && Percent(s.jitter)
    && Percent(s.loss) && Percent(s.throughput) && Percent(s.stability)
  }

  /** `overall` is the weighted mean of the components; with no weight at all any value passes. */
  predicate IsWeightedMean(s: HealthScore, w: Weights) {
    s.overall * (w.rtt as int + w.jitter + w.loss + w.throughput + w.stability) as real
    == s.rtt * w.rtt as real + s.jitter * w.jitter as real + s.loss * w.loss as real
     + s.throughput * w.throughput as real + s.stability * w.stability as real
  }

  predicate BalancesTerms(s: HealthScore, w: Weights) {
    Term(s.overall, TotalWeight(w) as real) == WeightedSum(s.rtt, s.jitter, s.loss, s.throughput, s.stability, w)
  }

  lemma MeanBalances(s: HealthScore, w: Weights)
    ensures IsWeightedMean(s, w) <==> BalancesTerms(s, w)
  {
  }

  lemma TermBounds(x: real, w: real)
    requires Percent(x) && w >= 0.0
    ensures 0.0 <= Term(x, w) <= 100.0 * w
  {
    NonNegativeProduct(x, w);
    ScaleUp(x, 100.0, w);
  }

  lemma WeightedSumBounds(rtt: real, jitter: real, loss: real, throughput: real, stability: real, w: Weights)
    requires Percent(rtt) && Percent(jitter) && Percent(loss) && Percent(throughput) && Percent(stability)
    ensures 0.0 <= WeightedSum(rtt, jitter, loss, throughput, stability, w) <= 100.0 * TotalWeight(w) as real
  {
    hide Term, Percent;
    TermBounds(rtt, w.rtt as real);
    TermBounds(jitter, w.jitter as real);
    TermBounds(loss, w.loss as real);
    TermBounds(throughput, w.throughput as real);
    TermBounds(stability, w.stability as real);
  }

  lemma OverallExact(sum: real, total: real)
    requires total > 0.0 && 0.0 <= sum <= 100.0 * total
    ensures Percent(Overall(sum, total)) && Term(Overall(sum, total), total) == sum
  {
    var q := sum / total;
    assert q * total == sum;
    CancelFactor(0.0, q, total);
    CancelFactor(q, 100.0, total);
  }

  lemma NoTerm(x: real, w: u8)
    requires w == 0
    ensures Term(x, w as real) == 0.0
  {
  }

  lemma ZeroEach(w: Weights)
    requires TotalWeight(w) == 0
    ensures w.rtt == 0 && w.jitter == 0 && w.loss == 0 && w.throughput == 0 && w.stability == 0
  {
  }

  lemma ZeroWeights(rtt: real, jitter: real, loss: real, throughput: real, stability: real, w: Weights)
    requires TotalWeight(w) == 0
    ensures WeightedSum(rtt, jitter, loss, throughput, stability, w) == 0.0
  {
    ZeroEach(w);
    SumOfNoTerms(rtt, jitter, loss, throughput, stability, w);
  }

  lemma SumOfNoTerms(rtt: real, jitter: real, loss: real, throughput: real, stability: real, w: Weights)
    requires w.rtt == 0 && w.jitter == 0 && w.loss == 0 && w.throughput == 0 && w.stability == 0
    ensures WeightedSum(rtt, jitter, loss, throughput, stability, w) == 0.0
  {
    hide Term;
    NoTerm(rtt, w.rtt);
    NoTerm(jitter, w.jitter);
    NoTerm(loss, w.loss);
    NoTerm(throughput, w.throughput);
    NoTerm(stability, w.stability);
  }

  /** Whatever the weights, even ones that wrap, every field of a computed score is a percentage. */
  lemma ComputeInRange(rtt: real, jitter: real, loss: real, throughput: real, stability: real, w: Weights)
    requires Percent(rtt) && Percent(jitter) && Percent(loss) && Percent(throughput) && Percent(stability)
    ensures var s := Compute(rtt, jitter, loss, throughput, stability, w);
            InRange(s) && s == HealthScore(s.overall, rtt, jitter, loss, throughput, stability, false)
  {
    hide WeightedSum;
  }

  lemma Unwrapped(w: Weights)
    requires TotalWeight(w) <= 255
    ensures WrappedWeight(w) == TotalWeight(w)
  {
  }

  /** Weights that fit eight bits give the weighted mean of the components. */
  lemma ComputeIsWeightedMean(rtt: real, jitter: real, loss: real, throughput: real, stability: real, w: Weights)
    requires Percent(rtt) && Percent(jitter) && Percent(loss) && Percent(throughput) && Percent(stability)
    requires TotalWeight(w) <= 255
    ensures IsWeightedMean(Compute(rtt, jitter, loss, throughput, stability, w), w)
  {
    MeanBalances(Compute(rtt, jitter, loss, throughput, stability, w), w);
    hide WeightedSum, Overall, Term, TotalWeight, WrappedWeight, IsWeightedMean;
    Unwrapped(w);
    ComputeInRange(rtt, jitter, loss, throughput, stability, w);
    if TotalWeight(w) == 0 {
      ZeroWeights(rtt, jitter, loss, throughput, stability, w);
      NoTerm(0.0, 0);
    } else {
      WeightedSumBounds(rtt, jitter, loss, throughput, stability, w);
      OverallExact(WeightedSum(rtt, jitter, loss, throughput, stability, w), TotalWeight(w) as real);
    }
  }

  lemma EvenSum(w: Weights, x: real)
    ensures WeightedSum(x, x, x, x, x, w) == x * TotalWeight(w) as real
  {
    var a, b, c, d, e := w.rtt as real, w.jitter as real, w.loss as real, w.throughput as real, w.stability as real;
    assert TotalWeight(w) as real == a + b + c + d + e;
    hide TotalWeight;
    assert x * (a + b + c + d + e) == x * a + x * b + x * c + x * d + x * e;
  }

  lemma WrappedOverall(total: real, wrapped: real)
    requires 0.0 < wrapped < total
    ensures Overall(50.0 * total, wrapped) > 50.0
  {
    var q := 50.0 * total / wrapped;
    DivideThenMultiply(50.0 * total, wrapped);
    assert q * wrapped == 50.0 * total;
    CancelFactorStrict(50.0, q, wrapped);
  }

  lemma WrappedIsLess(w: Weights)
    requires TotalWeight(w) > 255
    ensures WrappedWeight(w) < TotalWeight(w)
  {
  }

  lemma SkewedOverall(w: Weights)
    requires TotalWeight(w) > 255
    ensures Compute(50.0, 50.0, 50.0, 50.0, 50.0, w).overall != 50.0
  {
    EvenSum(w, 50.0);
    WrappedIsLess(w);
    hide WeightedSum, Overall, WrappedWeight, TotalWeight;
    if WrappedWeight(w) != 0 {
      WrappedOverall(TotalWeight(w) as real, WrappedWeight(w) as real);
    }
  }

  lemma OnlyEvenMean(x: real, total: real)
    requires total > 0.0 && Term(x, total) == 50.0 * total
    ensures x == 50.0
  {
    CancelFactor(x, 50.0, total);
    CancelFactor(50.0, x, total);
  }

  /** Once the weights no longer fit, a score whose components are all 50 is not 50. */
  lemma WrappingSkewsScores(w: Weights)
    requires TotalWeight(w) > 255
    ensures !IsWeightedMean(Compute(50.0, 50.0, 50.0, 50.0, 50.0, w), w)
  {
    MeanBalances(Compute(50.0, 50.0, 50.0, 50.0, 50.0, w), w);
    hide WeightedSum, Compute, TotalWeight, Term, IsWeightedMean;
    EvenSum(w, 50.0);
    ComputeInRange(50.0, 50.0, 50.0, 50.0, 50.0, w);
    SkewedOverall(w);
    var s := Compute(50.0, 50.0, 50.0, 50.0, 50.0, w);
    if IsWeightedMean(s, w) {
      OnlyEvenMean(s.overall, TotalWeight(w) as real);
    }
  }

  /** The documented promise that weights are normalised holds for every score exactly when they fit eight bits. */
  lemma WeightsNormalisedExactly(w: Weights)
    ensures (forall rtt, jitter, loss, throughput, stability ::
               Percent(rtt) && Percent(jitter) && Percent(loss) && Percent(throughput) && Percent(stability)
               ==> IsWeightedMean(Compute(rtt, jitter, loss, throughput, stability, w), w))
       <==> TotalWeight(w) <= 255
  {
    if TotalWeight(w) <= 255 {
      forall rtt, jitter, loss, throughput, stability
        | Percent(rtt) && Percent(jitter) && Percent(loss) && Percent(throughput) && Percent(stability)
      {
        ComputeIsWeightedMean(rtt, jitter, loss, throughput, stability, w);
      }
    } else {
      WrappingSkewsScores(w);
      hide Compute, IsWeightedMean;
      assert Percent(50.0);
    }
  }

  /** Every measurement scores within 0 and 100, and is the weighted mean of its normalised parts. */
  lemma ComputeHealthSound(m: Metrics, w: Weights)
    ensures InRange(ComputeHealth(m, w))
    ensures TotalWeight(w) <= 255 ==> IsWeightedMean(ComputeHealth(m, w), w)
  {
    NormalizeRange(m.rttMs, 10.0, 500.0);
    NormalizeRange(m.jitterMs, 1.0, 100.0);
    NormalizeRange(m.lossPercent, 0.0, 10.0);
    NormalizeRange(m.throughputMbps, 1000.0, 1.0);
    NormalizeRange(m.stateChanges as real, 0.0, 10.0);
    var rtt, jitter := NormalizeLinear(m.rttMs, 10.0, 500.0), NormalizeLinear(m.jitterMs, 1.0, 100.0);
    var loss := NormalizeLinear(m.lossPercent, 0.0, 10.0);
    var throughput := NormalizeLinear(m.throughputMbps, 1000.0, 1.0);
    var stability := NormalizeLinear(m.stateChanges as real, 0.0, 10.0);
    hide NormalizeLinear, Compute, IsWeightedMean;
    ComputeInRange(rtt, jitter, loss, throughput, stability, w);
    if TotalWeight(w) <= 255 {
      ComputeIsWeightedMean(rtt, jitter, loss, throughput, stability, w);
    }
  }

  /**
   Each metric fills its own field, in proportion: a fraction `f` of the way from the worst to the ideal
   value scores `100 * f`.
   */
  lemma ComponentsByMetric(m: Metrics, w: Weights, f: real)
    requires 0.0 <= f <= 1.0
    ensures m.rttMs == 500.0 - 490.0 * f ==> ComputeHealth(m, w).rtt == 100.0 * f
    ensures m.jitterMs == 100.0 - 99.0 * f ==> ComputeHealth(m, w).jitter == 100.0 * f
    ensures m.lossPercent == 10.0 - 10.0 * f ==> ComputeHealth(m, w).loss == 100.0 * f
    ensures m.throughputMbps == 1.0 + 999.0 * f ==> ComputeHealth(m, w).throughput == 100.0 * f
    ensures m.stateChanges as real == 10.0 - 10.0 * f ==> ComputeHealth(m, w).stability == 100.0 * f
  {
    ComponentsAre(m, w);
    NormalizeIsLinear(f, 10.0, 500.0);
    NormalizeIsLinear(f, 1.0, 100.0);
    NormalizeIsLinear(f, 0.0, 10.0);
    NormalizeIsLinear(f, 1000.0, 1.0);
    hide NormalizeLinear, ComputeHealth;
  }

  lemma ComponentsAre(m: Metrics, w: Weights)
    ensures ComputeHealth(m, w).rtt == NormalizeLinear(m.rttMs, 10.0, 500.0)
    ensures ComputeHealth(m, w).jitter == NormalizeLinear(m.jitterMs, 1.0, 100.0)
    ensures ComputeHealth(m, w).loss == NormalizeLinear(m.lossPercent, 0.0, 10.0)
    ensures ComputeHealth(m, w).throughput == NormalizeLinear(m.throughputMbps, 1000.0, 1.0)
    ensures ComputeHealth(m, w).stability == NormalizeLinear(m.stateChanges as real, 0.0, 10.0)
  {
    NormalizeRange(m.rttMs, 10.0, 500.0);
    NormalizeRange(m.jitterMs, 1.0, 100.0);
    NormalizeRange(m.lossPercent, 0.0, 10.0);
    NormalizeRange(m.throughputMbps, 1000.0, 1.0);
    NormalizeRange(m.stateChanges as real, 0.0, 10.0);
    hide NormalizeLinear, WeightedSum, WrappedWeight, Overall;
  }

  /** Beyond its thresholds a metric scores full marks or nothing. */
  lemma ComponentsBeyond(m: Metrics, w: Weights)
    ensures m.rttMs <= 10.0 <==> ComputeHealth(m, w).rtt == 100.0
    ensures m.rttMs >= 500.0 <==> ComputeHealth(m, w).rtt == 0.0
    ensures m.jitterMs <= 1.0 <==> ComputeHealth(m, w).jitter == 100.0
    ensures m.jitterMs >= 100.0 <==> ComputeHealth(m, w).jitter == 0.0
    ensures m.lossPercent <= 0.0 <==> ComputeHealth(m, w).loss == 100.0
    ensures m.lossPercent >= 10.0 <==> ComputeHealth(m, w).loss == 0.0
    ensures m.throughputMbps >= 1000.0 <==> ComputeHealth(m, w).throughput == 100.0
    ensures m.throughputMbps <= 1.0 <==> ComputeHealth(m, w).throughput == 0.0
    ensures m.stateChanges == 0 <==> ComputeHealth(m, w).stability == 100.0
    ensures m.stateChanges >= 10 <==> ComputeHealth(m, w).stability == 0.0
  {
    ComponentsAre(m, w);
    NormalizeRange(m.rttMs, 10.0, 500.0);
    NormalizeRange(m.jitterMs, 1.0, 100.0);
    NormalizeRange(m.lossPercent, 0.0, 10.0);
    NormalizeRange(m.throughputMbps, 1000.0, 1.0);
    NormalizeRange(m.stateChanges as real, 0.0, 10.0);
    hide NormalizeLinear, ComputeHealth;
  }

  lemma OverallMonotone(a: real, b: real, total: real)
    requires a <= b && total > 0.0
    ensures Overall(a, total) <= Overall(b, total)
  {
    var p, q := a / total, b / total;
    assert p * total == a && q * total == b;
    CancelFactor(p, q, total);
  }

  lemma TermMonotone(x: real, y: real, w: real)
    requires x <= y && w >= 0.0
    ensures Term(x, w) <= Term(y, w)
  {
    ScaleUp(x, y, w);
  }

  lemma WeightedSumMonotone(a: HealthScore, b: HealthScore, w: Weights)
    requires a.rtt <= b.rtt && a.jitter <= b.jitter && a.loss <= b.loss
    requires a.throughput <= b.throughput && a.stability <= b.stability
    ensures WeightedSum(a.rtt, a.jitter, a.loss, a.throughput, a.stability, w)
         <= WeightedSum(b.rtt, b.jitter, b.loss, b.throughput, b.stability, w)
  {
    hide Term;
    TermMonotone(a.rtt, b.rtt, w.rtt as real);
    TermMonotone(a.jitter, b.jitter, w.jitter as real);
    TermMonotone(a.loss, b.loss, w.loss as real);
    TermMonotone(a.throughput, b.throughput, w.throughput as real);
    TermMonotone(a.stability, b.stability, w.stability as real);
  }

  /** A measurement that is no worse in any respect never scores lower. */
  lemma ComputeHealthMonotone(a: Metrics, b: Metrics, w: Weights)
    requires a.rttMs >= b.rttMs && a.jitterMs >= b.jitterMs && a.lossPercent >= b.lossPercent
    requires a.throughputMbps <= b.throughputMbps && a.stateChanges >= b.stateChanges
    ensures ComputeHealth(a, w).overall <= ComputeHealth(b, w).overall
  {
    NormalizeMonotone(b.rttMs, a.rttMs, 10.0, 500.0);
    NormalizeMonotone(b.jitterMs, a.jitterMs, 1.0, 100.0);
    NormalizeMonotone(b.lossPercent, a.lossPercent, 0.0, 10.0);
    NormalizeMonotone(b.throughputMbps, a.throughputMbps, 1000.0, 1.0);
    NormalizeMonotone(b.stateChanges as real, a.stateChanges as real, 0.0, 10.0);
    var x := HealthScore(0.0, NormalizeLinear(a.rttMs, 10.0, 500.0), NormalizeLinear(a.jitterMs, 1.0, 100.0),
                         NormalizeLinear(a.lossPercent, 0.0, 10.0), NormalizeLinear(a.throughputMbps, 1000.0, 1.0),
                         NormalizeLinear(a.stateChanges as real, 0.0, 10.0), false);
    var y := HealthScore(0.0, NormalizeLinear(b.rttMs, 10.0, 500.0), NormalizeLinear(b.jitterMs, 1.0, 100.0),
                         NormalizeLinear(b.lossPercent, 0.0, 10.0), NormalizeLinear(b.throughputMbps, 1000.0, 1.0),
                         NormalizeLinear(b.stateChanges as real, 0.0, 10.0), false);
    hide NormalizeLinear, WeightedSum, Overall;
    WeightedSumMonotone(x, y, w);
    if WrappedWeight(w) != 0 {
      OverallMonotone(WeightedSum(x.rtt, x.jitter, x.loss, x.throughput, x.stability, w),
                      WeightedSum(y.rtt, y.jitter, y.loss, y.throughput, y.stability, w), WrappedWeight(w) as real);
    }
  }

  // ---------- Smoothing ----------

  function Blend(current: real, previous: real, alpha: real): real {
    current * alpha + previous * (1.0 - alpha)
  }

  function Ema(current: HealthScore, previous: HealthScore, alpha: real): HealthScore {
    var a := Clamp(alpha, 0.0, 1.0);
    HealthScore(
      Blend(current.overall, previous.overall, a),
      Blend(current.rtt, previous.rtt, a),
      Blend(current.jitter, previous.jitter, a),
      Blend(current.loss, previous.loss, a),
      Blend(current.throughput, previous.throughput, a),
      Blend(current.stability, previous.stability, a),
      current.failoverCandidate)
  }

  predicate ExceedsHysteresis(a: HealthScore, b: HealthScore, threshold: u8) {
    var diff := if a.overall >= b.overall then a.overall - b.overall else b.overall - a.overall;
    diff > threshold as real
  }

  /** A smoothed value lies between the two it blends. */
  lemma BlendBounds(x: real, y: real, a: real, lo: real, hi: real)
    requires 0.0 <= a <= 1.0 && lo <= x <= hi && lo <= y <= hi
    ensures lo <= Blend(x, y, a) <= hi
  {
    BlendAtLeast(x, y, a, lo);
    BlendAtMost(x, y, a, hi, hi);
  }

  lemma BlendAtLeast(x: real, y: real, a: real, lo: real)
    requires 0.0 <= a <= 1.0 && lo <= x && lo <= y
    ensures lo <= Blend(x, y, a)
  {
    var p, q := (x - lo) * a, (y - lo) * (1.0 - a);
    NonNegativeProduct(x - lo, a);
    NonNegativeProduct(y - lo, 1.0 - a);
    assert x * a + y * (1.0 - a) == p + q + lo;
  }

  lemma BlendAtMost(x: real, y: real, a: real, hi: real, hi': real)
    requires 0.0 <= a <= 1.0 && x <= hi && y <= hi'
    ensures Blend(x, y, a) <= hi * a + hi' * (1.0 - a)
  {
    var p, q := (hi - x) * a, (hi' - y) * (1.0 - a);
    NonNegativeProduct(hi - x, a);
    NonNegativeProduct(hi' - y, 1.0 - a);
    assert x * a + y * (1.0 - a) == hi * a + hi' * (1.0 - a) - p - q;
  }

  lemma BlendTerm(x: real, y: real, a: real, w: real)
    ensures Term(Blend(x, y, a), w) == Blend(Term(x, w), Term(y, w), a)
  {
  }

  lemma BlendSum(a: real, x1: real, y1: real, x2: real, y2: real, x3: real, y3: real, x4: real, y4: real, x5: real,
                 y5: real)
    ensures Blend(x1, y1, a) + Blend(x2, y2, a) + Blend(x3, y3, a) + Blend(x4, y4, a) + Blend(x5, y5, a)
         == Blend(x1 + x2 + x3 + x4 + x5, y1 + y2 + y3 + y4 + y5, a)
  {
  }

  lemma EmaInRange(current: HealthScore, previous: HealthScore, alpha: real)
    requires InRange(current) && InRange(previous)
    ensures InRange(Ema(current, previous, alpha))
  {
    var a := Clamp(alpha, 0.0, 1.0);
    hide Blend;
    BlendBounds(current.overall, previous.overall, a, 0.0, 100.0);
    BlendBounds(current.rtt, previous.rtt, a, 0.0, 100.0);
    BlendBounds(current.jitter, previous.jitter, a, 0.0, 100.0);
    BlendBounds(current.loss, previous.loss, a, 0.0, 100.0);
    BlendBounds(current.throughput, previous.throughput, a, 0.0, 100.0);
    BlendBounds(current.stability, previous.stability, a, 0.0, 100.0);
  }

  /** Smoothing two weighted means gives the weighted mean of the smoothed components. */
  lemma EmaKeepsWeightedMean(current: HealthScore, previous: HealthScore, alpha: real, w: Weights)
    requires IsWeightedMean(current, w) && IsWeightedMean(previous, w)
    ensures IsWeightedMean(Ema(current, previous, alpha), w)
  {
    var a, c, p := Clamp(alpha, 0.0, 1.0), current, previous;
    var total := TotalWeight(w) as real;
    MeanBalances(c, w);
    MeanBalances(p, w);
    MeanBalances(Ema(c, p, alpha), w);
    hide Blend, Term, IsWeightedMean, TotalWeight;
    BlendTerm(c.overall, p.overall, a, total);
    BlendTerm(c.rtt, p.rtt, a, w.rtt as real);
    BlendTerm(c.jitter, p.jitter, a, w.jitter as real);
    BlendTerm(c.loss, p.loss, a, w.loss as real);
    BlendTerm(c.throughput, p.throughput, a, w.throughput as real);
    BlendTerm(c.stability, p.stability, a, w.stability as real);
    BlendSum(a, Term(c.rtt, w.rtt as real), Term(p.rtt, w.rtt as real),
             Term(c.jitter, w.jitter as real), Term(p.jitter, w.jitter as real),
             Term(c.loss, w.loss as real), Term(p.loss, w.loss as real),
             Term(c.throughput, w.throughput as real), Term(p.throughput, w.throughput as real),
             Term(c.stability, w.stability as real), Term(p.stability, w.stability as real));
  }
}

/**
 The per-interface smoothing state of the health monitor, over any run of probes.
 */
module Monitoring {
  import opened Common
  import opened RealArith
  import opened Scoring

  datatype HealthUpdate = HealthUpdate(
    interface: string, previousScore: real, newScore: HealthScore, smoothedScore: HealthScore, failoverCandidate: bool)

  /** The smoothed score a raw one leads to: the raw one itself the first time. */
  function Smoothed(scores: map<string, HealthScore>, interface: string, raw: HealthScore, alpha: real): HealthScore {
    if interface in scores then Ema(raw, scores[interface], alpha) else raw
  }

  class HealthMonitor {
    const emaAlpha: real
    const hysteresisThreshold: u8
    const weights: Weights
    var previousScores: map<string, HealthScore>

    constructor (emaAlpha: real, hysteresisThreshold: u8, weights: Weights)
      ensures this.emaAlpha == emaAlpha && this.hysteresisThreshold == hysteresisThreshold && this.weights == weights
      ensures previousScores == map[]
    {
      this.emaAlpha, this.hysteresisThreshold, this.weights := emaAlpha, hysteresisThreshold, weights;
      previousScores := map[];
    }

    /**
     One probe. `probe` is what the measurement returned, if anything. The candidate flag compares
     the new score with the one just stored, which is the same score.
     */
    method ProbeInterface(interface: string, linkUp: bool, probe: Option<Metrics>)
      returns (update: Option<HealthUpdate>)
      modifies this`previousScores
      ensures update.Some? <==> linkUp && probe.Some?
      ensures update == None ==> previousScores == old(previousScores)
      ensures update.Some? ==>
                var raw := ComputeHealth(probe.value, weights);
                var smoothed := Smoothed(old(previousScores), interface, raw, emaAlpha);
                var flag := SentFlag(old(previousScores), interface, raw, emaAlpha, hysteresisThreshold);
                && previousScores == old(previousScores)[interface := smoothed]
                && update.value == HealthUpdate(interface, smoothed.overall, raw, smoothed, flag)
                && !update.value.failoverCandidate
    {
      if !linkUp || probe == None {
        return None;
      }
      var raw := ComputeHealth(probe.value, weights);
      var smoothed;
      if interface in previousScores {
        smoothed := Ema(raw, previousScores[interface], emaAlpha);
        previousScores := previousScores[interface := smoothed];
      } else {
        previousScores := previousScores[interface := raw];
        smoothed := raw;
      }
      var candidate := false;
      if interface in previousScores {
        candidate := ExceedsHysteresis(smoothed, previousScores[interface], hysteresisThreshold);
      }
      update := Some(HealthUpdate(interface, smoothed.overall, raw, smoothed, candidate));
    }
  }

  // ---------- Runs of probes ----------

  datatype Probe = Probe(interface: string, metrics: Metrics)

  function ScoresAfter(probes: seq<Probe>, w: Weights, alpha: real): map<string, HealthScore> {
    if |probes| == 0 then map[]
    else
      var before, p := ScoresAfter(probes[..|probes| - 1], w, alpha), probes[|probes| - 1];
      before[p.interface := Smoothed(before, p.interface, ComputeHealth(p.metrics, w), alpha)]
  }

  /** The raw scores of one interface, in order. */
  function RawScores(probes: seq<Probe>, w: Weights, interface: string): seq<HealthScore> {
    if |probes| == 0 then []
    else
      var p := probes[|probes| - 1];
      RawScores(probes[..|probes| - 1], w, interface)
      + (if p.interface == interface then [ComputeHealth(p.metrics, w)] else [])
  }

  /** In every reachable state all stored fields are percentages and each `overall` is the mean of its components. */
  lemma {:induction false} StoredScoresSound(probes: seq<Probe>, w: Weights, alpha: real, interface: string)
    ensures interface in ScoresAfter(probes, w, alpha) ==>
              && InRange(ScoresAfter(probes, w, alpha)[interface])
              && (TotalWeight(w) <= 255 ==> IsWeightedMean(ScoresAfter(probes, w, alpha)[interface], w))
  {
    hide ComputeHealth, Ema, InRange, IsWeightedMean;
    if |probes| == 0 {
    } else {
      var before, p := ScoresAfter(probes[..|probes| - 1], w, alpha), probes[|probes| - 1];
      StoredScoresSound(probes[..|probes| - 1], w, alpha, interface);
      if p.interface == interface {
        var raw := ComputeHealth(p.metrics, w);
        ComputeHealthSound(p.metrics, w);
        if interface in before {
          EmaInRange(raw, before[interface], alpha);
          if TotalWeight(w) <= 255 {
            EmaKeepsWeightedMean(raw, before[interface], alpha, w);
          }
        }
      }
    }
  }

  /** One field smoothed from `start` through a sequence of raw values. */
  function EmaFrom(start: real, raw: seq<real>, a: real): real {
    if |raw| == 0 then start else Blend(raw[|raw| - 1], EmaFrom(start, raw[..|raw| - 1], a), a)
  }

  datatype Field = OverallField | RttField | JitterField | LossField | ThroughputField | StabilityField

  function Get(s: HealthScore, f: Field): real {
    match f
    case OverallField => s.overall
    case RttField => s.rtt
    case JitterField => s.jitter
    case LossField => s.loss
    case ThroughputField => s.throughput
    case StabilityField => s.stability
  }

  function FieldsOf(scores: seq<HealthScore>, f: Field): (r: seq<real>)
    ensures |r| == |scores| && forall i :: 0 <= i < |scores| ==> r[i] == Get(scores[i], f)
  {
    seq(|scores|, i requires 0 <= i < |scores| => Get(scores[i], f))
  }

  lemma EmaByField(current: HealthScore, previous: HealthScore, alpha: real, f: Field)
    ensures Get(Ema(current, previous, alpha), f) == Blend(Get(current, f), Get(previous, f), Clamp(alpha, 0.0, 1.0))
    ensures Ema(current, previous, alpha).failoverCandidate == current.failoverCandidate
  {
    hide Blend;
  }

  /**
   From any point of a run on, every field of an interface's stored score is the smoothing of the raw
   values of its own later probes, however they interleave with others.
   */
  lemma {:induction false} StoredFromHereOn(
    pre: seq<Probe>, later: seq<Probe>, w: Weights, alpha: real, interface: string, f: Field)
    requires interface in ScoresAfter(pre, w, alpha)
    ensures interface in ScoresAfter(pre + later, w, alpha)
    ensures Get(ScoresAfter(pre + later, w, alpha)[interface], f)
         == EmaFrom(Get(ScoresAfter(pre, w, alpha)[interface], f), FieldsOf(RawScores(later, w, interface), f),
                    Clamp(alpha, 0.0, 1.0))
  {
    hide ComputeHealth, Blend, Ema, Get;
    if |later| == 0 {
      assert pre + later == pre;
    } else {
      var init, p := later[..|later| - 1], later[|later| - 1];
      assert (pre + later)[..|pre + later| - 1] == pre + init;
      StoredFromHereOn(pre, init, w, alpha, interface, f);
      var raw, was := RawScores(later, w, interface), RawScores(init, w, interface);
      if p.interface == interface {
        EmaByField(ComputeHealth(p.metrics, w), ScoresAfter(pre + init, w, alpha)[interface], alpha, f);
        assert raw == was + [ComputeHealth(p.metrics, w)];
        assert FieldsOf(raw, f)[..|raw| - 1] == FieldsOf(was, f);
      } else {
        assert raw == was;
      }
    }
  }

  lemma {:induction false} FirstProbe(probes: seq<Probe>, w: Weights, interface: string) returns (k: nat)
    requires RawScores(probes, w, interface) != []
    ensures k < |probes| && probes[k].interface == interface && RawScores(probes[..k], w, interface) == []
    ensures RawScores(probes, w, interface)
         == [ComputeHealth(probes[k].metrics, w)] + RawScores(probes[k + 1..], w, interface)
  {
    var init, p := probes[..|probes| - 1], probes[|probes| - 1];
    assert probes == init + [p];
    RawScoresSnoc(init, p, w, interface);
    if RawScores(init, w, interface) == [] {
      k := |init|;
      assert probes[..k] == init && RawScores(probes[k + 1..], w, interface) == [];
      hide *;
    } else {
      k := FirstProbe(init, w, interface);
      FirstStays(init, p, k, w, interface);
      hide *;
      assert probes[..k] == init[..k] && probes[k] == init[k];
    }
  }

  lemma FirstStays(init: seq<Probe>, p: Probe, k: nat, w: Weights, interface: string)
    requires k < |init|
    requires RawScores(init, w, interface)
          == [ComputeHealth(init[k].metrics, w)] + RawScores(init[k + 1..], w, interface)
    ensures RawScores(init + [p], w, interface)
         == [ComputeHealth(init[k].metrics, w)] + RawScores((init + [p])[k + 1..], w, interface)
  {
    hide *;
    RawScoresSnoc(init, p, w, interface);
    RawScoresSnoc(init[k + 1..], p, w, interface);
    assert (init + [p])[k + 1..] == init[k + 1..] + [p];
    Regroup([ComputeHealth(init[k].metrics, w)], RawScores(init[k + 1..], w, interface),
            if p.interface == interface then [ComputeHealth(p.metrics, w)] else []);
  }

  lemma RawScoresSnoc(init: seq<Probe>, p: Probe, w: Weights, interface: string)
    ensures RawScores(init + [p], w, interface)
         == RawScores(init, w, interface) + (if p.interface == interface then [ComputeHealth(p.metrics, w)] else [])
  {
    hide ComputeHealth;
    assert (init + [p])[..|init|] == init;
  }

  lemma {:induction false} StoredWhenProbed(probes: seq<Probe>, w: Weights, alpha: real, interface: string)
    ensures interface in ScoresAfter(probes, w, alpha) <==> RawScores(probes, w, interface) != []
  {
    hide ComputeHealth, Ema;
    if |probes| == 0 {
    } else {
      StoredWhenProbed(probes[..|probes| - 1], w, alpha, interface);
    }
  }

  /** What an interface's stored score is depends on its own probes alone: the smoothing from the first raw score on. */
  lemma StoredIsEma(probes: seq<Probe>, w: Weights, alpha: real, interface: string, f: Field)
    ensures var raw := RawScores(probes, w, interface);
            && (interface in ScoresAfter(probes, w, alpha) <==> raw != [])
            && (raw != [] ==>
                  Get(ScoresAfter(probes, w, alpha)[interface], f)
                  == EmaFrom(Get(raw[0], f), FieldsOf(raw[1..], f), Clamp(alpha, 0.0, 1.0)))
  {
    hide *;
    StoredWhenProbed(probes, w, alpha, interface);
    var raw := RawScores(probes, w, interface);
    if raw != [] {
      var k := FirstProbe(probes, w, interface);
      FirstStored(probes, k, w, alpha, interface);
      assert probes[..k + 1] + probes[k + 1..] == probes;
      assert raw[1..] == RawScores(probes[k + 1..], w, interface);
      StoredFromHereOn(probes[..k + 1], probes[k + 1..], w, alpha, interface, f);
    }
  }

  lemma FirstStored(probes: seq<Probe>, k: nat, w: Weights, alpha: real, interface: string)
    requires k < |probes| && probes[k].interface == interface && RawScores(probes[..k], w, interface) == []
    ensures interface in ScoresAfter(probes[..k + 1], w, alpha)
    ensures ScoresAfter(probes[..k + 1], w, alpha)[interface] == ComputeHealth(probes[k].metrics, w)
  {
    hide ComputeHealth, Ema;
    StoredWhenProbed(probes[..k], w, alpha, interface);
    assert probes[..k + 1][..k] == probes[..k];
  }

  function Pow(x: real, n: nat): real {
    if n == 0 then 1.0 else x * Pow(x, n - 1)
  }

  /** The weight that raw value `i` of `n` still has. */
  function Share(i: nat, n: nat, a: real): real
    requires i < n
  {
    a * Pow(1.0 - a, n - 1 - i)
  }

  function Contribution(x: real, i: nat, n: nat, a: real): real
    requires i < n
  {
    Share(i, n, a) * x
  }

  /** The first `k` of `n` raw values, each times its share. */
  function ShareSum(raw: seq<real>, k: nat, n: nat, a: real): real
    requires k <= n && k <= |raw|
  {
    if k == 0 then 0.0 else ShareSum(raw, k - 1, n, a) + Contribution(raw[k - 1], k - 1, n, a)
  }

  lemma PowStep(x: real, n: nat)
    ensures Pow(x, n + 1) == x * Pow(x, n)
  {
  }

  lemma EmaStep(start: real, raw: seq<real>, a: real)
    requires |raw| > 0
    ensures EmaFrom(start, raw, a) == Blend(raw[|raw| - 1], EmaFrom(start, raw[..|raw| - 1], a), a)
  {
  }

  lemma ContributionDecays(x: real, i: nat, n: nat, a: real)
    requires i < n
    ensures Contribution(x, i, n + 1, a) == (1.0 - a) * Contribution(x, i, n, a)
  {
    var b, p := 1.0 - a, Pow(1.0 - a, n - 1 - i);
    PowStep(b, n - 1 - i);
    hide Pow;
    assert (a * (b * p)) * x == b * ((a * p) * x);
  }

  lemma DecayStep(b: real, s: real, x: real, s': real, x': real)
    requires s' == b * s && x' == b * x
    ensures s' + x' == b * (s + x)
  {
  }

  lemma ShareSumOfNone(raw: seq<real>, n: nat, a: real)
    ensures ShareSum(raw, 0, n, a) == 0.0
  {
  }

  lemma ShareSumStep(raw: seq<real>, k: nat, n: nat, a: real)
    requires 0 < k <= n && k <= |raw|
    ensures ShareSum(raw, k, n, a) == ShareSum(raw, k - 1, n, a) + Contribution(raw[k - 1], k - 1, n, a)
  {
  }

  lemma {:induction false} ShareSumDecays(raw: seq<real>, k: nat, n: nat, a: real)
    requires k <= n && k <= |raw|
    ensures ShareSum(raw, k, n + 1, a) == (1.0 - a) * ShareSum(raw, k, n, a)
  {
    hide *;
    if k == 0 {
      ShareSumOfNone(raw, n, a);
      ShareSumOfNone(raw, n + 1, a);
    } else {
      ShareSumDecays(raw, k - 1, n, a);
      ContributionDecays(raw[k - 1], k - 1, n, a);
      ShareSumStep(raw, k, n, a);
      ShareSumStep(raw, k, n + 1, a);
      DecayStep(1.0 - a, ShareSum(raw, k - 1, n, a), Contribution(raw[k - 1], k - 1, n, a),
                ShareSum(raw, k - 1, n + 1, a), Contribution(raw[k - 1], k - 1, n + 1, a));
    }
  }

  lemma {:induction false} ShareSumPrefix(raw: seq<real>, raw': seq<real>, k: nat, n: nat, a: real)
    requires k <= n && k <= |raw| && k <= |raw'| && raw[..k] == raw'[..k]
    ensures ShareSum(raw, k, n, a) == ShareSum(raw', k, n, a)
  {
    if k == 0 {
    } else {
      assert raw[..k][..k - 1] == raw'[..k][..k - 1];
      assert raw[k - 1] == raw[..k][k - 1] == raw'[k - 1];
      ShareSumPrefix(raw, raw', k - 1, n, a);
    }
  }

  lemma ShareSumLast(raw: seq<real>, n: nat, a: real)
    requires n < |raw|
    ensures ShareSum(raw, n + 1, n + 1, a) == ShareSum(raw, n, n + 1, a) + a * raw[n]
  {
    assert Share(n, n + 1, a) == a;
  }

  lemma ClosedFormStep(start: real, x: real, a: real, p: real, p': real, s: real, s': real, ema: real, ema': real)
    requires ema == p * start + s && p' == (1.0 - a) * p && s' == (1.0 - a) * s + a * x
    requires ema' == Blend(x, ema, a)
    ensures ema' == p' * start + s'
  {
  }

  lemma EmaOfNothing(start: real, raw: seq<real>, a: real)
    requires |raw| == 0
    ensures EmaFrom(start, raw, a) == start && Pow(1.0 - a, |raw|) == 1.0 && ShareSum(raw, |raw|, |raw|, a) == 0.0
  {
  }

  /** The closed form: the start decays geometrically and every raw value keeps its share. */
  lemma {:induction false} EmaClosedForm(start: real, raw: seq<real>, a: real)
    ensures EmaFrom(start, raw, a) == Pow(1.0 - a, |raw|) * start + ShareSum(raw, |raw|, |raw|, a)
  {
    hide *;
    if |raw| == 0 {
      EmaOfNothing(start, raw, a);
    } else {
      var n, raw' := |raw| - 1, raw[..|raw| - 1];
      EmaClosedForm(start, raw', a);
      EmaStep(start, raw, a);
      PowStep(1.0 - a, n);
      ShareSumPrefix(raw, raw', n, n, a);
      ShareSumDecays(raw, n, n, a);
      ShareSumLast(raw, n, a);
      ClosedFormStep(start, raw[n], a, Pow(1.0 - a, n), Pow(1.0 - a, n + 1), ShareSum(raw, n, n, a),
                     ShareSum(raw, n + 1, n + 1, a), EmaFrom(start, raw', a), EmaFrom(start, raw, a));
    }
  }

  lemma BoundStep(x: real, ema: real, ema': real, a: real, hi: real, excess: real, p: real, p': real)
    requires 0.0 <= a <= 1.0 && x <= hi && ema <= hi + p * excess && p' == (1.0 - a) * p
    requires ema' == Blend(x, ema, a)
    ensures ema' <= hi + p' * excess
  {
    var hi' := hi + p * excess;
    assert hi * a + hi' * (1.0 - a) == hi + p' * excess;
    hide Blend;
    BlendAtMost(x, ema, a, hi, hi');
  }

  /** What is left after `n` steps of what `start` exceeded `hi` by. */
  function Excess(start: real, hi: real, a: real, n: nat): real {
    Pow(1.0 - a, n) * (if start > hi then start - hi else 0.0)
  }

  lemma ExcessOf(start: real, hi: real, a: real, n: nat, excess: real)
    requires excess == if start > hi then start - hi else 0.0
    ensures Excess(start, hi, a, n) == Pow(1.0 - a, n) * excess
  {
  }

  /** Once the raw scores stay at or below `hi`, what a stored score exceeds it by shrinks geometrically. */
  lemma {:induction false} EmaApproaches(start: real, raw: seq<real>, a: real, hi: real)
    requires 0.0 <= a <= 1.0 && forall i :: 0 <= i < |raw| ==> raw[i] <= hi
    ensures EmaFrom(start, raw, a) <= hi + Excess(start, hi, a, |raw|)
  {
    hide *;
    if |raw| == 0 {
      EmaOfNothing(start, raw, a);
      ExcessOf(start, hi, a, 0, if start > hi then start - hi else 0.0);
    } else {
      var raw' := raw[..|raw| - 1];
      var excess := if start > hi then start - hi else 0.0;
      ExcessOf(start, hi, a, |raw'|, excess);
      ExcessOf(start, hi, a, |raw|, excess);
      EmaApproaches(start, raw', a, hi);
      PowStep(1.0 - a, |raw'|);
      EmaStep(start, raw, a);
      BoundStep(raw[|raw| - 1], EmaFrom(start, raw', a), EmaFrom(start, raw, a), a, hi, excess,
                Pow(1.0 - a, |raw'|), Pow(1.0 - a, |raw|));
    }
  }

  /** So from any point of a run on, a stored field has the closed form in the raw values of its own later probes. */
  lemma StoredClosedForm(pre: seq<Probe>, later: seq<Probe>, w: Weights, alpha: real, interface: string, f: Field)
    requires interface in ScoresAfter(pre, w, alpha)
    ensures interface in ScoresAfter(pre + later, w, alpha)
    ensures var a, raw := Clamp(alpha, 0.0, 1.0), FieldsOf(RawScores(later, w, interface), f);
            Get(ScoresAfter(pre + later, w, alpha)[interface], f)
            == Pow(1.0 - a, |raw|) * Get(ScoresAfter(pre, w, alpha)[interface], f) + ShareSum(raw, |raw|, |raw|, a)
  {
    hide *;
    StoredFromHereOn(pre, later, w, alpha, interface, f);
    EmaClosedForm(Get(ScoresAfter(pre, w, alpha)[interface], f), FieldsOf(RawScores(later, w, interface), f),
                  Clamp(alpha, 0.0, 1.0));
  }

  /**
   And while an interface keeps measuring at or below `hi`, what a stored field of it exceeds `hi` by
   shrinks geometrically with its own probes, whatever the other interfaces measure.
   */
  lemma StoredApproaches(pre: seq<Probe>, later: seq<Probe>, w: Weights, alpha: real, interface: string, f: Field,
                         hi: real)
    requires interface in ScoresAfter(pre, w, alpha)
    requires forall x :: x in FieldsOf(RawScores(later, w, interface), f) ==> x <= hi
    ensures interface in ScoresAfter(pre + later, w, alpha)
    ensures var a, raw := Clamp(alpha, 0.0, 1.0), FieldsOf(RawScores(later, w, interface), f);
            var start := Get(ScoresAfter(pre, w, alpha)[interface], f);
            Get(ScoresAfter(pre + later, w, alpha)[interface], f) <= hi + Excess(start, hi, a, |raw|)
  {
    assert 0.0 <= Clamp(alpha, 0.0, 1.0) <= 1.0;
    hide *;
    assert forall i :: 0 <= i < |FieldsOf(RawScores(later, w, interface), f)| ==>
             FieldsOf(RawScores(later, w, interface), f)[i] in FieldsOf(RawScores(later, w, interface), f);
    StoredFromHereOn(pre, later, w, alpha, interface, f);
    EmaApproaches(Get(ScoresAfter(pre, w, alpha)[interface], f), FieldsOf(RawScores(later, w, interface), f),
                  Clamp(alpha, 0.0, 1.0), hi);
  }

  // ---------- The candidate flag ----------

  /** The flag as it is sent: the smoothed score against the stored one, which it has just replaced. */
  predicate SentFlag(scores: map<string, HealthScore>, interface: string, raw: HealthScore, alpha: real,
                     threshold: u8) {
    var smoothed := Smoothed(scores, interface, raw, alpha);
    var stored := scores[interface := smoothed];
    ExceedsHysteresis(smoothed, stored[interface], threshold)
  }

  /** The flag as it is meant: whether the score moved by more than the threshold since the last probe. */
  predicate IntendedFlag(scores: map<string, HealthScore>, interface: string, raw: HealthScore, alpha: real,
                         threshold: u8) {
    interface in scores && ExceedsHysteresis(Smoothed(scores, interface, raw, alpha), scores[interface], threshold)
  }

  function Distance(x: real, y: real): real {
    if x >= y then x - y else y - x
  }

  /** How far a score at `y` moves towards `x` in one smoothing step. */
  function Reach(alpha: real, x: real, y: real): real {
    Clamp(alpha, 0.0, 1.0) * Distance(x, y)
  }

  lemma BlendMoves(x: real, y: real, a: real)
    requires 0.0 <= a
    ensures Distance(Blend(x, y, a), y) == a * Distance(x, y)
  {
    assert Blend(x, y, a) - y == a * (x - y);
    if x >= y {
      NonNegativeProduct(a, x - y);
    } else {
      NonNegativeProduct(a, y - x);
      assert a * (y - x) == -(a * (x - y));
    }
  }

  /**
   The sent flag is never raised; the intended one is exactly when the raw score is further from the
   stored one than the smoothing factor lets through, and then the sent one is wrong.
   */
  lemma CandidateFlagNeverRaised(scores: map<string, HealthScore>, interface: string, raw: HealthScore, alpha: real,
                                 threshold: u8)
    ensures !SentFlag(scores, interface, raw, alpha, threshold)
    ensures IntendedFlag(scores, interface, raw, alpha, threshold)
       <==> interface in scores && Reach(alpha, raw.overall, scores[interface].overall) > threshold as real
  {
    if interface in scores {
      BlendMoves(raw.overall, scores[interface].overall, Clamp(alpha, 0.0, 1.0));
      hide Blend;
    }
  }

  // ---------- When the flag is right ----------

  /** The probes that the monitor can make: it has no history of link states yet and counts no changes. */
  ghost predicate Measured(probes: seq<Probe>) {
    forall i :: 0 <= i < |probes| ==> probes[i].metrics.stateChanges == 0
  }

  /** The flag sent with the next probe of this run is the intended one. */
  ghost predicate FlagRight(probes: seq<Probe>, next: Probe, w: Weights, alpha: real, threshold: u8) {
    var scores, raw := ScoresAfter(probes, w, alpha), ComputeHealth(next.metrics, w);
    SentFlag(scores, next.interface, raw, alpha, threshold)
    <==> IntendedFlag(scores, next.interface, raw, alpha, threshold)
  }

  /** A ping that failed, with no throughput seen yet. */
  const FAILED := Metrics(999.0, 100.0, 100.0, 0.0, 0)
  const BEST := Metrics(10.0, 1.0, 0.0, 1000.0, 0)

  /** No measurement scores less, since its stability counts in full. */
  function LowestScore(w: Weights): real
    requires WrappedWeight(w) != 0
  {
    Clamp(100.0 * w.stability as real / WrappedWeight(w) as real, 0.0, 100.0)
  }

  lemma SumOfStability(w: Weights)
    ensures WeightedSum(0.0, 0.0, 0.0, 0.0, 100.0, w) == 100.0 * w.stability as real
  {
  }

  lemma FullOverall(total: real, wrapped: real)
    requires 0.0 < wrapped <= total
    ensures Overall(100.0 * total, wrapped) == 100.0
  {
    var q := 100.0 * total / wrapped;
    DivideThenMultiply(100.0 * total, wrapped);
    hide *;
    CancelFactor(100.0, q, wrapped);
  }

  lemma WeightWraps(w: Weights)
    ensures WrappedWeight(w) <= TotalWeight(w)
  {
  }

  lemma ExtremeScores(w: Weights)
    requires WrappedWeight(w) != 0
    ensures ComputeHealth(FAILED, w).overall == LowestScore(w) && ComputeHealth(BEST, w).overall == 100.0
  {
    SumOfStability(w);
    EvenSum(w, 100.0);
    WeightWraps(w);
    FullOverall(TotalWeight(w) as real, WrappedWeight(w) as real);
    hide WeightedSum, WrappedWeight, TotalWeight;
  }

  lemma MeasuredScores(m: Metrics, w: Weights)
    requires m.stateChanges == 0 && WrappedWeight(w) != 0
    ensures LowestScore(w) <= ComputeHealth(m, w).overall <= 100.0
  {
    NormalizeRange(m.rttMs, 10.0, 500.0);
    NormalizeRange(m.jitterMs, 1.0, 100.0);
    NormalizeRange(m.lossPercent, 0.0, 10.0);
    NormalizeRange(m.throughputMbps, 1000.0, 1.0);
    var rtt, jitter := NormalizeLinear(m.rttMs, 10.0, 500.0), NormalizeLinear(m.jitterMs, 1.0, 100.0);
    var loss, throughput := NormalizeLinear(m.lossPercent, 0.0, 10.0), NormalizeLinear(m.throughputMbps, 1000.0, 1.0);
    assert NormalizeLinear(m.stateChanges as real, 0.0, 10.0) == 100.0;
    assert ComputeHealth(m, w) == Compute(rtt, jitter, loss, throughput, 100.0, w);
    hide NormalizeLinear, ComputeHealth, WeightedSum, WrappedWeight;
    WeightedSumMonotone(HealthScore(0.0, 0.0, 0.0, 0.0, 0.0, 100.0, false),
                        HealthScore(0.0, rtt, jitter, loss, throughput, 100.0, false), w);
    SumOfStability(w);
    OverallMonotone(100.0 * w.stability as real, WeightedSum(rtt, jitter, loss, throughput, 100.0, w),
                    WrappedWeight(w) as real);
  }

  lemma {:induction false} StoredBetween(probes: seq<Probe>, w: Weights, alpha: real, interface: string)
    requires Measured(probes) && WrappedWeight(w) != 0
    ensures interface in ScoresAfter(probes, w, alpha) ==>
              LowestScore(w) <= ScoresAfter(probes, w, alpha)[interface].overall <= 100.0
  {
    hide ComputeHealth, Blend, LowestScore, WrappedWeight;
    if |probes| == 0 {
    } else {
      var before, p := ScoresAfter(probes[..|probes| - 1], w, alpha), probes[|probes| - 1];
      StoredBetween(probes[..|probes| - 1], w, alpha, interface);
      MeasuredScores(p.metrics, w);
      if interface in before {
        BlendBounds(ComputeHealth(p.metrics, w).overall, before[interface].overall, Clamp(alpha, 0.0, 1.0),
                    LowestScore(w), 100.0);
      }
    }
  }

  lemma {:induction false} NoWeightNoScore(probes: seq<Probe>, w: Weights, alpha: real, interface: string)
    requires WrappedWeight(w) == 0
    ensures interface in ScoresAfter(probes, w, alpha) ==> ScoresAfter(probes, w, alpha)[interface].overall == 0.0
  {
    if |probes| == 0 {
    } else {
      var p := probes[|probes| - 1];
      NoWeightNoScore(probes[..|probes| - 1], w, alpha, interface);
      assert ComputeHealth(p.metrics, w).overall == 0.0;
      hide ComputeHealth;
    }
  }

  lemma ReachIs(alpha: real, x: real, y: real)
    ensures Reach(alpha, x, y) == Distance(x, y) * Clamp(alpha, 0.0, 1.0)
    ensures Clamp(alpha, 0.0, 1.0) >= 0.0
  {
  }

  lemma DistanceBetween(x: real, y: real, low: real)
    requires low <= x <= 100.0 && low <= y <= 100.0
    ensures Distance(x, y) <= 100.0 - low
  {
  }

  /**
   The weights add up to nothing in eight bits, or smoothing lets the step from the lowest score that
   the weights allow to 100 through to no more than the threshold.
   */
  predicate NeverRaised(w: Weights, alpha: real, threshold: u8) {
    WrappedWeight(w) == 0 || (100.0 - LowestScore(w)) * Clamp(alpha, 0.0, 1.0) <= threshold as real
  }

  lemma NotFarEnough(w: Weights, alpha: real, x: real, y: real, threshold: u8)
    requires NeverRaised(w, alpha, threshold) && WrappedWeight(w) != 0
    requires LowestScore(w) <= x <= 100.0 && LowestScore(w) <= y <= 100.0
    ensures Reach(alpha, x, y) <= threshold as real
  {
    hide WrappedWeight, LowestScore, Clamp, Distance, Reach;
    ReachIs(alpha, x, y);
    DistanceBetween(x, y, LowestScore(w));
    hide *;
    ScaleUp(Distance(x, y), 100.0 - LowestScore(w), Clamp(alpha, 0.0, 1.0));
  }

  lemma FarEnough(w: Weights, alpha: real, threshold: u8)
    requires !NeverRaised(w, alpha, threshold)
    ensures WrappedWeight(w) != 0 && Reach(alpha, 100.0, LowestScore(w)) > threshold as real
  {
    hide WrappedWeight, LowestScore, Clamp, Distance, Reach;
    ReachIs(alpha, 100.0, LowestScore(w));
    LowestIsPercent(w);
  }

  lemma LowestIsPercent(w: Weights)
    requires WrappedWeight(w) != 0
    ensures LowestScore(w) <= 100.0 && Distance(100.0, LowestScore(w)) == 100.0 - LowestScore(w)
  {
    hide WrappedWeight;
  }

  lemma NoReach(alpha: real)
    ensures Reach(alpha, 0.0, 0.0) == 0.0
  {
  }

  lemma FlagRightThen(probes: seq<Probe>, next: Probe, w: Weights, alpha: real, threshold: u8)
    requires Measured(probes + [next]) && NeverRaised(w, alpha, threshold)
    ensures FlagRight(probes, next, w, alpha, threshold)
  {
    var scores, raw, i := ScoresAfter(probes, w, alpha), ComputeHealth(next.metrics, w), next.interface;
    assert WrappedWeight(w) == 0 ==> raw.overall == 0.0;
    assert Measured(probes) && next.metrics.stateChanges == 0 by {
      assert forall k :: 0 <= k < |probes| ==> probes[k] == (probes + [next])[k];
      assert (probes + [next])[|probes|] == next;
    }
    hide ScoresAfter, ComputeHealth, SentFlag, IntendedFlag, Reach, WrappedWeight, LowestScore, Measured, NeverRaised;
    CandidateFlagNeverRaised(scores, i, raw, alpha, threshold);
    if i in scores {
      if WrappedWeight(w) == 0 {
        NoWeightNoScore(probes, w, alpha, i);
        NoReach(alpha);
      } else {
        StoredBetween(probes, w, alpha, i);
        MeasuredScores(next.metrics, w);
        NotFarEnough(w, alpha, raw.overall, scores[i].overall, threshold);
      }
    }
  }

  /** An interface whose first ping failed and that then measures best is not flagged. */
  lemma FlagWrongRun(w: Weights, alpha: real, threshold: u8) returns (probes: seq<Probe>, next: Probe)
    requires !NeverRaised(w, alpha, threshold)
    ensures Measured(probes + [next]) && !FlagRight(probes, next, w, alpha, threshold)
  {
    probes, next := [Probe("eth0", FAILED)], Probe("eth0", BEST);
    FirstFailed(w, alpha);
    FarEnough(w, alpha, threshold);
    ExtremeScores(w);
    hide ScoresAfter, ComputeHealth, SentFlag, IntendedFlag, Reach, WrappedWeight, LowestScore, NeverRaised;
    CandidateFlagNeverRaised(ScoresAfter(probes, w, alpha), "eth0", ComputeHealth(BEST, w), alpha, threshold);
  }

  lemma FirstFailed(w: Weights, alpha: real)
    ensures ScoresAfter([Probe("eth0", FAILED)], w, alpha) == map["eth0" := ComputeHealth(FAILED, w)]
  {
    hide ComputeHealth, Ema;
    var probes := [Probe("eth0", FAILED)];
    assert probes[..0] == [];
    assert ScoresAfter([], w, alpha) == map[];
  }

  /**
   Over the probes that the monitor makes, the flag is right in every run exactly when the weights, the
   smoothing and the threshold are such that it should never be raised.
   */
  lemma FlagRightExactly(w: Weights, alpha: real, threshold: u8)
    ensures (forall probes, next :: Measured(probes + [next]) ==> FlagRight(probes, next, w, alpha, threshold))
       <==> NeverRaised(w, alpha, threshold)
  {
    hide *;
    if NeverRaised(w, alpha, threshold) {
      forall probes, next | Measured(probes + [next]) ensures FlagRight(probes, next, w, alpha, threshold) {
        FlagRightThen(probes, next, w, alpha, threshold);
      }
    } else {
      var probes, next := FlagWrongRun(w, alpha, threshold);
    }
  }
}

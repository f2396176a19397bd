/**
 Weighted balancing: integer weights from 1 to 255 in proportion to the health scores.
 */
module Weighted {
  import opened RealArith
  import opened RealSeq
  import opened Scoring

  type Weight = w: int | 1 <= w <= 255 witness 1

  /** A viable interface with its score. */
  datatype Entry = Entry(name: string, score: real)

  datatype EcmpRoute = EcmpRoute(gateway: string, interface: string, metric: nat, weight: Weight)

  function Score(): Entry -> real {
    (e: Entry) => e.score
  }

  function TotalHealth(viable: seq<Entry>): real {
    SumOf(viable, Score())
  }

  /** `f64::round`: to the nearest integer, halves away from zero. */
  function Round(x: real): int {
    if x >= 0.0 then (x + 0.5).Floor else -((-x + 0.5).Floor)
  }

  function WeightOf(score: real, total: real): Weight
    requires total != 0.0
  {
    var rounded := Round(score / total * 255.0);
    if rounded < 1 then 1 else if rounded > 255 then 255 else rounded
  }

  /** `viable` lists every interface at or above the minimum once, in the order hashing gives. */
  ghost predicate Lists(viable: seq<Entry>, health: map<string, HealthScore>, minHealth: real) {
    && (forall i, j :: 0 <= i < j < |viable| ==> viable[i].name != viable[j].name)
    && (forall i :: 0 <= i < |viable| ==> IsViable(viable[i], health, minHealth))
    && (forall e :: IsViable(e, health, minHealth) ==> e in viable)
  }

  predicate IsViable(e: Entry, health: map<string, HealthScore>, minHealth: real) {
    e.name in health && health[e.name].overall == e.score >= minHealth
  }

  /** The weights are those of the listed interfaces, or none when there is nothing to share out. */
  ghost predicate Weighs(weights: map<string, Weight>, viable: seq<Entry>) {
    if |viable| == 0 || TotalHealth(viable) == 0.0 then weights == map[]
    else Shares(weights, viable, TotalHealth(viable))
  }

  /** Each entry has its share of the total, and no other interface has a weight. */
  ghost predicate Shares(weights: map<string, Weight>, viable: seq<Entry>, total: real)
    requires total != 0.0
  {
    && (forall e :: e in viable ==> e.name in weights && weights[e.name] == WeightOf(e.score, total))
    && (forall name :: name in weights ==> exists e :: e in viable && e.name == name)
  }

  lemma SharesNone(viable: seq<Entry>, total: real)
    requires total != 0.0
    ensures Shares(map[], viable[..0], total)
  {
  }

  lemma SharesOneMore(weights: map<string, Weight>, viable: seq<Entry>, i: nat, total: real)
    requires i < |viable| && total != 0.0 && Shares(weights, viable[..i], total)
    requires forall j :: 0 <= j < i ==> viable[j].name != viable[i].name
    ensures Shares(weights[viable[i].name := WeightOf(viable[i].score, total)], viable[..i + 1], total)
  {
    hide WeightOf;
    assert viable[..i + 1] == viable[..i] + [viable[i]];
  }

  function WithoutNames(health: map<string, HealthScore>, names: set<string>): map<string, HealthScore> {
    map k | k in health && k !in names :: health[k]
  }

  lemma ListsNone(health: map<string, HealthScore>, minHealth: real)
    ensures Lists([], WithoutNames(health, health.Keys), minHealth)
  {
  }

  lemma ListsDistinct(viable: seq<Entry>, health: map<string, HealthScore>, minHealth: real)
    requires Lists(viable, health, minHealth)
    ensures forall i, j :: 0 <= i < j < |viable| ==> viable[i].name != viable[j].name
  {
  }

  lemma ListsOneMore(found: seq<Entry>, health: map<string, HealthScore>, names: set<string>, name: string,
                     minHealth: real)
    requires Lists(found, WithoutNames(health, names), minHealth) && name in names && name in health
    ensures var more := if health[name].overall >= minHealth then [Entry(name, health[name].overall)] else [];
            Lists(found + more, WithoutNames(health, names - {name}), minHealth)
  {
    var entry := Entry(name, health[name].overall);
    if health[name].overall >= minHealth {
      assert entry in found + [entry];
    } else {
      assert found + [] == found;
    }
  }

  class WeightedBalancer {
    const minHealth: real
    var weights: map<string, Weight>

    constructor (minHealth: real)
      ensures this.minHealth == minHealth && weights == map[]
    {
      this.minHealth := minHealth;
      weights := map[];
    }

    method ComputeWeights(health: map<string, HealthScore>)
      returns (result: map<string, Weight>, ghost viable: seq<Entry>)
      modifies this`weights
      ensures Lists(viable, health, minHealth) && Weighs(result, viable) && weights == result
    {
      hide Lists, WeightOf, TotalHealth, Shares;
      var found: seq<Entry> := [];
      var remaining := health.Keys;
      ListsNone(health, minHealth);
      while remaining != {}
        invariant remaining <= health.Keys
        invariant Lists(found, WithoutNames(health, remaining), minHealth)
        decreases |remaining|
      {
        var name :| name in remaining;
        ListsOneMore(found, health, remaining, name, minHealth);
        remaining := remaining - {name};
        if health[name].overall >= minHealth {
          found := found + [Entry(name, health[name].overall)];
        } else {
          assert found + [] == found;
        }
      }
      assert WithoutNames(health, remaining) == health;
      viable := found;
      ListsDistinct(found, health, minHealth);
      result := map[];
      if |found| == 0 || TotalHealth(found) == 0.0 {
        weights := map[];
        return;
      }
      SharesNone(found, TotalHealth(found));
      for i := 0 to |found|
        invariant Shares(result, found[..i], TotalHealth(found))
      {
        SharesOneMore(result, found, i, TotalHealth(found));
        result := result[found[i].name := WeightOf(found[i].score, TotalHealth(found))];
      }
      assert found[..|found|] == found;
      weights := result;
    }

    method GenerateRoutes(gateways: map<string, string>) returns (routes: seq<EcmpRoute>)
      ensures RoutesFor(routes, weights, gateways, weights.Keys)
    {
      hide RoutesFor;
      routes := [];
      NoRoutes(weights, gateways);
      var remaining := weights.Keys;
      while remaining != {}
        invariant remaining <= weights.Keys
        invariant RoutesFor(routes, weights, gateways, weights.Keys - remaining)
        decreases |remaining|
      {
        var name :| name in remaining;
        ghost var done := weights.Keys - remaining;
        remaining := remaining - {name};
        assert weights.Keys - remaining == done + {name};
        OneMoreRoute(routes, weights, gateways, done, name);
        if name in gateways {
          routes := routes + [EcmpRoute(gateways[name], name, 100, weights[name])];
        }
      }
      assert weights.Keys - remaining == weights.Keys;
    }
  }

  /** Exactly one route, with its weight and gateway, for each of the interfaces that has a gateway. */
  ghost predicate RoutesFor(routes: seq<EcmpRoute>, weights: map<string, Weight>, gateways: map<string, string>,
                            names: set<string>) {
    && (forall r :: r in routes <==>
          r.interface in names && r.interface in weights && r.interface in gateways
          && r == EcmpRoute(gateways[r.interface], r.interface, 100, weights[r.interface]))
    && |routes| == |names * gateways.Keys|
  }

  lemma NoRoutes(weights: map<string, Weight>, gateways: map<string, string>)
    ensures RoutesFor([], weights, gateways, weights.Keys - weights.Keys)
  {
  }

  lemma OneMoreRoute(routes: seq<EcmpRoute>, weights: map<string, Weight>, gateways: map<string, string>,
                     done: set<string>, name: string)
    requires RoutesFor(routes, weights, gateways, done) && name in weights && name !in done
    ensures name !in gateways ==> RoutesFor(routes, weights, gateways, done + {name})
    ensures name in gateways ==>
              RoutesFor(routes + [EcmpRoute(gateways[name], name, 100, weights[name])], weights, gateways,
                        done + {name})
  {
    if name in gateways {
      assert (done + {name}) * gateways.Keys == done * gateways.Keys + {name};
      var one := EcmpRoute(gateways[name], name, 100, weights[name]);
      var more := routes + [one];
      forall r ensures r in more <==>
          r.interface in done + {name} && r.interface in weights && r.interface in gateways
          && r == EcmpRoute(gateways[r.interface], r.interface, 100, weights[r.interface])
      {
        assert r in more <==> r in routes || r == one;
      }
    } else {
      assert (done + {name}) * gateways.Keys == done * gateways.Keys;
    }
  }

  // ---------- Hash order ----------

  lemma SameElementsSameCounts(a: seq<Entry>, b: seq<Entry>)
    requires forall i, j :: 0 <= i < j < |a| ==> a[i] != a[j]
    requires forall i, j :: 0 <= i < j < |b| ==> b[i] != b[j]
    requires forall e :: e in a <==> e in b
    ensures multiset(a) == multiset(b)
  {
    forall e ensures multiset(a)[e] == multiset(b)[e] {
      CountsAtMostOne(a, e);
      CountsAtMostOne(b, e);
    }
  }

  lemma {:induction false} CountsAtMostOne(a: seq<Entry>, e: Entry)
    requires forall i, j :: 0 <= i < j < |a| ==> a[i] != a[j]
    ensures multiset(a)[e] == if e in a then 1 else 0
  {
    if |a| == 0 {
    } else {
      var init, last := a[..|a| - 1], a[|a| - 1];
      assert a == init + [last];
      CountsAtMostOne(init, e);
    }
  }

  /** The order in which the hash map hands out its entries has no influence on the weights. */
  lemma WeightsIgnoreOrder(a: seq<Entry>, b: seq<Entry>, health: map<string, HealthScore>, minHealth: real,
                           wa: map<string, Weight>, wb: map<string, Weight>)
    requires Lists(a, health, minHealth) && Lists(b, health, minHealth)
    requires Weighs(wa, a) && Weighs(wb, b)
    ensures wa == wb
  {
    SameElementsSameCounts(a, b);
    SumOfPermutation(a, b, Score());
    hide SumOf, WeightOf, IsViable, Shares;
    if wa != map[] || wb != map[] {
      SharesWithin(a, b, TotalHealth(a), wa, wb);
      SharesWithin(b, a, TotalHealth(b), wb, wa);
    }
  }

  lemma SharesWithin(a: seq<Entry>, b: seq<Entry>, total: real, wa: map<string, Weight>, wb: map<string, Weight>)
    requires total != 0.0 && Shares(wa, a, total) && Shares(wb, b, total)
    requires forall e :: e in a ==> e in b
    ensures forall name :: name in wa ==> name in wb && wa[name] == wb[name]
  {
    hide WeightOf;
    forall name | name in wa ensures name in wb && wa[name] == wb[name] {
      var e :| e in a && e.name == name;
      assert e in b;
    }
  }

  // ---------- Rounding ----------

  /** 255 times the interface's share of the total. */
  function Quota(total: real): Entry -> real
    requires total != 0.0
  {
    (e: Entry) => e.score / total * 255.0
  }

  function Granted(total: real): Entry -> real
    requires total != 0.0
  {
    (e: Entry) => WeightOf(e.score, total) as real
  }

  lemma RoundNear(x: real)
    ensures x >= 0.0 ==> x - 0.5 < Round(x) as real <= x + 0.5
    ensures x <= 0.0 ==> x - 0.5 <= Round(x) as real < x + 0.5
  {
  }

  lemma RoundMonotone(x: real, y: real)
    requires 0.0 <= x <= y
    ensures Round(x) <= Round(y)
  {
  }

  lemma QuotaRange(score: real, total: real)
    requires 0.0 <= score <= total && total > 0.0
    ensures 0.0 <= score / total * 255.0 <= 255.0
  {
    var f := score / total;
    assert f * total == score;
    CancelFactor(0.0, f, total);
    CancelFactor(f, 1.0, total);
  }

  /** Rounding costs at most a half; lifting a tiny share to one costs at most one. */
  lemma WeightNearQuota(score: real, total: real)
    requires 0.0 <= score <= total && total > 0.0
    ensures var quota := score / total * 255.0; quota - 0.5 <= WeightOf(score, total) as real <= quota + 1.0
  {
    QuotaRange(score, total);
    RoundNear(score / total * 255.0);
  }

  /** The nearest integer to the quota, halves up, but at least one. */
  lemma WeightIsRounded(score: real, total: real)
    requires 0.0 <= score <= total && total > 0.0
    ensures var quota, weight := score / total * 255.0, WeightOf(score, total) as real;
            if quota < 0.5 then weight == 1.0 else quota - 0.5 < weight <= quota + 0.5
  {
    QuotaRange(score, total);
    RoundNear(score / total * 255.0);
  }

  lemma QuotaMonotone(a: real, b: real, total: real)
    requires a <= b && total > 0.0
    ensures a / total * 255.0 <= b / total * 255.0
  {
  }

  /** A higher score never gets a lower weight. */
  lemma WeightsOrdered(a: real, b: real, total: real)
    requires 0.0 <= a <= b <= total && total > 0.0
    ensures WeightOf(a, total) <= WeightOf(b, total)
  {
    QuotaRange(a, total);
    QuotaMonotone(a, b, total);
    RoundMonotone(a / total * 255.0, b / total * 255.0);
  }

  lemma {:induction false} PartAtMostTotal(viable: seq<Entry>, i: nat)
    requires i < |viable| && forall j :: 0 <= j < |viable| ==> viable[j].score >= 0.0
    ensures viable[i].score <= TotalHealth(viable)
  {
    var init := viable[..|viable| - 1];
    if i == |viable| - 1 {
      SumOfNonNegative(init, Score());
    } else {
      assert init[i] == viable[i];
      PartAtMostTotal(init, i);
    }
  }

  lemma QuotasAffine(total: real)
    requires total != 0.0
    ensures Affine(Quota(total), 255.0 / total, Score(), 0.0, Score(), 0.0)
  {
    forall e: Entry ensures Quota(total)(e) == 255.0 / total * Score()(e) + 0.0 * Score()(e) + 0.0 {
      assert e.score / total * 255.0 == 255.0 / total * e.score;
    }
  }

  lemma QuotaSumAlgebra(total: real, sum: real)
    requires total != 0.0 && sum == 255.0 / total * total + 0.0 * total
    ensures sum == 255.0
  {
  }

  /** The quotas share out 255. */
  lemma QuotasSum(viable: seq<Entry>, total: real)
    requires total == TotalHealth(viable) && total != 0.0
    ensures SumOf(viable, Quota(total)) == 255.0
  {
    hide SumOf, Quota;
    QuotasAffine(total);
    SumOfAffine(viable, Quota(total), 255.0 / total, Score(), 0.0, Score(), 0.0);
    assert |viable| as real * 0.0 == 0.0;
    QuotaSumAlgebra(total, SumOf(viable, Quota(total)));
  }

  function Shifted(total: real, d: real): Entry -> real
    requires total != 0.0
  {
    (e: Entry) => e.score / total * 255.0 + d
  }

  lemma ShiftedSum(viable: seq<Entry>, total: real, d: real, n: real)
    requires total == TotalHealth(viable) && total != 0.0 && n == |viable| as real
    ensures SumOf(viable, Shifted(total, d)) == 255.0 + n * d
  {
    assert Affine(Shifted(total, d), 1.0, Quota(total), 0.0, Quota(total), d);
    hide SumOf, Quota, Shifted, Affine;
    SumOfAffine(viable, Shifted(total, d), 1.0, Quota(total), 0.0, Quota(total), d);
    QuotasSum(viable, total);
  }

  /** The weights sum to 255 up to the rounding: at most a half too little, or one too much, per interface. */
  lemma WeightsSumNear255(viable: seq<Entry>, n: real)
    requires forall i :: 0 <= i < |viable| ==> viable[i].score >= 0.0
    requires TotalHealth(viable) != 0.0 && n == |viable| as real
    ensures 255.0 + n * -0.5 <= SumOf(viable, Granted(TotalHealth(viable))) <= 255.0 + n * 1.0
  {
    var total := TotalHealth(viable);
    SumOfNonNegative(viable, Score());
    forall i | 0 <= i < |viable|
      ensures Shifted(total, -0.5)(viable[i]) <= Granted(total)(viable[i]) <= Shifted(total, 1.0)(viable[i])
    {
      PartAtMostTotal(viable, i);
      hide WeightOf;
      WeightNearQuota(viable[i].score, total);
    }
    hide SumOf, WeightOf, Shifted, Granted;
    SumOfMonotone(viable, Shifted(total, -0.5), Granted(total));
    SumOfMonotone(viable, Granted(total), Shifted(total, 1.0));
    ShiftedSum(viable, total, -0.5, n);
    ShiftedSum(viable, total, 1.0, n);
  }

  // ---------- The sum of a weight map ----------

  /** The sum of all weights of a map. */
  ghost function TotalWeights(weights: map<string, Weight>): int {
    if weights == map[] then 0
    else
      var name :| name in weights;
      weights[name] + TotalWeights(weights - {name})
  }

  /** Any name may be split off first. */
  lemma {:induction false} TotalSplits(weights: map<string, Weight>, name: string)
    requires name in weights
    ensures TotalWeights(weights) == weights[name] + TotalWeights(weights - {name})
    decreases |weights|
  {
    var k :| k in weights && TotalWeights(weights) == weights[k] + TotalWeights(weights - {k});
    if k == name {
    } else {
      TotalSplits(weights - {k}, name);
      TotalSplits(weights - {name}, k);
      assert weights - {k} - {name} == weights - {name} - {k};
    }
  }

  lemma {:induction false} TotalIsSum(viable: seq<Entry>, weights: map<string, Weight>, total: real)
    requires total != 0.0 && forall i, j :: 0 <= i < j < |viable| ==> viable[i].name != viable[j].name
    requires forall i :: 0 <= i < |viable| ==>
               viable[i].name in weights && weights[viable[i].name] == WeightOf(viable[i].score, total)
    requires forall name :: name in weights ==> exists i :: 0 <= i < |viable| && viable[i].name == name
    ensures TotalWeights(weights) as real == SumOf(viable, Granted(total))
  {
    hide WeightOf;
    if |viable| == 0 {
      assert weights == map[];
    } else {
      var init, last := viable[..|viable| - 1], viable[|viable| - 1];
      var rest := weights - {last.name};
      forall name | name in rest ensures exists i :: 0 <= i < |init| && init[i].name == name {
        var i :| 0 <= i < |viable| && viable[i].name == name;
        assert init[i].name == name;
      }
      TotalIsSum(init, rest, total);
      TotalSplits(weights, last.name);
      assert Granted(total)(last) == WeightOf(last.score, total) as real;
    }
  }

  lemma WeighedTotal(viable: seq<Entry>, weights: map<string, Weight>, health: map<string, HealthScore>,
                     minHealth: real)
    requires Lists(viable, health, minHealth) && Weighs(weights, viable) && weights != map[]
    ensures TotalHealth(viable) != 0.0
    ensures TotalWeights(weights) as real == SumOf(viable, Granted(TotalHealth(viable)))
  {
    hide TotalHealth, WeightOf, IsViable;
    forall name | name in weights ensures exists i :: 0 <= i < |viable| && viable[i].name == name {
      var e :| e in viable && e.name == name;
    }
    TotalIsSum(viable, weights, TotalHealth(viable));
  }

  /** The sum of the weights is 255 up to the rounding of each. */
  lemma BalancedTotal(viable: seq<Entry>, health: map<string, HealthScore>, minHealth: real,
                      weights: map<string, Weight>)
    requires Lists(viable, health, minHealth) && Weighs(weights, viable) && weights != map[]
    requires forall name :: name in health ==> Percent(health[name].overall)
    ensures 255.0 + |viable| as real * -0.5 <= TotalWeights(weights) as real <= 255.0 + |viable| as real * 1.0
  {
    hide TotalHealth, WeightOf, Granted, TotalWeights, Weighs;
    WeighedTotal(viable, weights, health, minHealth);
    forall i | 0 <= i < |viable| ensures viable[i].score >= 0.0 {
      assert IsViable(viable[i], health, minHealth);
    }
    WeightsSumNear255(viable, |viable| as real);
  }

  lemma {:induction false} NamesListed(viable: seq<Entry>, names: set<string>)
    requires forall i, j :: 0 <= i < j < |viable| ==> viable[i].name != viable[j].name
    requires forall name :: name in names <==> exists i :: 0 <= i < |viable| && viable[i].name == name
    ensures |names| == |viable|
  {
    if |viable| == 0 {
      assert names == {};
    } else {
      var init, last := viable[..|viable| - 1], viable[|viable| - 1];
      assert last.name in names;
      forall name ensures name in names - {last.name} <==> exists i :: 0 <= i < |init| && init[i].name == name {
        if name in names - {last.name} {
          var i :| 0 <= i < |viable| && viable[i].name == name;
          assert init[i].name == name;
        }
        if i :| 0 <= i < |init| && init[i].name == name {
          assert viable[i].name == name && viable[i].name != viable[|viable| - 1].name;
        }
      }
      NamesListed(init, names - {last.name});
    }
  }

  lemma CountListed(viable: seq<Entry>, weights: map<string, Weight>, health: map<string, HealthScore>, minHealth: real)
    requires Lists(viable, health, minHealth) && Weighs(weights, viable) && weights != map[]
    ensures |weights| == |viable|
  {
    hide TotalHealth, WeightOf, IsViable;
    forall name ensures name in weights.Keys <==> exists i :: 0 <= i < |viable| && viable[i].name == name {
      if name in weights {
        var e :| e in viable && e.name == name;
      }
      if i :| 0 <= i < |viable| && viable[i].name == name {
        assert viable[i] in viable;
      }
    }
    NamesListed(viable, weights.Keys);
  }

  /** What balancing promises for any health map with percentages as scores. */
  lemma BalancingSound(viable: seq<Entry>, health: map<string, HealthScore>, minHealth: real,
                       weights: map<string, Weight>)
    requires Lists(viable, health, minHealth) && Weighs(weights, viable)
    requires forall name :: name in health ==> Percent(health[name].overall)
    ensures weights == map[]
       <==> forall name :: name in health ==> health[name].overall < minHealth || health[name].overall == 0.0
    ensures weights != map[] ==>
              && (forall name :: name in weights <==> name in health && health[name].overall >= minHealth)
              && (forall a, b :: a in weights && b in weights && health[a].overall <= health[b].overall
                                 ==> weights[a] <= weights[b])
              && TotalHealth(viable) > 0.0
              && (forall a :: a in weights ==>
                    var quota := health[a].overall / TotalHealth(viable) * 255.0;
                    quota - 0.5 <= weights[a] as real <= quota + 1.0)
              && 255.0 + |weights| as real * -0.5 <= TotalWeights(weights) as real <= 255.0 + |weights| as real * 1.0
  {
    if weights != map[] {
      BalancedTotal(viable, health, minHealth, weights);
      CountListed(viable, weights, health, minHealth);
    }
    hide TotalWeights;
    var total := TotalHealth(viable);
    forall i | 0 <= i < |viable| ensures viable[i].score >= 0.0 && viable[i].score <= total {
      assert IsViable(viable[i], health, minHealth);
      assert forall j :: 0 <= j < |viable| ==> IsViable(viable[j], health, minHealth);
      PartAtMostTotal(viable, i);
    }
    TotalZero(viable);
    hide SumOf, WeightOf, TotalHealth;
    forall name | name in health && health[name].overall >= minHealth
      ensures Entry(name, health[name].overall) in viable
    {
      assert IsViable(Entry(name, health[name].overall), health, minHealth);
    }
    if weights != map[] {
      forall a, b | a in weights && b in weights && health[a].overall <= health[b].overall
        ensures weights[a] <= weights[b]
      {
        var x, y := Entry(a, health[a].overall), Entry(b, health[b].overall);
        assert x in viable && y in viable;
        WeightsOrdered(x.score, y.score, total);
      }
      forall a | a in weights
        ensures var quota := health[a].overall / total * 255.0; quota - 0.5 <= weights[a] as real <= quota + 1.0
      {
        assert Entry(a, health[a].overall) in viable;
        WeightNearQuota(health[a].overall, total);
      }
    }
  }

  lemma {:induction false} TotalZero(viable: seq<Entry>)
    requires forall i :: 0 <= i < |viable| ==> viable[i].score >= 0.0
    ensures TotalHealth(viable) >= 0.0
    ensures TotalHealth(viable) == 0.0 <==> forall i :: 0 <= i < |viable| ==> viable[i].score == 0.0
  {
    if |viable| == 0 {
    } else {
      var init := viable[..|viable| - 1];
      TotalZero(init);
      assert forall i :: 0 <= i < |init| ==> viable[i] == init[i];
    }
  }
}

/**
 Bond membership: the healthiest member is active, the others stand by, and a stable sort over
 standby-then-active decides between equals.
 */
module Bonding {
  import opened Common
  import opened Scoring

  datatype BondState = BondState(
    name: string, activeMembers: seq<string>, standbyMembers: seq<string>, failedMembers: seq<string>,
    failoverActive: bool, lastFailover: Option<int>)

  datatype BondingError = NotFound(name: string) | CreateFailed(name: string)

  type Health = map<string, HealthScore>

  datatype Scored = Scored(member: string, score: real)

  /** The members that have a score, with it. */
  function ScoredMembers(order: seq<string>, health: Health): seq<Scored> {
    if |order| == 0 then []
    else
      var rest, m := ScoredMembers(order[..|order| - 1], health), order[|order| - 1];
      if m in health then rest + [Scored(m, health[m].overall)] else rest
  }

  /** Puts `x` behind everything that scores at least as much. */
  function Insert(sorted: seq<Scored>, x: Scored): seq<Scored> {
    if |sorted| == 0 || sorted[|sorted| - 1].score >= x.score then sorted + [x]
    else Insert(sorted[..|sorted| - 1], x) + [sorted[|sorted| - 1]]
  }

  /** `sort_by` with the comparison reversed: highest score first, equals in their original order. */
  function SortDescending(s: seq<Scored>): seq<Scored> {
    if |s| == 0 then [] else Insert(SortDescending(s[..|s| - 1]), s[|s| - 1])
  }

  function WithoutMember(s: seq<string>, x: string): seq<string> {
    if |s| == 0 then []
    else WithoutMember(s[..|s| - 1], x) + (if s[|s| - 1] == x then [] else [s[|s| - 1]])
  }

  function KnownTo(health: Health, s: seq<string>): seq<string> {
    if |s| == 0 then []
    else KnownTo(health, s[..|s| - 1]) + (if s[|s| - 1] in health then [s[|s| - 1]] else [])
  }

  /** The order in which the members are scored. */
  function Order(st: BondState): seq<string> {
    st.standbyMembers + st.activeMembers
  }

  /** The standby list with the previously active member behind it. */
  function WithPrevious(st: BondState): seq<string> {
    if |st.activeMembers| > 0 && st.activeMembers[0] !in st.standbyMembers
    then st.standbyMembers + [st.activeMembers[0]] else st.standbyMembers
  }

  function MadeActive(st: BondState, best: string, health: Health, now: int): BondState {
    BondState(st.name, [best], WithoutMember(WithPrevious(st), best), KnownTo(health, st.failedMembers), true,
              Some(now))
  }

  function Updated(st: BondState, health: Health, now: int): (BondState, Option<string>) {
    var scored := SortDescending(ScoredMembers(Order(st), health));
    if |scored| == 0 then (st, None)
    else
      var best := scored[0].member;
      if |st.activeMembers| > 0 && st.activeMembers[0] == best then (st, None)
      else (MadeActive(st, best, health, now), Some(best))
  }

  function Created(name: string, members: seq<string>): BondState {
    BondState(name, [], members, [], false, None)
  }

  class BondManager {
    var bonds: map<string, BondState>

    constructor ()
      ensures bonds == map[]
    {
      bonds := map[];
    }

    /** `created` is whether the bond interface could be set up. */
    method CreateBond(name: string, members: seq<string>, created: bool) returns (r: Result<(), BondingError>)
      modifies this`bonds
      ensures r == if created then Ok(()) else Err(CreateFailed(name))
      ensures bonds == if created then old(bonds)[name := Created(name, members)] else old(bonds)
    {
      if !created {
        return Err(CreateFailed(name));
      }
      bonds := bonds[name := Created(name, members)];
      return Ok(());
    }

    method UpdateMembership(bond: string, health: Health, now: int) returns (r: Result<Option<string>, BondingError>)
      modifies this`bonds
      ensures bond !in old(bonds) ==> r == Err(NotFound(bond)) && bonds == old(bonds)
      ensures bond in old(bonds) ==>
                && r == Ok(Updated(old(bonds)[bond], health, now).1)
                && bonds == old(bonds)[bond := Updated(old(bonds)[bond], health, now).0]
    {
      if bond !in bonds {
        return Err(NotFound(bond));
      }
      var state := bonds[bond];
      var scored := SortDescending(ScoredMembers(state.standbyMembers + state.activeMembers, health));
      if |scored| == 0 {
        return Ok(None);
      }
      var best := scored[0].member;
      var previous: Option<string> := if |state.activeMembers| > 0 then Some(state.activeMembers[0]) else None;
      if previous == Some(best) {
        return Ok(None);
      }
      state := state.(activeMembers := []);
      state := state.(activeMembers := state.activeMembers + [best]);
      assert state.activeMembers == [best];
      if previous.Some? {
        if previous.value !in state.standbyMembers {
          state := state.(standbyMembers := state.standbyMembers + [previous.value]);
        }
      }
      state := state.(standbyMembers := WithoutMember(state.standbyMembers, best));
      state := state.(failoverActive := true, lastFailover := Some(now));
      state := state.(failedMembers := KnownTo(health, state.failedMembers));
      assert state == Updated(bonds[bond], health, now).0;
      bonds := bonds[bond := state];
      return Ok(Some(best));
    }
  }

  // ---------- The sort ----------

  ghost predicate Descending(s: seq<Scored>) {
    forall i, j :: 0 <= i < j < |s| ==> s[i].score >= s[j].score
  }

  /** The elements with one score, in order. */
  function Tied(s: seq<Scored>, v: real): seq<Scored> {
    if |s| == 0 then []
    else Tied(s[..|s| - 1], v) + (if s[|s| - 1].score == v then [s[|s| - 1]] else [])
  }

  lemma {:induction false} InsertBounded(s: seq<Scored>, x: Scored, low: real)
    requires x.score >= low && forall i :: 0 <= i < |s| ==> s[i].score >= low
    ensures forall i :: 0 <= i < |Insert(s, x)| ==> Insert(s, x)[i].score >= low
  {
    if |s| == 0 || s[|s| - 1].score >= x.score {
    } else {
      InsertBounded(s[..|s| - 1], x, low);
    }
  }

  lemma {:induction false} InsertDescending(s: seq<Scored>, x: Scored)
    requires Descending(s)
    ensures Descending(Insert(s, x))
  {
    if |s| == 0 || s[|s| - 1].score >= x.score {
    } else {
      InsertDescending(s[..|s| - 1], x);
      InsertBounded(s[..|s| - 1], x, s[|s| - 1].score);
    }
  }

  lemma {:induction false} InsertKeeps(s: seq<Scored>, x: Scored)
    ensures multiset(Insert(s, x)) == multiset(s) + multiset{x}
  {
    if |s| == 0 || s[|s| - 1].score >= x.score {
    } else {
      InsertKeeps(s[..|s| - 1], x);
      assert s == s[..|s| - 1] + [s[|s| - 1]];
    }
  }

  lemma TiedSnoc(s: seq<Scored>, x: Scored, v: real)
    ensures Tied(s + [x], v) == Tied(s, v) + (if x.score == v then [x] else [])
  {
    assert (s + [x])[..|s|] == s;
  }

  lemma {:induction false} InsertTied(s: seq<Scored>, x: Scored, v: real)
    requires Descending(s)
    ensures Tied(Insert(s, x), v) == Tied(s, v) + (if x.score == v then [x] else [])
  {
    if |s| == 0 || s[|s| - 1].score >= x.score {
      TiedSnoc(s, x, v);
    } else {
      var init, last := s[..|s| - 1], s[|s| - 1];
      EndsWithLast(s);
      assert Insert(s, x) == Insert(init, x) + [last];
      assert Descending(init) && last.score < x.score;
      hide *;
      InsertTied(init, x, v);
      TiedSnoc(Insert(init, x), last, v);
      TiedSnoc(init, last, v);
    }
  }

  /** The sort orders by score, keeps every element and is stable. */
  lemma {:induction false} SortIsStable(s: seq<Scored>, v: real)
    ensures Descending(SortDescending(s))
    ensures multiset(SortDescending(s)) == multiset(s)
    ensures Tied(SortDescending(s), v) == Tied(s, v)
  {
    if |s| == 0 {
    } else {
      var init, x := s[..|s| - 1], s[|s| - 1];
      EndsWithLast(s);
      TiedSnoc(init, x, v);
      assert SortDescending(s) == Insert(SortDescending(init), x);
      hide *;
      SortIsStable(init, v);
      InsertDescending(SortDescending(init), x);
      InsertKeeps(SortDescending(init), x);
      InsertTied(SortDescending(init), x, v);
    }
  }

  lemma EndsWithLast(s: seq<Scored>)
    requires |s| > 0
    ensures s == s[..|s| - 1] + [s[|s| - 1]]
    ensures multiset(s) == multiset(s[..|s| - 1]) + multiset{s[|s| - 1]}
  {
    assert s == s[..|s| - 1] + [s[|s| - 1]];
  }

  // ---------- Members and their ties ----------

  /** No member occurs twice. */
  ghost predicate Distinct(s: seq<string>) {
    forall m :: m in s ==> multiset(s)[m] == 1
  }

  ghost predicate WellFormed(st: BondState) {
    Distinct(Order(st)) && |st.activeMembers| <= 1
  }

  /** `v` is the highest score among the members that have one. */
  ghost predicate IsTopScore(order: seq<string>, health: Health, v: real) {
    && (exists m :: m in order && m in health && health[m].overall == v)
    && (forall m :: m in order && m in health ==> health[m].overall <= v)
  }

  /** The members that score `v`, in order. */
  function Top(order: seq<string>, health: Health, v: real): seq<string> {
    if |order| == 0 then []
    else
      var m := order[|order| - 1];
      Top(order[..|order| - 1], health, v) + (if m in health && health[m].overall == v then [m] else [])
  }

  function Rotated(s: seq<string>): (r: seq<string>)
    requires |s| > 0
    ensures |r| == |s|
  {
    s[1..] + [s[0]]
  }

  lemma {:induction false} ScoredAre(order: seq<string>, health: Health, m: string, score: real)
    ensures Scored(m, score) in ScoredMembers(order, health)
       <==> m in order && m in health && health[m].overall == score
  {
    if |order| == 0 {
    } else {
      ScoredAre(order[..|order| - 1], health, m, score);
      assert order == order[..|order| - 1] + [order[|order| - 1]];
    }
  }

  lemma {:induction false} TiedAreTop(order: seq<string>, health: Health, v: real)
    ensures var tied, top := Tied(ScoredMembers(order, health), v), Top(order, health, v);
            |tied| == |top| && forall i :: 0 <= i < |top| ==> tied[i] == Scored(top[i], v)
  {
    if |order| == 0 {
    } else {
      var init, m := order[..|order| - 1], order[|order| - 1];
      TiedAreTop(init, health, v);
      if m in health {
        TiedSnoc(ScoredMembers(init, health), Scored(m, health[m].overall), v);
      }
    }
  }

  lemma {:induction false} TiedHead(s: seq<Scored>, v: real)
    requires |s| > 0 && s[0].score == v
    ensures |Tied(s, v)| > 0 && Tied(s, v)[0] == s[0]
  {
    if |s| == 1 {
    } else {
      TiedHead(s[..|s| - 1], v);
    }
  }

  /** The sort puts the first of the members with the top score in front. */
  lemma HeadIsFirstTop(order: seq<string>, health: Health, v: real)
    requires IsTopScore(order, health, v)
    ensures var scored := SortDescending(ScoredMembers(order, health));
            && |scored| > 0 && |Top(order, health, v)| > 0
            && scored[0] == Scored(Top(order, health, v)[0], v)
  {
    var input := ScoredMembers(order, health);
    var scored := SortDescending(input);
    SortIsStable(input, v);
    var m :| m in order && m in health && health[m].overall == v;
    ScoredAre(order, health, m, v);
    assert Scored(m, v) in multiset(scored);
    var k :| 0 <= k < |scored| && scored[k] == Scored(m, v);
    assert scored[0].score >= v;
    assert scored[0] in multiset(input);
    ScoredAre(order, health, scored[0].member, scored[0].score);
    TiedHead(scored, v);
    TiedAreTop(order, health, v);
  }

  lemma {:induction false} WithoutMemberAppend(a: seq<string>, b: seq<string>, x: string)
    ensures WithoutMember(a + b, x) == WithoutMember(a, x) + WithoutMember(b, x)
  {
    if |b| == 0 {
      assert a + b == a;
    } else {
      assert (a + b)[..|a + b| - 1] == a + b[..|b| - 1];
      WithoutMemberAppend(a, b[..|b| - 1], x);
    }
  }

  lemma {:induction false} WithoutMemberCounts(s: seq<string>, x: string)
    ensures multiset(WithoutMember(s, x)) == multiset(s)[x := 0]
    ensures x !in s ==> WithoutMember(s, x) == s
  {
    if |s| == 0 {
    } else {
      WithoutMemberCounts(s[..|s| - 1], x);
      assert s == s[..|s| - 1] + [s[|s| - 1]];
    }
  }

  lemma {:induction false} TopAppend(a: seq<string>, b: seq<string>, health: Health, v: real)
    ensures Top(a + b, health, v) == Top(a, health, v) + Top(b, health, v)
  {
    if |b| == 0 {
      assert a + b == a;
    } else {
      assert (a + b)[..|a + b| - 1] == a + b[..|b| - 1];
      TopAppend(a, b[..|b| - 1], health, v);
    }
  }

  lemma {:induction false} TopWithoutMember(order: seq<string>, x: string, health: Health, v: real)
    ensures Top(WithoutMember(order, x), health, v) == WithoutMember(Top(order, health, v), x)
  {
    if |order| == 0 {
    } else {
      var init, m := order[..|order| - 1], order[|order| - 1];
      TopWithoutMember(init, x, health, v);
      TopAppend(WithoutMember(init, x), if m == x then [] else [m], health, v);
      WithoutMemberAppend(Top(init, health, v), if m in health && health[m].overall == v then [m] else [], x);
    }
  }

  lemma {:induction false} TopCounts(order: seq<string>, health: Health, v: real, m: string)
    ensures multiset(Top(order, health, v))[m]
         == if m in health && health[m].overall == v then multiset(order)[m] else 0
  {
    if |order| == 0 {
    } else {
      TopCounts(order[..|order| - 1], health, v, m);
      assert order == order[..|order| - 1] + [order[|order| - 1]];
    }
  }

  lemma WithoutMemberHead(s: seq<string>)
    requires |s| > 0 && multiset(s)[s[0]] == 1
    ensures WithoutMember(s, s[0]) == s[1..]
  {
    assert s == [s[0]] + s[1..];
    WithoutMemberAppend([s[0]], s[1..], s[0]);
    WithoutMemberCounts(s[1..], s[0]);
    assert s[0] !in multiset(s[1..]);
  }

  // ---------- One update ----------

  lemma ActiveNotStandby(st: BondState, active: string)
    requires WellFormed(st) && st.activeMembers == [active]
    ensures multiset(st.standbyMembers)[active] == 0
  {
    assert active in Order(st);
    assert multiset(Order(st)) == multiset(st.standbyMembers) + multiset{active};
  }

  lemma OrderHasPrevious(st: BondState)
    requires WellFormed(st)
    ensures WithPrevious(st) == Order(st)
  {
    if |st.activeMembers| > 0 {
      var active := st.activeMembers[0];
      assert st.activeMembers == [active];
      ActiveNotStandby(st, active);
    }
  }

  /** Taking a member out of the order and putting it back at the end loses nothing. */
  lemma MoveToEnd(order: seq<string>, best: string)
    requires Distinct(order) && best in order
    ensures multiset(WithoutMember(order, best) + [best]) == multiset(order)
  {
    WithoutMemberCounts(order, best);
  }

  lemma TopOfOne(m: string, health: Health, v: real)
    ensures Top([m], health, v) == if m in health && health[m].overall == v then [m] else []
  {
    assert [m][..0] == [];
  }

  /** The active member comes last in the order, so when it is the first of the tied ones it is the only one. */
  lemma OnlyActiveAtTop(st: BondState, active: string, health: Health, v: real)
    requires WellFormed(st) && st.activeMembers == [active] && |Top(Order(st), health, v)| > 0
    ensures Top(Order(st), health, v)[0] == active <==> Top(Order(st), health, v) == [active]
  {
    var before := Top(st.standbyMembers, health, v);
    TopAppend(st.standbyMembers, [active], health, v);
    TopCounts(st.standbyMembers, health, v, active);
    ActiveNotStandby(st, active);
    TopOfOne(active, health, v);
    hide Top, WellFormed;
    if |before| > 0 {
      assert before[0] in multiset(before);
    }
  }

  /** The update in terms of the first member with the top score. */
  lemma UpdatedIs(st: BondState, health: Health, now: int, v: real)
    requires WellFormed(st) && IsTopScore(Order(st), health, v)
    ensures |Top(Order(st), health, v)| > 0
    ensures var best := Top(Order(st), health, v)[0];
            Updated(st, health, now)
            == if st.activeMembers == [best] then (st, None) else (MadeActive(st, best, health, now), Some(best))
    ensures Top(Order(st), health, v)[0] in Order(st)
  {
    HeadIsFirstTop(Order(st), health, v);
    var best := Top(Order(st), health, v)[0];
    TopCounts(Order(st), health, v, best);
    assert best in multiset(Top(Order(st), health, v));
    assert best in multiset(Order(st));
    assert |st.activeMembers| > 0 && st.activeMembers[0] == best ==> st.activeMembers == [best];
    hide Top, SortDescending, ScoredMembers, MadeActive, IsTopScore, Distinct;
  }

  lemma TopRotates(order: seq<string>, best: string, health: Health, v: real)
    requires Distinct(order) && |Top(order, health, v)| > 0 && best == Top(order, health, v)[0]
    ensures Top(WithoutMember(order, best) + [best], health, v) == Rotated(Top(order, health, v))
  {
    var tops := Top(order, health, v);
    TopCounts(order, health, v, best);
    assert best in multiset(tops);
    assert best in multiset(order);
    TopOfOne(best, health, v);
    TopAppend(WithoutMember(order, best), [best], health, v);
    TopWithoutMember(order, best, health, v);
    WithoutMemberHead(tops);
  }

  lemma SameCountsDistinct(a: seq<string>, b: seq<string>)
    requires Distinct(a) && multiset(a) == multiset(b)
    ensures Distinct(b)
  {
    forall m | m in b ensures multiset(b)[m] == 1 {
      assert m in multiset(a);
    }
  }

  lemma FailoverRotates(st: BondState, best: string, health: Health, now: int, v: real)
    requires WellFormed(st) && best in Order(st)
    requires |Top(Order(st), health, v)| > 0 && best == Top(Order(st), health, v)[0]
    ensures RotatesTo(st, MadeActive(st, best, health, now), health, v)
  {
    var st' := MadeActive(st, best, health, now);
    OrderHasPrevious(st);
    assert Order(st') == WithoutMember(Order(st), best) + [best];
    hide Top, WithoutMember, WithPrevious, MadeActive;
    TopRotates(Order(st), best, health, v);
    MoveToEnd(Order(st), best);
    SameCountsDistinct(Order(st), Order(st'));
    WhatIsMade(st, best, health, now);
  }

  lemma WhatIsMade(st: BondState, best: string, health: Health, now: int)
    ensures var st' := MadeActive(st, best, health, now);
            st'.activeMembers == [best] && st'.failoverActive && st'.lastFailover == Some(now)
  {
  }

  lemma AtMostOneActive(st: BondState)
    requires WellFormed(st)
    ensures |st.activeMembers| <= 1
  {
  }

  lemma RotatesSome(st: BondState, st': BondState, health: Health, v: real)
    requires RotatesTo(st, st', health, v)
    ensures |Top(Order(st), health, v)| > 0
  {
  }

  /** The members tied at `v` moved on by one, the first of them active. */
  ghost predicate RotatesTo(st: BondState, st': BondState, health: Health, v: real) {
    var tops := Top(Order(st), health, v);
    && |tops| > 0
    && WellFormed(st') && multiset(Order(st')) == multiset(Order(st))
    && Top(Order(st'), health, v) == Rotated(tops)
    && st'.activeMembers == [tops[0]]
  }

  lemma QuietRotates(st: BondState, active: string, health: Health, v: real)
    requires WellFormed(st) && st.activeMembers == [active] && Top(Order(st), health, v) == [active]
    ensures RotatesTo(st, st, health, v)
  {
    var tops := Top(Order(st), health, v);
    hide Top, WellFormed;
    assert Rotated(tops) == tops;
  }

  /**
   What an update does when some member has a score: the members tied at the top form a queue whose
   head becomes active and moves to the back. It is a no-op exactly when the active member is alone
   at the top.
   */
  lemma UpdateRotates(st: BondState, health: Health, now: int, v: real)
    requires WellFormed(st) && IsTopScore(Order(st), health, v)
    ensures var tops := Top(Order(st), health, v);
            var u := Updated(st, health, now);
            && RotatesTo(st, u.0, health, v)
            && (u.1 == None <==> st.activeMembers == tops)
            && (u.1 == None ==> u.0 == st)
            && (u.1.Some? ==> u.1.value == tops[0] && u.0.failoverActive && u.0.lastFailover == Some(now))
  {
    hide *;
    UpdatedIs(st, health, now, v);
    AtMostOneActive(st);
    var tops := Top(Order(st), health, v);
    var best := tops[0];
    if st.activeMembers == [best] {
      OnlyActiveAtTop(st, best, health, v);
      QuietRotates(st, best, health, v);
    } else {
      FailoverRotates(st, best, health, now, v);
      WhatIsMade(st, best, health, now);
      assert |tops| == 1 ==> tops == [best];
    }
  }

  /** Without any score an update changes nothing. */
  lemma UpdateWithoutScores(st: BondState, health: Health, now: int)
    requires forall m :: m in Order(st) ==> m !in health
    ensures Updated(st, health, now) == (st, None)
  {
    var scored := ScoredMembers(Order(st), health);
    if |scored| > 0 {
      ScoredAre(Order(st), health, scored[0].member, scored[0].score);
    }
  }

  lemma {:induction false} TopScoreExists(order: seq<string>, health: Health, m: string) returns (v: real)
    requires m in order && m in health
    ensures IsTopScore(order, health, v)
  {
    var init, last := order[..|order| - 1], order[|order| - 1];
    assert order == init + [last];
    if k :| k in init && k in health {
      v := TopScoreExists(init, health, k);
      if last in health && health[last].overall > v {
        v := health[last].overall;
      } else {
        var w :| w in init && w in health && health[w].overall == v;
        assert w in order;
      }
    } else {
      v := health[last].overall;
    }
  }

  /** The active member strictly beats every scored standby. */
  ghost predicate Beats(st: BondState, active: string, health: Health)
    requires active in health
  {
    forall s :: s in st.standbyMembers && s in health ==> health[s].overall < health[active].overall
  }

  /** With scored members about, an update is quiet exactly when the active one strictly beats every scored standby. */
  lemma QuietExactly(st: BondState, health: Health, now: int, m: string)
    requires WellFormed(st) && m in Order(st) && m in health
    ensures Updated(st, health, now).1 == None
       <==> && |st.activeMembers| == 1 && st.activeMembers[0] in health
            && Beats(st, st.activeMembers[0], health)
  {
    hide *;
    var v := TopScoreExists(Order(st), health, m);
    UpdateRotates(st, health, now, v);
    RotatesSome(st, Updated(st, health, now).0, health, v);
    AtMostOneActive(st);
    if |st.activeMembers| == 1 {
      assert st.activeMembers == [st.activeMembers[0]];
      AloneExactly(st, st.activeMembers[0], health, v);
    }
  }

  lemma AloneExactly(st: BondState, active: string, health: Health, v: real)
    requires WellFormed(st) && st.activeMembers == [active] && IsTopScore(Order(st), health, v)
    ensures Top(Order(st), health, v) == [active]
       <==> active in health && Beats(st, active, health)
  {
    if Top(Order(st), health, v) == [active] {
      TopCounts(Order(st), health, v, active);
      ActiveNotStandby(st, active);
      forall s | s in st.standbyMembers && s in health ensures health[s].overall < health[active].overall {
        assert s in Order(st);
        TopCounts(Order(st), health, v, s);
        assert s in multiset(st.standbyMembers);
      }
    } else if active in health && Beats(st, active, health) {
      AloneAtTop(st, active, health, v);
    }
  }

  lemma AloneAtTop(st: BondState, active: string, health: Health, v: real)
    requires WellFormed(st) && st.activeMembers == [active] && active in health && IsTopScore(Order(st), health, v)
    requires forall s :: s in st.standbyMembers && s in health ==> health[s].overall < health[active].overall
    ensures Top(Order(st), health, v) == [active]
  {
    assert active in Order(st);
    forall m ensures multiset(Top(Order(st), health, v))[m] == multiset{active}[m] {
      TopCounts(Order(st), health, v, m);
      assert m in Order(st) ==> m in st.standbyMembers || m == active;
    }
    assert multiset(Top(Order(st), health, v)) == multiset{active};
    assert |Top(Order(st), health, v)| == |multiset{active}| == 1;
    assert Top(Order(st), health, v)[0] in multiset{active};
  }

  // ---------- Runs ----------

  datatype Round = Round(health: Health, now: int)

  function AfterRounds(st: BondState, rounds: seq<Round>): BondState {
    if |rounds| == 0 then st
    else
      var r := rounds[|rounds| - 1];
      Updated(AfterRounds(st, rounds[..|rounds| - 1]), r.health, r.now).0
  }

  lemma UpdateConserves(st: BondState, health: Health, now: int)
    requires WellFormed(st)
    ensures var st' := Updated(st, health, now).0; WellFormed(st') && multiset(Order(st')) == multiset(Order(st))
  {
    if m :| m in Order(st) && m in health {
      var v := TopScoreExists(Order(st), health, m);
      UpdateRotates(st, health, now, v);
    } else {
      UpdateWithoutScores(st, health, now);
    }
  }

  /** Members are neither lost nor doubled, and at most one is active, whatever the health maps say. */
  lemma {:induction false} MembersConserved(st: BondState, rounds: seq<Round>)
    requires WellFormed(st)
    ensures WellFormed(AfterRounds(st, rounds)) && multiset(Order(AfterRounds(st, rounds))) == multiset(Order(st))
  {
    if |rounds| == 0 {
    } else {
      hide Updated, WellFormed;
      MembersConserved(st, rounds[..|rounds| - 1]);
      UpdateConserves(AfterRounds(st, rounds[..|rounds| - 1]), rounds[|rounds| - 1].health, rounds[|rounds| - 1].now);
    }
  }

  lemma OnlyScoredIsTop(members: seq<string>, health: Health, m: string)
    requires m in members && m in health && forall k :: k in health ==> k == m
    ensures var v := health[m].overall;
            IsTopScore(members, health, v) && |Top(members, health, v)| > 0 && Top(members, health, v)[0] == m
  {
    var v := health[m].overall;
    HeadIsFirstTop(members, health, v);
    var best := Top(members, health, v)[0];
    TopCounts(members, health, v, best);
    assert best in multiset(Top(members, health, v));
  }

  lemma FirstUpdate(name: string, members: seq<string>, health: Health, now: int, m: string)
    requires m in members && m in health && forall k :: k in health ==> k == m
    ensures Updated(Created(name, members), health, now).0 == MadeActive(Created(name, members), m, health, now)
  {
    assert Order(Created(name, members)) == members;
    OnlyScoredIsTop(members, health, m);
    HeadIsFirstTop(members, health, health[m].overall);
    hide SortDescending, ScoredMembers, Top, MadeActive;
  }

  lemma DuplicateIsLost(name: string, members: seq<string>, m: string)
    requires m in members && multiset(members)[m] > 1
    ensures exists rounds :: multiset(Order(AfterRounds(Created(name, members), rounds))) != multiset(members)
  {
    var health: Health := map[m := HealthScore(1.0, 1.0, 1.0, 1.0, 1.0, 1.0, false)];
    var rounds := [Round(health, 0)];
    assert rounds[..0] == [];
    assert AfterRounds(Created(name, members), rounds) == Updated(Created(name, members), health, 0).0;
    FirstUpdate(name, members, health, 0, m);
    assert Order(MadeActive(Created(name, members), m, health, 0)) == WithoutMember(members, m) + [m];
    WithoutMemberCounts(members, m);
    hide Updated, WithoutMember, AfterRounds;
    assert multiset(WithoutMember(members, m) + [m])[m] == 1;
  }

  /** Every run conserves the configured members exactly when no member is configured twice. */
  lemma ConservedExactly(name: string, members: seq<string>)
    ensures (forall rounds :: multiset(Order(AfterRounds(Created(name, members), rounds))) == multiset(members))
       <==> Distinct(members)
  {
    assert Order(Created(name, members)) == members;
    if Distinct(members) {
      forall rounds ensures multiset(Order(AfterRounds(Created(name, members), rounds))) == multiset(members) {
        MembersConserved(Created(name, members), rounds);
      }
    } else {
      var m :| m in members && multiset(members)[m] != 1;
      DuplicateIsLost(name, members, m);
    }
  }

  // ---------- What a run leaves in a bond ----------

  /** The member that the last switching update made active. */
  function LastSwitch(st: BondState, rounds: seq<Round>): Option<string> {
    if |rounds| == 0 then None
    else
      var r := rounds[|rounds| - 1];
      var u := Updated(AfterRounds(st, rounds[..|rounds| - 1]), r.health, r.now);
      if u.1.Some? then u.1 else LastSwitch(st, rounds[..|rounds| - 1])
  }

  /** The time of the last switching update. */
  function LastSwitchTime(st: BondState, rounds: seq<Round>): Option<int> {
    if |rounds| == 0 then None
    else
      var r := rounds[|rounds| - 1];
      var u := Updated(AfterRounds(st, rounds[..|rounds| - 1]), r.health, r.now);
      if u.1.Some? then Some(r.now) else LastSwitchTime(st, rounds[..|rounds| - 1])
  }

  lemma UpdateLeaves(st: BondState, health: Health, now: int)
    requires WellFormed(st) && st.failedMembers == []
    ensures var u := Updated(st, health, now);
            && u.0.name == st.name && u.0.failedMembers == []
            && (u.1 == None ==> u.0 == st)
            && (u.1.Some? ==>
                  u.0.activeMembers == [u.1.value] && u.0.failoverActive && u.0.lastFailover == Some(now))
  {
    hide SortDescending, ScoredMembers, WithoutMember, WithPrevious;
  }

  /**
   Over every run from a creation: the bond is in failover exactly when it ever switched, and then the last
   member switched to is the active one, since that time; the others stand by, and none counts as failed.
   */
  lemma {:induction false} RunLeaves(name: string, members: seq<string>, rounds: seq<Round>)
    requires Distinct(members)
    ensures var st, bond := Created(name, members), AfterRounds(Created(name, members), rounds);
            && bond.name == name && bond.failedMembers == []
            && (bond.failoverActive <==> LastSwitch(st, rounds).Some?)
            && bond.lastFailover == LastSwitchTime(st, rounds)
            && bond.activeMembers == (if LastSwitch(st, rounds).Some? then [LastSwitch(st, rounds).value] else [])
            && multiset(bond.standbyMembers + bond.activeMembers) == multiset(members)
  {
    var st := Created(name, members);
    assert Order(st) == members;
    MembersConserved(st, rounds);
    if |rounds| == 0 {
    } else {
      var init, r := rounds[..|rounds| - 1], rounds[|rounds| - 1];
      RunLeaves(name, members, init);
      MembersConserved(st, init);
      UpdateLeaves(AfterRounds(st, init), r.health, r.now);
      hide Updated, WellFormed, Distinct;
    }
  }

  /** Pruning the failed members keeps those with a score, in order. */
  lemma {:induction false} KnownToKeeps(health: Health, s: seq<string>, m: string)
    ensures multiset(KnownTo(health, s))[m] == if m in health then multiset(s)[m] else 0
    ensures (forall k :: k in s ==> k in health) ==> KnownTo(health, s) == s
  {
    if |s| == 0 {
    } else {
      KnownToKeeps(health, s[..|s| - 1], m);
      assert s == s[..|s| - 1] + [s[|s| - 1]];
    }
  }

  // ---------- An unchanging health map ----------

  /** The state after an update at each of the given times with the same health map. */
  function AfterSame(st: BondState, health: Health, times: seq<int>): BondState {
    if |times| == 0 then st else Updated(AfterSame(st, health, times[..|times| - 1]), health, times[|times| - 1]).0
  }

  /** Whose turn it is among `k` after `n` turns. */
  function Turn(n: nat, k: nat): (turn: nat)
    requires k > 0
    ensures turn < k
  {
    n % k
  }

  function RotatedBy(s: seq<string>, n: nat): (r: seq<string>)
    requires |s| > 0
    ensures |r| == |s|
  {
    s[Turn(n, |s|)..] + s[..Turn(n, |s|)]
  }

  lemma MultipleIsLarger(d: int, k: nat)
    requires d >= 1
    ensures d * k >= k
  {
    assert d * k == k + (d - 1) * k;
  }

  lemma DivisionIsUnique(q: nat, r: nat, q': nat, r': nat, k: nat)
    requires q * k + r == q' * k + r' && r < k && r' < k
    ensures r == r'
  {
    assert (q - q') * k == q * k - q' * k;
    if q > q' {
      MultipleIsLarger(q - q', k);
    } else if q < q' {
      assert (q' - q) * k == q' * k - q * k;
      MultipleIsLarger(q' - q, k);
    }
  }

  lemma DivisionOf(a: nat, k: nat)
    requires k > 0
    ensures a == (a / k) * k + a % k && a % k < k
  {
  }

  lemma RemainderIsUnique(a: nat, k: nat, q: nat, r: nat)
    requires a == q * k + r && r < k
    ensures a % k == r
  {
    DivisionOf(a, k);
    DivisionIsUnique(q, r, a / k, a % k, k);
  }

  lemma NextRemainder(n: nat, k: nat)
    requires k > 0
    ensures (n + 1) % k == if n % k + 1 == k then 0 else n % k + 1
  {
    var q, r := n / k, n % k;
    DivisionOf(n, k);
    if r + 1 == k {
      assert (q + 1) * k == q * k + k;
      RemainderIsUnique(n + 1, k, q + 1, 0);
    } else {
      RemainderIsUnique(n + 1, k, q, r + 1);
    }
  }

  lemma RotatedOnce(s: seq<string>, n: nat)
    requires |s| > 0
    ensures Rotated(RotatedBy(s, n)) == RotatedBy(s, n + 1)
    ensures RotatedBy(s, n)[0] == s[Turn(n, |s|)]
  {
    NextRemainder(n, |s|);
  }

  lemma SameMembersSameTop(a: seq<string>, b: seq<string>, health: Health, v: real)
    requires multiset(a) == multiset(b) && IsTopScore(a, health, v)
    ensures IsTopScore(b, health, v)
  {
    forall m ensures m in a <==> m in b {
      assert m in a <==> m in multiset(a);
      assert m in b <==> m in multiset(b);
    }
  }

  /** After each update under an unchanging health map the tied members have moved on by one. */
  lemma {:induction false} TiedMembersRotate(st: BondState, health: Health, times: seq<int>, v: real)
    requires WellFormed(st) && IsTopScore(Order(st), health, v)
    ensures var tops := Top(Order(st), health, v);
            var st' := AfterSame(st, health, times);
            && |tops| > 0
            && WellFormed(st') && multiset(Order(st')) == multiset(Order(st))
            && Top(Order(st'), health, v) == RotatedBy(tops, |times|)
            && (|times| > 0 ==> st'.activeMembers == [RotatedBy(tops, |times| - 1)[0]])
  {
    var tops := Top(Order(st), health, v);
    hide Updated, Top, WellFormed, IsTopScore, Rotated, RotatedBy, Order, Turn;
    UpdateRotates(st, health, 0, v);
    if |times| == 0 {
      NoTurn(tops);
    } else {
      var before, last := times[..|times| - 1], times[|times| - 1];
      var prior := AfterSame(st, health, before);
      TiedMembersRotate(st, health, before, v);
      SameMembersSameTop(Order(st), Order(prior), health, v);
      UpdateRotates(prior, health, last, v);
      RotatedOnce(tops, |before|);
    }
  }

  lemma NoTurn(s: seq<string>)
    requires |s| > 0
    ensures RotatedBy(s, 0) == s
  {
  }

  /**
   Under an unchanging health map the update after `|times|` others activates the tied members in
   turn, with their number as the period; a unique best member makes every update after the first a no-op.
   */
  lemma RoundRobin(st: BondState, health: Health, times: seq<int>, now: int, v: real)
    requires WellFormed(st) && IsTopScore(Order(st), health, v)
    ensures var tops := Top(Order(st), health, v);
            var u := Updated(AfterSame(st, health, times), health, now);
            && |tops| > 0
            && (|tops| >= 2 ==> u.1 == Some(tops[Turn(|times|, |tops|)]))
            && (|tops| == 1 && |times| > 0 ==> u == (AfterSame(st, health, times), None))
  {
    var tops, st' := Top(Order(st), health, v), AfterSame(st, health, times);
    hide Updated, Top, WellFormed, IsTopScore, AfterSame, Order, RotatedBy, Rotated, Turn;
    TiedMembersRotate(st, health, times, v);
    SameMembersSameTop(Order(st), Order(st'), health, v);
    UpdateRotates(st', health, now, v);
    RotatedOnce(tops, |times|);
    if |tops| == 1 {
      RotatedSingle(tops, |times|);
      if |times| > 0 {
        RotatedSingle(tops, |times| - 1);
      }
    } else {
      AtMostOneActive(st');
    }
  }

  lemma RotatedSingle(s: seq<string>, n: nat)
    requires |s| == 1
    ensures RotatedBy(s, n) == s == [s[0]]
  {
    assert n % 1 == 0;
  }
}

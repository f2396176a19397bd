/**
 The routing engine's bookkeeping and the apply-or-roll-back transaction above it. The kernel's
 route table is a ghost set; every command that reaches outside carries its outcome as a value.
 */
module Routing {
  import opened Common

  /** What identifies a default route to both the kernel and the bookkeeping. */
  datatype Route = Route(gateway: string, interface: string, metric: nat)

  datatype ManagedRoute = ManagedRoute(
    destination: Option<string>, gateway: string, interface: string, metric: nat, table: Option<nat>)

  function Key(m: ManagedRoute): Route {
    Route(m.gateway, m.interface, m.metric)
  }

  function Default(r: Route): ManagedRoute {
    ManagedRoute(Some("0.0.0.0/0"), r.gateway, r.interface, r.metric, None)
  }

  /** The `ip route del` command succeeded, ran and failed, or could not be run at all. */
  datatype DelOutcome = Deleted | Refused | NotRun

  datatype EngineState = EngineState(managed: seq<ManagedRoute>, kernel: set<Route>)

  function Keys(managed: seq<ManagedRoute>): set<Route> {
    set m | m in managed :: Key(m)
  }

  function WithoutRoute(managed: seq<ManagedRoute>, r: Route): seq<ManagedRoute> {
    if |managed| == 0 then []
    else
      var kept, last := WithoutRoute(managed[..|managed| - 1], r), managed[|managed| - 1];
      if Key(last) == r then kept else kept + [last]
  }

  function Added(s: EngineState, r: Route, ok: bool): EngineState {
    if ok then EngineState(s.managed + [Default(r)], s.kernel + {r}) else s
  }

  /** A deletion that ran is forgotten by the bookkeeping even when the kernel refused it. */
  function Removed(s: EngineState, r: Route, outcome: DelOutcome): EngineState {
    EngineState(if outcome == NotRun then s.managed else WithoutRoute(s.managed, r),
                if outcome == Deleted then s.kernel - {r} else s.kernel)
  }

  class RoutingEngine {
    var managedRoutes: seq<ManagedRoute>
    ghost var kernel: set<Route>

    ghost function Contents(): EngineState
      reads this
    {
      EngineState(managedRoutes, kernel)
    }

    constructor (ghost kernel: set<Route>)
      ensures Contents() == EngineState([], kernel)
    {
      managedRoutes := [];
      this.kernel := kernel;
    }

    method AddDefaultRoute(r: Route, ok: bool) returns (success: bool)
      modifies this
      ensures success == ok && Contents() == Added(old(Contents()), r, ok)
    {
      if !ok {
        return false;
      }
      kernel := kernel + {r};
      managedRoutes := managedRoutes + [ManagedRoute(Some("0.0.0.0/0"), r.gateway, r.interface, r.metric, None)];
      return true;
    }

    method DelDefaultRoute(r: Route, outcome: DelOutcome) returns (success: bool)
      modifies this
      ensures success == (outcome != NotRun) && Contents() == Removed(old(Contents()), r, outcome)
    {
      if outcome == NotRun {
        return false;
      }
      if outcome == Deleted {
        kernel := kernel - {r};
      }
      managedRoutes := WithoutRoute(managedRoutes, r);
      return true;
    }

    method ClearManagedRoutes()
      modifies this`managedRoutes
      ensures managedRoutes == []
    {
      managedRoutes := [];
    }
  }

  // ---------- The transaction ----------

  /** One step of the caller's change closure, with what came of it. */
  datatype Op = Add(route: Route, ok: bool) | Del(route: Route, outcome: DelOutcome)

  function Applied(s: EngineState, op: Op): EngineState {
    match op
    case Add(r, ok) => Added(s, r, ok)
    case Del(r, outcome) => Removed(s, r, outcome)
  }

  function AppliedAll(s: EngineState, ops: seq<Op>): EngineState {
    if |ops| == 0 then s else Applied(AppliedAll(s, ops[..|ops| - 1]), ops[|ops| - 1])
  }

  datatype ApplyResult =
    | Success
    | ValidationFailed
    | VerificationFailed(rollbackSuccess: bool)
    | ApplyFailed(rollbackSuccess: bool)

  /**
   Deletes what is in `todo` but not in the snapshot; `oracle` gives the outcome at each position of
   the list, and the flag says whether every command ran.
   */
  function RolledBack(s: EngineState, snapshot: seq<ManagedRoute>, todo: seq<ManagedRoute>, oracle: nat -> DelOutcome)
    : (EngineState, bool)
  {
    if |todo| == 0 then (s, true)
    else
      var last := |todo| - 1;
      var (s', success) := RolledBack(s, snapshot, todo[..last], oracle);
      var r := Key(todo[last]);
      if r in Keys(snapshot) then (s', success)
      else (Removed(s', r, oracle(last)), success && oracle(last) != NotRun)
  }

  /**
   One `execute`: the steps of the closure, whether it then returned an error, and what the pings and
   deletions gave.
   */
  datatype Call = Call(
    dryRun: bool, validated: bool, ops: seq<Op>, applied: bool, verified: bool, oracle: nat -> DelOutcome)

  function Executed(s: EngineState, c: Call): (EngineState, ApplyResult) {
    if !c.dryRun && !c.validated then (s, ValidationFailed)
    else if c.dryRun then (s, Success)
    else
      var s' := AppliedAll(s, c.ops);
      var (undone, ok) := RolledBack(s', s.managed, s'.managed, c.oracle);
      if !c.applied then (undone, ApplyFailed(ok))
      else if !c.verified then (undone, VerificationFailed(ok))
      else (EngineState([], s'.kernel), Success)
  }

  class SafeApply {
    const dryRun: bool

    constructor (dryRun: bool)
      ensures this.dryRun == dryRun
    {
      this.dryRun := dryRun;
    }

    /** The caller's closure: any sequence of engine calls. */
    method RunChanges(engine: RoutingEngine, ops: seq<Op>)
      modifies engine
      ensures engine.Contents() == AppliedAll(old(engine.Contents()), ops)
    {
      for i := 0 to |ops|
        invariant engine.Contents() == AppliedAll(old(engine.Contents()), ops[..i])
      {
        assert ops[..i + 1][..i] == ops[..i];
        match ops[i] {
          case Add(r, ok) => var _ := engine.AddDefaultRoute(r, ok);
          case Del(r, outcome) => var _ := engine.DelDefaultRoute(r, outcome);
        }
      }
      assert ops[..|ops|] == ops;
    }

    method Rollback(engine: RoutingEngine, previous: seq<ManagedRoute>, oracle: nat -> DelOutcome)
      returns (success: bool)
      modifies engine
      ensures (engine.Contents(), success)
           == RolledBack(old(engine.Contents()), previous, old(engine.managedRoutes), oracle)
    {
      success := true;
      var current := engine.managedRoutes;
      for i := 0 to |current|
        invariant (engine.Contents(), success) == RolledBack(old(engine.Contents()), previous, current[..i], oracle)
      {
        assert current[..i + 1][..i] == current[..i];
        var r := Key(current[i]);
        if !exists p :: p in previous && Key(p) == r {
          var ok := engine.DelDefaultRoute(r, oracle(i));
          if !ok {
            success := false;
          }
        }
      }
      assert current[..|current|] == current;
    }

    method Execute(engine: RoutingEngine, validated: bool, ops: seq<Op>, applied: bool, verified: bool,
                   oracle: nat -> DelOutcome)
      returns (result: ApplyResult)
      modifies engine
      ensures (engine.Contents(), result)
           == Executed(old(engine.Contents()), Call(dryRun, validated, ops, applied, verified, oracle))
    {
      if !dryRun && !validated {
        return ValidationFailed;
      }
      if dryRun {
        return Success;
      }
      var previous := engine.managedRoutes;
      RunChanges(engine, ops);
      if !applied {
        var ok := Rollback(engine, previous, oracle);
        return ApplyFailed(ok);
      }
      if !verified {
        var ok := Rollback(engine, previous, oracle);
        return VerificationFailed(ok);
      }
      engine.ClearManagedRoutes();
      return Success;
    }
  }

  // ---------- What a rollback does ----------

  /** A rollback leaves alone what the snapshot has. */
  predicate IsTarget(snapshot: seq<ManagedRoute>, m: ManagedRoute) {
    Key(m) !in Keys(snapshot)
  }

  /** The routes whose deletion by a rollback takes effect. */
  function Undone(snapshot: seq<ManagedRoute>, todo: seq<ManagedRoute>, oracle: nat -> DelOutcome): set<Route> {
    set i | 0 <= i < |todo| && IsTarget(snapshot, todo[i]) && oracle(i) == Deleted :: Key(todo[i])
  }

  /** The routes that a rollback takes off the list: their deletion ran, whatever came of it. */
  function Forgotten(snapshot: seq<ManagedRoute>, todo: seq<ManagedRoute>, oracle: nat -> DelOutcome): set<Route> {
    set i | 0 <= i < |todo| && IsTarget(snapshot, todo[i]) && oracle(i) != NotRun :: Key(todo[i])
  }

  predicate AllRan(snapshot: seq<ManagedRoute>, todo: seq<ManagedRoute>, oracle: nat -> DelOutcome) {
    forall i :: 0 <= i < |todo| && IsTarget(snapshot, todo[i]) ==> oracle(i) != NotRun
  }

  lemma TargetsSnoc(snapshot: seq<ManagedRoute>, todo: seq<ManagedRoute>, oracle: nat -> DelOutcome)
    requires |todo| > 0
    ensures var last := |todo| - 1;
            var init, hit := todo[..last], if IsTarget(snapshot, todo[last]) then {Key(todo[last])} else {};
            && Undone(snapshot, todo, oracle)
               == Undone(snapshot, init, oracle) + (if oracle(last) == Deleted then hit else {})
            && Forgotten(snapshot, todo, oracle)
               == Forgotten(snapshot, init, oracle) + (if oracle(last) != NotRun then hit else {})
            && (AllRan(snapshot, todo, oracle)
                <==> AllRan(snapshot, init, oracle) && (oracle(last) == NotRun ==> hit == {}))
  {
    hide IsTarget, Key;
    var last := |todo| - 1;
    assert forall i :: 0 <= i < last ==> todo[..last][i] == todo[i];
    if IsTarget(snapshot, todo[last]) && oracle(last) != NotRun {
      assert Key(todo[last]) in Forgotten(snapshot, todo, oracle);
    }
  }

  lemma {:induction false} WithoutRouteMembers(managed: seq<ManagedRoute>, r: Route)
    ensures forall m :: m in WithoutRoute(managed, r) <==> m in managed && Key(m) != r
    ensures Keys(WithoutRoute(managed, r)) == Keys(managed) - {r}
    ensures r !in Keys(managed) ==> WithoutRoute(managed, r) == managed
  {
    if |managed| == 0 {
    } else {
      var init, last := managed[..|managed| - 1], managed[|managed| - 1];
      WithoutRouteMembers(init, r);
      assert managed == init + [last];
      assert Key(last) in Keys(managed);
      assert forall m :: m in managed <==> m in init || m == last;
      assert Keys(init) <= Keys(managed);
    }
  }

  lemma {:induction false} WithoutRouteAppend(a: seq<ManagedRoute>, b: seq<ManagedRoute>, r: Route)
    ensures WithoutRoute(a + b, r) == WithoutRoute(a, r) + WithoutRoute(b, r)
  {
    if |b| == 0 {
      assert a + b == a;
    } else {
      assert (a + b)[..|a + b| - 1] == a + b[..|b| - 1];
      WithoutRouteAppend(a, b[..|b| - 1], r);
    }
  }

  /**
   A rollback removes from the kernel exactly the targets whose deletion took effect, forgets those
   whose deletion ran, and reports success when all of them ran.
   */
  lemma {:induction false} RollbackMeans(s: EngineState, snapshot: seq<ManagedRoute>, todo: seq<ManagedRoute>,
                                         oracle: nat -> DelOutcome)
    ensures var (s', success) := RolledBack(s, snapshot, todo, oracle);
            && s'.kernel == s.kernel - Undone(snapshot, todo, oracle)
            && Keys(s'.managed) == Keys(s.managed) - Forgotten(snapshot, todo, oracle)
            && (success <==> AllRan(snapshot, todo, oracle))
  {
    if |todo| == 0 {
    } else {
      var last := |todo| - 1;
      RollbackMeans(s, snapshot, todo[..last], oracle);
      TargetsSnoc(snapshot, todo, oracle);
      WithoutRouteMembers(RolledBack(s, snapshot, todo[..last], oracle).0.managed, Key(todo[last]));
      hide Undone, Forgotten, AllRan, Keys, WithoutRoute;
    }
  }

  /** A rollback leaves a stretch of the list alone when none of its routes is a target. */
  lemma {:induction false} RollbackKeeps(s: EngineState, kept: seq<ManagedRoute>, extra: seq<ManagedRoute>,
                                         snapshot: seq<ManagedRoute>, todo: seq<ManagedRoute>,
                                         oracle: nat -> DelOutcome)
    returns (left: seq<ManagedRoute>)
    requires s.managed == kept + extra && Keys(kept) <= Keys(snapshot)
    ensures RolledBack(s, snapshot, todo, oracle).0.managed == kept + left
    ensures Keys(left) <= Keys(extra)
  {
    if |todo| == 0 {
      left := extra;
    } else {
      var last := |todo| - 1;
      var r := Key(todo[last]);
      left := RollbackKeeps(s, kept, extra, snapshot, todo[..last], oracle);
      if r !in Keys(snapshot) && oracle(last) != NotRun {
        WithoutRouteAppend(kept, left, r);
        WithoutRouteMembers(kept, r);
        WithoutRouteMembers(left, r);
        left := WithoutRoute(left, r);
      }
    }
  }

  // ---------- What changes do ----------

  /** The kernel accepts only routes that it does not have. */
  ghost predicate AddsOnce(s: EngineState, ops: seq<Op>) {
    |ops| > 0 ==>
      var init, op := ops[..|ops| - 1], ops[|ops| - 1];
      AddsOnce(s, init) && (op.Add? && op.ok ==> op.route !in AppliedAll(s, init).kernel)
  }

  /** Deleting a route that the kernel has takes effect. */
  ghost predicate DeletionsTake(s: EngineState, ops: seq<Op>) {
    |ops| > 0 ==>
      var init, op := ops[..|ops| - 1], ops[|ops| - 1];
      DeletionsTake(s, init) && (op.Del? && op.route in AppliedAll(s, init).kernel ==> op.outcome == Deleted)
  }

  predicate Deletes(ops: seq<Op>, r: Route) {
    exists i :: 0 <= i < |ops| && ops[i].Del? && ops[i].route == r
  }

  /** The changes delete no route that was there before them; deleting their own is fine. */
  predicate SparesExisting(ops: seq<Op>, kernel: set<Route>) {
    forall i :: 0 <= i < |ops| && ops[i].Del? ==> ops[i].route !in kernel
  }

  /** The bookkeeping lists only routes that the kernel has. */
  ghost predicate Tracked(s: EngineState) {
    Keys(s.managed) <= s.kernel
  }

  /** The routes that a sequence of changes adds and does not take out again. */
  function NetAdded(ops: seq<Op>): set<Route> {
    if |ops| == 0 then {}
    else
      match ops[|ops| - 1]
      case Add(r, ok) => NetAdded(ops[..|ops| - 1]) + (if ok then {r} else {})
      case Del(r, outcome) => NetAdded(ops[..|ops| - 1]) - (if outcome == Deleted then {r} else {})
  }

  /** The routes that it adds and then does not try to delete; a refused deletion disowns a route too. */
  function Owned(ops: seq<Op>): set<Route> {
    if |ops| == 0 then {}
    else
      match ops[|ops| - 1]
      case Add(r, ok) => Owned(ops[..|ops| - 1]) + (if ok then {r} else {})
      case Del(r, outcome) => Owned(ops[..|ops| - 1]) - (if outcome != NotRun then {r} else {})
  }

  /** The routes that it takes out at some point. */
  function TakenOut(ops: seq<Op>): set<Route> {
    if |ops| == 0 then {}
    else
      match ops[|ops| - 1]
      case Add(r, ok) => TakenOut(ops[..|ops| - 1])
      case Del(r, outcome) => TakenOut(ops[..|ops| - 1]) + (if outcome == Deleted then {r} else {})
  }

  /** The routes that it tries to delete at some point. */
  function Dropped(ops: seq<Op>): set<Route> {
    if |ops| == 0 then {}
    else
      match ops[|ops| - 1]
      case Add(r, ok) => Dropped(ops[..|ops| - 1])
      case Del(r, outcome) => Dropped(ops[..|ops| - 1]) + (if outcome != NotRun then {r} else {})
  }

  lemma KeysOfSome(managed: seq<ManagedRoute>)
    requires managed != []
    ensures Keys(managed) != {}
  {
    assert Key(managed[0]) in Keys(managed);
  }

  lemma KeysAppend(a: seq<ManagedRoute>, b: seq<ManagedRoute>)
    ensures Keys(a + b) == Keys(a) + Keys(b)
  {
    assert forall m :: m in a + b <==> m in a || m in b;
  }

  lemma KeysOfDefault(r: Route)
    ensures Keys([Default(r)]) == {r}
  {
    assert Key(Default(r)) == r;
  }

  /** What any changes, whatever came of them, leave in the kernel and on the list. */
  lemma {:induction false} ChangesMean(s: EngineState, ops: seq<Op>)
    ensures AppliedAll(s, ops).kernel == (s.kernel - TakenOut(ops)) + NetAdded(ops)
    ensures Keys(AppliedAll(s, ops).managed) == (Keys(s.managed) - Dropped(ops)) + Owned(ops)
    ensures Owned(ops) <= NetAdded(ops) && TakenOut(ops) <= Dropped(ops)
  {
    if |ops| == 0 {
    } else {
      var init, op := ops[..|ops| - 1], ops[|ops| - 1];
      var before := AppliedAll(s, init);
      ChangesMean(s, init);
      KeysAppend(before.managed, [Default(op.route)]);
      KeysOfDefault(op.route);
      WithoutRouteMembers(before.managed, op.route);
      hide Keys, WithoutRoute, Default;
    }
  }

  lemma {:induction false} AddedWereTakenOut(s: EngineState, ops: seq<Op>)
    requires AddsOnce(s, ops)
    ensures NetAdded(ops) * s.kernel <= TakenOut(ops)
  {
    if |ops| == 0 {
    } else {
      AddedWereTakenOut(s, ops[..|ops| - 1]);
      ChangesMean(s, ops[..|ops| - 1]);
      hide AppliedAll, Owned, Dropped, Keys;
    }
  }

  lemma {:induction false} TakenOutAreDeleted(ops: seq<Op>, r: Route)
    ensures r in Dropped(ops) ==> Deletes(ops, r)
  {
    if |ops| == 0 {
    } else {
      var init := ops[..|ops| - 1];
      TakenOutAreDeleted(init, r);
      if Deletes(init, r) {
        var i :| 0 <= i < |init| && init[i].Del? && init[i].route == r;
        assert ops[i] == init[i];
      }
      if ops[|ops| - 1].Del? && ops[|ops| - 1].route == r {
        assert Deletes(ops, r);
      }
    }
  }

  /** While deletions take effect, what is owned is what is there, and deleting an existing route takes it out. */
  lemma {:induction false} DeletionsThatTake(s: EngineState, ops: seq<Op>, r: Route)
    requires DeletionsTake(s, ops)
    ensures r in Owned(ops) <==> r in NetAdded(ops)
    ensures r in s.kernel && Deletes(ops, r) ==> r in TakenOut(ops)
  {
    if |ops| == 0 {
    } else {
      var init, op := ops[..|ops| - 1], ops[|ops| - 1];
      DeletionsThatTake(s, init, r);
      ChangesMean(s, init);
      if Deletes(ops, r) && !(op.Del? && op.route == r) {
        var i :| 0 <= i < |ops| && ops[i].Del? && ops[i].route == r;
        assert init[i] == ops[i];
      }
      hide AppliedAll, Keys, Dropped, Deletes;
    }
  }

  /** While changes spare what is listed, the list only grows. */
  lemma {:induction false} ListGrows(s: EngineState, ops: seq<Op>) returns (extra: seq<ManagedRoute>)
    requires SparesExisting(ops, Keys(s.managed))
    ensures AppliedAll(s, ops).managed == s.managed + extra && Keys(extra) == Owned(ops)
  {
    if |ops| == 0 {
      extra := [];
    } else {
      var init, op := ops[..|ops| - 1], ops[|ops| - 1];
      assert SparesExisting(init, Keys(s.managed));
      extra := ListGrows(s, init);
      var r := op.route;
      KeysAppend(extra, [Default(r)]);
      KeysOfDefault(r);
      WithoutRouteAppend(s.managed, extra, r);
      WithoutRouteMembers(s.managed, r);
      WithoutRouteMembers(extra, r);
      hide Keys, WithoutRoute, Default;
      match op
      case Add(_, ok) => extra := if ok then extra + [Default(r)] else extra;
      case Del(_, outcome) => extra := if outcome == NotRun then extra else WithoutRoute(extra, r);
    }
  }

  /** While changes spare what exists, the list grows by what they own and the table by what they added and left. */
  lemma ChangesGrow(s: EngineState, ops: seq<Op>) returns (extra: seq<ManagedRoute>)
    requires Tracked(s) && AddsOnce(s, ops) && SparesExisting(ops, s.kernel)
    ensures var s' := AppliedAll(s, ops);
            && s'.managed == s.managed + extra
            && Keys(extra) == Owned(ops)
            && s'.kernel == s.kernel + NetAdded(ops)
            && s.kernel !! NetAdded(ops)
  {
    ChangesMean(s, ops);
    AddedWereTakenOut(s, ops);
    forall r | r in TakenOut(ops) ensures r !in s.kernel {
      TakenOutAreDeleted(ops, r);
    }
    hide AppliedAll, NetAdded, Owned, TakenOut, Dropped, Keys;
    extra := ListGrows(s, ops);
  }

  // ---------- Atomicity ----------

  /** The call got as far as changing routes and then failed. */
  predicate Fails(c: Call) {
    !c.dryRun && c.validated && !(c.applied && c.verified)
  }

  function RollbackFlag(result: ApplyResult): bool {
    match result
    case ApplyFailed(ok) => ok
    case VerificationFailed(ok) => ok
    case _ => true
  }

  /** The routes whose deletion by the rollback of this call takes effect. */
  function UndoneBy(s: EngineState, c: Call): set<Route> {
    Undone(s.managed, AppliedAll(s, c.ops).managed, c.oracle)
  }

  /** The rollback goes for what the changes own and the list did not have before. */
  lemma TargetsAreOwned(s: EngineState, c: Call)
    ensures UndoneBy(s, c) <= Owned(c.ops) - Keys(s.managed)
    ensures (forall i :: c.oracle(i) == Deleted) ==> UndoneBy(s, c) == Owned(c.ops) - Keys(s.managed)
  {
    var grown := AppliedAll(s, c.ops).managed;
    ChangesMean(s, c.ops);
    assert forall i :: 0 <= i < |grown| ==> Key(grown[i]) in Keys(grown);
    if forall i :: c.oracle(i) == Deleted {
      forall r | r in Owned(c.ops) - Keys(s.managed) ensures r in UndoneBy(s, c) {
        assert r in Keys(grown);
        var i :| 0 <= i < |grown| && Key(grown[i]) == r;
        assert c.oracle(i) == Deleted && IsTarget(s.managed, grown[i]);
      }
    }
  }

  /**
   What a failed call leaves of the table, for any state, any outcomes of the changes and of the
   rollback: it is restored exactly when every existing route that was taken out is back and not
   undone, and every new route is undone.
   */
  lemma RestoredExactly(s: EngineState, c: Call)
    requires Fails(c) && AddsOnce(s, c.ops)
    ensures Executed(s, c).0.kernel == s.kernel
       <==> && (forall r :: r in s.kernel && r in TakenOut(c.ops) ==> r in NetAdded(c.ops) && r !in UndoneBy(s, c))
            && (forall r :: r in NetAdded(c.ops) && r !in s.kernel ==> r in UndoneBy(s, c))
  {
    var grown := AppliedAll(s, c.ops);
    ChangesMean(s, c.ops);
    AddedWereTakenOut(s, c.ops);
    TargetsAreOwned(s, c);
    RollbackMeans(grown, s.managed, grown.managed, c.oracle);
    hide AppliedAll, RolledBack, NetAdded, Owned, TakenOut, Dropped, Keys, Undone;
  }

  /**
   When the changes spared what existed, a failed call restores the table exactly when no deletion
   of an own route was refused and every owned route's deletion in the rollback took effect. It
   reports a successful rollback already when every deletion was run, and then the list is back to
   its snapshot either way.
   */
  lemma RollbackRestoresExactly(s: EngineState, c: Call)
    requires Tracked(s) && Fails(c) && AddsOnce(s, c.ops) && SparesExisting(c.ops, s.kernel)
    ensures var (s', result) := Executed(s, c);
            && (s'.kernel == s.kernel
                <==> NetAdded(c.ops) == Owned(c.ops) && forall r :: r in Owned(c.ops) ==> r in UndoneBy(s, c))
            && (RollbackFlag(result) <==> AllRan(s.managed, AppliedAll(s, c.ops).managed, c.oracle))
            && (RollbackFlag(result) ==> s'.managed == s.managed)
  {
    var grown := AppliedAll(s, c.ops);
    var extra := ChangesGrow(s, c.ops);
    ChangesMean(s, c.ops);
    TargetsAreOwned(s, c);
    RollbackMeans(grown, s.managed, grown.managed, c.oracle);
    var left := RollbackKeeps(grown, s.managed, extra, s.managed, grown.managed, c.oracle);
    KeysAppend(s.managed, left);
    if AllRan(s.managed, grown.managed, c.oracle) {
      NothingLeft(s.managed, grown.managed, c.oracle);
      if left != [] {
        KeysOfSome(left);
      }
    }
    hide AppliedAll, RolledBack, NetAdded, Owned, TakenOut, Dropped, Keys, Undone, AllRan;
  }

  lemma NothingLeft(snapshot: seq<ManagedRoute>, todo: seq<ManagedRoute>, oracle: nat -> DelOutcome)
    requires AllRan(snapshot, todo, oracle)
    ensures Keys(todo) - Forgotten(snapshot, todo, oracle) <= Keys(snapshot)
  {
    forall r | r in Keys(todo) && r !in Keys(snapshot) ensures r in Forgotten(snapshot, todo, oracle) {
      var i :| 0 <= i < |todo| && Key(todo[i]) == r;
      assert IsTarget(snapshot, todo[i]);
    }
  }

  lemma WithoutOnly(r: Route)
    ensures WithoutRoute([Default(r)], r) == []
  {
    assert [Default(r)][..0] == [] && Key(Default(r)) == r;
  }

  /** A refused deletion of an own route is forgotten, so it stays although the rollback reports success. */
  lemma RefusedDeletionStays(s: EngineState, r: Route, oracle: nat -> DelOutcome)
    requires s.managed == [] && r !in s.kernel
    ensures var c := Call(false, true, [Add(r, true), Del(r, Refused)], false, true, oracle);
            Fails(c) && AddsOnce(s, c.ops) && Executed(s, c) == (EngineState([], s.kernel + {r}), ApplyFailed(true))
  {
    var ops := [Add(r, true), Del(r, Refused)];
    assert ops[..1] == [Add(r, true)] && [Add(r, true)][..0] == [];
    var added := EngineState([Default(r)], s.kernel + {r});
    assert AppliedAll(s, [Add(r, true)]) == added;
    assert AddsOnce(s, []) && AddsOnce(s, [Add(r, true)]);
    WithoutOnly(r);
    hide WithoutRoute;
    assert AppliedAll(s, ops) == EngineState([], s.kernel + {r});
  }

  /** Each result by the stage that gave it; up to validation and in a dry run nothing changes. */
  lemma ResultByStage(s: EngineState, c: Call)
    ensures var (s', result) := Executed(s, c);
            && (result == Success <==> c.dryRun || (c.validated && c.applied && c.verified))
            && (result == ValidationFailed <==> !c.dryRun && !c.validated)
            && (result.ApplyFailed? <==> !c.dryRun && c.validated && !c.applied)
            && (result.VerificationFailed? <==> !c.dryRun && c.validated && c.applied && !c.verified)
            && (c.dryRun || !c.validated ==> s' == s)
            && (result == Success && !c.dryRun ==> s' == EngineState([], AppliedAll(s, c.ops).kernel))
  {
    hide AppliedAll, RolledBack;
  }

  // ---------- Runs of calls ----------

  function AfterCalls(s: EngineState, calls: seq<Call>): EngineState {
    if |calls| == 0 then s else Executed(AfterCalls(s, calls[..|calls| - 1]), calls[|calls| - 1]).0
  }

  /** The routes that the successful calls added, dry runs apart. */
  function Committed(s: EngineState, calls: seq<Call>): set<Route> {
    if |calls| == 0 then {}
    else
      var c := calls[|calls| - 1];
      Committed(s, calls[..|calls| - 1])
      + (if !c.dryRun && c.validated && c.applied && c.verified then NetAdded(c.ops) else {})
  }

  ghost predicate WellBehaved(s: EngineState, c: Call) {
    !c.dryRun && c.validated ==>
      && AddsOnce(s, c.ops) && DeletionsTake(s, c.ops) && SparesExisting(c.ops, s.kernel)
      && forall i :: c.oracle(i) == Deleted
  }

  ghost predicate AllWellBehaved(s: EngineState, calls: seq<Call>) {
    |calls| > 0 ==>
      && AllWellBehaved(s, calls[..|calls| - 1])
      && WellBehaved(AfterCalls(s, calls[..|calls| - 1]), calls[|calls| - 1])
  }

  lemma ExecuteIsAtomic(s: EngineState, c: Call)
    requires Tracked(s) && WellBehaved(s, c)
    ensures var (s', result) := Executed(s, c);
            && Tracked(s')
            && (if result == Success && !c.dryRun then
                  s' == EngineState([], s.kernel + NetAdded(c.ops)) && s.kernel !! NetAdded(c.ops)
                else s' == s)
  {
    if !c.dryRun && c.validated {
      var extra := ChangesGrow(s, c.ops);
      forall r ensures r in Owned(c.ops) <==> r in NetAdded(c.ops) {
        DeletionsThatTake(s, c.ops, r);
      }
      if Fails(c) {
        RollbackRestoresExactly(s, c);
        TargetsAreOwned(s, c);
      }
      hide AppliedAll, RolledBack, NetAdded, Owned, Keys, Undone, AddsOnce, DeletionsTake, SparesExisting;
    }
  }

  /**
   After any run of calls the table is the initial one plus what the successful calls added, with
   nothing of the others left behind.
   */
  lemma {:induction false} RunsAreAtomic(s: EngineState, calls: seq<Call>)
    requires Tracked(s) && AllWellBehaved(s, calls)
    ensures var s' := AfterCalls(s, calls);
            && Tracked(s')
            && s'.kernel == s.kernel + Committed(s, calls)
            && s.kernel !! Committed(s, calls)
  {
    if |calls| == 0 {
    } else {
      var init, c := calls[..|calls| - 1], calls[|calls| - 1];
      hide AppliedAll, RolledBack, Tracked, NetAdded, AddsOnce, DeletionsTake, SparesExisting;
      RunsAreAtomic(s, init);
      ExecuteIsAtomic(AfterCalls(s, init), c);
    }
  }

  // ---------- When a rollback cannot restore ----------

  /** A route that got deleted is in the table again only as a route of the changes themselves. */
  lemma DeletedRoutesBecomeOwn(s: EngineState, ops: seq<Op>, r: Route)
    requires DeletionsTake(s, ops) && Deletes(ops, r)
    ensures r in AppliedAll(s, ops).kernel ==> r in Keys(AppliedAll(s, ops).managed)
  {
    ChangesMean(s, ops);
    DeletionsThatTake(s, ops, r);
  }

  /** Between calls an engine that only these calls use manages nothing, as long as deletion commands run. */
  lemma {:induction false} NothingManagedBetweenCalls(s: EngineState, calls: seq<Call>)
    requires s.managed == []
    requires forall i, k :: 0 <= i < |calls| ==> calls[i].oracle(k) != NotRun
    ensures AfterCalls(s, calls).managed == []
  {
    if |calls| == 0 {
    } else {
      var init, c := calls[..|calls| - 1], calls[|calls| - 1];
      NothingManagedBetweenCalls(s, init);
      var before := AfterCalls(s, init);
      var changed := AppliedAll(before, c.ops);
      if Fails(c) {
        RollbackMeans(changed, [], changed.managed, c.oracle);
        EverythingForgotten(changed.managed, c.oracle);
        var undone := RolledBack(changed, [], changed.managed, c.oracle).0;
        if undone.managed != [] {
          KeysOfSome(undone.managed);
        }
      }
    }
  }

  lemma EverythingForgotten(managed: seq<ManagedRoute>, oracle: nat -> DelOutcome)
    requires forall k :: oracle(k) != NotRun
    ensures Forgotten([], managed, oracle) == Keys(managed)
  {
    forall r | r in Keys(managed) ensures r in Forgotten([], managed, oracle) {
      var i :| 0 <= i < |managed| && Key(managed[i]) == r;
      assert IsTarget([], managed[i]) && oracle(i) != NotRun;
    }
  }

  /**
   Connectivity is not always protected: a rollback only deletes. When commands take effect, a
   failed call leaves the table as it was exactly when every existing route that its changes deleted
   was managed before and put back by the changes themselves; on an engine that managed nothing,
   when they deleted no existing route.
   */
  lemma FailedCallRestoresExactly(s: EngineState, c: Call)
    requires Tracked(s) && Fails(c) && AddsOnce(s, c.ops) && DeletionsTake(s, c.ops)
    requires forall i :: c.oracle(i) == Deleted
    ensures Executed(s, c).0.kernel == s.kernel
       <==> forall r :: r in s.kernel && Deletes(c.ops, r) ==> r in Keys(s.managed) && r in NetAdded(c.ops)
    ensures s.managed == [] ==> (Executed(s, c).0.kernel == s.kernel <==> SparesExisting(c.ops, s.kernel))
  {
    RestoredExactly(s, c);
    TargetsAreOwned(s, c);
    forall r
      ensures r in Owned(c.ops) <==> r in NetAdded(c.ops)
      ensures r in s.kernel ==> (Deletes(c.ops, r) <==> r in TakenOut(c.ops))
    {
      DeletionsThatTake(s, c.ops, r);
      ChangesMean(s, c.ops);
      TakenOutAreDeleted(c.ops, r);
    }
    SparesMeans(c.ops, s.kernel);
    hide Executed, NetAdded, Owned, TakenOut, Deletes, SparesExisting, UndoneBy, AddsOnce, DeletionsTake;
  }

  lemma SparesMeans(ops: seq<Op>, kernel: set<Route>)
    ensures SparesExisting(ops, kernel) <==> forall r :: r in kernel ==> !Deletes(ops, r)
  {
    if forall r :: r in kernel ==> !Deletes(ops, r) {
      forall i | 0 <= i < |ops| && ops[i].Del? ensures ops[i].route !in kernel {
        assert Deletes(ops, ops[i].route);
      }
    }
  }

  /** A managed route that the changes delete and add again survives a failed call. */
  lemma ReplacedRouteSurvives(r: Route, oracle: nat -> DelOutcome)
    requires forall i :: oracle(i) == Deleted
    ensures var s := EngineState([Default(r)], {r});
            var c := Call(false, true, [Del(r, Deleted), Add(r, true)], false, true, oracle);
            && Tracked(s) && Fails(c) && AddsOnce(s, c.ops) && !SparesExisting(c.ops, s.kernel)
            && Executed(s, c).0 == s
  {
    var s := EngineState([Default(r)], {r});
    var ops := [Del(r, Deleted), Add(r, true)];
    assert ops[..1] == [Del(r, Deleted)] && [Del(r, Deleted)][..0] == [];
    WithoutOnly(r);
    KeysOfDefault(r);
    assert AppliedAll(s, [Del(r, Deleted)]) == EngineState([], {});
    assert AppliedAll(s, ops) == s;
    assert AddsOnce(s, []) && AddsOnce(s, [Del(r, Deleted)]) && AddsOnce(s, ops);
    assert ops[0].Del?;
    assert [Default(r)][..0] == [] && RolledBack(s, s.managed, [], oracle) == (s, true);
  }
}

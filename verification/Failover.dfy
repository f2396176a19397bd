/**
 The failover engine: it counts consecutive bad readings per interface and announces failovers of
 bonds, at most once per cooldown and bond. Times are nanoseconds.
 */
module Failover {
  import opened Common
  import opened Bonding
  import opened Scoring

  /** `badReadingThreshold` is documented as the bad readings it takes to trigger a failover. */
  datatype Config = Config(minViableScore: real, failoverCooldown: nat, badReadingThreshold: nat)

  datatype FailoverEvent = FailoverTriggered(
    bond: string, timestamp: nat, previousActive: seq<string>, newActive: seq<string>)

  datatype State = State(badReadings: map<string, nat>, lastFailover: map<string, nat>)

  /** Whole seconds from `last` to `now`, truncated towards zero. */
  function ElapsedSeconds(last: nat, now: nat): int {
    if now >= last then (now - last) / SECOND else -((last - now) / SECOND)
  }

  predicate Cooling(cfg: Config, last: nat, now: nat) {
    ElapsedSeconds(last, now) < cfg.failoverCooldown / SECOND
  }

  /** The bond is in failover and its cooldown, counted in whole seconds, is over. */
  predicate Due(cfg: Config, last: map<string, nat>, bonds: map<string, BondState>, now: nat, b: string) {
    && b in bonds && bonds[b].failoverActive
    && (b in last ==> !Cooling(cfg, last[b], now))
  }

  function DueBonds(cfg: Config, last: map<string, nat>, bonds: map<string, BondState>, now: nat): set<string> {
    set b | b in bonds && Due(cfg, last, bonds, now, b)
  }

  function Stamped(last: map<string, nat>, due: set<string>, now: nat): map<string, nat> {
    last + map b | b in due :: now
  }

  function EventOf(bonds: map<string, BondState>, b: string, now: nat): FailoverEvent
    requires b in bonds
  {
    FailoverTriggered(b, now, bonds[b].standbyMembers, bonds[b].activeMembers)
  }

  function Counted(cfg: Config, bad: map<string, nat>, interface: string, overall: real): map<string, nat> {
    if overall < cfg.minViableScore then bad[interface := (if interface in bad then bad[interface] else 0) + 1]
    else bad - {interface}
  }

  /** One event for each of the bonds, in any order. */
  ghost predicate Announces(events: seq<FailoverEvent>, due: set<string>, bonds: map<string, BondState>, now: nat) {
    && |events| == |due|
    && (forall e :: e in events ==> e.bond in due && e.bond in bonds && e == EventOf(bonds, e.bond, now))
    && (forall b :: b in due ==> exists e :: e in events && e.bond == b)
  }

  class FailoverEngine {
    const config: Config
    var badReadings: map<string, nat>
    var lastFailover: map<string, nat>

    constructor (config: Config)
      ensures this.config == config && badReadings == map[] && lastFailover == map[]
    {
      this.config := config;
      badReadings, lastFailover := map[], map[];
    }

    method EvaluateFailover(bonds: map<string, BondState>, now: nat) returns (events: seq<FailoverEvent>)
      modifies this`lastFailover
      ensures var due := DueBonds(config, old(lastFailover), bonds, now);
              Announces(events, due, bonds, now) && lastFailover == Stamped(old(lastFailover), due, now)
    {
      hide Due, Cooling, Stamped, Announces, EventOf;
      events := [];
      NoneAnnounced(bonds, lastFailover, now);
      var remaining := bonds.Keys;
      ghost var last, due: set<string> := lastFailover, {};
      while remaining != {}
        invariant remaining <= bonds.Keys
        invariant due == set b | b in bonds.Keys - remaining && Due(config, last, bonds, now, b)
        invariant Announces(events, due, bonds, now) && lastFailover == Stamped(last, due, now)
        decreases |remaining|
      {
        var b :| b in remaining;
        remaining := remaining - {b};
        DueWhen(config, last, due, bonds, now, b);
        if b in lastFailover && Cooling(config, lastFailover[b], now) {
          continue;
        }
        if bonds[b].failoverActive {
          AnnounceOne(events, last, due, bonds, now, b);
          events := events + [EventOf(bonds, b, now)];
          lastFailover := lastFailover[b := now];
          due := due + {b};
        }
      }
      assert due == DueBonds(config, last, bonds, now);
    }

    method ProcessHealthUpdate(interface: string, overall: real, bonds: map<string, BondState>, now: nat)
      returns (events: seq<FailoverEvent>)
      modifies this
      ensures badReadings == Counted(config, old(badReadings), interface, overall)
      ensures var due := DueBonds(config, old(lastFailover), bonds, now);
              Announces(events, due, bonds, now) && lastFailover == Stamped(old(lastFailover), due, now)
    {
      if overall < config.minViableScore {
        var count := if interface in badReadings then badReadings[interface] else 0;
        badReadings := badReadings[interface := count + 1];
        // A count at or above the threshold is logged and otherwise makes no difference.
      } else {
        badReadings := badReadings - {interface};
      }
      events := EvaluateFailover(bonds, now);
    }
  }

  lemma NoneAnnounced(bonds: map<string, BondState>, last: map<string, nat>, now: nat)
    ensures Announces([], {}, bonds, now) && Stamped(last, {}, now) == last
  {
  }

  /** Stamping other bonds does not make this one due or not due. */
  lemma DueWhen(cfg: Config, last: map<string, nat>, due: set<string>, bonds: map<string, BondState>, now: nat,
                b: string)
    requires b in bonds && b !in due
    ensures var stamped := Stamped(last, due, now);
            Due(cfg, last, bonds, now, b)
            <==> bonds[b].failoverActive && (b in stamped ==> !Cooling(cfg, stamped[b], now))
  {
    hide Cooling;
  }

  lemma AnnounceOne(events: seq<FailoverEvent>, last: map<string, nat>, due: set<string>, bonds: map<string, BondState>,
                    now: nat, b: string)
    requires Announces(events, due, bonds, now) && b in bonds && b !in due
    ensures Announces(events + [EventOf(bonds, b, now)], due + {b}, bonds, now)
    ensures Stamped(last, due + {b}, now) == Stamped(last, due, now)[b := now]
  {
    StampOne(last, due, now, b);
    hide Stamped;
    var event := EventOf(bonds, b, now);
    var events' := events + [event];
    assert event.bond == b && event in events';
    hide EventOf;
    forall k | k in due + {b} ensures exists e :: e in events' && e.bond == k {
      if k != b {
        var e :| e in events && e.bond == k;
        assert e in events';
      }
    }
    forall e | e in events' ensures e.bond in due + {b} && e.bond in bonds && e == EventOf(bonds, e.bond, now) {
      assert e in events || e == event;
    }
  }

  lemma StampOne(last: map<string, nat>, due: set<string>, now: nat, b: string)
    ensures Stamped(last, due + {b}, now) == Stamped(last, due, now)[b := now]
  {
  }

  /**
   What an announcement carries, for a bond as any run of updates left it: the time, the member last switched
   to as the new active one, and the other configured members as the previous ones.
   */
  lemma EventsCarry(cfg: Config, last: map<string, nat>, bonds: map<string, BondState>, now: nat,
                    events: seq<FailoverEvent>, e: FailoverEvent, members: seq<string>, rounds: seq<Round>)
    requires Announces(events, DueBonds(cfg, last, bonds, now), bonds, now) && e in events
    requires Distinct(members) && e.bond in bonds && bonds[e.bond] == AfterRounds(Created(e.bond, members), rounds)
    ensures e.timestamp == now && bonds[e.bond].failoverActive
    ensures LastSwitch(Created(e.bond, members), rounds).Some?
    ensures e.newActive == [LastSwitch(Created(e.bond, members), rounds).value]
    ensures multiset(e.previousActive + e.newActive) == multiset(members)
  {
    RunLeaves(e.bond, members, rounds);
    hide AfterRounds, LastSwitch, LastSwitchTime, Cooling, Distinct;
  }

  /** And every bond that is due has exactly one. */
  lemma DueHaveEvents(cfg: Config, last: map<string, nat>, bonds: map<string, BondState>, now: nat,
                      events: seq<FailoverEvent>, b: string)
    requires Announces(events, DueBonds(cfg, last, bonds, now), bonds, now)
    ensures (exists e :: e in events && e.bond == b) <==> b in DueBonds(cfg, last, bonds, now)
    ensures |events| == |DueBonds(cfg, last, bonds, now)|
  {
    hide DueBonds, EventOf;
  }

  // ---------- Runs of updates and ticks ----------

  /** Each input comes with the bonds as they are at that moment. */
  datatype Input =
    | Reading(interface: string, overall: real, bonds: map<string, BondState>, now: nat)
    | Tick(bonds: map<string, BondState>, now: nat)

  function Step(cfg: Config, s: State, i: Input): State {
    State(if i.Reading? then Counted(cfg, s.badReadings, i.interface, i.overall) else s.badReadings,
          Stamped(s.lastFailover, DueBonds(cfg, s.lastFailover, i.bonds, i.now), i.now))
  }

  function After(cfg: Config, inputs: seq<Input>): State {
    if |inputs| == 0 then State(map[], map[]) else Step(cfg, After(cfg, inputs[..|inputs| - 1]), inputs[|inputs| - 1])
  }

  /** The readings below the threshold since the last one that was not. */
  function TrailingBad(cfg: Config, inputs: seq<Input>, interface: string): nat {
    if |inputs| == 0 then 0
    else
      var before, i := TrailingBad(cfg, inputs[..|inputs| - 1], interface), inputs[|inputs| - 1];
      if !i.Reading? || i.interface != interface then before
      else if i.overall < cfg.minViableScore then before + 1
      else 0
  }

  /** An interface's entry is the length of its trailing run of bad readings, and absent exactly when that is zero. */
  lemma {:induction false} BadReadingsAreTrailing(cfg: Config, inputs: seq<Input>, interface: string)
    ensures var bad := After(cfg, inputs).badReadings;
            && (interface in bad <==> TrailingBad(cfg, inputs, interface) > 0)
            && (interface in bad ==> bad[interface] == TrailingBad(cfg, inputs, interface))
  {
    if |inputs| == 0 {
    } else {
      BadReadingsAreTrailing(cfg, inputs[..|inputs| - 1], interface);
    }
  }

  ghost predicate Monotone(inputs: seq<Input>) {
    forall i :: 0 < i < |inputs| ==> inputs[i - 1].now <= inputs[i].now
  }

  /** When a bond's failovers were announced. */
  function Announced(cfg: Config, inputs: seq<Input>, b: string): seq<nat> {
    if |inputs| == 0 then []
    else
      var init, i := inputs[..|inputs| - 1], inputs[|inputs| - 1];
      Announced(cfg, init, b)
      + (if Due(cfg, After(cfg, init).lastFailover, i.bonds, i.now, b) then [i.now] else [])
  }

  ghost predicate SpacedBy(times: seq<nat>, gap: nat) {
    forall j :: 0 < j < |times| ==> times[j - 1] + gap <= times[j]
  }

  /** The cooldown rounded down to whole seconds. */
  function WholeCooldown(cfg: Config): nat {
    cfg.failoverCooldown / SECOND * SECOND
  }

  lemma NotCooling(cfg: Config, last: nat, now: nat)
    requires last <= now && !Cooling(cfg, last, now)
    ensures last + WholeCooldown(cfg) <= now
  {
  }

  /**
   Announcements for one bond are the cooldown apart, rounded down to whole seconds, although the bond stays
   in failover.
   */
  lemma {:induction false} AnnouncementsSpaced(cfg: Config, inputs: seq<Input>, b: string)
    requires Monotone(inputs)
    ensures var times, last := Announced(cfg, inputs, b), After(cfg, inputs).lastFailover;
            && SpacedBy(times, WholeCooldown(cfg))
            && (b in last <==> |times| > 0)
            && (b in last ==> last[b] == times[|times| - 1] <= inputs[|inputs| - 1].now)
  {
    hide Cooling, WholeCooldown, DueBonds, Stamped, Due;
    if |inputs| == 0 {
    } else {
      var init, i := inputs[..|inputs| - 1], inputs[|inputs| - 1];
      AnnouncementsSpaced(cfg, init, b);
      assert |init| > 0 ==> init[|init| - 1] == inputs[|inputs| - 2];
      var last := After(cfg, init).lastFailover;
      StampedIfDue(cfg, last, i, b);
      if Due(cfg, last, i.bonds, i.now, b) {
        if b in last {
          DueLater(cfg, last, i, b);
        }
        SpacedAppend(Announced(cfg, init, b), WholeCooldown(cfg), i.now);
      }
      hide SpacedBy;
    }
  }

  lemma DueLater(cfg: Config, last: map<string, nat>, i: Input, b: string)
    requires Due(cfg, last, i.bonds, i.now, b) && b in last && last[b] <= i.now
    ensures last[b] + WholeCooldown(cfg) <= i.now
  {
    NotCooling(cfg, last[b], i.now);
  }

  lemma SpacedAppend(times: seq<nat>, gap: nat, t: nat)
    requires SpacedBy(times, gap) && (|times| > 0 ==> times[|times| - 1] + gap <= t)
    ensures SpacedBy(times + [t], gap)
  {
  }

  lemma StampedIfDue(cfg: Config, last: map<string, nat>, i: Input, b: string)
    ensures var stamped := Stamped(last, DueBonds(cfg, last, i.bonds, i.now), i.now);
            if Due(cfg, last, i.bonds, i.now, b) then b in stamped && stamped[b] == i.now
            else (b in stamped <==> b in last) && (b in last ==> stamped[b] == last[b])
  {
    hide Cooling;
  }

  /** A new bond after its first update, which makes its only member active. */
  function FailedOver(name: string): BondState {
    Updated(Created(name, ["eth0"]), map["eth0" := HealthScore(90.0, 90.0, 90.0, 90.0, 90.0, 90.0, false)], 0).0
  }

  lemma IsFailedOver(name: string)
    ensures FailedOver(name).failoverActive && FailedOver(name).lastFailover == Some(0)
  {
    var health: Health := map["eth0" := HealthScore(90.0, 90.0, 90.0, 90.0, 90.0, 90.0, false)];
    FirstUpdate(name, ["eth0"], health, 0, "eth0");
    WhatIsMade(Created(name, ["eth0"]), "eth0", health, 0);
    hide Updated, MadeActive;
  }

  lemma EarlyRun(cfg: Config) returns (inputs: seq<Input>, b: string)
    requires cfg.failoverCooldown % SECOND != 0
    ensures Monotone(inputs) && !SpacedBy(Announced(cfg, inputs, b), cfg.failoverCooldown)
  {
    b := "bond0";
    var bonds := map[b := FailedOver(b)];
    IsFailedOver(b);
    hide FailedOver;
    var later := cfg.failoverCooldown / SECOND * SECOND;
    var first, second := Tick(bonds, 0), Tick(bonds, later);
    inputs := [first, second];
    assert inputs[..1] == [first] && [first][..0] == [];
    assert After(cfg, []).lastFailover == map[];
    assert Announced(cfg, [first], b) == [0];
    assert After(cfg, [first]).lastFailover[b] == 0;
    assert ElapsedSeconds(0, later) == cfg.failoverCooldown / SECOND;
    var times := Announced(cfg, inputs, b);
    assert times == [0, later];
    assert times[1] < times[0] + cfg.failoverCooldown;
  }

  /** The configured cooldown itself is kept in every run exactly when it is a whole number of seconds. */
  lemma CooldownKeptExactly(cfg: Config)
    ensures (forall inputs, b :: Monotone(inputs) ==> SpacedBy(Announced(cfg, inputs, b), cfg.failoverCooldown))
       <==> cfg.failoverCooldown % SECOND == 0
  {
    if cfg.failoverCooldown % SECOND == 0 {
      forall inputs, b | Monotone(inputs) ensures SpacedBy(Announced(cfg, inputs, b), cfg.failoverCooldown) {
        AnnouncementsSpaced(cfg, inputs, b);
      }
    } else {
      var inputs, b := EarlyRun(cfg);
    }
  }

  lemma CoolingMeans(cfg: Config, last: nat, now: nat)
    requires last <= now
    ensures Cooling(cfg, last, now) <==> now < last + WholeCooldown(cfg)
  {
  }

  /**
   When exactly a bond is announced, in any run: at every input that finds it in failover, unless
   the cooldown, rounded down to whole seconds, since its last announcement is not over.
   */
  lemma AnnouncedExactly(cfg: Config, inputs: seq<Input>, i: Input, b: string)
    requires Monotone(inputs + [i])
    ensures var times := Announced(cfg, inputs, b);
            Announced(cfg, inputs + [i], b)
            == if b in i.bonds && i.bonds[b].failoverActive
                  && (|times| > 0 ==> times[|times| - 1] + WholeCooldown(cfg) <= i.now)
               then times + [i.now] else times
  {
    hide Cooling, WholeCooldown;
    assert (inputs + [i])[..|inputs|] == inputs;
    assert Monotone(inputs) by {
      assert forall k :: 0 <= k < |inputs| ==> inputs[k] == (inputs + [i])[k];
    }
    AnnouncementsSpaced(cfg, inputs, b);
    var last := After(cfg, inputs).lastFailover;
    if b in last {
      assert (inputs + [i])[|inputs| - 1].now <= (inputs + [i])[|inputs|].now;
      CoolingMeans(cfg, last[b], i.now);
    }
  }

  // ---------- The counts decide nothing ----------

  /** The same run with the readings themselves left out. */
  function Ticks(inputs: seq<Input>): (ticks: seq<Input>)
    ensures |ticks| == |inputs|
  {
    seq(|inputs|, i requires 0 <= i < |inputs| => Tick(inputs[i].bonds, inputs[i].now))
  }

  /** No reading, good or bad, has any influence on what is announced and when. */
  lemma {:induction false} CountsDecideNothing(cfg: Config, inputs: seq<Input>, b: string)
    ensures After(cfg, Ticks(inputs)).lastFailover == After(cfg, inputs).lastFailover
    ensures Announced(cfg, Ticks(inputs), b) == Announced(cfg, inputs, b)
  {
    if |inputs| == 0 {
    } else {
      var init := inputs[..|inputs| - 1];
      CountsDecideNothing(cfg, init, b);
      assert Ticks(inputs)[..|inputs| - 1] == Ticks(init);
      hide Due, Stamped;
    }
  }

  predicate ReachesThreshold(cfg: Config, inputs: seq<Input>, interface: string) {
    TrailingBad(cfg, inputs, interface) >= cfg.badReadingThreshold
  }

  ghost predicate SomeReachesThreshold(cfg: Config, inputs: seq<Input>) {
    exists interface :: ReachesThreshold(cfg, inputs, interface)
  }

  /** Every announcement of `b` comes when some interface has the documented number of bad readings in a row. */
  ghost predicate BackedByReadings(cfg: Config, inputs: seq<Input>, b: string) {
    forall k :: 0 <= k < |inputs| && AnnouncedAt(cfg, inputs, k, b) ==> SomeReachesThreshold(cfg, inputs[..k + 1])
  }

  predicate AnnouncedAt(cfg: Config, inputs: seq<Input>, k: nat, b: string)
    requires k < |inputs|
  {
    Due(cfg, After(cfg, inputs[..k]).lastFailover, inputs[k].bonds, inputs[k].now, b)
  }

  /** A first tick announces a bond in failover although nothing has been read. */
  lemma UnbackedRun(cfg: Config) returns (inputs: seq<Input>, b: string)
    requires cfg.badReadingThreshold > 0
    ensures Monotone(inputs) && !BackedByReadings(cfg, inputs, b)
  {
    b := "bond0";
    inputs := [Tick(map[b := FailedOver(b)], 0)];
    IsFailedOver(b);
    hide FailedOver;
    assert inputs[..0] == [] && inputs[..1] == inputs;
    assert AnnouncedAt(cfg, inputs, 0, b);
    forall interface ensures !ReachesThreshold(cfg, inputs[..1], interface) {
      assert TrailingBad(cfg, [], interface) == 0;
    }
  }

  /** The documented threshold is kept in every run exactly when it asks for nothing. */
  lemma ThresholdKeptExactly(cfg: Config)
    ensures (forall inputs, b :: Monotone(inputs) ==> BackedByReadings(cfg, inputs, b))
       <==> cfg.badReadingThreshold == 0
  {
    if cfg.badReadingThreshold == 0 {
      forall inputs, b ensures BackedByReadings(cfg, inputs, b) {
        forall k | 0 <= k < |inputs| && AnnouncedAt(cfg, inputs, k, b)
          ensures SomeReachesThreshold(cfg, inputs[..k + 1])
        {
          assert ReachesThreshold(cfg, inputs[..k + 1], "");
        }
      }
    } else {
      var inputs, b := UnbackedRun(cfg);
    }
  }

  /** The bond manager never clears the failover flag, however its members fare. */
  lemma {:induction false} FailoverNeverCleared(st: BondState, rounds: seq<Round>)
    requires st.failoverActive
    ensures AfterRounds(st, rounds).failoverActive
  {
    if |rounds| == 0 {
    } else {
      FailoverNeverCleared(st, rounds[..|rounds| - 1]);
    }
  }

  /**
   So a bond once in failover is announced again at the first input after its cooldown, whatever
   updates its membership went through.
   */
  lemma AnnouncedAgain(cfg: Config, inputs: seq<Input>, i: Input, b: string, st: BondState, rounds: seq<Round>)
    requires Monotone(inputs + [i]) && st.failoverActive && b in i.bonds && i.bonds[b] == AfterRounds(st, rounds)
    ensures var times := Announced(cfg, inputs, b);
            |times| == 0 || times[|times| - 1] + WholeCooldown(cfg) <= i.now
            <==> Announced(cfg, inputs + [i], b) == times + [i.now]
  {
    FailoverNeverCleared(st, rounds);
    AnnouncedExactly(cfg, inputs, i, b);
  }
}

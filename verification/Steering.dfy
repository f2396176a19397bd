/**
 Path steering: a state machine that moves the traffic of a class to another interface when the
 active one degrades or a clearly better one appears. Time is a natural number that never decreases.
 */
module Steering {
  import opened Common
  import opened RealArith
  import opened Scoring
  import opened Monitoring

  datatype Config = Config(
    minViableScore: real, switchHysteresis: real, steeringCooldown: nat, bufferbloatThreshold: real, autoFailover: bool)

  datatype Reason = Initial | HealthDegraded | BetterPath | Bufferbloat | InterfaceDown | CooldownActive | NoViablePath

  datatype Decision = Decision(activeInterface: string, activeScore: real, isFailover: bool, reason: Reason)

  /** `activeScore` is the score at the time of the assignment, not the current one. */
  datatype PathState = PathState(
    activeInterface: string, activeScore: real, lastSteering: nat, consecutiveDegraded: nat)

  datatype State = State(
    paths: map<string, PathState>, scores: map<string, HealthScore>, decisions: map<string, Decision>)

  datatype Candidate = Candidate(interface: string, score: real)

  datatype Outcome = Outcome(state: State, returned: Option<Decision>, sent: Option<Decision>)

  const DEFAULT_CLASS := "default"

  /** Any viable interface with the highest cached score; hash order decides between equals. */
  ghost predicate IsBest(cfg: Config, scores: map<string, HealthScore>, best: Option<Candidate>) {
    match best
    case None => forall i :: i in scores ==> scores[i].overall < cfg.minViableScore
    case Some(c) =>
      && c.interface in scores && scores[c.interface].overall == c.score >= cfg.minViableScore
      && forall i :: i in scores ==> scores[i].overall <= c.score
  }

  function SteerTo(cfg: Config, s: State, traffic: string, best: Candidate, reason: Reason, now: nat): Outcome {
    if !cfg.autoFailover && reason != Initial then Outcome(s, None, None)
    else
      var isFailover := reason == HealthDegraded || reason == InterfaceDown || reason == Bufferbloat;
      var decision := Decision(best.interface, best.score, isFailover, reason);
      Outcome(s.(paths := s.paths[traffic := PathState(best.interface, best.score, now, 0)],
                 decisions := s.decisions[traffic := decision]),
              Some(decision), Some(decision))
  }

  /** What an update of `interface` to `score` does to a traffic class, given the best interface. */
  function Evaluate(cfg: Config, s: State, traffic: string, interface: string, score: real, now: nat,
                    best: Option<Candidate>)
    : Outcome
  {
    match best
    case None =>
      if traffic in s.paths then
        var decision := Decision(s.paths[traffic].activeInterface, s.paths[traffic].activeScore, false, NoViablePath);
        Outcome(s.(decisions := s.decisions[traffic := decision]), None, Some(decision))
      else Outcome(s, None, None)
    case Some(b) =>
      if traffic !in s.paths then SteerTo(cfg, s, traffic, b, Initial, now)
      else
        var path := s.paths[traffic];
        if now - path.lastSteering < cfg.steeringCooldown then Outcome(s, None, None)
        else if interface == path.activeInterface && score < cfg.minViableScore then
          var counted := path.(consecutiveDegraded := path.consecutiveDegraded + 1);
          var s' := s.(paths := s.paths[traffic := counted]);
          if counted.consecutiveDegraded >= 3 && b.interface != path.activeInterface
          then SteerTo(cfg, s', traffic, b, HealthDegraded, now)
          else Outcome(s', None, None)
        else
          var settled := if interface == path.activeInterface then path.(consecutiveDegraded := 0) else path;
          var s' := s.(paths := s.paths[traffic := settled]);
          var better := b.interface != path.activeInterface && b.score - path.activeScore > cfg.switchHysteresis;
          if better then SteerTo(cfg, s', traffic, b, BetterPath, now)
          else if path.activeScore < cfg.bufferbloatThreshold && better
          then SteerTo(cfg, s', traffic, b, Bufferbloat, now)
          else Outcome(s', None, None)
  }

  class PathSteerer {
    const config: Config
    var pathStates: map<string, PathState>
    var healthScores: map<string, HealthScore>
    var decisions: map<string, Decision>

    ghost function Contents(): State
      reads this
    {
      State(pathStates, healthScores, decisions)
    }

    constructor (config: Config)
      ensures this.config == config && Contents() == State(map[], map[], map[])
    {
      this.config := config;
      pathStates, healthScores, decisions := map[], map[], map[];
    }

    method FindBestInterface() returns (best: Option<Candidate>)
      ensures IsBest(config, healthScores, best)
    {
      best := None;
      var remaining := healthScores.Keys;
      while remaining != {}
        invariant remaining <= healthScores.Keys
        invariant IsBest(config, map i | i in healthScores && i !in remaining :: healthScores[i], best)
        decreases |remaining|
      {
        var i :| i in remaining;
        var score := healthScores[i].overall;
        if score >= config.minViableScore && (best == None || score >= best.value.score) {
          best := Some(Candidate(i, score));
        }
        remaining := remaining - {i};
      }
      assert healthScores == map i | i in healthScores && i !in remaining :: healthScores[i];
    }

    method MakeInitialAssignment(traffic: string, best: Candidate, now: nat) returns (decision: Decision)
      modifies this`pathStates
      ensures pathStates == old(pathStates)[traffic := PathState(best.interface, best.score, now, 0)]
      ensures decision == Decision(best.interface, best.score, false, Initial)
    {
      decision := Decision(best.interface, best.score, false, Initial);
      pathStates := pathStates[traffic := PathState(best.interface, best.score, now, 0)];
    }

    /** `sent` is what goes out on the broadcast channel. */
    method Steer(traffic: string, best: Candidate, reason: Reason, now: nat)
      returns (returned: Option<Decision>, sent: Option<Decision>)
      modifies this`pathStates, this`decisions
      ensures Outcome(Contents(), returned, sent) == SteerTo(config, old(Contents()), traffic, best, reason, now)
    {
      if !config.autoFailover && reason != Initial {
        return None, None;
      }
      var isFailover := reason == HealthDegraded || reason == InterfaceDown || reason == Bufferbloat;
      var decision := Decision(best.interface, best.score, isFailover, reason);
      if traffic in pathStates {
        var state := pathStates[traffic];
        pathStates := pathStates[traffic := state.(activeInterface := best.interface, activeScore := best.score,
                                                 lastSteering := now, consecutiveDegraded := 0)];
      } else {
        pathStates := pathStates[traffic := PathState(best.interface, best.score, now, 0)];
      }
      decisions := decisions[traffic := decision];
      return Some(decision), Some(decision);
    }

    method EvaluateSteering(traffic: string, interface: string, score: real, now: nat)
      returns (returned: Option<Decision>, sent: Option<Decision>, ghost best: Option<Candidate>)
      modifies this`pathStates, this`decisions
      ensures IsBest(config, healthScores, best)
      ensures Outcome(Contents(), returned, sent)
           == Evaluate(config, old(Contents()), traffic, interface, score, now, best)
    {
      var found := FindBestInterface();
      best := found;
      if found == None {
        if traffic in pathStates {
          var state := pathStates[traffic];
          var decision := Decision(state.activeInterface, state.activeScore, false, NoViablePath);
          decisions := decisions[traffic := decision];
          return None, Some(decision), best;
        }
        return None, None, best;
      }
      var b := found.value;
      if traffic !in pathStates {
        var decision := MakeInitialAssignment(traffic, b, now);
        decisions := decisions[traffic := decision];
        return Some(decision), Some(decision), best;
      }
      var state := pathStates[traffic];
      if now - state.lastSteering < config.steeringCooldown {
        return None, None, best;
      }
      var current, currentScore := state.activeInterface, state.activeScore;
      if interface == current && score < config.minViableScore {
        state := state.(consecutiveDegraded := state.consecutiveDegraded + 1);
        pathStates := pathStates[traffic := state];
        if state.consecutiveDegraded >= 3 {
          if b.interface != current {
            returned, sent := Steer(traffic, b, HealthDegraded, now);
            return;
          }
        }
        return None, None, best;
      }
      if interface == current && score >= config.minViableScore {
        pathStates := pathStates[traffic := state.(consecutiveDegraded := 0)];
      }
      assert pathStates == old(pathStates)[traffic := pathStates[traffic]];
      // Two checks in a row; the second repeats the first, so it never decides the reason.
      var better := b.interface != current && b.score - currentScore > config.switchHysteresis;
      var bloated := currentScore < config.bufferbloatThreshold
                     && b.interface != current && b.score - currentScore > config.switchHysteresis;
      if better || bloated {
        returned, sent := Steer(traffic, b, if better then BetterPath else Bufferbloat, now);
        return;
      }
      return None, None, best;
    }

    method OnHealthUpdate(update: HealthUpdate, now: nat)
      returns (returned: Option<Decision>, sent: Option<Decision>, ghost best: Option<Candidate>)
      modifies this
      ensures healthScores == old(healthScores)[update.interface := update.smoothedScore]
      ensures IsBest(config, healthScores, best)
      ensures Outcome(Contents(), returned, sent)
           == Step(config, old(Contents()), Update(update.interface, update.smoothedScore, now, best))
    {
      healthScores := healthScores[update.interface := update.smoothedScore];
      returned, sent, best := EvaluateSteering(DEFAULT_CLASS, update.interface, update.smoothedScore.overall, now);
    }

    method ResetState()
      modifies this`pathStates, this`decisions
      ensures Contents() == Step(config, old(Contents()), Reset).state
    {
      pathStates, decisions := map[], map[];
    }
  }

  // ---------- Runs ----------

  /** An update also records which of the best interfaces hash order picked. */
  datatype Event = Update(interface: string, score: HealthScore, now: nat, best: Option<Candidate>) | Reset

  function Cached(s: State, e: Event): map<string, HealthScore>
    requires e.Update?
  {
    s.scores[e.interface := e.score]
  }

  function Step(cfg: Config, s: State, e: Event): Outcome {
    match e
    case Reset => Outcome(State(map[], s.scores, map[]), None, None)
    case Update(interface, score, now, best) =>
      Evaluate(cfg, s.(scores := Cached(s, e)), DEFAULT_CLASS, interface, score.overall, now, best)
  }

  function Last<T>(s: seq<T>): T
    requires |s| > 0
  {
    s[|s| - 1]
  }

  function Init<T>(s: seq<T>): seq<T>
    requires |s| > 0
  {
    s[..|s| - 1]
  }

  function After(cfg: Config, events: seq<Event>): State {
    if |events| == 0 then State(map[], map[], map[]) else Step(cfg, After(cfg, Init(events)), Last(events)).state
  }

  function Clock(events: seq<Event>): nat {
    if |events| == 0 then 0 else if Last(events).Update? then Last(events).now else Clock(Init(events))
  }

  ghost predicate Valid(cfg: Config, events: seq<Event>) {
    |events| > 0 ==>
      && Valid(cfg, Init(events))
      && (Last(events).Update? ==>
            && Clock(Init(events)) <= Last(events).now
            && IsBest(cfg, Cached(After(cfg, Init(events)), Last(events)), Last(events).best))
  }

  datatype Entry = Entry(decision: Decision, time: nat)

  function Extended(log: seq<Entry>, returned: Option<Decision>, now: nat): seq<Entry> {
    match returned
    case None => log
    case Some(decision) => log + [Entry(decision, now)]
  }

  /** The decisions returned to the caller, in order, with their times. */
  function Log(cfg: Config, events: seq<Event>): seq<Entry> {
    if |events| == 0 then []
    else Extended(Log(cfg, Init(events)), Step(cfg, After(cfg, Init(events)), Last(events)).returned, Clock(events))
  }

  predicate HasPath(s: State) {
    DEFAULT_CLASS in s.paths
  }

  function Path(s: State): PathState
    requires HasPath(s)
  {
    s.paths[DEFAULT_CLASS]
  }

  predicate ReadingOf(e: Event, interface: string) {
    e.Update? && e.interface == interface
  }

  /** A reading of the active interface below the threshold. */
  predicate DegradedReading(cfg: Config, s: State, e: Event) {
    e.Update? && HasPath(s) && e.interface == Path(s).activeInterface && e.score.overall < cfg.minViableScore
  }

  // ---------- One step ----------

  /**
   Traffic moves only with a returned decision, and then to a best viable interface; a decision is
   published exactly when it is returned or when a path is left without any viable interface.
   */
  lemma StepMovesOnlyWithDecision(cfg: Config, s: State, e: Event)
    requires e.Update? && IsBest(cfg, Cached(s, e), e.best)
    ensures var o := Step(cfg, s, e);
            && o.state.scores == Cached(s, e)
            && o.state.paths == (if HasPath(o.state) then s.paths[DEFAULT_CLASS := Path(o.state)] else s.paths)
            && o.state.decisions == (if o.sent.Some? then s.decisions[DEFAULT_CLASS := o.sent.value] else s.decisions)
            && (o.returned.Some? ==>
                  && e.best == Some(Candidate(o.returned.value.activeInterface, o.returned.value.activeScore))
                  && (HasPath(s) ==> o.returned.value.activeInterface != Path(s).activeInterface)
                  && HasPath(o.state)
                  && Path(o.state) == PathState(e.best.value.interface, e.best.value.score, e.now, 0)
                  && o.sent == o.returned)
            && (o.returned == None ==>
                  && (HasPath(o.state) <==> HasPath(s))
                  && (HasPath(s) ==>
                        Path(o.state) == Path(s).(consecutiveDegraded := Path(o.state).consecutiveDegraded))
                  && (o.sent.Some? <==> e.best == None && HasPath(s))
                  && (o.sent.Some? ==>
                        o.sent.value == Decision(Path(s).activeInterface, Path(s).activeScore, false, NoViablePath)))
  {
  }

  /** When a decision with this reason is due. */
  predicate Warranted(cfg: Config, s: State, e: Event, reason: Reason)
    requires e.Update?
  {
    && e.best.Some?
    && (HasPath(s) ==>
          && cfg.autoFailover && e.now - Path(s).lastSteering >= cfg.steeringCooldown
          && e.best.value.interface != Path(s).activeInterface)
    && match reason
       case Initial => !HasPath(s)
       case HealthDegraded => DegradedReading(cfg, s, e) && Path(s).consecutiveDegraded >= 2
       case BetterPath =>
         HasPath(s) && !DegradedReading(cfg, s, e) && e.best.value.score > Path(s).activeScore + cfg.switchHysteresis
       case _ => false
  }

  /** The three reasons of returned decisions, each with exactly the situation that gives it. */
  lemma StepReturnsExactly(cfg: Config, s: State, e: Event, reason: Reason)
    requires e.Update? && IsBest(cfg, Cached(s, e), e.best)
    ensures var o := Step(cfg, s, e);
            o.returned.Some? && o.returned.value.reason == reason <==> Warranted(cfg, s, e, reason)
  {
  }

  /**
   The bufferbloat check repeats the better-path check, so it never gives a decision; two more reasons are
   never used.
   */
  lemma UnusedReasons(cfg: Config, s: State, e: Event)
    ensures var o := Step(cfg, s, e);
            && (o.returned.Some? ==> o.returned.value.reason in {Initial, HealthDegraded, BetterPath})
            && (o.sent.Some? ==>
                  && o.sent.value.reason in {Initial, HealthDegraded, BetterPath, NoViablePath}
                  && (o.sent.value.isFailover <==> o.sent.value.reason == HealthDegraded))
  {
  }

  lemma ResetReturnsNothing(cfg: Config, s: State)
    ensures Step(cfg, s, Reset).returned == None
  {
  }

  // ---------- What every reachable state keeps ----------

  ghost predicate Sound(cfg: Config, s: State, now: nat, log: seq<Entry>) {
    && s.paths.Keys == s.decisions.Keys <= {DEFAULT_CLASS}
    && (HasPath(s) ==>
          var path, decision := Path(s), s.decisions[DEFAULT_CLASS];
          && decision.activeInterface == path.activeInterface && decision.activeScore == path.activeScore
          && decision.reason in {Initial, HealthDegraded, BetterPath, NoViablePath}
          && (decision.isFailover <==> decision.reason == HealthDegraded)
          && cfg.minViableScore <= path.activeScore
          && path.lastSteering <= now
          && (cfg.autoFailover ==> path.consecutiveDegraded <= 2)
          && (now < path.lastSteering + cfg.steeringCooldown ==> path.consecutiveDegraded == 0)
          && |log| > 0 && Last(log).time == path.lastSteering
          && Last(log).decision.activeInterface == path.activeInterface
          && Last(log).decision.activeScore == path.activeScore)
  }

  /** How the counter moves while the path stays. */
  lemma CounterStep(cfg: Config, s: State, e: Event)
    requires e.Update? && HasPath(s) && Step(cfg, s, e).returned == None
    ensures var path, o := Path(s), Step(cfg, s, e);
            HasPath(o.state) && Path(o.state).consecutiveDegraded
            == if e.best == None || e.now < path.lastSteering + cfg.steeringCooldown
                  || !ReadingOf(e, path.activeInterface)
               then path.consecutiveDegraded
               else if DegradedReading(cfg, s, e) then path.consecutiveDegraded + 1
               else 0
  {
  }

  lemma SoundStep(cfg: Config, s: State, e: Event, was: nat, now: nat, log: seq<Entry>)
    requires Sound(cfg, s, was, log)
    requires e.Update? ==> was <= e.now == now && IsBest(cfg, Cached(s, e), e.best)
    ensures var o := Step(cfg, s, e);
            Sound(cfg, o.state, now, Extended(log, o.returned, now))
  {
    if e.Update? {
      var o := Step(cfg, s, e);
      StepMovesOnlyWithDecision(cfg, s, e);
      UnusedReasons(cfg, s, e);
      if o.returned.Some? {
        assert cfg.minViableScore <= e.best.value.score;
        hide Step, IsBest;
      } else if HasPath(s) {
        CounterStep(cfg, s, e);
        assert cfg.autoFailover ==> Path(o.state).consecutiveDegraded <= 2 by {
          StepReturnsExactly(cfg, s, e, HealthDegraded);
        }
        hide Step, IsBest;
      } else {
        hide Step, IsBest;
      }
    }
  }

  lemma {:induction false} AlwaysSound(cfg: Config, events: seq<Event>)
    requires Valid(cfg, events)
    ensures Sound(cfg, After(cfg, events), Clock(events), Log(cfg, events))
  {
    if |events| == 0 {
      hide Step;
    } else {
      hide Step, Sound;
      AlwaysSound(cfg, Init(events));
      SoundStep(cfg, After(cfg, Init(events)), Last(events), Clock(Init(events)), Clock(events),
                Log(cfg, Init(events)));
    }
  }

  // ---------- The rate limit ----------

  ghost predicate WithoutResets(events: seq<Event>) {
    forall i :: 0 <= i < |events| ==> events[i].Update?
  }

  /** Whether the event after these makes the steerer return a decision. */
  predicate Decides(cfg: Config, events: seq<Event>, e: Event) {
    Step(cfg, After(cfg, events), e).returned.Some?
  }

  lemma Prolonged(pre: seq<Event>, mid: seq<Event>)
    requires |mid| > 0
    ensures Init(pre + mid) == pre + Init(mid) && Last(pre + mid) == Last(mid)
  {
  }

  /** A path stays, and its last steering is never set back, until a reset. */
  lemma SteeringStep(cfg: Config, s: State, e: Event)
    requires e.Update? && IsBest(cfg, Cached(s, e), e.best)
    ensures var o := Step(cfg, s, e);
            && (HasPath(s) ==> HasPath(o.state))
            && (o.returned.Some? ==> HasPath(o.state) && Path(o.state).lastSteering == e.now)
            && (o.returned.Some? && HasPath(s) ==> Path(s).lastSteering + cfg.steeringCooldown <= e.now)
            && (o.returned == None && HasPath(s) ==> Path(o.state).lastSteering == Path(s).lastSteering)
  {
    StepMovesOnlyWithDecision(cfg, s, e);
    if Step(cfg, s, e).returned.Some? {
      StepReturnsExactly(cfg, s, e, Step(cfg, s, e).returned.value.reason);
    }
    hide Step, IsBest;
  }

  /** The `n` decisions returned since `since` have pushed the last steering a cooldown ahead each, after the first. */
  ghost predicate Paced(cfg: Config, s: State, since: nat, n: nat) {
    n > 0 ==> HasPath(s) && Path(s).lastSteering >= since + (n - 1) * cfg.steeringCooldown
  }

  lemma PacedStep(cfg: Config, s: State, e: Event, since: nat, n: nat)
    requires e.Update? && e.now >= since && IsBest(cfg, Cached(s, e), e.best) && Paced(cfg, s, since, n)
    ensures var o := Step(cfg, s, e);
            Paced(cfg, o.state, since, if o.returned.Some? then n + 1 else n)
  {
    SteeringStep(cfg, s, e);
    hide Step, IsBest;
    if n > 0 {
      assert n * cfg.steeringCooldown == (n - 1) * cfg.steeringCooldown + cfg.steeringCooldown;
    } else {
      assert 0 * cfg.steeringCooldown == 0;
    }
  }

  lemma {:induction false} DecisionsPaced(cfg: Config, pre: seq<Event>, mid: seq<Event>, since: nat)
    requires Valid(cfg, pre + mid) && WithoutResets(mid)
    requires forall i :: 0 <= i < |mid| ==> mid[i].now >= since
    ensures |Log(cfg, pre + mid)| >= |Log(cfg, pre)|
    ensures Paced(cfg, After(cfg, pre + mid), since, |Log(cfg, pre + mid)| - |Log(cfg, pre)|)
  {
    if |mid| == 0 {
      assert pre + mid == pre;
    } else {
      var e := Last(mid);
      Prolonged(pre, mid);
      assert e.Update? && WithoutResets(Init(mid));
      DecisionsPaced(cfg, pre, Init(mid), since);
      var n := |Log(cfg, pre + Init(mid))| - |Log(cfg, pre)|;
      hide Step, Paced, IsBest, WithoutResets;
      PacedStep(cfg, After(cfg, pre + Init(mid)), e, since, n);
    }
  }

  /** The clock never goes back within a stretch without resets. */
  lemma {:induction false} TimesOrdered(cfg: Config, pre: seq<Event>, mid: seq<Event>)
    requires Valid(cfg, pre + mid) && WithoutResets(mid) && |mid| > 0
    ensures forall i :: 0 <= i < |mid| ==> mid[0].now <= mid[i].now
    ensures Clock(pre + mid) == mid[|mid| - 1].now
  {
    Prolonged(pre, mid);
    assert Last(mid).Update?;
    if |mid| == 1 {
    } else {
      assert WithoutResets(Init(mid));
      TimesOrdered(cfg, pre, Init(mid));
      hide IsBest, WithoutResets;
      assert forall i :: 0 <= i < |mid| - 1 ==> mid[i] == Init(mid)[i];
    }
  }

  /** Two decisions are a cooldown apart unless a reset lies between them. */
  lemma DecisionsSpaced(cfg: Config, pre: seq<Event>, first: Event, mid: seq<Event>, second: Event)
    requires Valid(cfg, pre + [first] + mid + [second]) && WithoutResets(mid)
    requires Decides(cfg, pre, first) && Decides(cfg, pre + [first] + mid, second)
    ensures first.Update? && second.Update? && first.now + cfg.steeringCooldown <= second.now
  {
    var before, after := pre + [first], pre + [first] + mid;
    assert Init(after + [second]) == after && Last(after + [second]) == second;
    assert Init(before) == pre && Last(before) == first;
    ValidPrefix(cfg, before, mid);
    hide Step, IsBest, WithoutResets;
    ResetReturnsNothing(cfg, After(cfg, pre));
    ResetReturnsNothing(cfg, After(cfg, after));
    SteeringStep(cfg, After(cfg, pre), first);
    SteeringKept(cfg, before, mid, first.now);
    SteeringStep(cfg, After(cfg, after), second);
  }

  lemma {:induction false} ValidPrefix(cfg: Config, pre: seq<Event>, mid: seq<Event>)
    requires Valid(cfg, pre + mid)
    ensures Valid(cfg, pre)
  {
    if |mid| == 0 {
      assert pre + mid == pre;
    } else {
      Prolonged(pre, mid);
      ValidPrefix(cfg, pre, Init(mid));
    }
  }

  lemma {:induction false} SteeringKept(cfg: Config, pre: seq<Event>, mid: seq<Event>, since: nat)
    requires Valid(cfg, pre + mid) && WithoutResets(mid) && Clock(pre) >= since
    requires HasPath(After(cfg, pre)) && Path(After(cfg, pre)).lastSteering >= since
    ensures HasPath(After(cfg, pre + mid)) && Path(After(cfg, pre + mid)).lastSteering >= since
    ensures Clock(pre + mid) >= since
  {
    if |mid| == 0 {
      assert pre + mid == pre;
    } else {
      var e := Last(mid);
      Prolonged(pre, mid);
      assert e.Update? && WithoutResets(Init(mid));
      SteeringKept(cfg, pre, Init(mid), since);
      hide Step, IsBest, WithoutResets;
      SteeringStep(cfg, After(cfg, pre + Init(mid)), e);
    }
  }

  /**
   Without a reset, a stretch of events whose first and last are at most `window` apart returns at most
   one decision more than the cooldowns that fit in the window.
   */
  lemma RateLimit(cfg: Config, pre: seq<Event>, mid: seq<Event>, window: nat)
    requires Valid(cfg, pre + mid) && WithoutResets(mid) && cfg.steeringCooldown > 0
    requires |mid| > 0 ==> Last(mid).now <= mid[0].now + window
    ensures |Log(cfg, pre + mid)| - |Log(cfg, pre)| <= 1 + window / cfg.steeringCooldown
  {
    if |mid| == 0 {
      assert pre + mid == pre;
      hide *;
      QuotientBound(0, cfg.steeringCooldown, window);
    } else {
      AllUpdates(mid);
      hide *;
      TimesOrdered(cfg, pre, mid);
      StretchPaced(cfg, pre, mid, mid[0].now, window);
    }
  }

  lemma StretchPaced(cfg: Config, pre: seq<Event>, mid: seq<Event>, since: nat, window: nat)
    requires Valid(cfg, pre + mid) && WithoutResets(mid) && cfg.steeringCooldown > 0
    requires Clock(pre + mid) <= since + window && forall i :: 0 <= i < |mid| ==> mid[i].now >= since
    ensures |Log(cfg, pre + mid)| - |Log(cfg, pre)| <= 1 + window / cfg.steeringCooldown
  {
    hide *;
    DecisionsPaced(cfg, pre, mid, since);
    SteeredBefore(cfg, pre + mid);
    PacedBound(cfg, After(cfg, pre + mid), since, |Log(cfg, pre + mid)| - |Log(cfg, pre)|, window);
  }

  lemma AllUpdates(mid: seq<Event>)
    requires WithoutResets(mid) && |mid| > 0
    ensures mid[0].Update? && mid[|mid| - 1].Update? && Last(mid) == mid[|mid| - 1]
  {
  }

  lemma SteeredBefore(cfg: Config, events: seq<Event>)
    requires Valid(cfg, events)
    ensures HasPath(After(cfg, events)) ==> Path(After(cfg, events)).lastSteering <= Clock(events)
  {
    AlwaysSound(cfg, events);
  }

  lemma PacedBound(cfg: Config, s: State, since: nat, n: nat, window: nat)
    requires cfg.steeringCooldown > 0 && Paced(cfg, s, since, n)
    requires HasPath(s) ==> Path(s).lastSteering <= since + window
    ensures n <= 1 + window / cfg.steeringCooldown
  {
    if n == 0 {
      QuotientBound(0, cfg.steeringCooldown, window);
    } else {
      QuotientBound(n - 1, cfg.steeringCooldown, window);
    }
  }

  lemma CancelCount(n: nat, k: nat, c: nat)
    requires n * c < k * c
    ensures n < k
  {
  }

  lemma QuotientBound(n: nat, c: nat, w: nat)
    requires c > 0 && n * c <= w
    ensures n <= w / c
  {
    assert (w / c + 1) * c > w;
    CancelCount(n, w / c + 1, c);
  }

  // ---------- Flapping ----------

  /** How often any of the reasons occurs. */
  function Count(log: seq<Entry>, reasons: set<Reason>): nat {
    if |log| == 0 then 0 else Count(Init(log), reasons) + if Last(log).decision.reason in reasons then 1 else 0
  }

  /** `amount` for every decision with one of the reasons. */
  function Total(log: seq<Entry>, reasons: set<Reason>, amount: real): real {
    if |log| == 0 then 0.0
    else Total(Init(log), reasons, amount) + if Last(log).decision.reason in reasons then amount else 0.0
  }

  predicate ScoresAtMost(scores: map<string, HealthScore>, top: real) {
    forall i :: i in scores ==> scores[i].overall <= top
  }

  predicate EventsAtMost(events: seq<Event>, top: real) {
    forall i :: 0 <= i < |events| && events[i].Update? ==> events[i].score.overall <= top
  }

  /**
   Each better path lifts the stored score by more than the hysteresis, and only an initial
   assignment or a failover can bring it down again, by no more than the viable range.
   */
  ghost predicate WithinBudget(cfg: Config, s: State, log: seq<Entry>, top: real) {
    && ScoresAtMost(s.scores, top)
    && (HasPath(s) ==> cfg.minViableScore <= Path(s).activeScore <= top)
    && Total(log, {BetterPath}, cfg.switchHysteresis)
       <= Total(log, {Initial, HealthDegraded}, top - cfg.minViableScore)
          - (if HasPath(s) then top - Path(s).activeScore else 0.0)
  }

  lemma TotalSnoc(log: seq<Entry>, entry: Entry, reasons: set<Reason>, amount: real)
    ensures Total(log + [entry], reasons, amount)
         == Total(log, reasons, amount) + if entry.decision.reason in reasons then amount else 0.0
  {
    assert Init(log + [entry]) == log;
  }

  lemma BudgetStep(cfg: Config, s: State, e: Event, now: nat, log: seq<Entry>, top: real)
    requires WithinBudget(cfg, s, log, top)
    requires e.Update? ==> e.score.overall <= top && IsBest(cfg, Cached(s, e), e.best)
    ensures var o := Step(cfg, s, e);
            WithinBudget(cfg, o.state, Extended(log, o.returned, now), top)
  {
    if e.Update? {
      hide Step, Total, IsBest, ScoresAtMost, WithinBudget;
      var o := Step(cfg, s, e);
      StepMovesOnlyWithDecision(cfg, s, e);
      ScoresWithin(cfg, s, log, top);
      CachedAtMost(s, e, top);
      if o.returned.Some? {
        BestInRange(cfg, Cached(s, e), e.best.value, top);
        UnusedReasons(cfg, s, e);
        StepReturnsExactly(cfg, s, e, o.returned.value.reason);
        BudgetMoves(cfg, s, o.state, log, Entry(o.returned.value, now), top);
      } else {
        BudgetStays(cfg, s, o.state, log, top);
      }
    } else {
      BudgetForgets(cfg, s, Step(cfg, s, e).state, log, top);
    }
  }

  lemma ScoresWithin(cfg: Config, s: State, log: seq<Entry>, top: real)
    requires WithinBudget(cfg, s, log, top)
    ensures ScoresAtMost(s.scores, top)
  {
  }

  lemma BudgetStays(cfg: Config, s: State, s': State, log: seq<Entry>, top: real)
    requires WithinBudget(cfg, s, log, top) && ScoresAtMost(s'.scores, top)
    requires HasPath(s') <==> HasPath(s)
    requires HasPath(s) ==> Path(s').activeScore == Path(s).activeScore
    ensures WithinBudget(cfg, s', log, top)
  {
    hide Total, ScoresAtMost;
  }

  lemma BudgetForgets(cfg: Config, s: State, s': State, log: seq<Entry>, top: real)
    requires WithinBudget(cfg, s, log, top) && s'.scores == s.scores && !HasPath(s')
    ensures WithinBudget(cfg, s', log, top)
  {
    hide Total, ScoresAtMost;
  }

  lemma BudgetMoves(cfg: Config, s: State, s': State, log: seq<Entry>, entry: Entry, top: real)
    requires WithinBudget(cfg, s, log, top) && ScoresAtMost(s'.scores, top)
    requires HasPath(s') && cfg.minViableScore <= Path(s').activeScore <= top
    requires entry.decision.reason in {Initial, HealthDegraded, BetterPath}
    requires entry.decision.reason == Initial <==> !HasPath(s)
    requires entry.decision.reason == BetterPath ==>
               Path(s').activeScore > Path(s).activeScore + cfg.switchHysteresis
    ensures WithinBudget(cfg, s', log + [entry], top)
  {
    hide Total, ScoresAtMost;
    TotalSnoc(log, entry, {BetterPath}, cfg.switchHysteresis);
    TotalSnoc(log, entry, {Initial, HealthDegraded}, top - cfg.minViableScore);
  }

  lemma CachedAtMost(s: State, e: Event, top: real)
    requires ScoresAtMost(s.scores, top) && e.Update? && e.score.overall <= top
    ensures ScoresAtMost(Cached(s, e), top)
  {
  }

  lemma BestInRange(cfg: Config, scores: map<string, HealthScore>, best: Candidate, top: real)
    requires IsBest(cfg, scores, Some(best)) && ScoresAtMost(scores, top)
    ensures cfg.minViableScore <= best.score <= top
  {
  }

  lemma {:induction false} BudgetKept(cfg: Config, events: seq<Event>, top: real)
    requires Valid(cfg, events) && EventsAtMost(events, top)
    ensures WithinBudget(cfg, After(cfg, events), Log(cfg, events), top)
  {
    if |events| == 0 {
    } else {
      hide Step, WithinBudget, IsBest;
      BudgetKept(cfg, Init(events), top);
      BudgetStep(cfg, After(cfg, Init(events)), Last(events), Clock(events), Log(cfg, Init(events)), top);
    }
  }

  lemma CountStep(n: nat, amount: real, n': nat, total: real, total': real)
    requires total == n as real * amount && n' == n + 1 && total' == total + amount
    ensures total' == n' as real * amount
  {
    var x := n as real;
    assert n' as real == x + 1.0;
    assert (x + 1.0) * amount == x * amount + amount;
  }

  lemma {:induction false} TotalIsCount(log: seq<Entry>, reasons: set<Reason>, amount: real)
    ensures Total(log, reasons, amount) == Count(log, reasons) as real * amount
  {
    if |log| == 0 {
      assert 0.0 * amount == 0.0;
    } else {
      TotalIsCount(Init(log), reasons, amount);
      if Last(log).decision.reason in reasons {
        CountStep(Count(Init(log), reasons), amount, Count(log, reasons),
                  Total(Init(log), reasons, amount), Total(log, reasons, amount));
      }
    }
  }

  lemma {:induction false} CountSplits(log: seq<Entry>)
    ensures Count(log, {Initial, HealthDegraded}) == Count(log, {Initial}) + Count(log, {HealthDegraded})
  {
    if |log| == 0 {
    } else {
      CountSplits(Init(log));
    }
  }

  lemma CountSnoc(log: seq<Entry>, entry: Entry, reasons: set<Reason>)
    ensures Count(log + [entry], reasons) == Count(log, reasons) + if entry.decision.reason in reasons then 1 else 0
  {
    assert Init(log + [entry]) == log;
  }

  function Resets(events: seq<Event>): nat {
    if |events| == 0 then 0 else Resets(Init(events)) + if Last(events).Reset? then 1 else 0
  }

  lemma InitialsStep(cfg: Config, s: State, e: Event, now: nat, log: seq<Entry>, bound: nat)
    requires e.Update? ==> IsBest(cfg, Cached(s, e), e.best)
    requires Count(log, {Initial}) + (if HasPath(s) then 0 else 1) <= bound
    ensures var o := Step(cfg, s, e);
            Count(Extended(log, o.returned, now), {Initial}) + (if HasPath(o.state) then 0 else 1)
            <= bound + if e.Reset? then 1 else 0
  {
    var o := Step(cfg, s, e);
    if e.Update? {
      StepMovesOnlyWithDecision(cfg, s, e);
      StepReturnsExactly(cfg, s, e, Initial);
      if o.returned.Some? {
        CountSnoc(log, Entry(o.returned.value, now), {Initial});
      }
      hide Step, IsBest;
    }
  }

  /** A path is assigned afresh at most once, and once more after each reset. */
  lemma {:induction false} InitialsBounded(cfg: Config, events: seq<Event>)
    requires Valid(cfg, events)
    ensures Count(Log(cfg, events), {Initial}) + (if HasPath(After(cfg, events)) then 0 else 1) <= 1 + Resets(events)
  {
    if |events| == 0 {
    } else {
      hide Step, IsBest, Count;
      InitialsBounded(cfg, Init(events));
      InitialsStep(cfg, After(cfg, Init(events)), Last(events), Clock(events), Log(cfg, Init(events)),
                   1 + Resets(Init(events)));
    }
  }

  /**
   The anti-flap bound: with scores up to 100, the better-path switches times the hysteresis cannot
   exceed the viable range times the assignments and failovers that lowered the bar.
   */
  lemma FlapBound(cfg: Config, events: seq<Event>)
    requires Valid(cfg, events) && EventsAtMost(events, 100.0)
    ensures var log := Log(cfg, events);
            && Count(log, {BetterPath}) as real * cfg.switchHysteresis
               <= Count(log, {Initial, HealthDegraded}) as real * (100.0 - cfg.minViableScore)
            && Count(log, {Initial, HealthDegraded}) == Count(log, {Initial}) + Count(log, {HealthDegraded})
            && Count(log, {Initial}) <= 1 + Resets(events)
  {
    hide *;
    var log := Log(cfg, events);
    BudgetKept(cfg, events, 100.0);
    BudgetBoundsTotals(cfg, After(cfg, events), log, 100.0);
    TotalIsCount(log, {BetterPath}, cfg.switchHysteresis);
    TotalIsCount(log, {Initial, HealthDegraded}, 100.0 - cfg.minViableScore);
    CountSplits(log);
    InitialsCounted(cfg, events);
  }

  lemma InitialsCounted(cfg: Config, events: seq<Event>)
    requires Valid(cfg, events)
    ensures Count(Log(cfg, events), {Initial}) <= 1 + Resets(events)
  {
    InitialsBounded(cfg, events);
  }

  lemma BudgetBoundsTotals(cfg: Config, s: State, log: seq<Entry>, top: real)
    requires WithinBudget(cfg, s, log, top)
    ensures Total(log, {BetterPath}, cfg.switchHysteresis)
         <= Total(log, {Initial, HealthDegraded}, top - cfg.minViableScore)
  {
  }

  function DegradedReadings(cfg: Config, events: seq<Event>): nat {
    if |events| == 0 then 0
    else
      DegradedReadings(cfg, Init(events))
      + if DegradedReading(cfg, After(cfg, Init(events)), Last(events)) then 1 else 0
  }

  lemma ReadingsStep(cfg: Config, s: State, e: Event, now: nat, log: seq<Entry>, readings: nat)
    requires 3 * Count(log, {HealthDegraded}) + (if HasPath(s) then Path(s).consecutiveDegraded else 0) <= readings
    ensures var o := Step(cfg, s, e);
            3 * Count(Extended(log, o.returned, now), {HealthDegraded})
            + (if HasPath(o.state) then Path(o.state).consecutiveDegraded else 0)
            <= readings + if DegradedReading(cfg, s, e) then 1 else 0
  {
    var o := Step(cfg, s, e);
    if o.returned.Some? {
      CountSnoc(log, Entry(o.returned.value, now), {HealthDegraded});
    }
  }

  /** Every failover has used up three degraded readings of the interface that was active then. */
  lemma {:induction false} FailoversUseReadings(cfg: Config, events: seq<Event>)
    ensures 3 * Count(Log(cfg, events), {HealthDegraded})
            + (if HasPath(After(cfg, events)) then Path(After(cfg, events)).consecutiveDegraded else 0)
            <= DegradedReadings(cfg, events)
  {
    if |events| == 0 {
    } else {
      hide Step, Count;
      FailoversUseReadings(cfg, Init(events));
      ReadingsStep(cfg, After(cfg, Init(events)), Last(events), Clock(events), Log(cfg, Init(events)),
                   DegradedReadings(cfg, Init(events)));
    }
  }

  lemma SwitchAlgebra(b: real, h: real, lows: real, f: real, d: real, range: real)
    requires b * h <= lows * range && lows <= f + 1.0 && 3.0 * f <= d && range >= 0.0 && h >= 0.0
    ensures 3.0 * (b + f) * h <= (d + 3.0) * range + d * h
  {
    ScaleUp(lows, f + 1.0, range);
    ScaleUp(3.0 * f + 3.0, d + 3.0, range);
    ScaleUp(3.0 * f, d, h);
    assert (3.0 * f + 3.0) * range == 3.0 * ((f + 1.0) * range);
    assert 3.0 * (b + f) * h == 3.0 * (b * h) + (3.0 * f) * h;
  }

  /** Without resets, the number of switches is bounded by the degraded readings of active interfaces alone. */
  lemma SwitchesBoundedByDegradation(cfg: Config, events: seq<Event>)
    requires Valid(cfg, events) && EventsAtMost(events, 100.0) && Resets(events) == 0
    requires cfg.switchHysteresis >= 0.0 && cfg.minViableScore <= 100.0
    ensures var log, d, h := Log(cfg, events), DegradedReadings(cfg, events) as real, cfg.switchHysteresis;
            && 3 * Count(log, {HealthDegraded}) <= DegradedReadings(cfg, events)
            && 3.0 * (Count(log, {BetterPath}) as real + Count(log, {HealthDegraded}) as real) * h
               <= (d + 3.0) * (100.0 - cfg.minViableScore) + d * h
  {
    var log := Log(cfg, events);
    FailoversUseReadings(cfg, events);
    hide *;
    FlapBound(cfg, events);
    SwitchAlgebra(Count(log, {BetterPath}) as real, cfg.switchHysteresis, Count(log, {Initial, HealthDegraded}) as real,
                  Count(log, {HealthDegraded}) as real, DegradedReadings(cfg, events) as real,
                  100.0 - cfg.minViableScore);
  }

  /** Every update carries a score that the health monitor had stored for its interface. */
  ghost predicate Monitored(events: seq<Event>, probes: seq<Probe>, w: Weights, alpha: real) {
    forall i :: 0 <= i < |events| && events[i].Update? ==>
      exists k :: 0 <= k <= |probes| && StoredAt(events[i], probes[..k], w, alpha)
  }

  predicate StoredAt(e: Event, probes: seq<Probe>, w: Weights, alpha: real)
    requires e.Update?
  {
    var stored := ScoresAfter(probes, w, alpha);
    e.interface in stored && stored[e.interface] == e.score
  }

  /** Fed by the monitor, whatever it measures and however it is weighted, the steerer cannot flap. */
  lemma MonitoredFlapBound(cfg: Config, events: seq<Event>, probes: seq<Probe>, w: Weights, alpha: real)
    requires Valid(cfg, events) && Monitored(events, probes, w, alpha)
    ensures var log := Log(cfg, events);
            && Count(log, {BetterPath}) as real * cfg.switchHysteresis
               <= Count(log, {Initial, HealthDegraded}) as real * (100.0 - cfg.minViableScore)
            && Count(log, {Initial, HealthDegraded}) <= 1 + Resets(events) + Count(log, {HealthDegraded})
            && 3 * Count(log, {HealthDegraded}) <= DegradedReadings(cfg, events)
  {
    forall i | 0 <= i < |events| && events[i].Update? ensures events[i].score.overall <= 100.0 {
      var k :| 0 <= k <= |probes| && StoredAt(events[i], probes[..k], w, alpha);
      StoredScoresSound(probes[..k], w, alpha, events[i].interface);
    }
    hide Log, Count, Valid, Monitored, DegradedReadings;
    FlapBound(cfg, events);
    FailoversUseReadings(cfg, events);
  }

  // ---------- Failovers have a cause ----------

  /**
   The strikes against `interface`: its readings below the threshold, not before `since` and while some
   interface was viable, after its last reading at or above the threshold.
   */
  function Strikes(cfg: Config, events: seq<Event>, interface: string, since: nat): nat {
    if |events| == 0 then 0
    else
      var e, before := Last(events), Strikes(cfg, Init(events), interface, since);
      if !ReadingOf(e, interface) then before
      else if e.score.overall >= cfg.minViableScore then 0
      else if e.now >= since && e.best.Some? then before + 1
      else before
  }

  /** An interface whose cached score is viable has no strikes: its last reading wiped them out. */
  lemma {:induction false} ViableHasNoStrikes(cfg: Config, events: seq<Event>, interface: string, since: nat)
    requires Valid(cfg, events)
    requires interface in After(cfg, events).scores ==>
               After(cfg, events).scores[interface].overall >= cfg.minViableScore
    ensures Strikes(cfg, events, interface, since) == 0
  {
    if |events| == 0 {
    } else {
      var e := Last(events);
      if e.Update? {
        StepMovesOnlyWithDecision(cfg, After(cfg, Init(events)), e);
      }
      hide IsBest;
      if !ReadingOf(e, interface) {
        ViableHasNoStrikes(cfg, Init(events), interface, since);
      }
    }
  }

  ghost predicate CounterIsStrikes(cfg: Config, s: State, events: seq<Event>) {
    HasPath(s) ==>
      Path(s).consecutiveDegraded
      == Strikes(cfg, events, Path(s).activeInterface, Path(s).lastSteering + cfg.steeringCooldown)
  }

  lemma StrikesStep(cfg: Config, s: State, events: seq<Event>)
    requires |events| > 0 && Last(events).Update? && IsBest(cfg, Cached(s, Last(events)), Last(events).best)
    requires CounterIsStrikes(cfg, s, Init(events))
    requires HasPath(s) && Last(events).now < Path(s).lastSteering + cfg.steeringCooldown ==>
               Path(s).consecutiveDegraded == 0
    requires HasPath(s) && Step(cfg, s, Last(events)).returned == None
    ensures CounterIsStrikes(cfg, Step(cfg, s, Last(events)).state, events)
  {
    var e, path := Last(events), Path(s);
    StepMovesOnlyWithDecision(cfg, s, e);
    CounterStep(cfg, s, e);
    if ReadingOf(e, path.activeInterface) && e.score.overall >= cfg.minViableScore {
      assert e.interface in Cached(s, e) && e.best.Some?;
    }
    hide Step, IsBest;
  }

  /** Over every run the counter is exactly the number of strikes against the active interface since its cooldown. */
  lemma {:induction false} CounterHasWitness(cfg: Config, events: seq<Event>)
    requires Valid(cfg, events)
    ensures CounterIsStrikes(cfg, After(cfg, events), events)
  {
    if |events| == 0 {
    } else {
      var s, e := After(cfg, Init(events)), Last(events);
      CounterHasWitness(cfg, Init(events));
      AlwaysSound(cfg, Init(events));
      if e.Update? {
        ClockStep(events);
        CounterStepWitnessed(cfg, events);
      } else {
        assert !HasPath(After(cfg, events));
      }
    }
  }

  lemma ClockStep(events: seq<Event>)
    requires |events| > 0 && Last(events).Update?
    ensures Clock(events) == Last(events).now
  {
  }

  lemma CounterStepWitnessed(cfg: Config, events: seq<Event>)
    requires Valid(cfg, events) && |events| > 0 && Last(events).Update?
    requires CounterIsStrikes(cfg, After(cfg, Init(events)), Init(events))
    requires Sound(cfg, After(cfg, Init(events)), Clock(Init(events)), Log(cfg, Init(events)))
    ensures CounterIsStrikes(cfg, After(cfg, events), events)
  {
    var s, e := After(cfg, Init(events)), Last(events);
    var o := Step(cfg, s, e);
    assert After(cfg, events) == o.state;
    if o.returned.Some? {
      StepMovesOnlyWithDecision(cfg, s, e);
      var best := e.best.value;
      BestIsViable(cfg, Cached(s, e), best);
      hide Step, IsBest, Strikes, Sound;
      ViableHasNoStrikes(cfg, events, best.interface, Path(o.state).lastSteering + cfg.steeringCooldown);
    } else if HasPath(s) {
      StrikesStep(cfg, s, events);
    } else {
      StepMovesOnlyWithDecision(cfg, s, e);
    }
  }

  lemma BestIsViable(cfg: Config, scores: map<string, HealthScore>, best: Candidate)
    requires IsBest(cfg, scores, Some(best))
    ensures best.interface in scores && scores[best.interface].overall >= cfg.minViableScore
  {
  }

  /** The events that `Strikes` counts, latest last. */
  lemma {:induction false} StrikingEvents(cfg: Config, events: seq<Event>, interface: string, since: nat, count: nat)
    returns (at: seq<nat>)
    requires 0 < count <= Strikes(cfg, events, interface, since)
    ensures |at| == count
    ensures forall i :: 0 <= i < count ==>
              at[i] < |events| && ReadingOf(events[at[i]], interface)
              && events[at[i]].score.overall < cfg.minViableScore && events[at[i]].now >= since
    ensures forall i :: 0 < i < count ==> at[i - 1] < at[i]
    ensures forall j :: at[0] <= j < |events| && ReadingOf(events[j], interface)
                        ==> events[j].score.overall < cfg.minViableScore
  {
    var e, n := Last(events), |events| - 1;
    var counted := ReadingOf(e, interface) && e.now >= since && e.best.Some?;
    if counted && count == 1 {
      at := [n];
    } else {
      at := StrikingEvents(cfg, Init(events), interface, since, if counted then count - 1 else count);
      if counted {
        at := at + [n];
      }
    }
  }

  /**
   A failover is returned exactly on the third strike: over every run and whatever other interfaces
   report in between, the update brings one if and only if `autoFailover` is on, it is a reading of the
   active interface below the threshold after the cooldown with some interface viable, and there are
   at least two strikes against the active interface already.
   */
  lemma ThirdStrikeFailsOver(cfg: Config, events: seq<Event>)
    requires Valid(cfg, events) && |events| > 0
    ensures var s, e := After(cfg, Init(events)), Last(events);
            var r := Step(cfg, s, e).returned;
            r.Some? && r.value.reason == HealthDegraded
            <==> && cfg.autoFailover && DegradedReading(cfg, s, e) && e.best.Some?
                 && e.now >= Path(s).lastSteering + cfg.steeringCooldown
                 && Strikes(cfg, Init(events), Path(s).activeInterface,
                            Path(s).lastSteering + cfg.steeringCooldown) >= 2
  {
    hide Step, After, Strikes;
    var s, e := After(cfg, Init(events)), Last(events);
    CounterHasWitness(cfg, Init(events));
    ResetReturnsNothing(cfg, s);
    if e.Update? {
      StepReturnsExactly(cfg, s, e, HealthDegraded);
      DegradedIsNotBest(cfg, s, e);
    }
    hide IsBest;
  }

  lemma DegradedIsNotBest(cfg: Config, s: State, e: Event)
    requires e.Update? && IsBest(cfg, Cached(s, e), e.best)
    ensures DegradedReading(cfg, s, e) && e.best.Some? ==> e.best.value.interface != Path(s).activeInterface
  {
  }

  /**
   Whenever a failover is returned, the abandoned interface has three readings below the threshold,
   all after its assignment and cooldown, the last of them this update, and none at or above in between.
   */
  lemma FailoverHasCause(cfg: Config, events: seq<Event>) returns (first: nat, second: nat)
    requires Valid(cfg, events) && |events| > 0
    requires var r := Step(cfg, After(cfg, Init(events)), Last(events)).returned;
             r.Some? && r.value.reason == HealthDegraded
    ensures HasPath(After(cfg, Init(events)))
    ensures var path := Path(After(cfg, Init(events)));
            && first < second < |events| - 1
            && (forall k :: k in {first, second, |events| - 1} ==>
                  && ReadingOf(events[k], path.activeInterface)
                  && events[k].score.overall < cfg.minViableScore
                  && events[k].now >= path.lastSteering + cfg.steeringCooldown)
            && (forall j :: first <= j < |events| && ReadingOf(events[j], path.activeInterface)
                            ==> events[j].score.overall < cfg.minViableScore)
  {
    hide Step, After, Valid, IsBest, Strikes;
    ThirdStrikeFailsOver(cfg, events);
    var path := Path(After(cfg, Init(events)));
    var at := StrikingEvents(cfg, Init(events), path.activeInterface, path.lastSteering + cfg.steeringCooldown, 2);
    first, second := at[0], at[1];
    assert forall j :: 0 <= j < |events| - 1 ==> Init(events)[j] == events[j];
  }
}

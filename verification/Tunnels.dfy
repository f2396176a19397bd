/**
 Tunnels and their reconnect machine. A live tunnel is known by its name; creating and tearing down
 one, and what a health check observes, are arbitrary outcomes passed in.
 */
module Tunnels {
  import opened Common

  const MAX_RECONNECT_DELAY: nat := 300 * SECOND

  datatype TunnelType = WireGuard | Quic | Relay | OpenVpn | Tailscale

  datatype TunnelConfig = TunnelConfig(
    name: string, kind: TunnelType, options: map<string, string>, autoConnect: bool, autoReconnect: bool)
  {
    /** The options without which no tunnel is created. */
    predicate HasKeys() {
      "private_key" in options && "public_key" in options && "tunnel_address" in options
    }
  }

  // ---------- Backoff ----------

  function Min(a: nat, b: nat): nat {
    if a <= b then a else b
  }

  /** Times are nanoseconds of a monotone clock. */
  datatype ReconnectInfo = ReconnectInfo(attempts: nat, lastAttempt: Option<nat>, currentDelay: nat) {
    function NextDelay(): ReconnectInfo {
      this.(attempts := attempts + 1, currentDelay := Min(currentDelay * 2, MAX_RECONNECT_DELAY))
    }

    function Reset(now: nat): ReconnectInfo {
      ReconnectInfo(0, Some(now), SECOND)
    }

    /** `elapsed` is zero for an attempt in the future. */
    predicate ShouldReconnect(now: nat) {
      lastAttempt.Some? ==> (if now >= lastAttempt.value then now - lastAttempt.value else 0) >= currentDelay
    }
  }

  const FRESH := ReconnectInfo(0, None, SECOND)

  function Power(n: nat): nat {
    if n == 0 then 1 else 2 * Power(n - 1)
  }

  function NextDelays(info: ReconnectInfo, n: nat): ReconnectInfo {
    if n == 0 then info else NextDelays(info, n - 1).NextDelay()
  }

  /** The backoff doubles from one second and stops at five minutes. */
  lemma {:induction false} BackoffIsCappedDoubling(info: ReconnectInfo, now: nat, n: nat)
    ensures NextDelays(info.Reset(now), n)
            == ReconnectInfo(n, Some(now), Min(Power(n) * 1_000_000_000, 300 * 1_000_000_000))
  {
    if n == 0 {
    } else {
      BackoffIsCappedDoubling(info, now, n - 1);
    }
  }

  // ---------- Steps ----------

  /** `live` names the tunnels that exist; the other three maps are the manager's own. */
  datatype State = State(
    live: set<string>, configs: map<string, TunnelConfig>, reconnects: map<string, ReconnectInfo>,
    scores: map<string, real>)

  const INITIAL := State({}, map[], map[], map[])

  /** What a health check sees of a tunnel: whether its interface is up, and its last handshake. */
  datatype Observation = Observation(operational: bool, handshake: Result<Option<nat>, string>) {
    predicate Healthy() {
      operational && handshake.Ok? && handshake.value.Some?
    }
  }

  /** When an attempt to reconnect starts, whether the tunnel can be created, and when that is known. */
  datatype Attempt = Attempt(now: nat, created: bool, finished: nat)

  ghost predicate KeyedByName(configs: map<string, TunnelConfig>) {
    forall n :: n in configs ==> configs[n].name == n
  }

  function Added(s: State, config: TunnelConfig): State {
    s.(configs := s.configs[config.name := config])
  }

  /** A failed teardown has already taken the tunnel out, but leaves everything else. */
  function Removed(s: State, name: string, tornDown: bool): State {
    if name in s.live && !tornDown then s.(live := s.live - {name})
    else State(s.live - {name}, s.configs - {name}, s.reconnects - {name}, s.scores - {name})
  }

  function Startable(configs: map<string, TunnelConfig>, creates: string -> bool): set<string> {
    set n | n in configs && configs[n].autoConnect && configs[n].kind.WireGuard? && configs[n].HasKeys() && creates(n)
  }

  function WithStarted(s: State, names: set<string>): State {
    s.(live := s.live + names, reconnects := s.reconnects + (map n | n in names :: FRESH))
  }

  function InfoOf(s: State, name: string): ReconnectInfo {
    if name in s.reconnects then s.reconnects[name] else FRESH
  }

  /** The cooldown is over and reconnecting is allowed. */
  predicate Tries(s: State, name: string, attempt: Attempt) {
    InfoOf(s, name).ShouldReconnect(attempt.now) && name in s.configs && s.configs[name].autoReconnect
  }

  predicate Creates(config: TunnelConfig, attempt: Attempt) {
    config.kind.WireGuard? && config.HasKeys() && attempt.created
  }

  predicate Fails(s: State, name: string, attempt: Attempt) {
    Tries(s, name, attempt) && !Creates(s.configs[name], attempt)
  }

  function InfoAfter(s: State, name: string, attempt: Attempt): ReconnectInfo {
    if !Tries(s, name, attempt) then InfoOf(s, name)
    else
      var tried := InfoOf(s, name).(lastAttempt := Some(attempt.now)).NextDelay();
      if Creates(s.configs[name], attempt) then tried.Reset(attempt.finished) else tried
  }

  /** The outcome of trying one live tunnel. */
  function Tried(s: State, name: string, attempt: Attempt): State {
    s.(live := if Fails(s, name, attempt) then s.live - {name} else s.live,
       reconnects := s.reconnects[name := InfoAfter(s, name, attempt)])
  }

  /** The outcome of trying each of `names` once, in whatever order. */
  function Retried(s: State, names: set<string>, attempts: string -> Attempt): State {
    s.(live := (set n | n in s.live && !(n in names && Fails(s, n, attempts(n)))),
       reconnects := (map n | n in s.reconnects.Keys + names ::
         if n in names then InfoAfter(s, n, attempts(n)) else s.reconnects[n]))
  }

  function Unhealthy(live: set<string>, seen: string -> Observation): set<string> {
    set n | n in live && !seen(n).Healthy()
  }

  function Scored(s: State, names: set<string>, seen: string -> Observation): State {
    s.(scores := s.scores + (map n | n in names :: if seen(n).Healthy() then 100.0 else 0.0))
  }

  function Checked(s: State, seen: string -> Observation, attempts: string -> Attempt): State {
    Retried(Scored(s, s.live, seen), Unhealthy(s.live, seen), attempts)
  }

  // ---------- The manager ----------

  class TunnelManager {
    var wgTunnels: set<string>
    var configs: map<string, TunnelConfig>
    var reconnectState: map<string, ReconnectInfo>
    var healthScores: map<string, real>

    ghost function Value(): State
      reads this
    {
      State(wgTunnels, configs, reconnectState, healthScores)
    }

    ghost predicate Valid()
      reads this
    {
      KeyedByName(configs)
    }

    constructor ()
      ensures Valid() && Value() == INITIAL
    {
      wgTunnels, configs, reconnectState, healthScores := {}, map[], map[], map[];
    }

    method AddConfig(config: TunnelConfig)
      requires Valid()
      modifies this
      ensures Valid() && Value() == Added(old(Value()), config)
    {
      configs := configs[config.name := config];
    }

    method RemoveTunnel(name: string, tornDown: bool) returns (result: Result<(), string>)
      requires Valid()
      modifies this
      ensures Valid() && Value() == Removed(old(Value()), name, tornDown)
      ensures result.Err? <==> name in old(wgTunnels) && !tornDown
    {
      if name in wgTunnels {
        wgTunnels := wgTunnels - {name};
        if !tornDown {
          return Err("teardown failed");
        }
      }
      configs := configs - {name};
      reconnectState := reconnectState - {name};
      healthScores := healthScores - {name};
      return Ok(());
    }

    /** Starts every tunnel that connects by itself, in the arbitrary order of a hash map. */
    method StartAutoConnect(creates: string -> bool)
      requires Valid()
      modifies this
      ensures Valid() && Value() == WithStarted(old(Value()), Startable(old(configs), creates))
    {
      ghost var was, started: set<string> := Value(), {};
      StartedNone(was);
      hide WithStarted;
      var todo := set n | n in configs && configs[n].autoConnect;
      while todo != {}
        invariant Valid() && configs == was.configs && todo <= configs.Keys
        invariant started * todo == {} && Startable(was.configs, creates) <= started + todo
        invariant started <= Startable(was.configs, creates)
        invariant forall n :: n in todo ==> configs[n].autoConnect
        invariant Value() == WithStarted(was, started)
      {
        var name :| name in todo;
        var result := StartTunnel(configs[name], creates(name));
        if configs[name].kind.WireGuard? && result.Ok? {
          StartedOneMore(was, started, name);
          started := started + {name};
        }
        todo := todo - {name};
      }
      assert started == Startable(was.configs, creates);
    }

    /** Only WireGuard tunnels are started; the other types are logged and count as a success. */
    method StartTunnel(config: TunnelConfig, created: bool) returns (result: Result<(), string>)
      modifies this
      ensures configs == old(configs)
      ensures result.Err? <==> config.kind.WireGuard? && !(config.HasKeys() && created)
      ensures Value()
           == if config.kind.WireGuard? && result.Ok? then WithStarted(old(Value()), {config.name}) else old(Value())
    {
      if !config.kind.WireGuard? {
        return Ok(());
      }
      if !config.HasKeys() {
        return Err("missing option");
      }
      if !created {
        return Err("not created");
      }
      wgTunnels := wgTunnels + {config.name};
      reconnectState := reconnectState[config.name := FRESH];
      return Ok(());
    }

    /** Scores every live tunnel, then tries to reconnect the unhealthy ones. */
    method CheckHealth(seen: string -> Observation, attempts: string -> Attempt)
      requires Valid()
      modifies this
      ensures Valid() && Value() == Checked(old(Value()), seen, attempts)
    {
      var todo, unhealthy := wgTunnels, {};
      ghost var was, done: set<string> := Value(), {};
      StepsOfNone(was, seen, attempts);
      hide Scored, Retried, Tried;
      while todo != {}
        invariant done !! todo && done + todo == was.live == wgTunnels
        invariant unhealthy == Unhealthy(done, seen)
        invariant configs == was.configs && Value() == Scored(was, done, seen)
      {
        var name :| name in todo;
        ScoredOneMore(was, done, name, seen);
        if seen(name).Healthy() {
          healthScores := healthScores[name := 100.0];
        } else {
          healthScores := healthScores[name := 0.0];
          unhealthy := unhealthy + {name};
        }
        todo := todo - {name};
        done := done + {name};
      }
      ReconnectAll(unhealthy, attempts);
      assert done == was.live;
    }

    /** The second half of a health check, over the tunnels the first half found unhealthy. */
    method ReconnectAll(names: set<string>, attempts: string -> Attempt)
      requires Valid() && names <= wgTunnels
      modifies this`wgTunnels, this`reconnectState
      ensures Value() == Retried(old(Value()), names, attempts)
    {
      ghost var was, done: set<string> := Value(), {};
      StepsOfNone(was, _ => Observation(false, Ok(None)), attempts);
      hide Retried, Tried;
      var unhealthy := names;
      while unhealthy != {}
        invariant done !! unhealthy && done + unhealthy == names && unhealthy <= wgTunnels
        invariant configs == was.configs && Value() == Retried(was, done, attempts)
      {
        var name :| name in unhealthy;
        RetriedOneMore(was, done, name, attempts);
        TryReconnect(name, attempts(name));
        unhealthy := unhealthy - {name};
        done := done + {name};
      }
      assert done == names;
    }

    method TryReconnect(name: string, attempt: Attempt)
      requires Valid() && name in wgTunnels
      modifies this`wgTunnels, this`reconnectState
      ensures Value() == Tried(old(Value()), name, attempt)
      ensures old(wgTunnels) - {name} <= wgTunnels
    {
      hide Creates, ReconnectInfo.ShouldReconnect, ReconnectInfo.NextDelay, ReconnectInfo.Reset, TunnelConfig.HasKeys;
      ghost var was := reconnectState;
      if name !in reconnectState {
        reconnectState := reconnectState[name := FRESH];
      }
      var info := reconnectState[name];
      assert reconnectState == was[name := info];
      if !info.ShouldReconnect(attempt.now) {
        return;
      }
      if !(name in configs && configs[name].autoReconnect) {
        return;
      }
      info := info.(lastAttempt := Some(attempt.now)).NextDelay();
      reconnectState := reconnectState[name := info];
      assert reconnectState == was[name := info];
      wgTunnels := wgTunnels - {name};
      var config := configs[name];
      if Creates(config, attempt) {
        wgTunnels := wgTunnels + {config.name};
        assert wgTunnels == old(wgTunnels);
        reconnectState := reconnectState[name := info.Reset(attempt.finished)];
        assert reconnectState == was[name := info.Reset(attempt.finished)];
      }
    }
  }

  lemma StartedNone(s: State)
    ensures WithStarted(s, {}) == s
  {
  }

  lemma StartedOneMore(s: State, names: set<string>, name: string)
    ensures WithStarted(WithStarted(s, names), {name}) == WithStarted(s, names + {name})
  {
  }

  lemma StepsOfNone(s: State, seen: string -> Observation, attempts: string -> Attempt)
    ensures Scored(s, {}, seen) == s && Retried(s, {}, attempts) == s
  {
  }

  lemma ScoredOneMore(s: State, names: set<string>, name: string, seen: string -> Observation)
    ensures var t, score := Scored(s, names, seen), if seen(name).Healthy() then 100.0 else 0.0;
            Scored(s, names + {name}, seen) == t.(scores := t.scores[name := score])
  {
    hide Observation.Healthy;
  }

  /** Trying one tunnel does not disturb what another try has done, so the order is immaterial. */
  lemma RetriedOneMore(s: State, names: set<string>, name: string, attempts: string -> Attempt)
    requires name !in names
    ensures Tried(Retried(s, names, attempts), name, attempts(name)) == Retried(s, names + {name}, attempts)
  {
    hide Fails, InfoAfter, InfoOf;
    RetriedSpares(s, names, name, attempts);
  }

  /** An untried tunnel still has the outcome before it that it had at first. */
  lemma RetriedSpares(s: State, names: set<string>, name: string, attempts: string -> Attempt)
    requires name !in names
    ensures Fails(Retried(s, names, attempts), name, attempts(name)) == Fails(s, name, attempts(name))
    ensures InfoAfter(Retried(s, names, attempts), name, attempts(name)) == InfoAfter(s, name, attempts(name))
  {
    hide ReconnectInfo.ShouldReconnect, ReconnectInfo.NextDelay, ReconnectInfo.Reset, TunnelConfig.HasKeys;
    assert InfoOf(Retried(s, names, attempts), name) == InfoOf(s, name);
  }

  // ---------- Runs ----------

  datatype Event =
    | Add(config: TunnelConfig)
    | Remove(name: string, tornDown: bool)
    | AutoConnect(creates: string -> bool)
    | Check(seen: string -> Observation, attempts: string -> Attempt)

  function Step(s: State, e: Event): State {
    match e
    case Add(config) => Added(s, config)
    case Remove(name, tornDown) => Removed(s, name, tornDown)
    case AutoConnect(creates) => WithStarted(s, Startable(s.configs, creates))
    case Check(seen, attempts) => Checked(s, seen, attempts)
  }

  function After(s: State, events: seq<Event>): State {
    if |events| == 0 then s else Step(After(s, events[..|events| - 1]), events[|events| - 1])
  }

  /** An entry as it was started, or after its one failed attempt. */
  predicate Untried(info: ReconnectInfo) {
    info.attempts == 0 && info.currentDelay == SECOND
  }

  predicate FailedOnce(info: ReconnectInfo) {
    info.attempts == 1 && info.currentDelay == 2 * SECOND && info.lastAttempt.Some?
  }

  /** Every live tunnel has a clean entry, and no entry has ever counted more than one attempt. */
  ghost predicate Sound(s: State) {
    && KeyedByName(s.configs)
    && s.live <= s.reconnects.Keys <= s.configs.Keys
    && s.scores.Keys <= s.reconnects.Keys
    && (forall n :: n in s.live ==> Untried(s.reconnects[n]))
    && (forall n :: n in s.reconnects ==> Untried(s.reconnects[n]) || FailedOnce(s.reconnects[n]))
    && (forall n :: n in s.scores ==> s.scores[n] == 0.0 || s.scores[n] == 100.0)
  }

  lemma CheckKeepsSound(s: State, seen: string -> Observation, attempts: string -> Attempt)
    requires Sound(s)
    ensures Sound(Checked(s, seen, attempts))
  {
    var t := Checked(s, seen, attempts);
    forall n | n in t.reconnects
      ensures Untried(t.reconnects[n]) || FailedOnce(t.reconnects[n])
      ensures n in t.live ==> Untried(t.reconnects[n])
    {
      hide Retried, Scored;
      CheckedEntry(s, seen, attempts, n);
    }
  }

  /** What a check does to one tunnel; it depends on no other. */
  lemma CheckedEntry(s: State, seen: string -> Observation, attempts: string -> Attempt, n: string)
    ensures Checked(s, seen, attempts).configs == s.configs
    ensures n in s.live && !seen(n).Healthy() ==>
              && n in Checked(s, seen, attempts).reconnects
              && Checked(s, seen, attempts).reconnects[n] == InfoAfter(s, n, attempts(n))
              && (n in Checked(s, seen, attempts).live <==> !Fails(s, n, attempts(n)))
    ensures !(n in s.live && !seen(n).Healthy()) ==>
              && (n in Checked(s, seen, attempts).live <==> n in s.live)
              && (n in Checked(s, seen, attempts).reconnects <==> n in s.reconnects)
              && (n in s.reconnects ==> Checked(s, seen, attempts).reconnects[n] == s.reconnects[n])
    ensures n !in s.live ==>
              && (n in Checked(s, seen, attempts).scores <==> n in s.scores)
              && (n in s.scores ==> Checked(s, seen, attempts).scores[n] == s.scores[n])
  {
    var scored := Scored(s, s.live, seen);
    assert InfoOf(scored, n) == InfoOf(s, n);
    hide ReconnectInfo.ShouldReconnect, ReconnectInfo.NextDelay, ReconnectInfo.Reset;
  }

  lemma StartKeepsSound(s: State, creates: string -> bool)
    requires Sound(s)
    ensures Sound(WithStarted(s, Startable(s.configs, creates)))
  {
    hide TunnelConfig.HasKeys;
  }

  lemma RemoveKeepsSound(s: State, name: string, tornDown: bool)
    requires Sound(s)
    ensures Sound(Removed(s, name, tornDown))
  {
    hide Untried, FailedOnce;
  }

  lemma StepKeepsSound(s: State, e: Event)
    requires Sound(s)
    ensures Sound(Step(s, e))
  {
    hide Checked, WithStarted, Removed, Untried, FailedOnce;
    match e
    case Add(_) =>
    case Remove(name, tornDown) => RemoveKeepsSound(s, name, tornDown);
    case AutoConnect(creates) => StartKeepsSound(s, creates);
    case Check(seen, attempts) => CheckKeepsSound(s, seen, attempts);
  }

  /**
   In every reachable state each live tunnel has counted no attempt and waits one second, and no
   entry has counted more than one attempt or waits more than two: the backoff never grows.
   */
  lemma {:induction false} AlwaysSound(events: seq<Event>)
    ensures Sound(After(INITIAL, events))
  {
    if |events| == 0 {
    } else {
      AlwaysSound(events[..|events| - 1]);
      hide *;
      StepKeepsSound(After(INITIAL, events[..|events| - 1]), events[|events| - 1]);
    }
  }

  // ---------- The health loop ----------

  /** What the health loop does once it owns the manager. */
  ghost predicate OnlyChecks(events: seq<Event>) {
    forall i :: 0 <= i < |events| ==> events[i].Check?
  }

  /** The attempts made for one tunnel, in order. */
  function Log(s: State, events: seq<Event>, name: string): seq<Attempt> {
    if |events| == 0 then []
    else
      var before, e := After(s, events[..|events| - 1]), events[|events| - 1];
      Log(s, events[..|events| - 1], name)
      + if e.Check? && name in before.live && !e.seen(name).Healthy() && Tries(before, name, e.attempts(name))
        then [e.attempts(name)] else []
  }

  lemma {:induction false} ChecksKeepSound(s: State, checks: seq<Event>)
    requires Sound(s) && OnlyChecks(checks)
    ensures Sound(After(s, checks)) && After(s, checks).configs == s.configs
  {
    if |checks| == 0 {
    } else {
      var e := checks[|checks| - 1];
      ChecksKeepSound(s, checks[..|checks| - 1]);
      CheckKeepsSound(After(s, checks[..|checks| - 1]), e.seen, e.attempts);
      hide Sound;
    }
  }

  /** The attempts of a tunnel so far, all but the last successful and a second apart, and its state as they left it. */
  ghost predicate Explains(log: seq<Attempt>, config: TunnelConfig, s: State, name: string) {
    && (forall i :: 0 <= i < |log| - 1 ==> Creates(config, log[i]))
    && (forall i :: 0 <= i < |log| - 1 ==> log[i].finished + SECOND <= log[i + 1].now)
    && (name in s.live <==> (|log| > 0 ==> Creates(config, log[|log| - 1])))
    && name in s.reconnects
    && (name in s.live && |log| > 0 ==> s.reconnects[name].lastAttempt == Some(log[|log| - 1].finished))
    && (if name in s.live then Untried(s.reconnects[name]) else FailedOnce(s.reconnects[name]))
  }

  lemma CheckExplained(s: State, e: Event, name: string, log: seq<Attempt>)
    requires Sound(s) && e.Check? && name in s.configs && Explains(log, s.configs[name], s, name)
    ensures var tried := name in s.live && !e.seen(name).Healthy() && Tries(s, name, e.attempts(name));
            Explains(log + if tried then [e.attempts(name)] else [], s.configs[name],
                     Checked(s, e.seen, e.attempts), name)
  {
    hide Checked, Observation.Healthy, TunnelConfig.HasKeys;
    CheckedEntry(s, e.seen, e.attempts, name);
    var tried := name in s.live && !e.seen(name).Healthy() && Tries(s, name, e.attempts(name));
    if !tried {
      assert log + [] == log;
    }
  }

  /**
   Under the health loop a tunnel lives exactly until its first failed attempt: every attempt before
   the last succeeded, each came at least a second after the one before was done, and the tunnel is
   still live if and only if the last succeeded too. Its count of attempts is then zero, and one otherwise.
   */
  lemma {:induction false} LivesUntilFirstFailure(s: State, checks: seq<Event>, name: string)
    requires Sound(s) && OnlyChecks(checks) && name in s.live
    ensures Explains(Log(s, checks, name), s.configs[name], After(s, checks), name)
  {
    if |checks| == 0 {
    } else {
      var init, e := checks[..|checks| - 1], checks[|checks| - 1];
      LivesUntilFirstFailure(s, init, name);
      ChecksKeepSound(s, init);
      hide Sound, Explains, Tries, Observation.Healthy, Checked;
      CheckExplained(After(s, init), e, name, Log(s, init, name));
    }
  }

  /** What no check changes for a tunnel that is not live. */
  ghost predicate Frozen(s: State, t: State, name: string) {
    && name !in t.live
    && (name in t.reconnects <==> name in s.reconnects)
    && (name in s.reconnects ==> t.reconnects[name] == s.reconnects[name])
    && (name in t.scores <==> name in s.scores) && (name in s.scores ==> t.scores[name] == s.scores[name])
  }

  lemma {:induction false} ChecksSkipTheDead(s: State, checks: seq<Event>, name: string)
    requires name !in s.live && OnlyChecks(checks)
    ensures Frozen(s, After(s, checks), name)
  {
    if |checks| == 0 {
    } else {
      var init, e := checks[..|checks| - 1], checks[|checks| - 1];
      ChecksSkipTheDead(s, init, name);
      CheckedEntry(After(s, init), e.seen, e.attempts, name);
      hide Checked;
    }
  }

  /** A tunnel whose reconnect fails once is never checked, tried or scored again by the health loop. */
  lemma FailedReconnectIsFinal(
    s: State, seen: string -> Observation, attempts: string -> Attempt, checks: seq<Event>, name: string)
    requires Sound(s) && OnlyChecks(checks)
    requires name in s.live && !seen(name).Healthy() && Fails(s, name, attempts(name))
    ensures var t := After(Checked(s, seen, attempts), checks);
            && name !in t.live
            && name in t.reconnects && FailedOnce(t.reconnects[name])
            && name in t.scores && t.scores[name] == 0.0
            && Log(Checked(s, seen, attempts), checks, name) == []
  {
    var t := Checked(s, seen, attempts);
    assert name in t.scores && t.scores[name] == 0.0;
    CheckedEntry(s, seen, attempts, name);
    hide Checked;
    ChecksSkipTheDead(t, checks, name);
    NoAttemptsForTheDead(t, checks, name);
  }

  lemma {:induction false} NoAttemptsForTheDead(s: State, checks: seq<Event>, name: string)
    requires name !in s.live && OnlyChecks(checks)
    ensures Log(s, checks, name) == []
  {
    if |checks| == 0 {
    } else {
      NoAttemptsForTheDead(s, checks[..|checks| - 1], name);
      ChecksSkipTheDead(s, checks[..|checks| - 1], name);
    }
  }

  /** Over any events at all, a tunnel that is not live comes back only by an automatic start. */
  lemma {:induction false} ComesBackOnlyByStart(s: State, events: seq<Event>, name: string)
    requires name !in s.live && name in After(s, events).live
    ensures exists i :: 0 <= i < |events| && events[i].AutoConnect?
                     && name in Startable(After(s, events[..i]).configs, events[i].creates)
  {
    if |events| == 0 {
    } else {
      var last := |events| - 1;
      var init, e := events[..last], events[last];
      if name in After(s, init).live {
        ComesBackOnlyByStart(s, init, name);
        var i :| 0 <= i < |init| && init[i].AutoConnect?
                 && name in Startable(After(s, init[..i]).configs, init[i].creates);
        assert events[i] == init[i] && events[..i] == init[..i];
      } else {
        if e.Check? {
          CheckedEntry(After(s, init), e.seen, e.attempts, name);
        }
        hide Checked, Startable;
        assert name in Startable(After(s, events[..last]).configs, events[last].creates);
      }
    }
  }

  // ---------- When a reconnect is attempted, and what it does ----------

  lemma {:induction false} UntriedEntryKept(s: State, checks: seq<Event>, name: string)
    requires Sound(s) && OnlyChecks(checks) && name in s.live && Log(s, checks, name) == []
    ensures name in After(s, checks).live && name in After(s, checks).reconnects
    ensures After(s, checks).reconnects[name] == s.reconnects[name]
  {
    if |checks| == 0 {
    } else {
      var init, e := checks[..|checks| - 1], checks[|checks| - 1];
      UntriedEntryKept(s, init, name);
      CheckedEntry(After(s, init), e.seen, e.attempts, name);
      hide Checked, Observation.Healthy, ReconnectInfo.ShouldReconnect;
    }
  }

  /**
   The next attempt may start: a second after the last one was done, or, before any, a second after what the
   tunnel's first entry holds.
   */
  predicate Due(log: seq<Attempt>, first: ReconnectInfo, now: nat) {
    if |log| > 0 then log[|log| - 1].finished + SECOND <= now
    else first.lastAttempt == None || first.lastAttempt.value + SECOND <= now
  }

  predicate LooksHealthy(seen: Observation) {
    match seen
    case Observation(true, Ok(Some(_))) => true
    case _ => false
  }

  lemma DueMeans(info: ReconnectInfo, now: nat)
    requires info.currentDelay == SECOND
    ensures info.ShouldReconnect(now) <==> info.lastAttempt == None || info.lastAttempt.value + SECOND <= now
  {
  }

  /**
   Under the health loop, in any run, a check attempts to reconnect a live tunnel if and only if it looks
   unhealthy, reconnects by itself and is due; an attempt is exactly what the log gains.
   */
  lemma AttemptedExactly(s: State, checks: seq<Event>, e: Event, name: string)
    requires Sound(s) && OnlyChecks(checks) && e.Check? && name in s.live && name in After(s, checks).live
    ensures var log, attempt := Log(s, checks, name), e.attempts(name);
            Log(s, checks + [e], name)
            == if !LooksHealthy(e.seen(name)) && s.configs[name].autoReconnect
                  && Due(log, s.reconnects[name], attempt.now)
               then log + [attempt] else log
  {
    var t, log := After(s, checks), Log(s, checks, name);
    assert (checks + [e])[..|checks|] == checks;
    ChecksKeepSound(s, checks);
    LivesUntilFirstFailure(s, checks, name);
    if log == [] {
      UntriedEntryKept(s, checks, name);
    }
    DueMeans(t.reconnects[name], e.attempts(name).now);
    hide After, Checked, ReconnectInfo.ShouldReconnect;
  }

  /**
   What a check does to a live tunnel, in full: a healthy one scores 100 and keeps its entry; an unhealthy one
   scores 0, and if it is tried it comes back with a clean entry when it can be created and is gone otherwise.
   */
  lemma CheckOutcome(s: State, seen: string -> Observation, attempts: string -> Attempt, name: string)
    requires Sound(s) && name in s.live
    ensures var t, info, config, a := Checked(s, seen, attempts), s.reconnects[name], s.configs[name], attempts(name);
            var tried := !LooksHealthy(seen(name)) && config.autoReconnect && Due([], info, a.now);
            var works := config.kind == WireGuard && a.created && "private_key" in config.options
                         && "public_key" in config.options && "tunnel_address" in config.options;
            && name in t.scores && t.scores[name] == (if LooksHealthy(seen(name)) then 100.0 else 0.0)
            && (name in t.live <==> !tried || works)
            && name in t.reconnects
            && t.reconnects[name] == (if !tried then info
                                      else if works then ReconnectInfo(0, Some(a.finished), SECOND)
                                      else ReconnectInfo(1, Some(a.now), 2 * SECOND))
  {
    var t := Checked(s, seen, attempts);
    DueMeans(s.reconnects[name], attempts(name).now);
    assert name in t.scores && t.scores[name] == (if seen(name).Healthy() then 100.0 else 0.0);
    CheckedEntry(s, seen, attempts, name);
    hide Checked, ReconnectInfo.ShouldReconnect;
  }

  // ---------- Configurations, starts and removals ----------

  /** An automatic start makes live what connects by itself and can be created, with a fresh entry, and nothing else. */
  lemma StartedExactly(s: State, creates: string -> bool, name: string)
    ensures var t := Step(s, AutoConnect(creates));
            var started := name in s.configs && s.configs[name].autoConnect && s.configs[name].kind == WireGuard
                           && "private_key" in s.configs[name].options && "public_key" in s.configs[name].options
                           && "tunnel_address" in s.configs[name].options && creates(name);
            && (name in t.live <==> name in s.live || started)
            && (started ==> name in t.reconnects && t.reconnects[name] == ReconnectInfo(0, None, SECOND))
            && (!started ==> (name in t.reconnects <==> name in s.reconnects))
            && (!started && name in s.reconnects ==> t.reconnects[name] == s.reconnects[name])
            && t.configs == s.configs && t.scores == s.scores
  {
  }

  ghost predicate Gone(s: State, name: string) {
    name !in s.live && name !in s.configs && name !in s.reconnects && name !in s.scores
  }

  lemma GoneStays(s: State, e: Event, name: string)
    requires Gone(s, name) && !(e.Add? && e.config.name == name)
    ensures Gone(Step(s, e), name)
  {
    match e
    case Add(_) =>
    case Remove(_, _) =>
    case AutoConnect(creates) => StartedExactly(s, creates, name);
    case Check(seen, attempts) =>
      CheckedEntry(s, seen, attempts, name);
      hide Checked;
  }

  /**
   A removed tunnel is gone from everything and stays so in any run until it is configured again; when its
   teardown fails, only the tunnel itself is gone. Other tunnels are not touched.
   */
  lemma {:induction false} RemovedIsGone(s: State, name: string, tornDown: bool, events: seq<Event>)
    requires forall i :: 0 <= i < |events| ==> !(events[i].Add? && events[i].config.name == name)
    ensures name !in s.live || tornDown ==> Gone(After(Removed(s, name, tornDown), events), name)
  {
    if |events| == 0 {
    } else {
      var init := events[..|events| - 1];
      RemovedIsGone(s, name, tornDown, init);
      if name !in s.live || tornDown {
        GoneStays(After(Removed(s, name, tornDown), init), events[|events| - 1], name);
      }
    }
  }

  lemma RemovedSpares(s: State, name: string, tornDown: bool, other: string)
    requires other != name || (name in s.live && !tornDown)
    ensures var t := Removed(s, name, tornDown);
            && (other in t.live <==> other in s.live && other != name)
            && (other in t.configs <==> other in s.configs)
            && (other in t.reconnects <==> other in s.reconnects)
            && (other in t.scores <==> other in s.scores)
            && (other in s.configs ==> t.configs[other] == s.configs[other])
            && (other in s.reconnects ==> t.reconnects[other] == s.reconnects[other])
            && (other in s.scores ==> t.scores[other] == s.scores[other])
  {
  }

  /** A configuration is the one last added, in any run that does not remove it. */
  lemma {:induction false} ConfigIsLastAdded(s: State, config: TunnelConfig, events: seq<Event>)
    requires forall i :: 0 <= i < |events| ==>
               && !(events[i].Add? && events[i].config.name == config.name)
               && !(events[i].Remove? && events[i].name == config.name)
    ensures var t := After(Step(s, Add(config)), events);
            config.name in t.configs && t.configs[config.name] == config
  {
    if |events| == 0 {
    } else {
      var init, e := events[..|events| - 1], events[|events| - 1];
      ConfigIsLastAdded(s, config, init);
      if e.Check? {
        CheckedEntry(After(Step(s, Add(config)), init), e.seen, e.attempts, config.name);
      }
      hide Checked;
    }
  }
}

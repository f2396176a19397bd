# NetFusion decision logic, in Dafny

NetFusion keeps a host online over several uplinks: it probes and scores the interfaces, steers
traffic between them, predicts failures, balances load, bonds interfaces, keeps tunnels alive and
applies route changes that it rolls back when they break connectivity. This project models the
decisions between the probes and the commands and proves what they keep over whole runs.

| file | models |
|---|---|
| `Steering.dfy` | the path steering state machine: invariants, rate limit, anti-flap bound, causes of failovers |
| `Regression.dfy`, `Predictive.dfy` | least squares, trend, acceleration, z-score, and when the engine acts |
| `Routing.dfy` | the routing engine's list and the apply-or-roll-back transaction over a kernel table |
| `Bonding.dfy`, `Failover.dfy` | bond membership by stable sort; bad-reading counts and failover announcements |
| `Scoring.dfy`, `Monitoring.dfy` | normalisation, weighted mean, exponential smoothing over runs of probes |
| `Weighted.dfy`, `Analytics.dfy` | proportional integer weights; sorted statistics and percentiles |
| `Tunnels.dfy` | the tunnel reconnect machine |
| `Framing.dfy` | the control socket's length-prefixed frames, both ends |
| `RealSeq.dfy`, `RealArith.dfy`, `Common.dfy` | sums over sequences, real arithmetic, small datatypes |

`dafny verify dfyconfig.toml` checks everything.

## Conventions

- Classes mirror the structs whose methods update fields; each method is proved against a function
  of the old state, and the lemmas about runs are about that function.
- `f64` is an exact real. A square root is passed in as the non-negative root of the variance. The
  `1e-10` guards are kept.
- `Instant` and `Utc` are integers; runs that speak of time require a clock that does not go back.
- A hash map hands out its entries in any order: the best of several equals is any of them, events
  and weights come in any order.
- What a command, a probe, a ping or the bincode decoder returns is a parameter, so every outcome is covered.
- The kernel's route table is a ghost set that accepts a route only once. Deletions may take effect, be
  refused or not run at all, each on its own; statements that need them to take effect say so.
- The weight sum of a health score is an eight-bit sum that wraps, as in a release build.

## Where the code and its documentation differ

The model follows the code.

- The component weights are documented as normalised; their eight-bit sum wraps above 255, and then
  the result is no weighted mean (`Scoring.WeightsNormalisedExactly`).
- `failover_candidate` compares a score with itself, because the map is overwritten first, so it is
  right only where the weights, the smoothing and the threshold never call for it
  (`Monitoring.FlagRightExactly`).
- The bufferbloat branch repeats the better-path condition and never decides
  (`Steering.UnusedReasons`).
- A safe apply is documented never to break connectivity permanently; a rollback only deletes routes
  that it still lists, and it reports success when its commands ran, whether or not the kernel obeyed
  (`Routing.RestoredExactly`, `Routing.FailedCallRestoresExactly`, `Routing.RollbackRestoresExactly`).
- Bond members tied at the top take turns at every update instead of staying put
  (`Bonding.RoundRobin`), and a member configured twice is lost once (`Bonding.ConservedExactly`).
- The failover engine's bad-reading counts and their documented threshold decide nothing
  (`Failover.CountsDecideNothing`, `Failover.ThresholdKeptExactly`); a failover is never cleared and is
  announced again and again (`Failover.AnnouncedAgain`); its cooldown is compared in whole seconds
  (`Failover.CooldownKeptExactly`).
- A tunnel whose reconnect fails leaves the set that health checks visit, so it is never retried and
  the exponential backoff never gets beyond its second step (`Tunnels.AlwaysSound`,
  `Tunnels.FailedReconnectIsFinal`).
- The mean time between state changes is the mean over all samples, changed or not
  (`Analytics.MeansAgreeExactly`, `Analytics.PeriodicMeansAgreeExactly`).
- A frame longer than 2³² bytes is written with a wrapped length (`Framing.OversizedMisread`).

## Model

| member | source | states |
|---|---|---|
| `Steering.PathSteerer.constructor` | crates/netfusion-core/src/routing/path_steering.rs:125-135 | a new steerer has no cached score, no path and no decision |
| `Steering.PathSteerer.FindBestInterface` | crates/netfusion-core/src/routing/path_steering.rs:244-250 | returns a viable interface with the highest cached score, whichever the hash order makes it among equals, and none exactly when no interface is viable |
| `Steering.PathSteerer.MakeInitialAssignment` | crates/netfusion-core/src/routing/path_steering.rs:253-284 | stores a fresh path for the class and builds an `Initial` decision that is no failover |
| `Steering.PathSteerer.Steer` | crates/netfusion-core/src/routing/path_steering.rs:287-345 | the whole outcome of a steer: nothing without `auto_failover`, else the new path, the stored decision and the broadcast |
| `Steering.PathSteerer.EvaluateSteering` | crates/netfusion-core/src/routing/path_steering.rs:161-241 | the whole outcome of an evaluation, branch by branch, for some best interface |
| `Steering.PathSteerer.OnHealthUpdate` | crates/netfusion-core/src/routing/path_steering.rs:143-158 | caches the score and takes one step of the state machine that the run lemmas are about |
| `Steering.PathSteerer.ResetState` | crates/netfusion-core/src/routing/path_steering.rs:358-362 | forgets paths and decisions, keeps the cached scores |
| `Steering.StepMovesOnlyWithDecision` | crates/netfusion-core/src/routing/path_steering.rs:161-345 | the active interface changes only together with a returned decision, to a best viable interface other than the old one; what is broadcast without being returned is exactly the loss of every viable interface |
| `Steering.StepReturnsExactly` | crates/netfusion-core/src/routing/path_steering.rs:170-238 | each reason is returned if and only if its situation holds: no path yet; third degraded reading in a row after the cooldown; a gain above the hysteresis after the cooldown |
| `Steering.UnusedReasons` | crates/netfusion-core/src/routing/path_steering.rs:73-92 | no decision ever carries Bufferbloat, InterfaceDown or CooldownActive, and only HealthDegraded is a failover |
| `Steering.CounterStep` | crates/netfusion-core/src/routing/path_steering.rs:190-223 | how the degraded counter moves while the path stays: frozen in the cooldown, without a viable interface and by readings of other interfaces; otherwise up by one or back to zero |
| `Steering.AlwaysSound` | crates/netfusion-core/src/routing/path_steering.rs:143-362 | over every run: decisions and paths have the same keys and agree; the active score is viable; the counter is zero in the cooldown and at most two with `auto_failover`; the last returned decision describes the path |
| `Steering.DecisionsSpaced` | crates/netfusion-core/src/routing/path_steering.rs:187-192 | in any run, two events that return decisions are a cooldown apart unless a reset event lies between them |
| `Steering.RateLimit` | crates/netfusion-core/src/routing/path_steering.rs:187-192 | in any run, a stretch of events without a reset whose first and last are at most W apart returns at most 1 + ⌊W / cooldown⌋ decisions |
| `Steering.BudgetKept` | crates/netfusion-core/src/routing/path_steering.rs:205-230 | over every run, better-path switches times the hysteresis, plus what the stored active score still lacks of the top, are covered by the falls that initial assignments and failovers allow |
| `Steering.InitialsBounded` | crates/netfusion-core/src/routing/path_steering.rs:178-184 | over every run, at most one initial assignment and one more after each reset |
| `Steering.FlapBound` | crates/netfusion-core/src/routing/path_steering.rs:205-230 | over every run with scores up to 100: better-path switches × hysteresis ≤ (assignments + failovers) × (100 − viability threshold) |
| `Steering.FailoversUseReadings` | crates/netfusion-core/src/routing/path_steering.rs:194-215 | over every run, each failover has used up three degraded readings of the interface that was active |
| `Steering.SwitchesBoundedByDegradation` | crates/netfusion-core/src/routing/path_steering.rs:194-230 | without resets, the number of all switches is bounded by the number of degraded readings alone |
| `Steering.MonitoredFlapBound` | crates/netfusion-core/src/routing/path_steering.rs:143-241 | end to end: fed with scores that the health monitor stored, for any measurements, weights and smoothing factor, the steerer obeys the anti-flap bound |
| `Steering.CounterHasWitness` | crates/netfusion-core/src/routing/path_steering.rs:170-223 | over every run, the counter is exactly the number of strikes: degraded readings of the active interface after its cooldown that found some viable interface, since its last good reading |
| `Steering.FailoverHasCause` | crates/netfusion-core/src/routing/path_steering.rs:194-215 | every returned failover is preceded by three degraded readings of the abandoned interface, all after its cooldown, without a good one among them, whatever other interfaces report |
| `Steering.ThirdStrikeFailsOver` | crates/netfusion-core/src/routing/path_steering.rs:170-215 | over every run, whatever other interfaces report in between, an update returns a failover if and only if `auto_failover` is on, it is a degraded reading of the active interface after the cooldown with some interface viable, and two strikes are counted already |
| `Regression.ResidualsVanish` | crates/netfusion-core/src/intelligence/predictive.rs:85-102 | the fitted line’s residuals sum to zero and are orthogonal to the times |
| `Regression.LeastSquares` | crates/netfusion-core/src/intelligence/predictive.rs:85-102 | no other line has a squared error as small: the fit is the strict, unique minimum |
| `Regression.RSquaredInUnitInterval` | crates/netfusion-core/src/intelligence/predictive.rs:104-119 | R² lies between 0 and 1 for any points |
| `Regression.CollinearRecovered` | crates/netfusion-core/src/intelligence/predictive.rs:85-126 | points on a line give back that line with R² = 1 |
| `Regression.RSquaredIsCorrelation` | crates/netfusion-core/src/intelligence/predictive.rs:104-119 | R² is the squared correlation of times and values, and 1 exactly when all readings lie on the fitted line; when the variance of the values is below the guard it is 1 |
| `Regression.RegressionExistsExactly` | crates/netfusion-core/src/intelligence/predictive.rs:85-99 | the regression exists if and only if there are three readings and n·Σt² − (Σt)² reaches the guard |
| `Regression.DenominatorNonNegative` | crates/netfusion-core/src/intelligence/predictive.rs:95-99 | the denominator is never negative, so the guard rejects only values close to zero from above |
| `Regression.SpacedSums` | crates/netfusion-core/src/intelligence/predictive.rs:90-94 | closed forms for the sums of evenly spaced times and of their squares |
| `Regression.SpacedDenominator` | crates/netfusion-core/src/intelligence/predictive.rs:95-96 | for n readings five seconds apart the denominator is 25·n²·(n²−1)/12 wherever the window starts |
| `Regression.SpacedRegressionExists` | crates/netfusion-core/src/intelligence/predictive.rs:85-99 | on evenly spaced readings the regression exists if and only if there are three |
| `Predictive.CombineIndicators` | crates/netfusion-core/src/intelligence/predictive.rs:297-346 | the accumulating updates of confidence, severity and reason amount to one table |
| `Predictive.PredictiveEngine.constructor` | crates/netfusion-core/src/intelligence/predictive.rs:152-159 | a new engine has no history |
| `Predictive.PredictiveEngine.AddReading` | crates/netfusion-core/src/intelligence/predictive.rs:162-177 | appends the reading five seconds after the last and keeps the latest 4 × window of them |
| `Predictive.PredictiveEngine.Analyze` | crates/netfusion-core/src/intelligence/predictive.rs:180-216 | the prediction from the latest window for trend and acceleration and the whole history for anomalies; silent below the minimum number of samples |
| `Predictive.HistoryHoldsLatestScores` | crates/netfusion-core/src/intelligence/predictive.rs:162-177 | over any interleaving of readings, an interface’s history is its own latest scores, in order, five seconds apart |
| `Predictive.TrendSound` | crates/netfusion-core/src/intelligence/predictive.rs:219-250 | R² is a fraction; degrading means a slope below −0.01 with R² above one half; a time to failure is given exactly for such a slope |
| `Predictive.TrendIsFitted` | crates/netfusion-core/src/intelligence/predictive.rs:219-250 | slope and R² are those of the fitted line and the current value is the last reading; without a line nothing degrades |
| `Predictive.TimeToFailureIsCrossing` | crates/netfusion-core/src/intelligence/predictive.rs:226-238 | the time to failure is when the fitted line first meets the critical score; zero means it is there already |
| `Predictive.AccelerationComparesSlopes` | crates/netfusion-core/src/intelligence/predictive.rs:253-272 | on evenly spaced windows of ten both halves have a line, so acceleration is a comparison of slopes |
| `Predictive.EngineWindowsFit` | crates/netfusion-core/src/intelligence/predictive.rs:162-272 | after any run of readings the engine’s window has a line if and only if it holds three readings, and both halves of a window of ten have one |
| `Predictive.ZScoreOfLastValue` | crates/netfusion-core/src/intelligence/predictive.rs:129-134 | Samuelson’s inequality: the squared z-score of the last of n values is at most n − 1 |
| `Predictive.AnomalyIsDeviation` | crates/netfusion-core/src/intelligence/predictive.rs:129-134 | the anomaly score times the deviation is the last reading’s distance from the mean, up or down, once beyond two deviations; it takes ten readings and a deviation above the guard |
| `Predictive.NoAnomalyInTenReadings` | crates/netfusion-core/src/intelligence/predictive.rs:275-294 | with ten readings or fewer the anomaly indicator cannot exceed three |
| `Predictive.AnomalyNeedsEleven` | crates/netfusion-core/src/intelligence/predictive.rs:275-294 | over every run of readings, histories of at most n readings hold no anomaly above three if and only if n is at most ten or the window is at most two |
| `Predictive.CombinedConsistent` | crates/netfusion-core/src/intelligence/predictive.rs:297-346 | confidence in [0, 1]; no severity, no confidence and the Stable reason go together; Critical is exactly MultiIndicator |
| `Predictive.CombinedExactly` | crates/netfusion-core/src/intelligence/predictive.rs:297-346 | the confidence, severity, reason and time to failure of each combination of indicators |
| `Predictive.CombinedActsExactly` | crates/netfusion-core/src/intelligence/predictive.rs:40-42 | `should_act(0.6)` holds if and only if an anomaly joins another indicator, or a steepening decline fits its line with R² ≥ 0.6 |
| `Predictive.EngineActsExactly` | crates/netfusion-core/src/intelligence/predictive.rs:40-216 | end to end over any run of readings: the engine acts only with ten readings and two indicators, and exactly when they hold |
| `Predictive.EnginePredicts` | crates/netfusion-core/src/intelligence/predictive.rs:180-346 | end to end over any run of readings: the time to failure, the high severities and the downward reason in terms of the fitted line of the latest window; silence below the minimum of samples |
| `Routing.RoutingEngine.constructor` | crates/netfusion-core/src/routing/engine.rs:31-36 | a new engine manages no route |
| `Routing.RoutingEngine.AddDefaultRoute` | crates/netfusion-core/src/routing/engine.rs:87-124 | a successful add reaches kernel and list, a failed one neither |
| `Routing.RoutingEngine.DelDefaultRoute` | crates/netfusion-core/src/routing/engine.rs:127-164 | a deletion that ran is dropped from the list even when the kernel refused it; one that could not run changes nothing |
| `Routing.RoutingEngine.ClearManagedRoutes` | crates/netfusion-core/src/routing/engine.rs:258-260 | the list is empty |
| `Routing.SafeApply.constructor` | crates/netfusion-core/src/routing/safe_apply.rs:66-68 | keeps the dry-run setting |
| `Routing.SafeApply.RunChanges` | crates/netfusion-core/src/routing/safe_apply.rs:99-101 | any closure of adds and deletes, failing part-way or not, acts as the sequence of its steps |
| `Routing.SafeApply.Rollback` | crates/netfusion-core/src/routing/safe_apply.rs:153-183 | the loop over the current routes acts as the recursive rollback and reports whether every command ran |
| `Routing.SafeApply.Execute` | crates/netfusion-core/src/routing/safe_apply.rs:74-126 | one call: validation, dry run, changes, verification, rollback or commit, with the final state of list and kernel |
| `Routing.RollbackMeans` | crates/netfusion-core/src/routing/safe_apply.rs:153-183 | with any outcome at each position, a rollback removes from the kernel exactly the routes outside the snapshot whose deletion took effect, forgets those whose deletion ran, and succeeds if and only if every deletion ran |
| `Routing.RollbackKeeps` | crates/netfusion-core/src/routing/safe_apply.rs:162-172 | a rollback leaves the snapshot’s own part of the list in place, in order |
| `Routing.ChangesMean` | crates/netfusion-core/src/routing/engine.rs:87-164 | what any changes with any outcomes leave: the kernel loses what was taken out and gains what was added and left; the list loses every route that a deletion was run for and gains those added since |
| `Routing.ChangesGrow` | crates/netfusion-core/src/routing/safe_apply.rs:99-101 | changes that delete no existing route extend the list by the routes they still own and the table by those they added and left, even when deletions were refused |
| `Routing.RestoredExactly` | crates/netfusion-core/src/routing/safe_apply.rs:99-125 | for any state and any outcomes, the table after a failed call is the one before if and only if every existing route taken out was added again and not undone, and every new route was undone |
| `Routing.RollbackRestoresExactly` | crates/netfusion-core/src/routing/safe_apply.rs:99-125 | when no existing route was deleted, the table is restored if and only if no own deletion was refused and every owned route’s deletion in the rollback took effect; success is already reported when the deletions ran, and then the list equals its snapshot |
| `Routing.RefusedDeletionStays` | crates/netfusion-core/src/routing/engine.rs:153-161 | a route whose own deletion was refused stays in the table although the rollback reports success |
| `Routing.ExecuteIsAtomic` | crates/netfusion-core/src/routing/safe_apply.rs:74-126 | one well-behaved call either commits exactly what it added or leaves list and table as they were |
| `Routing.ResultByStage` | crates/netfusion-core/src/routing/safe_apply.rs:74-126 | each result is returned if and only if its stage was reached and failed, success if and only if none did or it was a dry run; nothing changes before the changes |
| `Routing.RunsAreAtomic` | crates/netfusion-core/src/routing/safe_apply.rs:74-126 | over any run of calls the table is the initial one plus what the successful calls added and kept, disjointly |
| `Routing.DeletedRoutesBecomeOwn` | crates/netfusion-core/src/routing/engine.rs:159-161 | a deleted route that is back in the kernel is listed as the changes’ own |
| `Routing.NothingManagedBetweenCalls` | crates/netfusion-core/src/routing/safe_apply.rs:119-125 | over any run of calls the list is empty between calls as long as deletion commands run |
| `Routing.FailedCallRestoresExactly` | crates/netfusion-core/src/routing/safe_apply.rs:70-73 | the promise that connectivity is never permanently broken holds for a failed call, when commands take effect, if and only if every existing route that its changes deleted was managed before and added again by them; on an engine that managed nothing, if and only if they deleted none |
| `Routing.ReplacedRouteSurvives` | crates/netfusion-core/src/routing/safe_apply.rs:167-171 | a managed route that the changes delete and add again survives a failed call |
| `Bonding.BondManager.constructor` | crates/netfusion-core/src/bonding/manager.rs:26-31 | a new manager has no bond |
| `Bonding.BondManager.CreateBond` | crates/netfusion-core/src/bonding/manager.rs:39-70 | a created bond has every configured member on standby; a failed creation changes nothing |
| `Bonding.BondManager.UpdateMembership` | crates/netfusion-core/src/bonding/manager.rs:101-166 | the whole new bond state and result; an unknown bond is an error that changes nothing |
| `Bonding.SortIsStable` | crates/netfusion-core/src/bonding/manager.rs:112-130 | the sort orders by score, keeps every element and keeps equals in their order |
| `Bonding.HeadIsFirstTop` | crates/netfusion-core/src/bonding/manager.rs:112-135 | the candidate is the first member, standby before active, among those with the highest score |
| `Bonding.UpdateRotates` | crates/netfusion-core/src/bonding/manager.rs:101-166 | with some member scored, the members tied at the top form a queue whose head becomes active and moves to the back; the update is a no-op if and only if the active member is alone at the top |
| `Bonding.UpdateWithoutScores` | crates/netfusion-core/src/bonding/manager.rs:126-128 | without any scored member nothing changes |
| `Bonding.QuietExactly` | crates/netfusion-core/src/bonding/manager.rs:132-139 | with some member scored, no switch is reported if and only if the active member strictly beats every scored standby |
| `Bonding.MembersConserved` | crates/netfusion-core/src/bonding/manager.rs:101-166 | over every run of updates the members are a permutation of the initial ones and at most one is active |
| `Bonding.ConservedExactly` | crates/netfusion-core/src/bonding/manager.rs:53-66 | every run conserves the configured members if and only if none is configured twice |
| `Bonding.RunLeaves` | crates/netfusion-core/src/bonding/manager.rs:39-166 | over every run from a creation: the bond is in failover exactly when it ever switched, the last member switched to is active since that time, the others stand by and none counts as failed |
| `Bonding.KnownToKeeps` | crates/netfusion-core/src/bonding/manager.rs:162-164 | pruning the failed members keeps exactly those with a score |
| `Bonding.TiedMembersRotate` | crates/netfusion-core/src/bonding/manager.rs:112-165 | under an unchanging health map, n updates rotate the tied members n times |
| `Bonding.RoundRobin` | crates/netfusion-core/src/bonding/manager.rs:112-165 | under an unchanging health map two or more tied members become active in turn, with their number as the period; a unique best one makes every later update a no-op |
| `Failover.FailoverEngine.constructor` | crates/netfusion-core/src/bonding/failover.rs:59-72 | a new engine has counted and announced nothing |
| `Failover.FailoverEngine.EvaluateFailover` | crates/netfusion-core/src/bonding/failover.rs:103-145 | announces each due bond exactly once, in any order, and stamps exactly those |
| `Failover.EventsCarry` | crates/netfusion-core/src/bonding/failover.rs:131-139 | an announcement, for a bond as any run of updates left it, carries the current time, the member last switched to as newly active and the other configured members as previous |
| `Failover.DueHaveEvents` | crates/netfusion-core/src/bonding/failover.rs:107-143 | a bond has an announcement if and only if it is due, and each due bond has one |
| `Failover.FailoverEngine.ProcessHealthUpdate` | crates/netfusion-core/src/bonding/failover.rs:80-100 | counts the reading, then evaluates |
| `Failover.BadReadingsAreTrailing` | crates/netfusion-core/src/bonding/failover.rs:80-96 | over any interleaving of updates and ticks, an entry is the length of the interface’s trailing run of bad readings, and absent exactly when that is zero |
| `Failover.AnnouncementsSpaced` | crates/netfusion-core/src/bonding/failover.rs:103-145 | over any such run with a monotone clock, announcements of one bond are the cooldown, rounded down to whole seconds, apart |
| `Failover.AnnouncedExactly` | crates/netfusion-core/src/bonding/failover.rs:103-145 | in any run, an input announces a bond if and only if the bond is in failover and the whole-second cooldown since its last announcement is over |
| `Failover.EarlyRun` | crates/netfusion-core/src/bonding/failover.rs:110-120 | a run, with a bond as its first update leaves it, in which a cooldown with a fraction of a second is cut short |
| `Failover.CooldownKeptExactly` | crates/netfusion-core/src/bonding/failover.rs:110-120 | the configured cooldown itself is kept in every run if and only if it is a whole number of seconds |
| `Failover.CountsDecideNothing` | crates/netfusion-core/src/bonding/failover.rs:80-145 | turning every reading into a bare tick changes no announcement of any run |
| `Failover.UnbackedRun` | crates/netfusion-core/src/bonding/failover.rs:31-32 | one tick announces a bond, as its first update left it, although nothing has been read |
| `Failover.ThresholdKeptExactly` | crates/netfusion-core/src/bonding/failover.rs:31-32 | every announcement of every run is backed by the documented number of bad readings in a row of some interface if and only if that number is zero |
| `Failover.FailoverNeverCleared` | crates/netfusion-core/src/bonding/manager.rs:159-161 | over any run of membership updates a bond once in failover stays in it |
| `Failover.AnnouncedAgain` | crates/netfusion-core/src/bonding/failover.rs:126-143 | a bond once in failover, however its membership was updated since, is announced again exactly by the inputs after its whole-second cooldown |
| `Scoring.NormalizeRange` | crates/netfusion-core/src/health.rs:16-39 | a normalised value is a percentage, 100 exactly at the ideal or better and 0 exactly at the worst or beyond |
| `Scoring.NormalizeIsLinear` | crates/netfusion-core/src/health.rs:16-39 | a value a fraction f of the way from the worst to the ideal scores 100·f |
| `Scoring.NormalizeMonotone` | crates/netfusion-core/src/health.rs:16-39 | a better value never scores less |
| `Scoring.ComputeInRange` | crates/netfusion-shared/src/types.rs:212-250 | every field is a percentage whatever the weights, even ones that wrap |
| `Scoring.ComputeIsWeightedMean` | crates/netfusion-shared/src/types.rs:224-236 | weights that sum to at most 255 give the weighted mean of the components |
| `Scoring.WrappingSkewsScores` | crates/netfusion-shared/src/types.rs:224-225 | weights that sum to more make a score of five 50s something else than 50 |
| `Scoring.WeightsNormalisedExactly` | crates/netfusion-shared/src/types.rs:205-236 | the promise of a normalised weighted mean holds for all components if and only if the weights sum to at most 255 |
| `Scoring.ComputeHealthSound` | crates/netfusion-core/src/health.rs:146-174 | every measurement scores within 0 and 100, as the weighted mean of its normalised parts |
| `Scoring.ComponentsByMetric` | crates/netfusion-core/src/health.rs:44-76 | each of the five metrics fills its own field in proportion between its own limits |
| `Scoring.ComponentsBeyond` | crates/netfusion-core/src/health.rs:44-76 | each field is 100 or 0 exactly from the limits of its metric on |
| `Scoring.ComputeHealthMonotone` | crates/netfusion-core/src/health.rs:146-174 | a measurement at least as good in every metric never scores less |
| `Scoring.BlendBounds` | crates/netfusion-shared/src/types.rs:261-263 | smoothing stays between the two values |
| `Scoring.ClampIsNearest` | crates/netfusion-shared/src/types.rs:261 | clamping gives the nearest point of the interval |
| `Scoring.EmaInRange` | crates/netfusion-shared/src/types.rs:260-272 | smoothing keeps every field a percentage for any factor |
| `Scoring.EmaKeepsWeightedMean` | crates/netfusion-shared/src/types.rs:260-272 | smoothing commutes with the weighted mean |
| `Monitoring.HealthMonitor.constructor` | crates/netfusion-core/src/monitoring.rs:160-178 | a new monitor has no previous score |
| `Monitoring.HealthMonitor.ProbeInterface` | crates/netfusion-core/src/monitoring.rs:186-244 | smooths and stores the score of the probed interface alone, and sends an update exactly when the link is up and the probe gave a result |
| `Monitoring.CandidateFlagNeverRaised` | crates/netfusion-core/src/monitoring.rs:207-229 | for any stored and raw score the flag is sent as false, and the intended comparison holds exactly when α times the distance of the two scores exceeds the threshold |
| `Monitoring.MeasuredScores` | crates/netfusion-core/src/monitoring.rs:282-293 | the monitor counts no state changes, so no measurement scores below what full stability alone gives |
| `Monitoring.FlagWrongRun` | crates/netfusion-core/src/monitoring.rs:207-229 | a run of two probes that the monitor can make, a failed ping and then the best measurement, whose flag is wrong |
| `Monitoring.FlagRightExactly` | crates/netfusion-core/src/monitoring.rs:219-227 | over the probes that the monitor makes, the flag is right in every run if and only if the weights sum to zero in eight bits or α times the distance from the lowest score they allow to 100 is at most the threshold |
| `Monitoring.StoredScoresSound` | crates/netfusion-core/src/monitoring.rs:197-217 | over any run of probes every stored field is a percentage and each `overall` is still the weighted mean of the stored components |
| `Monitoring.StoredIsEma` | crates/netfusion-core/src/monitoring.rs:197-217 | over any interleaving, every field of an interface’s stored score is the smoothing of its own raw scores alone |
| `Monitoring.StoredFromHereOn` | crates/netfusion-core/src/monitoring.rs:197-217 | the same from any point of a run on, starting from what was stored there |
| `Monitoring.EmaClosedForm` | crates/netfusion-shared/src/types.rs:260-272 | the closed form (1−α)ⁿ·start + Σ α·(1−α)ⁿ⁻ⁱ·rᵢ |
| `Monitoring.EmaApproaches` | crates/netfusion-shared/src/types.rs:260-272 | while raw scores stay at or below r, what the stored score exceeds r by shrinks like (1−α)ⁿ |
| `Monitoring.StoredClosedForm` | crates/netfusion-core/src/monitoring.rs:197-217 | from any point of a run on, every stored field has that closed form in the raw scores of the interface’s own later probes |
| `Monitoring.StoredApproaches` | crates/netfusion-core/src/monitoring.rs:197-217 | from any point of a run on, while an interface’s raw scores stay at or below r, what a stored field exceeds r by shrinks like (1−α)ⁿ in the number of its own probes |
| `Weighted.WeightedBalancer.constructor` | crates/netfusion-core/src/routing/balancer/weighted.rs:27-32 | a new balancer has no weights |
| `Weighted.WeightedBalancer.ComputeWeights` | crates/netfusion-core/src/routing/balancer/weighted.rs:39-76 | lists exactly the viable interfaces and stores and returns the rounded, clamped share of each; nothing when there is no total |
| `Weighted.WeightedBalancer.GenerateRoutes` | crates/netfusion-core/src/routing/balancer/weighted.rs:79-97 | exactly one route for each weighted interface that has a gateway, with that weight and gateway |
| `Weighted.WeightsIgnoreOrder` | crates/netfusion-core/src/routing/balancer/weighted.rs:40-57 | the weights do not depend on the order of the hash map |
| `Weighted.WeightNearQuota` | crates/netfusion-core/src/routing/balancer/weighted.rs:63-67 | a weight is at most a half below and one above 255 times the share |
| `Weighted.WeightIsRounded` | crates/netfusion-core/src/routing/balancer/weighted.rs:63-67 | the weight is the nearest integer to 255 times the share, halves up, but at least one |
| `Weighted.WeightsOrdered` | crates/netfusion-core/src/routing/balancer/weighted.rs:63-67 | a higher score never gets a lower weight |
| `Weighted.QuotasSum` | crates/netfusion-core/src/routing/balancer/weighted.rs:63-65 | the shares add up to 255 |
| `Weighted.WeightsSumNear255` | crates/netfusion-core/src/routing/balancer/weighted.rs:59-72 | the rounded shares of n interfaces sum to between 255 − n/2 and 255 + n |
| `Weighted.BalancedTotal` | crates/netfusion-core/src/routing/balancer/weighted.rs:59-72 | so does the returned map of weights |
| `Weighted.BalancingSound` | crates/netfusion-core/src/routing/balancer/weighted.rs:39-76 | for any health map of percentages: exactly the viable interfaces get weights, in the order of their scores, near their quotas, summing to between 255 − n/2 and 255 + n; none do exactly when no viable one scores above zero |
| `Analytics.SortSorts` | crates/netfusion-core/src/intelligence/analytics.rs:52-53 | sorting gives the same samples in order |
| `Analytics.SortedUnique` | crates/netfusion-core/src/intelligence/analytics.rs:52-53 | there is only one sorted arrangement of the same samples |
| `Analytics.AtBetweenNeighbours` | crates/netfusion-core/src/intelligence/analytics.rs:78-91 | an interpolated value lies between the samples on either side of its position |
| `Analytics.AtInterpolates` | crates/netfusion-core/src/intelligence/analytics.rs:78-91 | between two neighbouring samples the value moves in proportion to the index |
| `Analytics.PercentileAtRank` | crates/netfusion-core/src/intelligence/analytics.rs:78-91 | percentile p is interpolated between the samples around rank (n−1)·p/100, in hundredths |
| `Analytics.PercentileMonotone` | crates/netfusion-core/src/intelligence/analytics.rs:78-91 | a higher percentile is never a smaller value |
| `Analytics.PercentileEnds` | crates/netfusion-core/src/intelligence/analytics.rs:78-91 | percentiles 0 and 100 are the extremes |
| `Analytics.PercentileRank` | crates/netfusion-core/src/intelligence/analytics.rs:78-91 | percentile p lies between the samples ranked ⌊(n−1)p/100⌋ and ⌈(n−1)p/100⌉ |
| `Analytics.Compute` | crates/netfusion-core/src/intelligence/analytics.rs:36-75 | sorts the slice in place and returns the statistics of its contents; zeros for an empty slice |
| `Analytics.StatsOrdered` | crates/netfusion-core/src/intelligence/analytics.rs:36-75 | min ≤ p50 ≤ p95 ≤ p99 ≤ max and min ≤ mean ≤ max; the extremes are samples that bound all samples |
| `Analytics.StatsAre` | crates/netfusion-core/src/intelligence/analytics.rs:36-75 | the mean times the count is the sum, the squared deviation times the count is the sum of squared distances, and the three percentiles lie at their ranks |
| `Analytics.MedianIs` | crates/netfusion-core/src/intelligence/analytics.rs:78-91 | p50 is the middle sample, or the mean of the middle two |
| `Analytics.StatsOfNone` | crates/netfusion-core/src/intelligence/analytics.rs:37-48 | an empty list has zeros |
| `Analytics.StatsRanks` | crates/netfusion-core/src/intelligence/analytics.rs:59-73 | each of the three percentiles lies between the samples of its rank |
| `Analytics.StatsIgnoreOrder` | crates/netfusion-core/src/intelligence/analytics.rs:36-75 | all statistics are unchanged by permuting the samples |
| `Analytics.MeanTimeBetweenChanges` | crates/netfusion-core/src/intelligence/analytics.rs:160-175 | the mean of the whole-second intervals between consecutive samples, none for fewer than two |
| `Analytics.IntervalsTelescope` | crates/netfusion-core/src/intelligence/analytics.rs:160-175 | those intervals sum to the span from first to last sample, up to the dropped fractions of a second |
| `Analytics.MeansAgreeExactly` | crates/netfusion-core/src/intelligence/analytics.rs:125-126 | for samples on whole seconds the reported mean is the documented average duration between state changes if and only if there is at most one sample, or there are two changes and the span of the samples is to their number as the span of the changes to theirs; for any samples, up to the truncated fractions |
| `Analytics.ChangesAreCrossings` | crates/netfusion-core/src/intelligence/analytics.rs:153-154 | the state of a sample changes exactly when its score crosses 50 or 10 |
| `Analytics.PeriodicMeansAgreeExactly` | crates/netfusion-core/src/intelligence/analytics.rs:125-126 | for several samples taken at a fixed period it is so if and only if there are two changes, the period is whole seconds and the state changed at every sample from the first change to the last |
| `Analytics.DisagreeingSamples` | crates/netfusion-core/src/intelligence/analytics.rs:160-175 | four samples whose changes are two seconds apart and whose reported mean is one |
| `Tunnels.BackoffIsCappedDoubling` | crates/netfusion-core/src/tunnels/manager.rs:60-74 | n calls of `next_delay` after a reset give n attempts and exactly min(2ⁿ, 300) seconds |
| `Tunnels.TunnelManager.constructor` | crates/netfusion-core/src/tunnels/manager.rs:92-99 | a new manager holds nothing |
| `Tunnels.TunnelManager.AddConfig` | crates/netfusion-core/src/tunnels/manager.rs:102-105 | stores the configuration under its own name |
| `Tunnels.TunnelManager.RemoveTunnel` | crates/netfusion-core/src/tunnels/manager.rs:108-117 | forgets everything about the tunnel, except that a failed teardown has already dropped the tunnel but leaves the rest |
| `Tunnels.TunnelManager.StartAutoConnect` | crates/netfusion-core/src/tunnels/manager.rs:120-133 | starts exactly the automatic WireGuard tunnels that can be created, in any order, with a fresh entry each |
| `Tunnels.TunnelManager.StartTunnel` | crates/netfusion-core/src/tunnels/manager.rs:136-220 | starts a WireGuard tunnel with its required options, fails otherwise, and does nothing for the other types |
| `Tunnels.TunnelManager.CheckHealth` | crates/netfusion-core/src/tunnels/manager.rs:223-258 | scores every live tunnel and tries each unhealthy one once, independently of the order |
| `Tunnels.TunnelManager.ReconnectAll` | crates/netfusion-core/src/tunnels/manager.rs:254-257 | the loop over the unhealthy names acts on all of them at once |
| `Tunnels.TunnelManager.TryReconnect` | crates/netfusion-core/src/tunnels/manager.rs:261-306 | one attempt: cooldown, permission, bookkeeping, teardown and re-creation |
| `Tunnels.CheckedEntry` | crates/netfusion-core/src/tunnels/manager.rs:223-306 | what a check does to one tunnel, independent of all others |
| `Tunnels.CheckOutcome` | crates/netfusion-core/src/tunnels/manager.rs:223-306 | what a check does to a live tunnel in full: score, whether it is tried, whether it survives, and its new entry |
| `Tunnels.AttemptedExactly` | crates/netfusion-core/src/tunnels/manager.rs:77-82 | in any run of the health loop, a check attempts to reconnect a live tunnel if and only if it looks unhealthy, reconnects by itself and its last attempt was done at least a second ago |
| `Tunnels.StartedExactly` | crates/netfusion-core/src/tunnels/manager.rs:120-220 | an automatic start makes live exactly what connects by itself and can be created, with a fresh entry |
| `Tunnels.RemovedIsGone` | crates/netfusion-core/src/tunnels/manager.rs:108-117 | a removed tunnel is gone from everything in any run until it is configured again |
| `Tunnels.RemovedSpares` | crates/netfusion-core/src/tunnels/manager.rs:108-117 | other tunnels, and after a failed teardown the removed one’s configuration, entry and score, stay as they were |
| `Tunnels.ConfigIsLastAdded` | crates/netfusion-core/src/tunnels/manager.rs:102-105 | in any run a configuration is the one last added |
| `Tunnels.AlwaysSound` | crates/netfusion-core/src/tunnels/manager.rs:60-306 | over every run: each live tunnel has a clean entry (attempts 0, delay 1 s) and no entry ever counts more than one attempt or waits more than 2 s, so the backoff never grows |
| `Tunnels.LivesUntilFirstFailure` | crates/netfusion-core/src/tunnels/manager.rs:223-306 | under the health loop every attempt but the last succeeded, each came at least a second after the one before was done, and the tunnel lives if and only if the last succeeded |
| `Tunnels.FailedReconnectIsFinal` | crates/netfusion-core/src/tunnels/manager.rs:225-227 | after one failed attempt no later check ever tries or scores the tunnel again |
| `Tunnels.ComesBackOnlyByStart` | crates/netfusion-core/src/tunnels/manager.rs:120-220 | over any run, a tunnel that is not live comes back only by an automatic start |
| `Framing.BigEndianInverse` | crates/netfusion-daemon/src/ipc/client.rs:60-64 | the four-byte prefix carries every 32-bit length |
| `Framing.PrefixIs` | crates/netfusion-daemon/src/ipc/client.rs:59-65 | the prefix has the most significant byte first; a short frame’s is three zeros and its length |
| `Framing.Socket.constructor` | crates/netfusion-daemon/src/ipc/client.rs:45-50 | a connection with what the peer has sent so far |
| `Framing.Socket.ReadExact` | crates/netfusion-daemon/src/ipc/server.rs:80-86 | takes exactly the bytes asked for or fails at the end of the stream |
| `Framing.Socket.WriteAll` | crates/netfusion-daemon/src/ipc/server.rs:125-126 | appends all the bytes |
| `Framing.WriteFrame` | crates/netfusion-daemon/src/ipc/client.rs:59-65 | writes one length-prefixed frame, the length cast to 32 bits |
| `Framing.HandleConnection` | crates/netfusion-daemon/src/ipc/server.rs:75-129 | the read loop ends as the specification says and has written exactly the replies to the payloads it read, in order |
| `Framing.Request` | crates/netfusion-daemon/src/ipc/client.rs:55-76 | sends one frame and takes the first reply frame of the stream |
| `Framing.ReadAppend` | crates/netfusion-daemon/src/ipc/server.rs:78-96 | reading behind any acceptable frames is reading what follows them |
| `Framing.ReadExactly` | crates/netfusion-daemon/src/ipc/server.rs:78-96 | any stream at all is the frames of the payloads read plus a tail without a complete acceptable frame, and the ending tells which kind of tail |
| `Framing.OversizedMisread` | crates/netfusion-daemon/src/ipc/client.rs:60-64 | a payload above 10 MiB is refused, or, once its length wraps below the cap, misread as a shorter one |
| `Framing.RoundTripExactly` | crates/netfusion-daemon/src/ipc/client.rs:59-65 | the server recovers any list of framed payloads if and only if each is at most 10 MiB |
| `Framing.CutStream` | crates/netfusion-daemon/src/ipc/server.rs:78-96 | a truncated stream gives exactly the frames that were whole, a prefix of what was sent, and the right ending |
| `Framing.ClientRecovers` | crates/netfusion-daemon/src/ipc/client.rs:67-76 | a client reads back the first n replies, and none beyond |
| `Framing.RepliesPairUp` | crates/netfusion-daemon/src/ipc/server.rs:98-128 | one reply for each request, in order, if and only if every request decodes |
| `Framing.Conversation` | crates/netfusion-daemon/src/ipc/client.rs:55-76 | both halves together: a client gets a reply to each request if and only if all decode, and then the i-th reply answers the i-th request |

## Left out

- Floating point: rounding, NaN and infinities of `f64`.
- Concurrency: the lock interleavings of the async runtime and the delivery of broadcast messages; each method is one atomic step.
- The netlink, `ip`, `wg`, `nft`, `tc` and `ping` commands and the parsing of their output; only their outcomes enter.
- Struct values stored in maps (`PathState`, `BondState`, `ReconnectInfo`, the data points of a history) are datatypes; the maps that hold them are class fields, so updates in place show as updates of the map.
- `u32` counters (degraded readings, bad readings, attempts, metrics) are unbounded naturals; wrapping after 2³² steps is not modelled.
- Steering.PathSteerer.OnHealthUpdate: covers the `default` traffic class, the only one that the code uses; subscribing and the decision getters are not modelled.
- Steering decisions do not carry their timestamps; a run's log pairs each with the time of its update.
- Predictive.PredictiveEngine.Analyze: the other two entry points, `analyze_all` and the two `clear` functions, only loop over it or drop entries.
- Routing.RunsAreAtomic: assumes that the changes delete only their own routes and that deletions take effect; `Routing.FailedCallRestoresExactly` shows what happens otherwise.
- Routing rules, route listing and interface indices of the routing engine.
- Bonding.BondManager.CreateBond: the netlink set-up of the bond is one success-or-failure outcome; `delete_bond` is not modelled.
- Failover.FailoverEngine.ProcessHealthUpdate: the bonds' state at that moment is a parameter instead of a shared lock.
- Monitoring.HealthMonitor.ProbeInterface: what a probe measures is a parameter; timestamps and the throughput tracker, which shares one clock between interfaces, are not modelled.
- Scoring.ComputeHealthSound: the presets of the weights (gaming, streaming, voice, bulk) are plain constants and covered by every-weights statements.
- Weighted.WeightedBalancer.GenerateRoutes: the nftables set-up and teardown beside it are not modelled.
- Analytics.Compute: only the statistics of one metric and the time between changes; the report over interfaces, degraded counts, reliability ratings and the sample buffer would add easy members.
- Analytics.DocumentedMean: the documentation does not define a state change; the states are those of the report's own limits for degraded and outage samples.
- Tunnels.TunnelManager.StartTunnel: options beyond the three required ones do not affect the decisions; `get_states` only reads.
- Tunnels.TunnelManager.CheckHealth: the time a check takes enters as the start and end of each attempt, not as a clock of its own.
- Framing.HandleConnection: the encoding of payloads is a foreign library's, so payloads are opaque bytes; I/O errors other than the end of the stream, and failing writes, are not modelled.
- Framing.Request: the reply is what the stream already holds or will never hold; waiting is not modelled.
- Interface discovery, QoS, ECMP and nftables scripts, the state store, the relay server, the terminal UI, the configuration schema and the adaptive thresholds.

/**
 The Bitcoin pressure guard: a run every so often that reads host health, keeps two
 streak counters and a marker, and stops or restarts Bitcoin Core with hysteresis.

 A run is `Step`; runs from a fresh state under one configuration give the trace the
 main results speak about: streaks count runs (`StreaksCountRuns`), every restart has
 its own stop (`RestartHasItsStop`), the cooldown holds (`RestartAfterCooldown`), and
 restarts are far apart (`RestartsAreSpaced`).
 */
module PressureGuard {
  import opened ByteStrings

  /** Times are microseconds. */
  const SECOND: int := 1_000_000

  datatype Config = Config(
    healthMaxAgeSeconds: nat,
    highIowait: real,
    highUtil: real,
    criticalUtil: real,
    criticalAwait: real,
    lowIowait: real,
    lowUtil: real,
    lowAwait: real,
    highStreakThreshold: nat,
    lowStreakThreshold: nat,
    cooldownSeconds: nat,
    restoreBitcoin: bool,
    stopWhenMiningReady: bool,
    force: bool)

  datatype Metrics = Metrics(iowait: Option<real>, util: Option<real>, readAwait: Option<real>, writeAwait: Option<real>)

  datatype Health = Health(generatedAt: Option<int>, metrics: Metrics, miningReady: bool)

  /** What one run reads: the clock, the health file and whether the service is active. */
  datatype Input = Input(now: int, health: Option<Health>, bitcoinActive: bool)

  datatype Marker = Marker(managedStop: bool, stoppedAt: Option<int>, lastPressureAt: Option<int>)

  datatype State = State(highStreak: nat, lowStreak: nat, marker: Option<Marker>)

  const FRESH := State(0, 0, None)

  datatype Action =
    | HoldingOnHealthError
    | HealthUnavailable
    | ObservingHighPressure
    | StoppedBitcoin
    | HoldingExistingStop
    | HoldingBitcoin
    | Cooldown
    | WaitingForLowPressure
    | ObservingLowPressure
    | StartedBitcoin
    | ClearedMarker
    | MiningReadyPressureIgnored
    | IdleLowPressure
    | IdleIntermediatePressure

  datatype Reason = IoSaturation | CriticalLatency | Forced

  // ---------------------------------------------------------------- readings

  /** `int(timedelta.total_seconds())`, which truncates toward zero. */
  function WholeSeconds(duration: int): int {
    if duration >= 0 then duration / SECOND else -((-duration) / SECOND)
  }

  function HealthOk(c: Config, i: Input): bool {
    && i.health.Some? && i.health.value.generatedAt.Some?
    && var age := WholeSeconds(i.now - i.health.value.generatedAt.value);
       (if age > 0 then age else 0) <= c.healthMaxAgeSeconds
  }

  function MetricsOf(i: Input): Metrics {
    if i.health.Some? then i.health.value.metrics else Metrics(None, None, None, None)
  }

  predicate MiningReady(i: Input) {
    i.health.Some? && i.health.value.miningReady
  }

  function MaxAwait(m: Metrics): Option<real> {
    if m.readAwait.None? then m.writeAwait
    else if m.writeAwait.None? || m.readAwait.value >= m.writeAwait.value then m.readAwait
    else m.writeAwait
  }

  /** `pressure_reasons`. */
  function PressureReasons(c: Config, m: Metrics): seq<Reason> {
    var await := MaxAwait(m);
    (if m.iowait.Some? && m.util.Some? && m.iowait.value >= c.highIowait && m.util.value >= c.highUtil
     then [IoSaturation] else [])
    + (if m.util.Some? && await.Some? && m.util.value >= c.criticalUtil && await.value >= c.criticalAwait
       then [CriticalLatency] else [])
  }

  /** `pressure_is_low`. */
  predicate PressureIsLow(c: Config, m: Metrics) {
    && m.iowait.Some? && m.util.Some?
    && m.iowait.value <= c.lowIowait && m.util.value <= c.lowUtil
    && (MaxAwait(m).None? || MaxAwait(m).value <= c.lowAwait)
  }

  /** Exactly when the thresholds leave no band between: some reading is then both a reason for pressure and low. */
  lemma BandIsMissingIff(c: Config)
    ensures (exists m :: PressureReasons(c, m) != [] && PressureIsLow(c, m)) <==>
              || (c.highIowait <= c.lowIowait && c.highUtil <= c.lowUtil)
              || (c.criticalUtil <= c.lowUtil && c.criticalAwait <= c.lowAwait)
  {
    if c.highIowait <= c.lowIowait && c.highUtil <= c.lowUtil {
      var m := Metrics(Some(c.lowIowait), Some(c.lowUtil), None, None);
      assert PressureReasons(c, m)[0] == IoSaturation && PressureIsLow(c, m);
    }
    if c.criticalUtil <= c.lowUtil && c.criticalAwait <= c.lowAwait {
      var m := Metrics(Some(c.lowIowait), Some(c.lowUtil), Some(c.lowAwait), None);
      assert CriticalLatency in PressureReasons(c, m) && PressureIsLow(c, m);
    }
  }

  function EffectiveReasons(c: Config, i: Input): seq<Reason> {
    if MiningReady(i) && !c.stopWhenMiningReady && !c.force then []
    else PressureReasons(c, MetricsOf(i)) + (if c.force then [Forced] else [])
  }

  predicate PressureHigh(c: Config, i: Input) {
    EffectiveReasons(c, i) != [] && (HealthOk(c, i) || c.force)
  }

  predicate LowPressure(c: Config, i: Input) {
    HealthOk(c, i) && (PressureIsLow(c, MetricsOf(i)) || (MiningReady(i) && !c.stopWhenMiningReady))
  }

  /** How a run counts for the streaks; high pressure takes precedence. */
  datatype Kind = High | Low | Between

  function KindOf(c: Config, i: Input): Kind {
    if PressureHigh(c, i) then High else if LowPressure(c, i) then Low else Between
  }

  // ----------------------------------------------------------------- one run

  function LastPressure(m: Marker, now: int): int {
    if m.lastPressureAt.Some? then m.lastPressureAt.value
    else if m.stoppedAt.Some? then m.stoppedAt.value
    else now
  }

  function StoppedMarker(now: int, managed: bool): Marker {
    Marker(managed, Some(now), Some(now))
  }

  function UpdateMarker(m: Marker, now: int): Marker {
    m.(lastPressureAt := Some(now))
  }

  /** What the guard does, and the marker it leaves, once the streaks are counted. */
  function Decide(c: Config, high: nat, low: nat, marker: Option<Marker>, i: Input): (Action, Option<Marker>) {
    if !HealthOk(c, i) && !c.force then
      (if marker.Some? then HoldingOnHealthError else HealthUnavailable, marker)
    else if PressureHigh(c, i) then
      if high < c.highStreakThreshold then (ObservingHighPressure, marker)
      else if i.bitcoinActive then (StoppedBitcoin, Some(StoppedMarker(i.now, true)))
      else if marker.None? then (HoldingExistingStop, Some(StoppedMarker(i.now, false)))
      else (HoldingBitcoin, Some(UpdateMarker(marker.value, i.now)))
    else if marker.Some? then
      var elapsed := WholeSeconds(i.now - LastPressure(marker.value, i.now));
      if c.cooldownSeconds - elapsed > 0 then (Cooldown, marker)
      else if !LowPressure(c, i) then (WaitingForLowPressure, marker)
      else if low < c.lowStreakThreshold then (ObservingLowPressure, marker)
      else if marker.value.managedStop && c.restoreBitcoin then (StartedBitcoin, None)
      else (ClearedMarker, None)
    else if PressureReasons(c, MetricsOf(i)) != [] && MiningReady(i) && !c.stopWhenMiningReady then
      (MiningReadyPressureIgnored, None)
    else if LowPressure(c, i) then (IdleLowPressure, None)
    else (IdleIntermediatePressure, None)
  }

  function CountHigh(c: Config, s: State, i: Input): nat {
    if KindOf(c, i) == High then s.highStreak + 1 else 0
  }

  function CountLow(c: Config, s: State, i: Input): nat {
    if KindOf(c, i) == Low then s.lowStreak + 1 else 0
  }

  function ActionOf(c: Config, s: State, i: Input): Action {
    Decide(c, CountHigh(c, s, i), CountLow(c, s, i), s.marker, i).0
  }

  function Step(c: Config, s: State, i: Input): State {
    var high, low := CountHigh(c, s, i), CountLow(c, s, i);
    State(high, low, Decide(c, high, low, s.marker, i).1)
  }

  // -------------------------------------------------------------------- runs

  /** The state after all inputs, from a fresh start. */
  function Run(c: Config, inputs: seq<Input>): State {
    if inputs == [] then FRESH else Step(c, Run(c, inputs[..|inputs| - 1]), inputs[|inputs| - 1])
  }

  function ActionAt(c: Config, inputs: seq<Input>, k: nat): Action
    requires k < |inputs|
  {
    ActionOf(c, Run(c, inputs[..k]), inputs[k])
  }

  /** How many of the last inputs are of this kind. */
  function Trailing(c: Config, inputs: seq<Input>, kind: Kind): nat {
    if inputs == [] || KindOf(c, inputs[|inputs| - 1]) != kind then 0
    else 1 + Trailing(c, inputs[..|inputs| - 1], kind)
  }

  /** The counters are the lengths of the current high and low runs, and never both positive. */
  lemma {:induction false} StreaksCountRuns(c: Config, inputs: seq<Input>)
    ensures var s := Run(c, inputs);
            && s.highStreak == Trailing(c, inputs, High) && s.lowStreak == Trailing(c, inputs, Low)
            && (s.highStreak == 0 || s.lowStreak == 0)
    decreases |inputs|
  {
    hide KindOf, Decide;
    if inputs != [] {
      StreaksCountRuns(c, inputs[..|inputs| - 1]);
    }
  }

  lemma {:induction false} TrailingBound(c: Config, inputs: seq<Input>, kind: Kind, k: nat)
    requires k < |inputs| && KindOf(c, inputs[k]) != kind
    ensures k < |inputs| - Trailing(c, inputs, kind)
    decreases |inputs|
  {
    hide KindOf;
    if k < |inputs| - 1 {
      TrailingBound(c, inputs[..|inputs| - 1], kind, k);
    }
  }

  lemma RunSnoc(c: Config, inputs: seq<Input>, k: nat)
    requires k < |inputs|
    ensures Run(c, inputs[..k + 1]) == Step(c, Run(c, inputs[..k]), inputs[k])
  {
    hide Step;
    assert inputs[..k + 1][..k] == inputs[..k];
  }

  /** What stopping and starting presuppose. */
  lemma ActionFacts(c: Config, s: State, i: Input)
    ensures ActionOf(c, s, i) == StoppedBitcoin ==> KindOf(c, i) == High && CountHigh(c, s, i) >= c.highStreakThreshold
    ensures ActionOf(c, s, i) == StartedBitcoin ==>
              && KindOf(c, i) == Low && CountLow(c, s, i) >= c.lowStreakThreshold
              && s.marker.Some? && s.marker.value.managedStop
              && WholeSeconds(i.now - LastPressure(s.marker.value, i.now)) >= c.cooldownSeconds
  {
  }

  // ------------------------------------------------------- stops and restarts

  /** The last thing that happened of the two is a stop, at `k`. */
  ghost predicate StopPendingAt(c: Config, inputs: seq<Input>, k: nat) {
    && k < |inputs| && ActionAt(c, inputs, k) == StoppedBitcoin
    && forall i | k < i < |inputs| :: ActionAt(c, inputs, i) != StartedBitcoin
  }

  lemma ActionOfPrefix(c: Config, inputs: seq<Input>, n: nat, k: nat)
    requires k < n <= |inputs|
    ensures ActionAt(c, inputs[..n], k) == ActionAt(c, inputs, k)
  {
    hide ActionOf;
    assert inputs[..n][..k] == inputs[..k];
  }

  lemma PendingGrows(c: Config, inputs: seq<Input>, k: nat)
    requires inputs != [] && StopPendingAt(c, inputs[..|inputs| - 1], k)
    requires ActionAt(c, inputs, |inputs| - 1) != StartedBitcoin
    ensures StopPendingAt(c, inputs, k)
  {
    hide ActionAt;
    forall i | k <= i < |inputs| - 1 ensures ActionAt(c, inputs, i) == ActionAt(c, inputs[..|inputs| - 1], i) {
      ActionOfPrefix(c, inputs, |inputs| - 1, i);
    }
  }

  lemma MarkerFacts(c: Config, s: State, i: Input)
    ensures Step(c, s, i).marker.Some? && Step(c, s, i).marker.value.managedStop ==>
              || ActionOf(c, s, i) == StoppedBitcoin
              || (s.marker.Some? && s.marker.value.managedStop && ActionOf(c, s, i) != StartedBitcoin)
  {
  }

  /** A managed marker stands for a stop that no restart has followed. */
  lemma {:induction false} ManagedMarkerMeansPending(c: Config, inputs: seq<Input>)
    requires Run(c, inputs).marker.Some? && Run(c, inputs).marker.value.managedStop
    ensures exists k :: StopPendingAt(c, inputs, k)
    decreases |inputs|
  {
    hide Step, ActionOf;
    var n := |inputs| - 1;
    var s := Run(c, inputs[..n]);
    MarkerFacts(c, s, inputs[n]);
    if ActionOf(c, s, inputs[n]) == StoppedBitcoin {
      assert StopPendingAt(c, inputs, n);
    } else {
      ManagedMarkerMeansPending(c, inputs[..n]);
      var k :| StopPendingAt(c, inputs[..n], k);
      PendingGrows(c, inputs, k);
    }
  }

  /** Every restart follows a stop of the guard's own, with no other restart between them. */
  lemma RestartHasItsStop(c: Config, inputs: seq<Input>, j: nat)
    requires j < |inputs| && ActionAt(c, inputs, j) == StartedBitcoin
    ensures exists k :: StopPendingAt(c, inputs[..j], k)
  {
    hide Step, ActionOf, Run;
    ActionFacts(c, Run(c, inputs[..j]), inputs[j]);
    ManagedMarkerMeansPending(c, inputs[..j]);
  }

  // ----------------------------------------------------------------- cooldown

  /** Pressure was high for long enough: the runs that stamp the marker. */
  ghost predicate Confirms(a: Action) {
    a == StoppedBitcoin || a == HoldingExistingStop || a == HoldingBitcoin
  }

  /** When pressure was last confirmed. */
  ghost function LastConfirmed(c: Config, inputs: seq<Input>): Option<int>
    decreases |inputs|
  {
    if inputs == [] then None
    else if Confirms(ActionAt(c, inputs, |inputs| - 1)) then Some(inputs[|inputs| - 1].now)
    else LastConfirmed(c, inputs[..|inputs| - 1])
  }

  lemma StampFacts(c: Config, s: State, i: Input)
    ensures Confirms(ActionOf(c, s, i)) ==> Step(c, s, i).marker.Some? && Step(c, s, i).marker.value.lastPressureAt == Some(i.now)
    ensures !Confirms(ActionOf(c, s, i)) ==> Step(c, s, i).marker.None? || Step(c, s, i).marker == s.marker
  {
  }

  /** The marker carries the stamp of the last confirmed pressure. */
  lemma {:induction false} MarkerCarriesStamp(c: Config, inputs: seq<Input>)
    ensures var s := Run(c, inputs);
            s.marker.Some? ==> LastConfirmed(c, inputs).Some? && s.marker.value.lastPressureAt == LastConfirmed(c, inputs)
    decreases |inputs|
  {
    hide Step, ActionOf;
    if inputs != [] {
      var n := |inputs| - 1;
      MarkerCarriesStamp(c, inputs[..n]);
      StampFacts(c, Run(c, inputs[..n]), inputs[n]);
    }
  }

  /** Truncation toward zero only matters for a zero cooldown and a clock set back by less than a second. */
  lemma WholeSecondsAtLeast(duration: int, seconds: nat)
    ensures WholeSeconds(duration) >= seconds
       <==> duration >= seconds * SECOND || (seconds == 0 && duration > -SECOND)
  {
  }

  /** A restart comes at least the cooldown after the last confirmed pressure. */
  lemma RestartAfterCooldown(c: Config, inputs: seq<Input>, j: nat)
    requires j < |inputs| && ActionAt(c, inputs, j) == StartedBitcoin
    ensures LastConfirmed(c, inputs[..j]).Some?
    ensures var elapsed := inputs[j].now - LastConfirmed(c, inputs[..j]).value;
            elapsed >= c.cooldownSeconds * SECOND || (c.cooldownSeconds == 0 && elapsed > -SECOND)
  {
    hide Step, ActionOf, Run, LastConfirmed, WholeSeconds;
    ActionFacts(c, Run(c, inputs[..j]), inputs[j]);
    MarkerCarriesStamp(c, inputs[..j]);
    WholeSecondsAtLeast(inputs[j].now - LastConfirmed(c, inputs[..j]).value, c.cooldownSeconds);
  }

  /** One run of pressure stops, one quiet run restarts, and there is no cooldown. */
  const HASTY := Config(60, 10.0, 80.0, 95.0, 100.0, 5.0, 50.0, 20.0, 1, 1, 0, true, true, false)

  function Reading(now: int, iowait: real, util: real, active: bool): Input {
    Input(now, Some(Health(Some(now), Metrics(Some(iowait), Some(util), None, None), false)), active)
  }

  /** Without a cooldown a restart can bear an earlier time than the pressure it follows: here the clock was set back by
      half a second. */
  lemma RestartBeforeStamp()
    ensures var inputs := [Reading(SECOND, 90.0, 90.0, true), Reading(SECOND / 2, 1.0, 1.0, false)];
            && ActionAt(HASTY, inputs, 1) == StartedBitcoin
            && LastConfirmed(HASTY, inputs[..1]) == Some(SECOND) && inputs[1].now < SECOND
  {
    var first, second := Reading(SECOND, 90.0, 90.0, true), Reading(SECOND / 2, 1.0, 1.0, false);
    var inputs := [first, second];
    assert inputs[..1] == [first] && [first][..0] == [];
    assert PressureReasons(HASTY, MetricsOf(first))[0] == IoSaturation;
    assert PressureHigh(HASTY, first);
    assert Run(HASTY, [first]) == Step(HASTY, FRESH, first);
    assert ActionAt(HASTY, [first], 0) == StoppedBitcoin;
    assert Run(HASTY, [first]).marker == Some(StoppedMarker(SECOND, true));
    assert PressureReasons(HASTY, MetricsOf(second)) == [] && !PressureHigh(HASTY, second) && LowPressure(HASTY, second);
    assert WholeSeconds(second.now - SECOND) == 0;
  }

  // ------------------------------------------------------------------ spacing

  lemma StopNeedsHighRun(c: Config, inputs: seq<Input>, k: nat)
    requires k < |inputs| && ActionAt(c, inputs, k) == StoppedBitcoin
    ensures KindOf(c, inputs[k]) == High && Trailing(c, inputs[..k + 1], High) >= c.highStreakThreshold
  {
    hide Decide, KindOf, ActionOf;
    ActionFacts(c, Run(c, inputs[..k]), inputs[k]);
    RunSnoc(c, inputs, k);
    StreaksCountRuns(c, inputs[..k + 1]);
  }

  lemma StartNeedsLowRun(c: Config, inputs: seq<Input>, k: nat)
    requires k < |inputs| && ActionAt(c, inputs, k) == StartedBitcoin
    ensures KindOf(c, inputs[k]) == Low && Trailing(c, inputs[..k + 1], Low) >= c.lowStreakThreshold
  {
    hide Decide, KindOf, ActionOf;
    ActionFacts(c, Run(c, inputs[..k]), inputs[k]);
    RunSnoc(c, inputs, k);
    StreaksCountRuns(c, inputs[..k + 1]);
  }

  /** Two restarts are at least as many runs apart as both thresholds together. */
  lemma RestartsAreSpaced(c: Config, inputs: seq<Input>, i: nat, j: nat)
    requires i < j < |inputs|
    requires ActionAt(c, inputs, i) == StartedBitcoin && ActionAt(c, inputs, j) == StartedBitcoin
    ensures j - i >= c.highStreakThreshold + c.lowStreakThreshold
  {
    hide ActionAt, KindOf;
    RestartHasItsStop(c, inputs, j);
    var k :| StopPendingAt(c, inputs[..j], k);
    ActionOfPrefix(c, inputs, j, k);
    ActionOfPrefix(c, inputs, j, i);
    StartNeedsLowRun(c, inputs, i);
    StopNeedsHighRun(c, inputs, k);
    StartNeedsLowRun(c, inputs, j);
    TrailingBound(c, inputs[..k + 1], High, i);
    TrailingBound(c, inputs[..j + 1], Low, k);
  }

  // ----------------------------------------------------------------- the guard

  /** The state and marker files, and the calls made to the service manager. */
  class Guard {
    const config: Config
    var highStreak: nat
    var lowStreak: nat
    var marker: Option<Marker>
    var stops: nat
    var starts: nat

    ghost function View(): State
      reads this
    {
      State(highStreak, lowStreak, marker)
    }

    constructor (config: Config)
      ensures this.config == config && View() == FRESH && stops == 0 && starts == 0
    {
      this.config := config;
      highStreak, lowStreak, marker, stops, starts := 0, 0, None, 0, 0;
    }

    /** `run_once`. */
    method RunOnce(i: Input) returns (action: Action)
      modifies this
      ensures View() == Step(config, old(View()), i)
      ensures action == ActionOf(config, old(View()), i)
      ensures stops == old(stops) + (if action == StoppedBitcoin then 1 else 0)
      ensures starts == old(starts) + (if action == StartedBitcoin && !i.bitcoinActive then 1 else 0)
    {
      var healthOk, high, low := HealthOk(config, i), PressureHigh(config, i), LowPressure(config, i);
      if high {
        highStreak, lowStreak := highStreak + 1, 0;
      } else if low {
        highStreak, lowStreak := 0, lowStreak + 1;
      } else {
        highStreak, lowStreak := 0, 0;
      }
      if !healthOk && !config.force {
        action := if marker.Some? then HoldingOnHealthError else HealthUnavailable;
      } else if high {
        if highStreak < config.highStreakThreshold {
          action := ObservingHighPressure;
        } else if i.bitcoinActive {
          stops := stops + 1;
          marker := Some(StoppedMarker(i.now, true));
          action := StoppedBitcoin;
        } else if marker.None? {
          marker := Some(StoppedMarker(i.now, false));
          action := HoldingExistingStop;
        } else {
          marker := Some(UpdateMarker(marker.value, i.now));
          action := HoldingBitcoin;
        }
      } else if marker.Some? {
        var elapsed := WholeSeconds(i.now - LastPressure(marker.value, i.now));
        if config.cooldownSeconds - elapsed > 0 {
          action := Cooldown;
        } else if !low {
          action := WaitingForLowPressure;
        } else if lowStreak < config.lowStreakThreshold {
          action := ObservingLowPressure;
        } else if marker.value.managedStop && config.restoreBitcoin {
          if !i.bitcoinActive {
            starts := starts + 1;
          }
          marker := None;
          action := StartedBitcoin;
        } else {
          marker := None;
          action := ClearedMarker;
        }
      } else if PressureReasons(config, MetricsOf(i)) != [] && MiningReady(i) && !config.stopWhenMiningReady {
        action := MiningReadyPressureIgnored;
      } else if low {
        action := IdleLowPressure;
      } else {
        action := IdleIntermediatePressure;
      }
    }
  }
}

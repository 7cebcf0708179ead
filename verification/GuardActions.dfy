/**
 When the pressure guard stops Bitcoin Core and when it restarts it, exactly, from the
 readings alone (`StopIff`, `StartIff`): the streaks are conditions on the last runs, the
 marker is a stop that nothing has undone (`MarkerIff`), and the cooldown counts from the
 last run that ended a long enough streak of pressure (`ConfirmsIff`).
 */
module GuardActions {
  import opened ByteStrings
  import opened PressureGuard

  // ------------------------------------------------------------------------ readings

  /** The health file has a time, not older than allowed by more than a fraction of a second. */
  predicate Fresh(c: Config, i: Input) {
    && i.health.Some? && i.health.value.generatedAt.Some?
    && i.now - i.health.value.generatedAt.value < (c.healthMaxAgeSeconds + 1) * 1_000_000
  }

  predicate AtLeast(reading: Option<real>, threshold: real) {
    reading.Some? && reading.value >= threshold
  }

  predicate AtMost(reading: Option<real>, threshold: real) {
    reading.Some? && reading.value <= threshold
  }

  /** Waiting for a busy disk, or a disk at its limit with slow reads or writes. */
  predicate Pressed(c: Config, m: Metrics) {
    || (AtLeast(m.iowait, c.highIowait) && AtLeast(m.util, c.highUtil))
    || (AtLeast(m.util, c.criticalUtil) && (AtLeast(m.readAwait, c.criticalAwait) || AtLeast(m.writeAwait, c.criticalAwait)))
  }

  /** Little waiting, little use, and no slow reads or writes as far as these are known. */
  predicate Calm(c: Config, m: Metrics) {
    && AtMost(m.iowait, c.lowIowait) && AtMost(m.util, c.lowUtil)
    && (m.readAwait.None? || AtMost(m.readAwait, c.lowAwait)) && (m.writeAwait.None? || AtMost(m.writeAwait, c.lowAwait))
  }

  /** Mining has begun, and pressure is then not to stop anything. */
  predicate Exempt(c: Config, i: Input) {
    i.health.Some? && i.health.value.miningReady && !c.stopWhenMiningReady
  }

  predicate IsHigh(c: Config, i: Input) {
    c.force || (Fresh(c, i) && !Exempt(c, i) && Pressed(c, i.health.value.metrics))
  }

  predicate IsLow(c: Config, i: Input) {
    !IsHigh(c, i) && Fresh(c, i) && (Exempt(c, i) || Calm(c, i.health.value.metrics))
  }

  lemma FreshIff(c: Config, i: Input)
    ensures Fresh(c, i) <==> HealthOk(c, i)
  {
    if i.health.Some? && i.health.value.generatedAt.Some? {
      SecondsAtMost(i.now - i.health.value.generatedAt.value, c.healthMaxAgeSeconds);
    }
  }

  lemma SecondsAtMost(duration: int, seconds: nat)
    ensures WholeSeconds(duration) <= seconds <==> duration < (seconds + 1) * 1_000_000
  {
  }

  lemma PressedIff(c: Config, m: Metrics)
    ensures PressureReasons(c, m) != [] <==> Pressed(c, m)
  {
  }

  lemma CalmIff(c: Config, m: Metrics)
    ensures PressureIsLow(c, m) <==> Calm(c, m)
  {
  }

  /** How a run counts, from its readings. */
  lemma KindIff(c: Config, i: Input)
    ensures KindOf(c, i) == High <==> IsHigh(c, i)
    ensures KindOf(c, i) == Low <==> IsLow(c, i)
  {
    hide HealthOk, Fresh, PressureReasons, PressureIsLow, Pressed, Calm;
    FreshIff(c, i);
    FreshHasHealth(c, i);
    PressedIff(c, MetricsOf(i));
    CalmIff(c, MetricsOf(i));
  }

  lemma FreshHasHealth(c: Config, i: Input)
    ensures Fresh(c, i) ==> i.health.Some?
  {
  }

  // ------------------------------------------------------------------------- streaks

  /** The last `count` runs up to `k` are of this kind. */
  ghost predicate Streak(c: Config, inputs: seq<Input>, k: nat, count: nat, kind: Kind)
    requires k < |inputs|
  {
    count <= k + 1 && forall j | k + 1 - count <= j <= k :: KindOf(c, inputs[j]) == kind
  }

  lemma {:induction false} TrailingIff(c: Config, inputs: seq<Input>, k: nat, count: nat, kind: Kind)
    requires k < |inputs|
    ensures Trailing(c, inputs[..k + 1], kind) >= count <==> Streak(c, inputs, k, count, kind)
    decreases k
  {
    hide KindOf;
    assert inputs[..k + 1][..k] == inputs[..k] && inputs[..k + 1][k] == inputs[k];
    if count > 0 {
      if k == 0 {
        assert Trailing(c, inputs[..0], kind) == 0;
      } else {
        TrailingIff(c, inputs, k - 1, count - 1, kind);
      }
    }
  }

  lemma StreakIsCounted(c: Config, inputs: seq<Input>, k: nat)
    requires k < |inputs|
    ensures var s := Run(c, inputs[..k]);
            && (KindOf(c, inputs[k]) == High ==>
                  (CountHigh(c, s, inputs[k]) >= c.highStreakThreshold <==> Streak(c, inputs, k, c.highStreakThreshold, High)))
            && (KindOf(c, inputs[k]) == Low ==>
                  (CountLow(c, s, inputs[k]) >= c.lowStreakThreshold <==> Streak(c, inputs, k, c.lowStreakThreshold, Low)))
  {
    hide KindOf, Decide, Trailing, Streak;
    RunSnoc(c, inputs, k);
    StreaksCountRuns(c, inputs[..k + 1]);
    TrailingIff(c, inputs, k, c.highStreakThreshold, High);
    TrailingIff(c, inputs, k, c.lowStreakThreshold, Low);
  }

  // ------------------------------------------------------------------------- actions

  /** When pressure was last on record: the stamp of the marker, or else when Bitcoin was stopped. */
  predicate LastRecord(m: Marker, now: int, at: int) {
    && (m.lastPressureAt.Some? ==> at == m.lastPressureAt.value)
    && (m.lastPressureAt.None? && m.stoppedAt.Some? ==> at == m.stoppedAt.value)
    && (m.lastPressureAt.None? && m.stoppedAt.None? ==> at == now)
  }

  /** The cooldown has passed since then, but for a fraction of a second when there is none. */
  ghost predicate Cooled(c: Config, m: Marker, now: int) {
    forall at | LastRecord(m, now, at) ::
      now - at >= c.cooldownSeconds * 1_000_000 || (c.cooldownSeconds == 0 && now - at > -1_000_000)
  }

  lemma CooledIff(c: Config, m: Marker, now: int)
    ensures Cooled(c, m, now) <==> c.cooldownSeconds - WholeSeconds(now - LastPressure(m, now)) <= 0
  {
    hide WholeSeconds;
    assert LastRecord(m, now, LastPressure(m, now));
    WholeSecondsAtLeast(now - LastPressure(m, now), c.cooldownSeconds);
  }

  /** What the guard does in any state, each action by its own condition. */
  ghost predicate ActionTells(c: Config, s: State, i: Input, a: Action) {
    var known, marked := Fresh(c, i) || c.force, s.marker.Some?;
    var high, low := IsHigh(c, i), IsLow(c, i);
    var long := s.highStreak + 1 >= c.highStreakThreshold;
    var cooled := marked && Cooled(c, s.marker.value, i.now);
    var calm := cooled && low && s.lowStreak + 1 >= c.lowStreakThreshold;
    var restores := marked && s.marker.value.managedStop && c.restoreBitcoin;
    var ignored := Exempt(c, i) && Pressed(c, MetricsOf(i));
    && (a == HoldingOnHealthError <==> !known && marked) && (a == HealthUnavailable <==> !known && !marked)
    && (a == ObservingHighPressure <==> high && !long) && (a == StoppedBitcoin <==> high && long && i.bitcoinActive)
    && (a == HoldingExistingStop <==> high && long && !i.bitcoinActive && !marked)
    && (a == HoldingBitcoin <==> high && long && !i.bitcoinActive && marked)
    && (a == Cooldown <==> known && !high && marked && !cooled)
    && (a == WaitingForLowPressure <==> known && !high && cooled && !low)
    && (a == ObservingLowPressure <==> cooled && low && !calm)
    && (a == StartedBitcoin <==> calm && restores) && (a == ClearedMarker <==> calm && !restores)
    && (a == MiningReadyPressureIgnored <==> known && !high && !marked && ignored)
    && (a == IdleLowPressure <==> !marked && !ignored && low)
    && (a == IdleIntermediatePressure <==> known && !high && !marked && !ignored && !low)
  }

  /** The marker afterwards: a new one for a stop, made or found, a new stamp while pressure lasts, none when it is
      cleared, else the old one. */
  ghost predicate MarkerTells(s: State, i: Input, a: Action, after: Option<Marker>) {
    if a == StoppedBitcoin || a == HoldingExistingStop then after == Some(Marker(a == StoppedBitcoin, Some(i.now), Some(i.now)))
    else if a == HoldingBitcoin then
      && after.Some? && s.marker.Some? && after.value.managedStop == s.marker.value.managedStop
      && after.value.stoppedAt == s.marker.value.stoppedAt && after.value.lastPressureAt == Some(i.now)
    else if Clears(a) then after.None?
    else after == s.marker
  }

  predicate Clears(a: Action) {
    a == StartedBitcoin || a == ClearedMarker
  }

  lemma LowIff(c: Config, i: Input)
    ensures !IsHigh(c, i) ==> (LowPressure(c, i) <==> IsLow(c, i))
    ensures PressureHigh(c, i) <==> IsHigh(c, i)
  {
    hide HealthOk, Fresh, PressureReasons, PressureIsLow, Pressed, Calm;
    KindIff(c, i);
  }

  lemma StepTells(c: Config, s: State, i: Input)
    ensures ActionTells(c, s, i, ActionOf(c, s, i)) && MarkerTells(s, i, ActionOf(c, s, i), Step(c, s, i).marker)
  {
    hide HealthOk, Fresh, PressureHigh, LowPressure, IsHigh, IsLow, PressureReasons, Pressed, Cooled, LastPressure, WholeSeconds;
    FreshIff(c, i);
    LowIff(c, i);
    KindIff(c, i);
    HighIsKnown(c, i);
    PressedIff(c, MetricsOf(i));
    if s.marker.Some? {
      CooledIff(c, s.marker.value, i.now);
    }
  }

  lemma HighIsKnown(c: Config, i: Input)
    ensures IsHigh(c, i) || IsLow(c, i) ==> Fresh(c, i) || c.force
    ensures IsLow(c, i) ==> !IsHigh(c, i)
  {
  }

  // --------------------------------------------------------------------------- stops

  lemma StopStep(c: Config, s: State, i: Input)
    ensures ActionOf(c, s, i) == StoppedBitcoin <==>
              KindOf(c, i) == High && CountHigh(c, s, i) >= c.highStreakThreshold && i.bitcoinActive
    ensures Confirms(ActionOf(c, s, i)) <==> KindOf(c, i) == High && CountHigh(c, s, i) >= c.highStreakThreshold
  {
    hide KindOf, Decide, Fresh, IsHigh, IsLow, Cooled, Exempt, Pressed;
    StepTells(c, s, i);
    KindIff(c, i);
  }

  /** The guard stops Bitcoin exactly when it is active and pressure has been high for the required number of runs. */
  lemma StopIff(c: Config, inputs: seq<Input>, k: nat)
    requires k < |inputs|
    ensures ActionAt(c, inputs, k) == StoppedBitcoin <==>
              && inputs[k].bitcoinActive && IsHigh(c, inputs[k]) && c.highStreakThreshold <= k + 1
              && forall j | k + 1 - c.highStreakThreshold <= j <= k :: IsHigh(c, inputs[j])
  {
    hide KindOf, ActionOf, CountHigh, CountLow, Run, IsHigh, IsLow;
    StopStep(c, Run(c, inputs[..k]), inputs[k]);
    StreakIsCounted(c, inputs, k);
    KindsAre(c, inputs);
  }

  lemma KindsAre(c: Config, inputs: seq<Input>)
    ensures forall j | 0 <= j < |inputs| ::
              (KindOf(c, inputs[j]) == High <==> IsHigh(c, inputs[j])) && (KindOf(c, inputs[j]) == Low <==> IsLow(c, inputs[j]))
  {
    hide KindOf, IsHigh, IsLow;
    forall j | 0 <= j < |inputs|
      ensures (KindOf(c, inputs[j]) == High <==> IsHigh(c, inputs[j])) && (KindOf(c, inputs[j]) == Low <==> IsLow(c, inputs[j]))
    {
      KindIff(c, inputs[j]);
    }
  }

  /** Pressure is confirmed, and stamped, at the end of every such streak, active or not. */
  lemma ConfirmsIff(c: Config, inputs: seq<Input>, k: nat)
    requires k < |inputs|
    ensures Confirms(ActionAt(c, inputs, k)) <==>
              && IsHigh(c, inputs[k]) && c.highStreakThreshold <= k + 1
              && forall j | k + 1 - c.highStreakThreshold <= j <= k :: IsHigh(c, inputs[j])
  {
    hide KindOf, ActionOf, CountHigh, CountLow, Run, IsHigh, IsLow, Confirms;
    StopStep(c, Run(c, inputs[..k]), inputs[k]);
    StreakIsCounted(c, inputs, k);
    KindsAre(c, inputs);
  }

  // -------------------------------------------------------------------------- marker

  /** A run with such an action that no restart or clearing has followed. */
  ghost predicate Stands(c: Config, inputs: seq<Input>, k: nat, own: bool) {
    && k < |inputs|
    && (ActionAt(c, inputs, k) == StoppedBitcoin || (!own && ActionAt(c, inputs, k) == HoldingExistingStop))
    && forall i | k < i < |inputs| :: !Clears(ActionAt(c, inputs, i))
  }

  lemma MarkerStep(c: Config, s: State, i: Input)
    ensures var a, after := ActionOf(c, s, i), Step(c, s, i).marker;
            && (after.Some? <==> a == StoppedBitcoin || a == HoldingExistingStop || (s.marker.Some? && !Clears(a)))
            && (after.Some? && after.value.managedStop <==>
                  a == StoppedBitcoin || (s.marker.Some? && s.marker.value.managedStop && !Clears(a)))
  {
    hide KindOf, Decide, Fresh, IsHigh, IsLow, Cooled, Exempt, Pressed, Step, ActionOf;
    StepTells(c, s, i);
  }

  lemma StandsSnoc(c: Config, inputs: seq<Input>, own: bool)
    requires inputs != []
    ensures var n := |inputs| - 1;
            var a := ActionAt(c, inputs, n);
            (exists k: nat :: Stands(c, inputs, k, own)) <==>
              || a == StoppedBitcoin || (!own && a == HoldingExistingStop)
              || (!Clears(a) && exists k: nat :: Stands(c, inputs[..n], k, own))
  {
    hide ActionAt, Clears;
    var n := |inputs| - 1;
    forall k: nat | k < n ensures ActionAt(c, inputs[..n], k) == ActionAt(c, inputs, k) {
      ActionOfPrefix(c, inputs, n, k);
    }
    var a := ActionAt(c, inputs, n);
    if a == StoppedBitcoin || (!own && a == HoldingExistingStop) {
      assert Stands(c, inputs, n, own);
    }
    if k: nat :| Stands(c, inputs[..n], k, own) {
      if !Clears(a) {
        assert Stands(c, inputs, k, own);
      }
    }
    if k: nat :| Stands(c, inputs, k, own) {
      if k < n {
        assert Stands(c, inputs[..n], k, own);
      }
    }
  }

  /** There is a marker exactly while a stop stands, and it is the guard's own exactly while one it made stands. */
  lemma {:induction false} MarkerIff(c: Config, inputs: seq<Input>)
    ensures var marker := Run(c, inputs).marker;
            && (marker.Some? <==> exists k: nat :: Stands(c, inputs, k, false))
            && (marker.Some? && marker.value.managedStop <==> exists k: nat :: Stands(c, inputs, k, true))
    decreases |inputs|
  {
    hide Step, ActionOf, Clears, Stands;
    if inputs == [] {
      NothingStands(c);
    } else {
      var n := |inputs| - 1;
      MarkerIff(c, inputs[..n]);
      StandsSnoc(c, inputs, false);
      StandsSnoc(c, inputs, true);
      MarkerStep(c, Run(c, inputs[..n]), inputs[n]);
    }
  }

  lemma NothingStands(c: Config)
    ensures forall k: nat, own :: !Stands(c, [], k, own)
  {
  }

  // ------------------------------------------------------------------------ restarts

  lemma StartStep(c: Config, s: State, i: Input)
    ensures ActionOf(c, s, i) == StartedBitcoin <==>
              && c.restoreBitcoin && s.marker.Some? && s.marker.value.managedStop
              && KindOf(c, i) == Low && CountLow(c, s, i) >= c.lowStreakThreshold
              && Cooled(c, s.marker.value, i.now)
  {
    hide KindOf, Decide, Fresh, IsHigh, IsLow, Cooled, Exempt, Pressed;
    StepTells(c, s, i);
    KindIff(c, i);
  }

  /** The guard restarts Bitcoin exactly when it is to restore it, a stop of its own stands, pressure has been low for the
      required number of runs, and the cooldown has passed since pressure was last confirmed. */
  lemma StartIff(c: Config, inputs: seq<Input>, k: nat)
    requires k < |inputs|
    ensures ActionAt(c, inputs, k) == StartedBitcoin <==>
              && c.restoreBitcoin && (exists stop: nat :: Stands(c, inputs[..k], stop, true))
              && IsLow(c, inputs[k]) && c.lowStreakThreshold <= k + 1
              && (forall j | k + 1 - c.lowStreakThreshold <= j <= k :: IsLow(c, inputs[j]))
              && LastConfirmed(c, inputs[..k]).Some?
              && var elapsed := inputs[k].now - LastConfirmed(c, inputs[..k]).value;
                 elapsed >= c.cooldownSeconds * 1_000_000 || (c.cooldownSeconds == 0 && elapsed > -1_000_000)
  {
    hide KindOf, ActionOf, CountHigh, CountLow, Run, IsHigh, IsLow, Stands, LastConfirmed;
    var s := Run(c, inputs[..k]);
    StartStep(c, s, inputs[k]);
    StreakIsCounted(c, inputs, k);
    KindsAre(c, inputs);
    MarkerIff(c, inputs[..k]);
    MarkerCarriesStamp(c, inputs[..k]);
    if s.marker.Some? {
      assert LastRecord(s.marker.value, inputs[k].now, LastConfirmed(c, inputs[..k]).value);
    }
  }
}

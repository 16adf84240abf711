/**
  The cooldown state machine: scaling decisions, their history, and the fleet they are
  applied to. The composite load signal is an arbitrary real number.
 */
module DynamicScaling {
  import opened Types

  datatype ScalingPolicy = ScalingPolicy(
    minInstances: u32,
    maxInstances: u32,
    scaleUpThreshold: real,
    scaleDownThreshold: real,
    cooldownMs: u64,
    scaleUpStep: u32,
    scaleDownStep: u32)

  datatype Decision = ScaleUp(count: u32) | ScaleDown(count: u32) | NoChange | CooldownActive {
    predicate Scales() {
      ScaleUp? || ScaleDown?
    }

    /**
      `as i32` reinterprets the count, so a count of 2^31 or more changes sign. Negating -2^31
      wraps around, or panics (None) in a build with overflow checks.
     */
    function InstancesDelta(checked: bool): Option<int> {
      match this
      case ScaleUp(n) => Some(AsI32(n))
      case ScaleDown(n) =>
        if n != 0x8000_0000 then Some(-AsI32(n)) else if checked then None else Some(AsI32(n))
      case _ => Some(0)
    }

    /** The change the decision stands for. */
    function Intended(): int {
      match this
      case ScaleUp(n) => n as int
      case ScaleDown(n) => -(n as int)
      case _ => 0
    }
  }

  function AsI32(n: u32): int {
    if n < 0x8000_0000 then n as int else n as int - 0x1_0000_0000
  }

  /**
    The signed delta is the intended change exactly when the count fits in 31 bits, or is 2^31
    on the way down without overflow checks.
   */
  lemma DeltaExactly(d: Decision, checked: bool)
    ensures d.InstancesDelta(checked) == Some(d.Intended()) <==>
            || !d.Scales()
            || d.count < 0x8000_0000
            || (d.ScaleDown? && d.count == 0x8000_0000 && !checked)
  {
  }

  function SaturatingSub32(a: u32, b: u32): u32 {
    if a >= b then a - b else 0
  }

  function Min32(a: u32, b: u32): u32 {
    if a <= b then a else b
  }

  type History = seq<(u64, Decision)>

  /** The time of the last decision that scaled. */
  ghost function LastScaled(history: History): Option<u64> {
    if history == [] then None
    else if history[|history| - 1].1.Scales() then Some(history[|history| - 1].0)
    else LastScaled(history[..|history| - 1])
  }

  /** Any two scaling decisions are at least `gap` apart, the later one with the later time. */
  ghost predicate Spaced(history: History, gap: u64) {
    forall i, j | 0 <= i < j < |history| && history[i].1.Scales() && history[j].1.Scales() ::
      history[i].0 + gap <= history[j].0
  }

  lemma {:induction false} NothingAfterLast(history: History, gap: u64, i: nat)
    requires Spaced(history, gap) && i < |history| && history[i].1.Scales()
    ensures LastScaled(history).Some? && history[i].0 <= LastScaled(history).value
  {
    var n := |history| - 1;
    if history[n].1.Scales() {
      assert i < n ==> history[i].0 + gap <= history[n].0;
    } else {
      NothingAfterLast(history[..n], gap, i);
    }
  }

  lemma SpacedAppend(history: History, gap: u64, now: u64, d: Decision)
    requires Spaced(history, gap)
    requires d.Scales() && LastScaled(history).Some? ==> LastScaled(history).value + gap <= now
    ensures Spaced(history + [(now, d)], gap)
  {
    var history' := history + [(now, d)];
    forall i, j | 0 <= i < j < |history'| && history'[i].1.Scales() && history'[j].1.Scales()
      ensures history'[i].0 + gap <= history'[j].0
    {
      if j == |history| {
        NothingAfterLast(history, gap, i);
      } else {
        assert history[i].0 + gap <= history[j].0;
      }
    }
  }

  // ---------- decisions ----------

  /** The decision for a signal and a fleet at some time, given when scaling last happened. */
  ghost predicate IsDecision(d: Decision, composite: real, active: u32, policy: ScalingPolicy, now: u64,
                             last: Option<u64>)
  {
    // The cooldown is reported exactly inside the window after the last scaling decision.
    && (d.CooldownActive? <==> last.Some? && policy.cooldownMs > 0 && now < last.value + policy.cooldownMs)
    // Outside it the signal decides, as far as the limits leave room.
    && (d.ScaleUp? ==> composite >= policy.scaleUpThreshold && active < policy.maxInstances)
    && (d.ScaleDown? ==>
          && composite <= policy.scaleDownThreshold && composite < policy.scaleUpThreshold
          && active > policy.minInstances)
    && (d.NoChange? ==>
          && (composite >= policy.scaleUpThreshold ==> active >= policy.maxInstances)
          && (composite < policy.scaleUpThreshold && composite <= policy.scaleDownThreshold ==>
                active <= policy.minInstances))
    // A step is as large as the policy asks, or brings the fleet exactly to its limit.
    && (d.ScaleUp? ==> active as int + d.count as int ==
                       Min(active as int + policy.scaleUpStep as int, policy.maxInstances as int))
    && (d.ScaleDown? ==> active as int - d.count as int ==
                         Max(active as int - policy.scaleDownStep as int, policy.minInstances as int))
  }

  /** These conditions leave one decision for each input. */
  lemma DecisionIsUnique(d: Decision, e: Decision, composite: real, active: u32, policy: ScalingPolicy, now: u64,
                         last: Option<u64>)
    requires IsDecision(d, composite, active, policy, now, last)
    requires IsDecision(e, composite, active, policy, now, last)
    ensures d == e
  {
    assert (d.ScaleUp? <==> e.ScaleUp?) && (d.ScaleDown? <==> e.ScaleDown?);
  }

  /** A decision never moves the fleet past a limit, nor towards one it is already beyond. */
  lemma DecisionStaysInside(d: Decision, composite: real, active: u32, policy: ScalingPolicy, now: u64,
                            last: Option<u64>)
    requires IsDecision(d, composite, active, policy, now, last)
    ensures Min(active as int, policy.minInstances as int) <= active as int + d.Intended() <=
            Max(active as int, policy.maxInstances as int)
  {
  }

  class DynamicAutoscaler {
    var history: History
    var lastScaledMs: Option<u64>

    ghost predicate Valid()
      reads this
    {
      lastScaledMs == LastScaled(history)
    }

    constructor ()
      ensures Valid() && history == []
    {
      history, lastScaledMs := [], None;
    }

    method RecordScalingEvent(d: Decision, now: u64)
      requires Valid()
      modifies this
      ensures Valid() && history == old(history) + [(now, d)]
    {
      if d.Scales() {
        lastScaledMs := Some(now);
      }
      history := history + [(now, d)];
      assert history[..|history| - 1] == old(history);
    }

    method Evaluate(composite: real, active: u32, policy: ScalingPolicy, now: u64) returns (d: Decision)
      requires Valid()
      modifies this
      ensures Valid() && history == old(history) + [(now, d)]
      ensures IsDecision(d, composite, active, policy, now, LastScaled(old(history)))
      // Spacing is kept for any clock readings, forward or backward.
      ensures policy.cooldownMs > 0 && Spaced(old(history), policy.cooldownMs) ==> Spaced(history, policy.cooldownMs)
    {
      if lastScaledMs.Some? && SaturatingSub(now, lastScaledMs.value) < policy.cooldownMs {
        d := CooldownActive;
      } else if composite >= policy.scaleUpThreshold {
        var headroom := SaturatingSub32(policy.maxInstances, active);
        d := if headroom == 0 then NoChange else ScaleUp(Min32(policy.scaleUpStep, headroom));
      } else if composite <= policy.scaleDownThreshold {
        var excess := SaturatingSub32(active, policy.minInstances);
        d := if excess == 0 then NoChange else ScaleDown(Min32(policy.scaleDownStep, excess));
      } else {
        d := NoChange;
      }
      if policy.cooldownMs > 0 && Spaced(history, policy.cooldownMs) {
        SpacedAppend(history, policy.cooldownMs, now, d);
      }
      RecordScalingEvent(d, now);
    }
  }

  // ---------- runs ----------

  type Readings = seq<(real, u64)>

  /** Entry k is the decision for reading k, and it is applied to the fleet. */
  ghost predicate DecidedAt(readings: Readings, policy: ScalingPolicy, history: History, fleets: seq<u32>, k: nat)
    requires k < |readings| == |history| && |fleets| == |readings| + 1
  {
    && history[k].0 == readings[k].1
    && IsDecision(history[k].1, readings[k].0, fleets[k], policy, readings[k].1, LastScaled(history[..k]))
    && fleets[k + 1] as int == fleets[k] as int + history[k].1.Intended()
  }

  ghost predicate IsRun(readings: Readings, policy: ScalingPolicy, history: History, fleets: seq<u32>) {
    && |readings| == |history| && |fleets| == |readings| + 1
    && forall k | 0 <= k < |readings| :: DecidedAt(readings, policy, history, fleets, k)
  }

  lemma RunBefore(readings: Readings, policy: ScalingPolicy, history: History, fleets: seq<u32>, n: nat)
    requires IsRun(readings, policy, history, fleets) && n <= |readings|
    ensures IsRun(readings[..n], policy, history[..n], fleets[..n + 1])
  {
    var readings', history', fleets' := readings[..n], history[..n], fleets[..n + 1];
    forall k | 0 <= k < n
      ensures DecidedAt(readings', policy, history', fleets', k)
    {
      assert DecidedAt(readings, policy, history, fleets, k);
      assert history'[..k] == history[..k];
    }
  }

  /**
    Over any run under one policy, whatever the signal and the clock read, scaling decisions
    are at least the cooldown apart.
   */
  lemma {:induction false} EveryRunIsSpaced(readings: Readings, policy: ScalingPolicy, history: History,
                                            fleets: seq<u32>)
    requires IsRun(readings, policy, history, fleets) && policy.cooldownMs > 0
    ensures Spaced(history, policy.cooldownMs)
  {
    if history != [] {
      var n := |history| - 1;
      RunBefore(readings, policy, history, fleets, n);
      EveryRunIsSpaced(readings[..n], policy, history[..n], fleets[..n + 1]);
      assert DecidedAt(readings, policy, history, fleets, n);
      hide Spaced, LastScaled;
      SpacedAppend(history[..n], policy.cooldownMs, history[n].0, history[n].1);
      assert history == history[..n] + [history[n]];
    }
  }

  /** The fleet never leaves the limits, or the range between them and where it started. */
  lemma {:induction false} EveryFleetIsInside(readings: Readings, policy: ScalingPolicy, history: History,
                                              fleets: seq<u32>, k: nat)
    requires IsRun(readings, policy, history, fleets) && k < |fleets|
    ensures Min(fleets[0] as int, policy.minInstances as int) <= fleets[k] as int <=
            Max(fleets[0] as int, policy.maxInstances as int)
  {
    if k > 0 {
      EveryFleetIsInside(readings, policy, history, fleets, k - 1);
      assert DecidedAt(readings, policy, history, fleets, k - 1);
      DecisionStaysInside(history[k - 1].1, readings[k - 1].0, fleets[k - 1], policy, readings[k - 1].1,
                          LastScaled(history[..k - 1]));
    }
  }

  /** The readings ask for scaling up (or down) every time, each at least the cooldown after the last. */
  ghost predicate Steady(readings: Readings, policy: ScalingPolicy, up: bool) {
    && (forall k | 0 <= k < |readings| ::
          if up then readings[k].0 >= policy.scaleUpThreshold
          else readings[k].0 <= policy.scaleDownThreshold && readings[k].0 < policy.scaleUpThreshold)
    && forall j, k | 0 <= j < k < |readings| :: readings[j].1 + policy.cooldownMs <= readings[k].1
  }

  lemma {:induction false} LastIsEarlier(readings: Readings, policy: ScalingPolicy, history: History,
                                         fleets: seq<u32>, k: nat)
    requires IsRun(readings, policy, history, fleets) && k <= |history|
    ensures LastScaled(history[..k]).Some? ==>
              exists j :: 0 <= j < k && readings[j].1 == LastScaled(history[..k]).value
  {
    if k > 0 {
      assert history[..k][..k - 1] == history[..k - 1];
      assert DecidedAt(readings, policy, history, fleets, k - 1);
      LastIsEarlier(readings, policy, history, fleets, k - 1);
    }
  }

  /** Under a steady overload the fleet grows by whole steps until it is full. */
  lemma {:induction false} OverloadFillsFleet(readings: Readings, policy: ScalingPolicy, history: History,
                                              fleets: seq<u32>, k: nat)
    requires IsRun(readings, policy, history, fleets) && Steady(readings, policy, true) && k < |fleets|
    requires fleets[0] <= policy.maxInstances
    ensures fleets[k] as int == Min(fleets[0] as int + k * policy.scaleUpStep as int, policy.maxInstances as int)
  {
    if k > 0 {
      OverloadFillsFleet(readings, policy, history, fleets, k - 1);
      LastIsEarlier(readings, policy, history, fleets, k - 1);
      assert DecidedAt(readings, policy, history, fleets, k - 1);
      OneMoreStep(k, policy.scaleUpStep as int);
    }
  }

  /** Under a steady lack of load it shrinks by whole steps to the least allowed. */
  lemma {:induction false} IdlenessEmptiesFleet(readings: Readings, policy: ScalingPolicy, history: History,
                                                fleets: seq<u32>, k: nat)
    requires IsRun(readings, policy, history, fleets) && Steady(readings, policy, false) && k < |fleets|
    requires fleets[0] >= policy.minInstances
    ensures fleets[k] as int == Max(fleets[0] as int - k * policy.scaleDownStep as int, policy.minInstances as int)
  {
    if k > 0 {
      IdlenessEmptiesFleet(readings, policy, history, fleets, k - 1);
      LastIsEarlier(readings, policy, history, fleets, k - 1);
      assert DecidedAt(readings, policy, history, fleets, k - 1);
      OneMoreStep(k, policy.scaleDownStep as int);
    }
  }

  lemma OneMoreStep(k: nat, step: nat)
    requires k > 0
    ensures k * step == (k - 1) * step + step && (k - 1) * step >= 0
  {
  }

  lemma {:induction false} RunIsUnique(readings: Readings, policy: ScalingPolicy, h1: History, f1: seq<u32>,
                                       h2: History, f2: seq<u32>)
    requires IsRun(readings, policy, h1, f1) && IsRun(readings, policy, h2, f2) && f1[0] == f2[0]
    ensures h1 == h2 && f1 == f2
  {
    if readings != [] {
      var n := |readings| - 1;
      RunBefore(readings, policy, h1, f1, n);
      RunBefore(readings, policy, h2, f2, n);
      RunIsUnique(readings[..n], policy, h1[..n], f1[..n + 1], h2[..n], f2[..n + 1]);
      assert DecidedAt(readings, policy, h1, f1, n) && DecidedAt(readings, policy, h2, f2, n);
      assert f1[..n + 1][n] == f1[n] && f2[..n + 1][n] == f2[n];
      hide IsDecision;
      DecisionIsUnique(h1[n].1, h2[n].1, readings[n].0, f1[n], policy, readings[n].1, LastScaled(h1[..n]));
      assert h1 == h1[..n] + [h1[n]] && h2 == h2[..n] + [h2[n]];
      assert f1 == f1[..n + 1] + [f1[n + 1]] && f2 == f2[..n + 1] + [f2[n + 1]];
    } else {
      assert f1 == [f1[0]] && f2 == [f2[0]];
    }
  }

  /** The fleet after a decision that was made for it. */
  function Apply(d: Decision, fleet: u32): (r: u32)
    requires 0 <= fleet as int + d.Intended() < 0x1_0000_0000
    ensures r as int == fleet as int + d.Intended()
  {
    match d
    case ScaleUp(n) => fleet + n
    case ScaleDown(n) => fleet - n
    case _ => fleet
  }

  /** A whole run under one policy: every decision is applied to the fleet. */
  method Run(readings: Readings, policy: ScalingPolicy, start: u32)
    returns (scaler: DynamicAutoscaler, fleets: seq<u32>)
    ensures fresh(scaler) && scaler.Valid() && fleets != [] && fleets[0] == start
    ensures IsRun(readings, policy, scaler.history, fleets)
  {
    scaler := new DynamicAutoscaler();
    fleets := [start];
    for i := 0 to |readings|
      invariant fresh(scaler) && scaler.Valid() && |fleets| == i + 1 && fleets[0] == start
      invariant IsRun(readings[..i], policy, scaler.history, fleets)
    {
      hide Spaced, LastScaled, IsRun, IsDecision;
      ghost var history := scaler.history;
      var d := scaler.Evaluate(readings[i].0, fleets[i], policy, readings[i].1);
      DecisionStaysInside(d, readings[i].0, fleets[i], policy, readings[i].1, LastScaled(history));
      var fleet := Apply(d, fleets[i]);
      RunNext(readings, policy, history, fleets, i, d, fleet);
      fleets := fleets + [fleet];
    }
    assert readings[..|readings|] == readings;
  }

  lemma RunNext(readings: Readings, policy: ScalingPolicy, history: History, fleets: seq<u32>, i: nat, d: Decision,
                fleet: u32)
    requires i < |readings| && IsRun(readings[..i], policy, history, fleets)
    requires IsDecision(d, readings[i].0, fleets[i], policy, readings[i].1, LastScaled(history))
    requires fleet as int == fleets[i] as int + d.Intended()
    ensures IsRun(readings[..i + 1], policy, history + [(readings[i].1, d)], fleets + [fleet])
  {
    var readings', history', fleets' := readings[..i + 1], history + [(readings[i].1, d)], fleets + [fleet];
    forall k | 0 <= k <= i
      ensures DecidedAt(readings', policy, history', fleets', k)
    {
      assert history'[..k] == history[..k];
      if k < i {
        assert DecidedAt(readings[..i], policy, history, fleets, k);
      } else {
        assert history[..k] == history;
      }
    }
  }
}

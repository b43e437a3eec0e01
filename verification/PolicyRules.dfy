/** The policy in the words of its configuration: seconds, steps and listed points decide every field of
    every decision, for the deployed and for the offline engine. */
module PolicyRules {
  import opened Basics
  import opened Capacity
  import opened PolicyModel
  import opened PolicyDecisions
  import PolicyEngine
  import OraclePolicy

  /** A requirement of `age` decisions ago still counts. */
  predicate InWindow(stabilizationSecs: int, intervalSecs: int, age: int) {
    age == 0 || (age + 1) * intervalSecs <= stabilizationSecs
  }

  /** `y` is as close to `x` as the limits allow. */
  predicate Closest(low: int, high: Option<int>, x: int, y: int) {
    && low <= y && (high.Some? ==> y <= high.value)
    && (y > x ==> y == low) && (y < x ==> high == Some(y))
  }

  /** The rules for one decision: `prior` is the command in force and `earlier` the decisions so far. */
  ghost predicate Meets(lookup: Lookup, minimum: int, maximum: int, factor: real, stabilizationSecs: int,
                        intervalSecs: int, maxDownStep: int, maxUpStep: Option<int>, prior: int,
                        earlier: seq<Decision>, workload: real, d: Decision) {
    && d.sequence == |earlier| && d.workload == workload && d.prior == prior
    && d.adjusted == workload * factor
    && Fewest(lookup, d.adjusted, d.raw)
    && Closest(minimum, Some(maximum), d.raw, d.bounded)
    && IsWindowMaximum(stabilizationSecs, intervalSecs, earlier, d)
    && Closest(prior - maxDownStep, if maxUpStep.Some? then Some(prior + maxUpStep.value) else None,
               d.stabilized, d.commanded)
    && (d.action == ScaleUp <==> d.commanded > prior) && (d.action == ScaleDown <==> d.commanded < prior)
    && (d.held <==> d.bounded < prior <= d.commanded)
  }

  /** The stabilized requirement is the greatest one in the window. */
  ghost predicate IsWindowMaximum(stabilizationSecs: int, intervalSecs: int, earlier: seq<Decision>, d: Decision) {
    && d.bounded <= d.stabilized
    && (forall i :: 0 <= i < |earlier| && InWindow(stabilizationSecs, intervalSecs, |earlier| - i) ==>
          earlier[i].bounded <= d.stabilized)
    && (d.stabilized == d.bounded
        || exists i :: 0 <= i < |earlier| && InWindow(stabilizationSecs, intervalSecs, |earlier| - i)
                       && earlier[i].bounded == d.stabilized)
  }

  /** The command in force before decision `i`. */
  function Prior(initial: int, d: seq<Decision>, i: nat): int
    requires i <= |d|
  {
    if i == 0 then initial else d[i - 1].commanded
  }

  // ---------------------------------------------------------------- the model follows the rules

  lemma Multiplied(a: int, b: int, interval: int)
    requires interval > 0 && a <= b
    ensures a * interval <= b * interval
  {
  }

  /** The window in seconds is the window in samples. */
  ghost predicate SameWindow(stabilizationSecs: int, intervalSecs: int, p: Params) {
    forall age: nat :: InWindow(stabilizationSecs, intervalSecs, age) <==> age < Span(p)
  }

  lemma WindowSamples(stabilizationSecs: int, intervalSecs: int, p: Params)
    requires intervalSecs > 0 && stabilizationSecs >= 0 && p.window == stabilizationSecs / intervalSecs
    ensures SameWindow(stabilizationSecs, intervalSecs, p)
  {
    var window := p.window;
    assert window * intervalSecs <= stabilizationSecs < (window + 1) * intervalSecs;
    forall age: nat
      ensures InWindow(stabilizationSecs, intervalSecs, age) <==> age < Span(p)
    {
      if age + 1 <= window {
        Multiplied(age + 1, window, intervalSecs);
      } else {
        Multiplied(window + 1, age + 1, intervalSecs);
      }
    }
  }

  lemma {:induction false} BoundedAt(s: Settings, workloads: seq<real>, i: nat)
    requires AllServable(s, workloads) && i < |workloads|
    ensures Decisions(s, workloads)[i].bounded == Requirements(s, workloads)[i]
  {
    At(s, workloads, i);
  }

  lemma StabilizedMeets(stabilizationSecs: int, intervalSecs: int, p: Params, b: seq<int>, earlier: seq<Decision>,
                        d: Decision)
    requires SameWindow(stabilizationSecs, intervalSecs, p) && |b| == |earlier| + 1
    requires (forall i :: 0 <= i < |earlier| ==> earlier[i].bounded == b[i]) && d.bounded == Last(b)
    requires d.stabilized == Stabilized(p, b)
    ensures IsWindowMaximum(stabilizationSecs, intervalSecs, earlier, d)
  {
    forall i | 0 <= i < |earlier| && InWindow(stabilizationSecs, intervalSecs, |earlier| - i)
      ensures earlier[i].bounded <= d.stabilized
    {
      StabilizedCovers(p, b, i);
    }
    StabilizedCovers(p, b, |earlier|);
    var at := StabilizedAttained(p, b);
    assert at < |earlier| ==> earlier[at].bounded == d.stabilized
                              && InWindow(stabilizationSecs, intervalSecs, |earlier| - at);
  }

  /** The fields of a decision that do not depend on the window. */
  lemma OwnFields(s: Settings, b: seq<int>, workload: real, d: Decision)
    requires Ordered(s.lookup) && s.minimum <= s.maximum && Servable(s, workload)
    requires b != [] && Last(b) == Bounded(s, workload) && d == DecisionOf(s, b, workload)
    ensures d.adjusted == workload * s.factor && Fewest(s.lookup, d.adjusted, d.raw)
    ensures Closest(s.minimum, Some(s.maximum), d.raw, d.bounded)
    ensures Closest(d.prior - s.params.down,
                    if s.params.up.Some? then Some(d.prior + s.params.up.value) else None, d.stabilized, d.commanded)
  {
    RequiredIsFewest(s.lookup, Adjusted(s, workload));
  }

  lemma OneMeets(s: Settings, stabilizationSecs: int, intervalSecs: int, b: seq<int>, earlier: seq<Decision>,
                 workload: real, d: Decision)
    requires SameWindow(stabilizationSecs, intervalSecs, s.params)
    requires Ordered(s.lookup) && s.minimum <= s.maximum && Servable(s, workload)
    requires |b| == |earlier| + 1 && Last(b) == Bounded(s, workload) && d == DecisionOf(s, b, workload)
    requires forall i :: 0 <= i < |earlier| ==> earlier[i].bounded == b[i]
    ensures Meets(s.lookup, s.minimum, s.maximum, s.factor, stabilizationSecs, intervalSecs, s.params.down,
                  s.params.up, d.prior, earlier, workload, d)
  {
    StabilizedMeets(stabilizationSecs, intervalSecs, s.params, b, earlier, d);
    OwnFields(s, b, workload, d);
  }

  lemma RequirementsTo(s: Settings, workloads: seq<real>, i: nat) returns (b: seq<int>)
    requires AllServable(s, workloads) && i < |workloads|
    ensures Servable(s, workloads[i]) && b == Requirements(s, workloads)[..i + 1]
    ensures |b| == i + 1 && Last(b) == Bounded(s, workloads[i])
    ensures forall k :: 0 <= k < i ==> b[k] == Requirements(s, workloads)[k]
  {
    RequirementsPrefix(s, workloads, i);
    b := Requirements(s, workloads)[..i + 1];
  }

  /** The requirements up to decision `i`, as the decisions before it record them. */
  lemma Recorded(s: Settings, workloads: seq<real>, i: nat) returns (d: seq<Decision>, b: seq<int>)
    requires AllServable(s, workloads) && i < |workloads|
    ensures d == Decisions(s, workloads) && |b| == i + 1 && Servable(s, workloads[i])
    ensures Last(b) == Bounded(s, workloads[i]) && d[i] == DecisionOf(s, b, workloads[i])
    ensures d[i].prior == Prior(s.params.initial, d, i)
    ensures forall k :: 0 <= k < i ==> d[k].bounded == b[k]
  {
    d := Decisions(s, workloads);
    b := RequirementsTo(s, workloads, i);
    At(s, workloads, i);
    DecisionsChain(s, workloads, i);
    forall k | 0 <= k < i
      ensures d[k].bounded == b[k]
    {
      BoundedAt(s, workloads, k);
    }
  }

  /** Every decision of the model meets the rules. */
  lemma DecisionMeets(s: Settings, stabilizationSecs: int, intervalSecs: int, workloads: seq<real>, i: nat)
    requires intervalSecs > 0 && stabilizationSecs >= 0 && s.params.window == stabilizationSecs / intervalSecs
    requires Ordered(s.lookup) && s.minimum <= s.maximum
    requires AllServable(s, workloads) && i < |workloads|
    ensures var d := Decisions(s, workloads);
            Meets(s.lookup, s.minimum, s.maximum, s.factor, stabilizationSecs, intervalSecs, s.params.down,
                  s.params.up, Prior(s.params.initial, d, i), d[..i], workloads[i], d[i])
  {
    var d, b := Recorded(s, workloads, i);
    WindowSamples(stabilizationSecs, intervalSecs, s.params);
    OneMeets(s, stabilizationSecs, intervalSecs, b, d[..i], workloads[i], d[i]);
  }

  /** The rules leave no choice. */
  lemma RulesDetermine(lookup: Lookup, minimum: int, maximum: int, factor: real, stabilizationSecs: int,
                       intervalSecs: int, maxDownStep: int, maxUpStep: Option<int>, prior: int,
                       earlier: seq<Decision>, workload: real, d: Decision, d': Decision)
    requires Meets(lookup, minimum, maximum, factor, stabilizationSecs, intervalSecs, maxDownStep, maxUpStep, prior,
                   earlier, workload, d)
    requires Meets(lookup, minimum, maximum, factor, stabilizationSecs, intervalSecs, maxDownStep, maxUpStep, prior,
                   earlier, workload, d')
    ensures d == d'
  {
  }

  // ---------------------------------------------------------------- the two configurations

  /** Decision `i` of the deployed engine, in the fields of its configuration. */
  lemma DeployedRules(c: PolicyEngine.Config, workloads: seq<real>, i: nat)
    requires PolicyEngine.ValidConfig(c) && AllServable(PolicyEngine.SettingsOf(c), workloads) && i < |workloads|
    ensures var d := Decisions(PolicyEngine.SettingsOf(c), workloads);
            Meets(c.lookup, c.minimum, c.maximum, c.safetyFactor, c.stabilizationSecs, c.intervalSecs, c.maxDownStep,
                  if c.maxUpStep > 0 then Some(c.maxUpStep) else None, Prior(c.initial, d, i), d[..i],
                  workloads[i], d[i])
  {
    DecisionMeets(PolicyEngine.SettingsOf(c), c.stabilizationSecs, c.intervalSecs, workloads, i);
  }

  /** Decision `i` of the offline engine, in the fields of its configuration. */
  lemma OfflineRules(c: OraclePolicy.PolicyConfig, workloads: seq<real>, i: nat)
    requires OraclePolicy.Timed(c) && Ordered(c.lookup) && c.minimum <= c.maximum
    requires AllServable(OraclePolicy.SettingsOf(c), workloads) && i < |workloads|
    ensures var d := Decisions(OraclePolicy.SettingsOf(c), workloads);
            Meets(c.lookup, c.minimum, c.maximum, c.safetyFactor, c.stabilizationSecs, c.intervalSecs, c.maxDownStep,
                  c.maxUpStep, Prior(c.initial, d, i), d[..i], workloads[i], d[i])
  {
    DecisionMeets(OraclePolicy.SettingsOf(c), c.stabilizationSecs, c.intervalSecs, workloads, i);
  }

  // ---------------------------------------------------------------- how long a peak is held

  /** One peak and `n` lower values after it. */
  function Peak(high: real, low: real, n: nat): (w: seq<real>)
    ensures |w| == n + 1
  {
    if n == 0 then [high] else Peak(high, low, n - 1) + [low]
  }

  lemma {:induction false} PeakRequirements(s: Settings, high: real, low: real, n: nat)
    requires Servable(s, high) && Servable(s, low)
    ensures AllServable(s, Peak(high, low, n))
    ensures Requirements(s, Peak(high, low, n)) == [Bounded(s, high)] + seq(n, _ => Bounded(s, low))
  {
    if n > 0 {
      PeakRequirements(s, high, low, n - 1);
      assert Front(Peak(high, low, n)) == Peak(high, low, n - 1);
    } else {
      assert Front([high]) == [];
    }
  }

  lemma PeakCommand(s: Settings, stabilizationSecs: int, intervalSecs: int, high: real, low: real, n: nat)
    requires intervalSecs > 0 && stabilizationSecs >= 0 && s.params.window == stabilizationSecs / intervalSecs
    requires s.params.up.None? && s.params.down >= 1
    requires Servable(s, high) && Servable(s, low) && s.params.initial <= Bounded(s, low) < Bounded(s, high)
    ensures AllServable(s, Peak(high, low, n))
    ensures Last(Decisions(s, Peak(high, low, n))).commanded == Bounded(s, high)
       <==> InWindow(stabilizationSecs, intervalSecs, n)
  {
    PeakRequirements(s, high, low, n);
    HoldExpires(s.params, Bounded(s, low), Bounded(s, high), n);
    WindowSamples(stabilizationSecs, intervalSecs, s.params);
  }

  /** The deployed engine with unlimited scale-up commands a single peak for exactly its window. */
  lemma DeployedPeak(c: PolicyEngine.Config, high: real, low: real, n: nat)
    requires PolicyEngine.ValidConfig(c) && c.maxUpStep == 0
    requires var s := PolicyEngine.SettingsOf(c);
             Servable(s, high) && Servable(s, low) && c.initial <= Bounded(s, low) < Bounded(s, high)
    ensures var s := PolicyEngine.SettingsOf(c);
            && AllServable(s, Peak(high, low, n))
            && (Last(Decisions(s, Peak(high, low, n))).commanded == Bounded(s, high)
                <==> n * c.intervalSecs < Max(c.intervalSecs, c.stabilizationSecs))
  {
    PeakCommand(PolicyEngine.SettingsOf(c), c.stabilizationSecs, c.intervalSecs, high, low, n);
    WholeWindow(c.stabilizationSecs, c.intervalSecs, n);
  }

  /** A window that is a whole number of intervals includes the ages before its end. */
  lemma WholeWindow(stabilizationSecs: int, intervalSecs: int, age: nat)
    requires intervalSecs > 0 && stabilizationSecs >= 0 && stabilizationSecs % intervalSecs == 0
    ensures InWindow(stabilizationSecs, intervalSecs, age)
       <==> age * intervalSecs < Max(intervalSecs, stabilizationSecs)
  {
    var window := stabilizationSecs / intervalSecs;
    assert stabilizationSecs == window * intervalSecs;
    if age >= 1 {
      Multiplied(1, age, intervalSecs);
      if age + 1 <= window {
        Multiplied(age + 1, window, intervalSecs);
        assert (age + 1) * intervalSecs == age * intervalSecs + intervalSecs;
      } else {
        Multiplied(window, age, intervalSecs);
        assert (age + 1) * intervalSecs == age * intervalSecs + intervalSecs;
      }
    }
  }

  /** So does the offline engine, for whole intervals inside its window. */
  lemma OfflinePeak(c: OraclePolicy.PolicyConfig, high: real, low: real, n: nat)
    requires OraclePolicy.Timed(c) && c.maxUpStep.None? && c.maxDownStep >= 1
    requires var s := OraclePolicy.SettingsOf(c);
             Servable(s, high) && Servable(s, low) && c.initial <= Bounded(s, low) < Bounded(s, high)
    ensures var s := OraclePolicy.SettingsOf(c);
            && AllServable(s, Peak(high, low, n))
            && (Last(Decisions(s, Peak(high, low, n))).commanded == Bounded(s, high)
                <==> n == 0 || (n + 1) * c.intervalSecs <= c.stabilizationSecs)
  {
    PeakCommand(OraclePolicy.SettingsOf(c), c.stabilizationSecs, c.intervalSecs, high, low, n);
  }
}

/** The implementations of the replica policy, run side by side on one trace. */
module PolicyAgreement {
  import opened Basics
  import opened PolicyModel
  import opened PolicyDecisions
  import PolicyEngine
  import OraclePolicy
  import opened Capacity
  import ForecastQuality
  import ForecastReplay

  /** The deployed engine over a whole trace, up to its first error. */
  method RunDeployed(config: PolicyEngine.Config, workloads: seq<real>)
    returns (r: Result<seq<Decision>, PolicyEngine.PolicyError>)
    requires PolicyEngine.ValidConfig(config)
    ensures r.Success? <==>
              AllServable(PolicyEngine.SettingsOf(config), workloads) && OraclePolicy.NonNegative(workloads)
    ensures r.Success? ==> r.value == Decisions(PolicyEngine.SettingsOf(config), workloads)
  {
    var engine := new PolicyEngine.Engine(config);
    ghost var s := PolicyEngine.SettingsOf(config);
    var rows := [];
    ghost var done: seq<real> := [];
    for k := 0 to |workloads|
      invariant done == workloads[..k]
      invariant engine.Valid() && engine.config == config
      invariant AllServable(s, done) && OraclePolicy.NonNegative(done)
      invariant engine.history == Requirements(s, done)
      invariant rows == Decisions(s, done)
    {
      TakeOneMore(workloads, k);
      var row := engine.Decide(workloads[k]);
      if row.Failure? {
        OraclePolicy.AcceptedAt(s, workloads);
        return Failure(row.error);
      }
      Extend(s, done, workloads[k]);
      OraclePolicy.NonNegativeExtend(done, workloads[k]);
      rows := rows + [row.value];
      done := done + [workloads[k]];
    }
    TakeAll(workloads);
    return Success(rows);
  }

  /** The two configurations say the same: equal lookups, bounds, factors and down-steps, windows of
      equally many intervals, and an up-step of 0 where the offline one is absent. */
  predicate Alike(deployed: PolicyEngine.Config, offline: OraclePolicy.PolicyConfig)
    requires deployed.intervalSecs > 0 && offline.intervalSecs > 0
  {
    && deployed.lookup == offline.lookup && deployed.safetyFactor == offline.safetyFactor
    && (deployed.minimum, deployed.maximum, deployed.initial) == (offline.minimum, offline.maximum, offline.initial)
    && deployed.stabilizationSecs / deployed.intervalSecs == offline.stabilizationSecs / offline.intervalSecs
    && deployed.maxDownStep == offline.maxDownStep
    && (if deployed.maxUpStep == 0 then offline.maxUpStep.None?
        else offline.maxUpStep.Some? && offline.maxUpStep.value == deployed.maxUpStep)
  }

  /** Alike configurations, and no others, have the same policy. */
  lemma AlikeSettings(deployed: PolicyEngine.Config, offline: OraclePolicy.PolicyConfig)
    requires PolicyEngine.ValidConfig(deployed) && OraclePolicy.Timed(offline)
    ensures Alike(deployed, offline) <==> PolicyEngine.SettingsOf(deployed) == OraclePolicy.SettingsOf(offline)
  {
  }

  /** Under one policy, and any step limits, the deployed and the offline engine accept the same
      traces and take the same decisions. */
  method TwoEngines(deployed: PolicyEngine.Config, offline: OraclePolicy.PolicyConfig, workloads: seq<real>)
    returns (live: Option<seq<Decision>>, oracle: Option<seq<Decision>>)
    requires PolicyEngine.ValidConfig(deployed) && OraclePolicy.Timed(offline)
    requires Alike(deployed, offline)
    ensures live == oracle
    ensures live.Some? <==>
              forall i :: 0 <= i < |workloads| ==>
                OraclePolicy.Accepted(PolicyEngine.SettingsOf(deployed), workloads[i])
    ensures live.Some? ==> AllServable(PolicyEngine.SettingsOf(deployed), workloads)
    ensures live.Some? ==> live.value == Decisions(PolicyEngine.SettingsOf(deployed), workloads)
  {
    AlikeSettings(deployed, offline);
    OraclePolicy.AcceptedAt(PolicyEngine.SettingsOf(deployed), workloads);
    var r := RunDeployed(deployed, workloads);
    live := if r.Success? then Some(r.value) else None;
    var q := OraclePolicy.RunPolicy(offline, workloads);
    oracle := if q.Success? then Some(q.value) else None;
  }

  /** The settings without a scale-up limit. */
  function UnlimitedSettings(s: Settings): Settings {
    s.(params := Unlimited(s.params))
  }

  /** The lowest command an accepted trace can lead to. */
  function Lowest(s: Settings): int {
    if Servable(s, 0.0) then Min(s.params.initial, Bounded(s, 0.0)) else s.params.initial
  }

  /** The settings of a valid configuration. */
  ghost predicate Proper(s: Settings) {
    && |s.lookup| > 0 && Increasing(s.lookup) && Last(s.lookup).replicas >= s.maximum
    && s.factor > 0.0 && s.minimum <= s.params.initial <= s.maximum && s.params.down >= 1
  }

  lemma {:induction false} RequirementsWithin(s: Settings, workloads: seq<real>)
    requires Proper(s) && AllServable(s, workloads) && OraclePolicy.NonNegative(workloads)
    ensures Within(Requirements(s, workloads), Lowest(s), s.maximum)
  {
    if workloads != [] {
      RequirementsWithin(s, Front(workloads));
      ForecastQuality.BoundedMonotone(s, 0.0, Last(workloads));
    }
  }

  lemma SameRequirement(s: Settings, workload: real)
    ensures Servable(UnlimitedSettings(s), workload) == Servable(s, workload)
    ensures Servable(s, workload) ==> Bounded(UnlimitedSettings(s), workload) == Bounded(s, workload)
  {
  }

  lemma {:induction false} SameServable(s: Settings, workloads: seq<real>)
    ensures AllServable(UnlimitedSettings(s), workloads) == AllServable(s, workloads)
    ensures AllServable(s, workloads) ==> Requirements(UnlimitedSettings(s), workloads) == Requirements(s, workloads)
  {
    if workloads != [] {
      SameServable(s, Front(workloads));
      SameRequirement(s, Last(workloads));
    }
  }

  lemma SameCommands(s: Settings, b: seq<int>, lo: int, hi: int)
    requires lo <= s.params.initial <= hi && Spans(s.params, lo, hi)
    requires b != [] && Within(b, lo, hi)
    ensures Command(Unlimited(s.params), b) == Command(s.params, b)
    ensures Command(Unlimited(s.params), Front(b)) == Command(s.params, Front(b))
    ensures Stabilized(Unlimited(s.params), b) == Stabilized(s.params, b)
  {
    WideStepIsUnlimited(s.params, b, lo, hi);
    WideStepIsUnlimited(s.params, Front(b), lo, hi);
  }

  lemma SameWithoutLimit(s: Settings, b: seq<int>, workload: real, lo: int, hi: int)
    requires lo <= s.params.initial <= hi && Spans(s.params, lo, hi)
    requires b != [] && Within(b, lo, hi) && Servable(s, workload)
    ensures Servable(UnlimitedSettings(s), workload)
    ensures DecisionOf(UnlimitedSettings(s), b, workload) == DecisionOf(s, b, workload)
  {
    SameCommands(s, b, lo, hi);
    SameRequirement(s, workload);
  }

  /** A limit that spans what accepted traces can command changes no decision. */
  lemma {:induction false} WideStepDecisions(s: Settings, workloads: seq<real>)
    requires Proper(s) && Spans(s.params, Lowest(s), s.maximum)
    requires AllServable(s, workloads) && OraclePolicy.NonNegative(workloads)
    ensures AllServable(UnlimitedSettings(s), workloads)
    ensures Decisions(UnlimitedSettings(s), workloads) == Decisions(s, workloads)
  {
    SameServable(s, workloads);
    if workloads != [] {
      WideStepDecisions(s, Front(workloads));
      RequirementsWithin(s, workloads);
      SameWithoutLimit(s, Requirements(s, workloads), Last(workloads), Lowest(s), s.maximum);
    }
  }

  // ---------------------------------------------------------------- where the limit shows

  function Zeros(n: nat): (w: seq<real>)
    ensures |w| == n
  {
    if n == 0 then [] else Zeros(n - 1) + [0.0]
  }

  lemma {:induction false} ZeroRequirements(s: Settings, n: nat)
    requires Servable(s, 0.0)
    ensures AllServable(s, Zeros(n)) && OraclePolicy.NonNegative(Zeros(n))
    ensures Requirements(s, Zeros(n)) == Level(Bounded(s, 0.0), n)
  {
    if n > 0 {
      ZeroRequirements(s, n - 1);
      assert Front(Zeros(n)) == Zeros(n - 1);
    }
  }

  lemma Quotient(y: real, factor: real) returns (x: real)
    requires factor > 0.0 && y >= 0.0
    ensures x >= 0.0 && x * factor == y
  {
    x := y / factor;
    assert x * factor == y;
  }

  /** The most that the lookup serves needs the maximum. */
  lemma TopWorkload(s: Settings) returns (workload: real)
    requires Proper(s) && Servable(s, 0.0)
    ensures workload >= 0.0 && Servable(s, workload) && Bounded(s, workload) == s.maximum
  {
    RequiredDefined(s.lookup, Adjusted(s, 0.0));
    var top := Last(s.lookup).rps + TOLERANCE;
    workload := Quotient(top, s.factor);
    var k := FirstServing(s.lookup, top);
    assert Serves(Last(s.lookup), top);
    assert k == |s.lookup| - 1;
    assert Adjusted(s, workload) == top;
  }

  /** Idle long enough, the command is at its lowest. */
  lemma AtLowest(s: Settings) returns (n: nat)
    requires Proper(s) && Servable(s, 0.0)
    ensures Command(s.params, Level(Bounded(s, 0.0), n)) == Lowest(s)
  {
    var b := Bounded(s, 0.0);
    if s.params.initial <= b {
      n := 0;
    } else {
      n := s.params.initial - b;
      Descends(s.params, b, n);
    }
  }

  /** The policy takes the decisions of the unlimited one on an accepted trace. */
  ghost predicate DecidesUnlimited(s: Settings, workloads: seq<real>) {
    AllServable(s, workloads) && OraclePolicy.NonNegative(workloads) ==>
      AllServable(UnlimitedSettings(s), workloads)
      && Decisions(UnlimitedSettings(s), workloads) == Decisions(s, workloads)
  }

  lemma JumpDecision(s: Settings, done: seq<real>, workload: real)
    requires AllServable(s, done) && Servable(s, workload) && workload >= 0.0 && OraclePolicy.NonNegative(done)
    requires s.params.up.Some?
    requires Command(s.params, Requirements(s, done)) + s.params.up.value < Bounded(s, workload)
    ensures !DecidesUnlimited(s, done + [workload])
  {
    var u, b := UnlimitedSettings(s), Requirements(s, done) + [Bounded(s, workload)];
    SameServable(s, done);
    SameRequirement(s, workload);
    Extend(s, done, workload);
    Extend(u, done, workload);
    OraclePolicy.NonNegativeExtend(done, workload);
    JumpFallsShort(s.params, Requirements(s, done), Bounded(s, workload));
    assert Last(Decisions(s, done + [workload])) == DecisionOf(s, b, workload);
    assert Last(Decisions(u, done + [workload])) == DecisionOf(u, b, workload);
  }

  /** A lookup that does not even serve an idle second accepts no workload. */
  lemma OnlyWithoutWorkload(s: Settings, workloads: seq<real>)
    requires Proper(s) && !Servable(s, 0.0) && AllServable(s, workloads) && OraclePolicy.NonNegative(workloads)
    ensures workloads == []
  {
    if workloads != [] {
      ForecastQuality.BoundedMonotone(s, 0.0, Last(workloads));
    }
  }

  /** On every accepted trace the deployed policy takes the decisions of the unlimited one, which the
      replays compute, exactly when one step spans what accepted traces can command. */
  lemma UnlimitedIff(s: Settings)
    requires Proper(s)
    ensures (forall workloads :: DecidesUnlimited(s, workloads))
       <==> (Servable(s, 0.0) ==> Spans(s.params, Lowest(s), s.maximum))
  {
    if !Servable(s, 0.0) {
      forall workloads
        ensures DecidesUnlimited(s, workloads)
      {
        if AllServable(s, workloads) && OraclePolicy.NonNegative(workloads) {
          OnlyWithoutWorkload(s, workloads);
        }
      }
    } else if Spans(s.params, Lowest(s), s.maximum) {
      forall workloads
        ensures DecidesUnlimited(s, workloads)
      {
        if AllServable(s, workloads) && OraclePolicy.NonNegative(workloads) {
          WideStepDecisions(s, workloads);
        }
      }
    } else {
      var n := AtLowest(s);
      var workload := TopWorkload(s);
      ZeroRequirements(s, n);
      JumpDecision(s, Zeros(n), workload);
    }
  }

  // ---------------------------------------------------------------- all four

  /** The two replays know no scale-up limit. Where the configured limit spans what accepted traces can
      command, all four agree on every trace the deployed engine accepts, in every field of the
      decisions; the run validator reports the commands only, and needs a window. Under any limit the
      replays differ from the engines in acceptance exactly on negative workloads, which only these
      reject. */
  method FourWays(deployed: PolicyEngine.Config, offline: OraclePolicy.PolicyConfig, workloads: seq<real>)
    returns (live: Option<seq<Decision>>, oracle: Option<seq<Decision>>,
             replayed: Option<seq<Decision>>, desired: Option<seq<int>>)
    requires PolicyEngine.ValidConfig(deployed) && OraclePolicy.Timed(offline)
    requires Alike(deployed, offline)
    ensures live == oracle
    ensures var s := PolicyEngine.SettingsOf(deployed);
            && (live.Some? ==> AllServable(s, workloads) && live.value == Decisions(s, workloads))
            && (replayed.Some? ==> AllServable(UnlimitedSettings(s), workloads)
                                   && replayed.value == Decisions(UnlimitedSettings(s), workloads))
            && (Spans(s.params, Lowest(s), s.maximum) ==> live.Some? ==> replayed == live)
    ensures live.Some? <==> replayed.Some? && forall i :: 0 <= i < |workloads| ==> workloads[i] >= 0.0
    ensures replayed.Some? <==>
              forall i :: 0 <= i < |workloads| ==> Servable(PolicyEngine.SettingsOf(deployed), workloads[i])
    ensures desired.Some? <==>
              replayed.Some? && (workloads == [] || deployed.stabilizationSecs >= deployed.intervalSecs)
    ensures desired.Some? ==> desired.value == ForecastReplay.CommandsOf(replayed.value)
  {
    ghost var s := PolicyEngine.SettingsOf(deployed);
    SameServable(s, workloads);
    ServableAt(s, workloads);
    OraclePolicy.NonNegativeAt(workloads);
    live, oracle := TwoEngines(deployed, offline, workloads);
    replayed, desired := TwoReplays(UnlimitedSettings(PolicyEngine.SettingsOf(deployed)), workloads);
    WindowSamples(deployed.stabilizationSecs, deployed.intervalSecs);
    if live.Some? && Spans(s.params, Lowest(s), s.maximum) {
      WideStepDecisions(s, workloads);
    }
  }

  method TwoReplays(s: Settings, workloads: seq<real>)
    returns (replayed: Option<seq<Decision>>, desired: Option<seq<int>>)
    requires s.params.up.None? && s.params.down >= 1
    ensures replayed.Some? <==> AllServable(s, workloads)
    ensures replayed.Some? ==> replayed.value == Decisions(s, workloads)
    ensures desired.Some? <==> replayed.Some? && (workloads == [] || s.params.window >= 1)
    ensures desired.Some? ==> desired.value == ForecastReplay.CommandsOf(replayed.value)
  {
    var r := ForecastReplay.Replay(s, workloads);
    replayed := if r.Success? then Some(r.value) else None;
    var d := ForecastReplay.Desired(s, workloads);
    desired := if d.Success? then Some(d.value) else None;
    if replayed.Some? {
      ForecastReplay.RowsAreDecisions(s, workloads);
      ForecastReplay.RowsCommand(s, workloads);
    }
  }

  lemma WindowSamples(secs: int, interval: int)
    requires secs >= 0 && interval > 0
    ensures secs / interval >= 1 <==> secs >= interval
  {
  }
}

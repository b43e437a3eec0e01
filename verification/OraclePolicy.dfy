/** The offline policy engine that produced the oracle timelines, and its run over a workload. */
module OraclePolicy {
  import opened Basics
  import opened Capacity
  import opened PolicyModel
  import opened PolicyDecisions

  /** Scale-up is unlimited when `maxUpStep` is absent. */
  datatype PolicyConfig = PolicyConfig(
    lookup: Lookup, minimum: int, maximum: int, initial: int, safetyFactor: real,
    stabilizationSecs: int, intervalSecs: int, maxDownStep: nat, maxUpStep: Option<nat>)

  datatype PolicyError = NegativeWorkload | ExceedsCapacity

  predicate Timed(c: PolicyConfig) {
    c.intervalSecs > 0 && c.stabilizationSecs >= 0
  }

  function SettingsOf(c: PolicyConfig): Settings
    requires Timed(c)
  {
    Settings(c.lookup, c.minimum, c.maximum, c.safetyFactor,
             Params(c.initial, c.stabilizationSecs / c.intervalSecs, c.maxDownStep, c.maxUpStep))
  }

  class Engine {
    const config: PolicyConfig
    var boundedHistory: seq<int>
    var commanded: int
    var decisionIndex: nat

    ghost predicate Valid()
      reads this
    {
      && Timed(config)
      && commanded == Command(SettingsOf(config).params, boundedHistory)
      && decisionIndex == |boundedHistory|
    }

    constructor (config: PolicyConfig)
      requires Timed(config)
      ensures Valid() && this.config == config && boundedHistory == []
    {
      this.config := config;
      boundedHistory, commanded, decisionIndex := [], config.initial, 0;
    }

    method RawReplicas(workload: real) returns (r: Result<(int, real), PolicyError>)
      requires Timed(config)
      ensures r == if workload < 0.0 then Failure(NegativeWorkload)
                   else if !Servable(SettingsOf(config), workload) then Failure(ExceedsCapacity)
                   else Success((Required(config.lookup, Adjusted(SettingsOf(config), workload)).value,
                                 Adjusted(SettingsOf(config), workload)))
    {
      if workload < 0.0 {
        return Failure(NegativeWorkload);
      }
      var adjusted := workload * config.safetyFactor;
      var raw := ScanRequired(config.lookup, adjusted);
      if raw.None? {
        return Failure(ExceedsCapacity);
      }
      return Success((raw.value, adjusted));
    }

    method Decide(workload: real) returns (r: Result<Decision, PolicyError>)
      requires Valid()
      modifies this
      ensures Valid()
      ensures r.Failure? ==> boundedHistory == old(boundedHistory)
      ensures r.Success? <==> workload >= 0.0 && Servable(SettingsOf(config), workload)
      ensures r.Success? ==>
                && boundedHistory == old(boundedHistory) + [Bounded(SettingsOf(config), workload)]
                && r.value == DecisionOf(SettingsOf(config), boundedHistory, workload)
    {
      var rawResult := RawReplicas(workload);
      if rawResult.Failure? {
        return Failure(rawResult.error);
      }
      var (raw, adjusted) := rawResult.value;
      ghost var s := SettingsOf(config);
      var bounded := Min(config.maximum, Max(config.minimum, raw));
      assert bounded == Bounded(s, workload);
      boundedHistory := boundedHistory + [bounded];
      assert Front(boundedHistory) == old(boundedHistory);
      var windowSamples := config.stabilizationSecs / config.intervalSecs;
      // A slice from `-windowSamples` keeps the whole list when it is shorter.
      var stabilized := if windowSamples > 0 then MaxOf(Suffix(boundedHistory, windowSamples)) else bounded;
      assert windowSamples == 0 ==> Suffix(boundedHistory, 1) == [bounded];
      var previous := commanded;
      if stabilized > previous {
        commanded := if config.maxUpStep.None? then stabilized
                     else Min(stabilized, previous + config.maxUpStep.value);
      } else if stabilized < previous {
        commanded := Max(stabilized, previous - config.maxDownStep);
      }
      var action := if commanded > previous then ScaleUp else if commanded < previous then ScaleDown else Keep;
      var decision := Decision(decisionIndex, workload, adjusted, raw, bounded, stabilized, previous,
                               commanded, action, bounded < previous && commanded >= previous);
      assert commanded == Command(s.params, boundedHistory);
      assert decision == DecisionOf(s, boundedHistory, workload);
      decisionIndex := decisionIndex + 1;
      return Success(decision);
    }
  }

  predicate NonNegative(workloads: seq<real>) {
    workloads == [] || (NonNegative(Front(workloads)) && Last(workloads) >= 0.0)
  }

  predicate Accepted(s: Settings, workload: real) {
    workload >= 0.0 && Servable(s, workload)
  }

  lemma {:induction false} NonNegativeExtend(done: seq<real>, next: real)
    requires NonNegative(done) && next >= 0.0
    ensures NonNegative(done + [next])
  {
    assert Front(done + [next]) == done;
  }

  lemma {:induction false} NonNegativeAt(workloads: seq<real>)
    ensures NonNegative(workloads) <==> forall i :: 0 <= i < |workloads| ==> workloads[i] >= 0.0
  {
    if workloads != [] {
      var f := Front(workloads);
      NonNegativeAt(f);
      assert forall i :: 0 <= i < |f| ==> f[i] == workloads[i];
      assert workloads[|f|] == Last(workloads);
    }
  }

  lemma AcceptedAt(s: Settings, workloads: seq<real>)
    ensures AllServable(s, workloads) && NonNegative(workloads)
       <==> forall i :: 0 <= i < |workloads| ==> Accepted(s, workloads[i])
  {
    ServableAt(s, workloads);
    NonNegativeAt(workloads);
  }

  /** A run succeeds exactly on the in-range traces, and then yields the decisions of the model. */
  method RunPolicy(config: PolicyConfig, workloads: seq<real>) returns (r: Result<seq<Decision>, PolicyError>)
    requires Timed(config)
    ensures r.Success? <==> forall i :: 0 <= i < |workloads| ==> Accepted(SettingsOf(config), workloads[i])
    ensures r.Success? ==> AllServable(SettingsOf(config), workloads)
    ensures r.Success? ==> r.value == Decisions(SettingsOf(config), workloads)
  {
    var engine := new Engine(config);
    ghost var s := SettingsOf(config);
    var rows := [];
    ghost var done: seq<real> := [];
    for k := 0 to |workloads|
      invariant done == workloads[..k]
      invariant engine.Valid() && engine.config == config
      invariant AllServable(s, done) && NonNegative(done)
      invariant engine.boundedHistory == Requirements(s, done)
      invariant rows == Decisions(s, done)
    {
      TakeOneMore(workloads, k);
      var row := engine.Decide(workloads[k]);
      if row.Failure? {
        AcceptedAt(s, workloads);
        return Failure(row.error);
      }
      Extend(s, done, workloads[k]);
      NonNegativeExtend(done, workloads[k]);
      rows := rows + [row.value];
      done := done + [workloads[k]];
    }
    TakeAll(workloads);
    AcceptedAt(s, workloads);
    return Success(rows);
  }
}

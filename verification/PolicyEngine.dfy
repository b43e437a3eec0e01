/** The deployed replica policy: validation, the capacity scan and the stateful decision step. */
module PolicyEngine {
  import opened Basics
  import opened Capacity
  import opened PolicyModel
  import opened PolicyDecisions

  datatype Config = Config(
    policyId: string, policyVersion: string, lookup: Lookup,
    horizonSecs: int, intervalSecs: int, minimum: int, maximum: int, initial: int,
    safetyFactor: real, stabilizationSecs: int, maxDownStep: int, maxUpStep: int)

  datatype PolicyError = InvalidConfig | NegativeWorkload | ExceedsCapacity

  ghost predicate ValidConfig(c: Config) {
    && c.policyId != "" && c.policyVersion != ""
    && 1 <= c.minimum <= c.maximum
    && c.minimum <= c.initial <= c.maximum
    && c.safetyFactor > 0.0
    && c.intervalSecs > 0 && c.horizonSecs > 0
    && c.stabilizationSecs >= 0 && c.stabilizationSecs % c.intervalSecs == 0
    && c.maxDownStep >= 1 && c.maxUpStep >= 0
    && ValidLookup(c.lookup, c.minimum, c.maximum)
  }

  /** A configured up-step of 0 means unlimited. */
  function SettingsOf(c: Config): Settings
    requires c.intervalSecs > 0 && c.stabilizationSecs >= 0 && c.maxDownStep >= 0
  {
    Settings(c.lookup, c.minimum, c.maximum, c.safetyFactor,
             Params(c.initial, c.stabilizationSecs / c.intervalSecs, c.maxDownStep,
                    if c.maxUpStep > 0 then Some(c.maxUpStep) else None))
  }

  method Validate(c: Config) returns (ok: bool)
    ensures ok <==> ValidConfig(c)
  {
    if c.policyId == "" || c.policyVersion == "" { return false; }
    if c.minimum < 1 || c.maximum < c.minimum { return false; }
    if c.initial < c.minimum || c.initial > c.maximum { return false; }
    if c.safetyFactor <= 0.0 { return false; }
    if c.intervalSecs <= 0 || c.horizonSecs <= 0 { return false; }
    if c.stabilizationSecs < 0 || c.stabilizationSecs % c.intervalSecs != 0 { return false; }
    if c.maxDownStep < 1 || c.maxUpStep < 0 { return false; }
    ok := CheckLookup(c.lookup, c.minimum, c.maximum);
  }

  /** The scan over the stabilization window at the end of the history. */
  method WindowMaximum(history: seq<int>, windowSamples: nat, ghost p: Params) returns (stabilized: int)
    requires history != [] && p.window == windowSamples
    ensures stabilized == Stabilized(p, history)
  {
    stabilized := Last(history);
    ghost var suffix := Suffix(history, Span(p));
    if windowSamples > 0 {
      var start := |history| - windowSamples;
      if start < 0 {
        start := 0;
      }
      assert suffix == history[start..];
      assert suffix[|suffix| - 1] == stabilized;
      for k := start to |history|
        invariant exists i :: 0 <= i < |suffix| && suffix[i] == stabilized
        invariant forall i :: start <= i < k ==> history[i] <= stabilized
      {
        assert history[k] == suffix[k - start];
        if history[k] > stabilized {
          stabilized := history[k];
        }
      }
      assert forall i :: 0 <= i < |suffix| ==> suffix[i] == history[start + i];
      var at := MaxOfAttained(suffix);
    } else {
      assert suffix == [Last(history)];
    }
  }

  /** The command allowed by the step limits; an up-step of 0 is no limit. */
  method LimitStep(previous: int, stabilized: int, maxDownStep: nat, maxUpStep: nat, ghost p: Params)
    returns (commanded: int)
    requires p.down == maxDownStep && p.up == if maxUpStep > 0 then Some(maxUpStep) else None
    ensures commanded == Next(p, previous, stabilized)
  {
    commanded := previous;
    if stabilized > previous {
      commanded := stabilized;
      if maxUpStep > 0 && commanded > previous + maxUpStep {
        commanded := previous + maxUpStep;
      }
    } else if stabilized < previous {
      commanded := previous - maxDownStep;
      if commanded < stabilized {
        commanded := stabilized;
      }
    }
  }

  class Engine {
    const config: Config
    var history: seq<int>
    var command: int
    var sequence: nat

    ghost predicate Valid()
      reads this
    {
      && ValidConfig(config)
      && command == Command(SettingsOf(config).params, history)
      && sequence == |history|
    }

    constructor (config: Config)
      requires ValidConfig(config)
      ensures Valid() && this.config == config && history == []
    {
      this.config := config;
      history, command, sequence := [], config.initial, 0;
    }

    static method New(config: Config) returns (r: Result<Engine, PolicyError>)
      ensures r.Success? <==> ValidConfig(config)
      ensures r.Success? ==> fresh(r.value) && r.value.Valid() && r.value.config == config && r.value.history == []
    {
      var ok := Validate(config);
      if !ok {
        return Failure(InvalidConfig);
      }
      var e := new Engine(config);
      return Success(e);
    }

    method RawReplicas(workload: real) returns (r: Result<(int, real), PolicyError>)
      requires ValidConfig(config)
      ensures r == if workload < 0.0 then Failure(NegativeWorkload)
                   else if !Servable(SettingsOf(config), workload) then Failure(ExceedsCapacity)
                   else Success((Required(config.lookup, Adjusted(SettingsOf(config), workload)).value,
                                 Adjusted(SettingsOf(config), workload)))
    {
      if workload < 0.0 {
        return Failure(NegativeWorkload);
      }
      var adjusted := workload * config.safetyFactor;
      var raw := ScanRequired(config.lookup, adjusted);
      if raw.None? {
        return Failure(ExceedsCapacity);
      }
      return Success((raw.value, adjusted));
    }

    method Decide(workload: real) returns (r: Result<Decision, PolicyError>)
      requires Valid()
      modifies this
      ensures Valid()
      ensures r.Failure? ==> history == old(history) && command == old(command) && sequence == old(sequence)
      ensures r.Success? <==> workload >= 0.0 && Servable(SettingsOf(config), workload)
      ensures r.Success? ==>
                && history == old(history) + [Bounded(SettingsOf(config), workload)]
                && r.value == DecisionOf(SettingsOf(config), history, workload)
    {
      var rawResult := RawReplicas(workload);
      if rawResult.Failure? {
        return Failure(rawResult.error);
      }
      var (raw, adjusted) := rawResult.value;
      var bounded := raw;
      if bounded < config.minimum {
        bounded := config.minimum;
      }
      if bounded > config.maximum {
        bounded := config.maximum;
      }
      ghost var s := SettingsOf(config);
      ghost var p := s.params;
      assert bounded == Bounded(s, workload);
      history := history + [bounded];
      assert Front(history) == old(history);
      var stabilized := WindowMaximum(history, config.stabilizationSecs / config.intervalSecs, p);
      var previous := command;
      var commanded := LimitStep(previous, stabilized, config.maxDownStep, config.maxUpStep, p);
      var action := Keep;
      if commanded > previous {
        action := ScaleUp;
      } else if commanded < previous {
        action := ScaleDown;
      }
      var decision := Decision(sequence, workload, adjusted, raw, bounded, stabilized, previous,
                               commanded, action, bounded < previous && commanded >= previous);
      assert commanded == Command(p, history);
      assert decision == DecisionOf(s, history, workload);
      command, sequence := commanded, sequence + 1;
      return Success(decision);
    }
  }
}

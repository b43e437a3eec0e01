/** The reactive safety engine: configuration and observation checks, and the stateful evaluation,
    in the deployed form and in the reference form that also accepts a missing observation. */
module SafetyEngine {
  import opened Basics
  import opened Capacity
  import opened SafetyHistory

  datatype Config = Config(
    policyId: string, policyVersion: string, intervalSecs: int, persistenceSecs: int, holdSecs: int,
    minimum: int, maximum: int, lookup: Lookup)

  datatype Observation = Observation(
    runId: string, sequence: int, windowStartMs: int, windowEndMs: int, dispatchCount: int, demand: real)

  datatype Decision = Decision(
    sequence: nat, demand: Option<real>, ready: int, readyCapacity: real, overload: bool,
    protectionNeeded: bool, overloadWindows: nat, triggered: bool, event: Event, active: bool,
    required: int, floor: int, predictive: int, final: int, changesCommand: bool, holdRemainingSecs: int)

  datatype SafetyError = InvalidConfig | InvalidObservation | PredictiveOutOfBounds | UnknownReady | ExceedsCapacity

  ghost predicate ValidTiming(c: Config) {
    && c.intervalSecs > 0
    && c.persistenceSecs >= c.intervalSecs && c.persistenceSecs % c.intervalSecs == 0
    && c.holdSecs >= 0 && c.holdSecs % c.intervalSecs == 0
  }

  ghost predicate ValidConfig(c: Config) {
    && c.policyId != "" && c.policyVersion != ""
    && ValidTiming(c)
    && 1 <= c.minimum <= c.maximum
    && ValidLookup(c.lookup, c.minimum, c.maximum)
  }

  method Validate(c: Config) returns (ok: bool)
    ensures ok <==> ValidConfig(c)
  {
    if c.policyId == "" || c.policyVersion == "" || c.intervalSecs <= 0 { return false; }
    if c.persistenceSecs < c.intervalSecs || c.persistenceSecs % c.intervalSecs != 0 { return false; }
    if c.holdSecs < 0 || c.holdSecs % c.intervalSecs != 0 { return false; }
    if c.minimum < 1 || c.maximum < c.minimum { return false; }
    ok := CheckLookup(c.lookup, c.minimum, c.maximum);
  }

  /** Persistence and hold counted in observation windows. */
  function ParamsOf(c: Config): Params
    requires c.intervalSecs > 0 && c.persistenceSecs >= 0 && c.holdSecs >= 0
  {
    Params(c.persistenceSecs / c.intervalSecs, c.holdSecs / c.intervalSecs, c.minimum)
  }

  /** The demand an observation reports is its dispatch count over its window. */
  predicate ObservationOk(o: Observation, intervalSecs: int)
    requires intervalSecs > 0
  {
    && o.runId != "" && o.sequence >= 0 && o.windowStartMs >= 0
    && o.windowEndMs - o.windowStartMs == intervalSecs * 1000
    && o.dispatchCount >= 0 && o.demand >= 0.0
    && var gap := o.dispatchCount as real / intervalSecs as real - o.demand;
       -TOLERANCE <= gap <= TOLERANCE
  }

  /** What an evaluation feeds to the state machine, or why it is rejected. */
  function Observed(c: Config, demand: Option<real>, ready: int, predictive: int): Result<Sample, SafetyError> {
    if predictive < c.minimum || predictive > c.maximum then Failure(PredictiveOutOfBounds)
    else if CapacityOf(c.lookup, ready).None? then Failure(UnknownReady)
    else if demand.None? then Success(Sample(false, c.minimum, false))
    else if demand.value < 0.0 || Required(c.lookup, demand.value).None? then Failure(ExceedsCapacity)
    else
      var required := Required(c.lookup, demand.value).value;
      Success(Sample(demand.value > CapacityOf(c.lookup, ready).value + TOLERANCE, required, required > predictive))
  }

  /** The decision reported for a window that extends the history `h`. */
  function DecisionOf(c: Config, p: Params, h: seq<Sample>, demand: Option<real>, ready: int, predictive: int): Decision
    requires Observed(c, demand, ready, predictive).Success?
  {
    var x := Observed(c, demand, ready, predictive).value;
    var (s, triggered, event) := Step(p, After(p, h), x);
    var floor := EffectiveFloor(p, s);
    var final := Max(predictive, floor);
    Decision(|h|, demand, ready, CapacityOf(c.lookup, ready).value, x.overload, x.protection,
             s.overloadWindows, triggered, event, s.active, x.required, floor, predictive, final,
             final > predictive, s.holdWindows * c.intervalSecs)
  }

  // ---------------------------------------------------------------- what a window says

  /** There is a demand, and it is more than `replicas` can serve. */
  ghost predicate Exceeded(c: Config, demand: Option<real>, replicas: int) {
    demand.Some? && Exceeds(c.lookup, demand.value, replicas)
  }

  /** The count the demand needs; without a demand, the minimum. */
  ghost predicate Needs(c: Config, demand: Option<real>, required: int) {
    match demand
    case None => required == c.minimum
    case Some(rps) => Fewest(c.lookup, rps, required)
  }

  /** The predictive command is in bounds, the Ready count is listed and some listed count serves the demand. */
  ghost predicate Acceptable(c: Config, demand: Option<real>, ready: int, predictive: int) {
    && c.minimum <= predictive <= c.maximum
    && (exists p :: p in c.lookup && p.replicas == ready)
    && (demand.Some? ==> demand.value >= 0.0 && exists p :: p in c.lookup && demand.value <= p.rps + TOLERANCE)
  }

  /** What is accepted, and what an accepted window reports: an overload is a demand beyond the Ready
      replicas, and protection is needed from a demand beyond the predictive command. */
  lemma WindowMeaning(c: Config, demand: Option<real>, ready: int, predictive: int)
    requires Increasing(c.lookup)
    ensures var x := Observed(c, demand, ready, predictive);
            && (x.Success? <==> Acceptable(c, demand, ready, predictive))
            && (x.Success? ==>
                  && (x.value.overload <==> Exceeded(c, demand, ready))
                  && (x.value.protection <==> Exceeded(c, demand, predictive))
                  && Needs(c, demand, x.value.required))
  {
    if CapacityOf(c.lookup, ready).Some? {
      ListedExceeds(c.lookup, if demand.Some? then demand.value else 0.0,
                    Point(ready, CapacityOf(c.lookup, ready).value));
    }
    if demand.Some? {
      RequiredIsFewest(c.lookup, demand.value);
      if Required(c.lookup, demand.value).Some? {
        RequiredExceeds(c.lookup, demand.value, predictive);
      }
    }
  }

  /** What a decision says about its own window. */
  ghost predicate Reported(c: Config, demand: Option<real>, ready: int, predictive: int, d: Decision) {
    && d.demand == demand && d.ready == ready && d.predictive == predictive
    && Point(ready, d.readyCapacity) in c.lookup
    && (d.overload <==> Exceeded(c, demand, ready))
    && (d.protectionNeeded <==> Exceeded(c, demand, predictive))
    && Needs(c, demand, d.required)
    && d.final == Max(predictive, d.floor) && (d.changesCommand <==> d.floor > predictive)
  }

  /** An evaluation succeeds on exactly the acceptable windows, with a decision that says so of its window. */
  ghost predicate Truthful(c: Config, demand: Option<real>, ready: int, predictive: int,
                           r: Result<Decision, SafetyError>) {
    Increasing(c.lookup) ==>
      && (r.Success? <==> Acceptable(c, demand, ready, predictive))
      && (r.Success? ==> Reported(c, demand, ready, predictive, r.value))
  }

  lemma DecisionReports(c: Config, p: Params, h: seq<Sample>, demand: Option<real>, ready: int, predictive: int)
    ensures var x := Observed(c, demand, ready, predictive);
            forall r: Result<Decision, SafetyError> ::
              (r.Success? <==> x.Success?)
              && (r.Success? ==> r.value == DecisionOf(c, p, h, demand, ready, predictive)) ==>
                Truthful(c, demand, ready, predictive, r)
  {
    if Increasing(c.lookup) {
      WindowMeaning(c, demand, ready, predictive);
    }
  }

  class Engine {
    const config: Config
    var overloadWindows: nat
    var holdWindows: nat
    var floor: int
    var active: bool
    var sequence: nat
    /** Every accepted window so far. */
    ghost var history: seq<Sample>

    ghost predicate Valid()
      reads this
    {
      && config.intervalSecs > 0 && config.persistenceSecs >= 0 && config.holdSecs >= 0
      && State(overloadWindows, holdWindows, floor, active) == After(ParamsOf(config), history)
      && sequence == |history|
    }

    constructor (config: Config)
      requires ValidTiming(config)
      ensures Valid() && this.config == config && history == []
    {
      this.config := config;
      overloadWindows, holdWindows, floor, active, sequence := 0, 0, config.minimum, false, 0;
      history := [];
    }

    static method New(config: Config) returns (r: Result<Engine, SafetyError>)
      ensures r.Success? <==> ValidConfig(config)
      ensures r.Success? ==> fresh(r.value) && r.value.Valid() && r.value.config == config && r.value.history == []
    {
      var ok := Validate(config);
      if !ok {
        return Failure(InvalidConfig);
      }
      var e := new Engine(config);
      return Success(e);
    }

    /** The deployed evaluation: an observation that fails any check leaves the engine as it was. */
    method Evaluate(o: Observation, ready: int, predictive: int) returns (r: Result<Decision, SafetyError>)
      requires Valid()
      modifies this
      ensures Valid()
      ensures r.Success? <==> ObservationOk(o, config.intervalSecs)
                              && Observed(config, Some(o.demand), ready, predictive).Success?
      ensures r.Failure? ==> unchanged(this)
      ensures r.Failure? && ObservationOk(o, config.intervalSecs) ==>
                r.error == Observed(config, Some(o.demand), ready, predictive).error
      ensures r.Success? ==>
                && history == old(history) + [Observed(config, Some(o.demand), ready, predictive).value]
                && r.value == DecisionOf(config, ParamsOf(config), old(history), Some(o.demand), ready, predictive)
      ensures Increasing(config.lookup) ==>
                && (r.Success? <==> ObservationOk(o, config.intervalSecs)
                                    && Acceptable(config, Some(o.demand), ready, predictive))
                && (r.Success? ==> Reported(config, Some(o.demand), ready, predictive, r.value))
    {
      if !ObservationOk(o, config.intervalSecs) {
        return Failure(InvalidObservation);
      }
      r := EvaluateDemand(Some(o.demand), ready, predictive);
    }

    /** The reference evaluation. A missing observation counts as no overload and no protection. */
    method EvaluateDemand(demand: Option<real>, ready: int, predictive: int) returns (r: Result<Decision, SafetyError>)
      requires Valid()
      modifies this
      ensures Valid()
      ensures r.Success? <==> Observed(config, demand, ready, predictive).Success?
      ensures r.Failure? ==> unchanged(this) && r.error == Observed(config, demand, ready, predictive).error
      ensures r.Success? ==>
                && history == old(history) + [Observed(config, demand, ready, predictive).value]
                && r.value == DecisionOf(config, ParamsOf(config), old(history), demand, ready, predictive)
      ensures Truthful(config, demand, ready, predictive, r)
    {
      ghost var x := Observed(config, demand, ready, predictive);
      ghost var p := ParamsOf(config);
      DecisionReports(config, p, history, demand, ready, predictive);
      if predictive < config.minimum || predictive > config.maximum {
        return Failure(PredictiveOutOfBounds);
      }
      var capacity := ScanCapacity(config.lookup, ready);
      if capacity.None? {
        return Failure(UnknownReady);
      }
      var overload, required := false, config.minimum;
      if demand.Some? {
        var needed := ScanRequired(config.lookup, demand.value);
        if demand.value < 0.0 || needed.None? {
          return Failure(ExceedsCapacity);
        }
        overload, required := demand.value > capacity.value + TOLERANCE, needed.value;
      }
      var protectionNeeded := demand.Some? && required > predictive;
      assert x == Success(Sample(overload, required, protectionNeeded));
      var triggered, event := Advance(overload, required, protectionNeeded, p);
      var safetyFloor := if active then floor else config.minimum;
      var final := if safetyFloor > predictive then safetyFloor else predictive;
      var decision := Decision(sequence, demand, ready, capacity.value, overload, protectionNeeded,
                               overloadWindows, triggered, event, active, required, safetyFloor, predictive,
                               final, final > predictive, holdWindows * config.intervalSecs);
      sequence := sequence + 1;
      return Success(decision);
    }

    /** The counter, floor and flag updates of one accepted window. */
    method Advance(overload: bool, required: int, protectionNeeded: bool, ghost p: Params)
      returns (triggered: bool, event: Event)
      requires Valid() && p == ParamsOf(config)
      modifies this`overloadWindows, this`holdWindows, this`floor, this`active, this`history
      ensures var x := Sample(overload, required, protectionNeeded);
              && history == old(history) + [x]
              && (State(overloadWindows, holdWindows, floor, active), triggered, event)
                 == Step(p, After(p, old(history)), x)
              && After(p, history) == State(overloadWindows, holdWindows, floor, active)
    {
      overloadWindows := if overload then overloadWindows + 1 else 0;
      triggered := overload && overloadWindows >= config.persistenceSecs / config.intervalSecs;
      event := NoEvent;
      if triggered {
        var oldFloor := floor;
        if required > floor {
          floor := required;
        }
        holdWindows := config.holdSecs / config.intervalSecs;
        if !active {
          event := Started;
        } else if floor > oldFloor {
          event := Raised;
        }
        active := true;
      } else if active {
        if protectionNeeded {
          holdWindows := config.holdSecs / config.intervalSecs;
        } else if holdWindows > 0 {
          holdWindows := holdWindows - 1;
        }
        if !protectionNeeded && holdWindows == 0 {
          active, floor, event := false, config.minimum, Released;
        }
      }
      history := history + [Sample(overload, required, protectionNeeded)];
      assert Front(history) == old(history);
    }
  }
}

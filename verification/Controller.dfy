/** The controller: the one writer of the Deployment, fed by the tick loop and by observations.
    Every method is one step of the state machine in ControllerModel. */
module Controller {
  import opened Basics
  import opened Capacity
  import opened PolicyDecisions
  import opened ControllerModel
  import SafetyEngine
  import PolicyEngine
  import Arbiter
  import Forecast

  datatype TickError = MissingForecast | PolicyFailure | ArbitrationFailure | ScaleFailure

  const READY_READ_MAX_ATTEMPTS: nat := 3

  /** The first successful answer among the attempts the controller makes. */
  function FirstReady(attempts: seq<Option<int>>, limit: nat): Option<int> {
    if limit == 0 || attempts == [] then None
    else if attempts[0].Some? then attempts[0]
    else FirstReady(attempts[1..], limit - 1)
  }

  method ReadReadyReplicas(attempts: seq<Option<int>>) returns (ready: Option<int>)
    ensures ready == FirstReady(attempts, READY_READ_MAX_ATTEMPTS)
  {
    var attempt := 1;
    while attempt <= READY_READ_MAX_ATTEMPTS && attempt <= |attempts|
      invariant 1 <= attempt <= |attempts| + 1 && attempt <= READY_READ_MAX_ATTEMPTS + 1
      invariant FirstReady(attempts, READY_READ_MAX_ATTEMPTS)
             == FirstReady(attempts[attempt - 1..], READY_READ_MAX_ATTEMPTS + 1 - attempt)
    {
      if attempts[attempt - 1].Some? {
        return attempts[attempt - 1];
      }
      attempt := attempt + 1;
    }
    return None;
  }

  /** The count is read from the first of three attempts that succeeds. */
  lemma {:induction false} FirstOfThree(attempts: seq<Option<int>>, n: int)
    ensures FirstReady(attempts, READY_READ_MAX_ATTEMPTS) == Some(n)
       <==> exists k :: 0 <= k < |attempts| && k < 3 && attempts[k] == Some(n)
                        && forall i :: 0 <= i < k ==> attempts[i].None?
  {
    FirstOf(attempts, READY_READ_MAX_ATTEMPTS, n);
  }

  lemma {:induction false} FirstOf(attempts: seq<Option<int>>, limit: nat, n: int)
    ensures FirstReady(attempts, limit) == Some(n)
       <==> exists k :: 0 <= k < |attempts| && k < limit && attempts[k] == Some(n)
                        && forall i :: 0 <= i < k ==> attempts[i].None?
  {
    if limit > 0 && attempts != [] && attempts[0].None? {
      FirstOf(attempts[1..], limit - 1, n);
      if k :| 0 <= k < |attempts| - 1 && k < limit - 1 && attempts[1..][k] == Some(n)
              && forall i :: 0 <= i < k ==> attempts[1..][i].None? {
        assert attempts[k + 1] == Some(n);
      }
      if k :| 0 <= k < |attempts| && k < limit && attempts[k] == Some(n)
              && forall i :: 0 <= i < k ==> attempts[i].None? {
        assert attempts[1..][k - 1] == Some(n);
      }
    }
  }

  /** The predictions of an accepted trace, in row order. */
  function Predictions(rows: seq<Forecast.Row>): (f: seq<real>)
    ensures |f| == |rows|
  {
    if rows == [] then [] else Predictions(Front(rows)) + [Last(rows).predictedRps]
  }

  lemma {:induction false} PredictionsExtend(rows: seq<Forecast.Row>, k: nat)
    requires k < |rows|
    ensures Predictions(rows[..k + 1]) == Predictions(rows[..k]) + [rows[k].predictedRps]
  {
    assert Front(rows[..k + 1]) == rows[..k];
  }

  /** With a safety factor of at most 1 the policy serves everything the forecast contract admits. */
  lemma ContractIsServable(c: PolicyEngine.Config, rps: real)
    requires PolicyEngine.ValidConfig(c) && c.safetyFactor <= 1.0
    requires 0.0 <= rps <= Last(c.lookup).rps + TOLERANCE
    ensures Servable(PolicyEngine.SettingsOf(c), rps)
  {
    assert rps * c.safetyFactor <= rps;
    RequiredDefined(c.lookup, rps * c.safetyFactor);
  }

  lemma AdjustedAbove(s: Settings, workload: real)
    requires s.factor > 1.0 && workload > 0.0
    ensures Adjusted(s, workload) > workload
  {
    assert (s.factor - 1.0) * workload > 0.0;
  }

  /** The forecast contract protects the policy exactly when the safety factor is at most 1. */
  lemma ContractProtectsPolicy(c: PolicyEngine.Config)
    requires PolicyEngine.ValidConfig(c) && Last(c.lookup).rps > 0.0
    ensures c.safetyFactor <= 1.0
       <==> forall rps :: 0.0 <= rps <= Last(c.lookup).rps + TOLERANCE ==> Servable(PolicyEngine.SettingsOf(c), rps)
  {
    if c.safetyFactor <= 1.0 {
      forall rps | 0.0 <= rps <= Last(c.lookup).rps + TOLERANCE
        ensures Servable(PolicyEngine.SettingsOf(c), rps)
      {
        ContractIsServable(c, rps);
      }
    } else {
      var most := Last(c.lookup).rps + TOLERANCE;
      var s := PolicyEngine.SettingsOf(c);
      AdjustedAbove(s, most);
      RequiredDefined(c.lookup, Adjusted(s, most));
      assert !Servable(s, most);
    }
  }

  class Controller {
    const config: Config
    const policy: PolicyEngine.Engine
    const arbiter: Arbiter.Engine
    /** Present exactly when safety is enabled. */
    const safety: SafetyEngine.Engine?
    var pending: Option<Decision>
    var deployment: int
    var finals: seq<int>
    var writes: seq<int>
    var running: bool
    var scaleOk: bool
    var everyOk: bool

    ghost predicate Valid()
      reads this, policy, safety
    {
      && ValidConfig(config)
      && policy.Valid() && policy.config == config.policy
      && (safety != null <==> config.safetyEnabled)
      && (safety != null ==> safety.Valid() && safety.config == config.safety)
    }

    ghost function View(): Sys
      reads this, policy, arbiter, safety
    {
      Sys(policy.history, pending, arbiter.state, if safety == null then [] else safety.history,
          deployment, finals, writes, running, scaleOk, everyOk)
    }

    ghost function Settings(): PolicyDecisions.Settings
      requires PolicyEngine.ValidConfig(config.policy)
    {
      PolicySettings(config)
    }

    /** The preflight check: the Deployment must start at the configured initial count. */
    static method Start(config: Config, current: int) returns (r: Option<Controller>)
      requires ValidConfig(config)
      ensures r.Some? <==> current == config.policy.initial
      ensures r.Some? ==> fresh(r.value) && r.value.Valid() && r.value.config == config
                          && r.value.View() == Initial(config)
    {
      if current != config.policy.initial {
        return None;
      }
      var c := new Controller(config, current);
      return Some(c);
    }

    constructor (config: Config, current: int)
      requires ValidConfig(config) && current == config.policy.initial
      ensures Valid() && this.config == config && View() == Initial(config)
      ensures fresh(policy) && fresh(arbiter) && (safety != null ==> fresh(safety))
    {
      this.config := config;
      policy := new PolicyEngine.Engine(config.policy);
      arbiter := new Arbiter.Engine(config.policy.minimum, config.policy.maximum, config.policy.initial);
      if config.safetyEnabled {
        safety := new SafetyEngine.Engine(config.safety);
      } else {
        safety := null;
      }
      pending, deployment, finals, writes := None, current, [], [];
      running, scaleOk, everyOk := true, true, true;
    }

    method ApplyFinalDecision(prior: int, action: Action, final: int, reply: Reply) returns (ok: bool)
      requires action == Change(prior, final)
      modifies this`deployment, this`finals, this`writes, this`scaleOk, this`everyOk
      ensures View() == Apply(old(View()), prior, final, reply)
      ensures ok <==> Acknowledged(prior, final, reply)
    {
      finals := finals + [final];
      if action == Keep {
        return true;
      }
      writes := writes + [final];
      match reply
      case ApiError =>
        scaleOk, everyOk := false, false;
        return false;
      case Acked(replicas) =>
        deployment, scaleOk := replicas, replicas == final;
        if replicas != final {
          everyOk := false;
          return false;
        }
        return true;
    }

    /** The part of a tick before the lock: look up the row and decide. */
    method TickDecide(row: Option<real>) returns (error: Option<TickError>)
      requires Valid() && running && pending.None?
      modifies this`pending, this`running, policy
      ensures Valid() && View() == DecideStep(Settings(), old(View()), row)
      ensures error.None? <==> running
      ensures error.None? <==> pending.Some?
      ensures error.None? <==> row.Some? && row.value >= 0.0 && Servable(Settings(), row.value)
      ensures error.Some? ==> error.value == if row.None? then MissingForecast else PolicyFailure
    {
      if row.None? {
        running := false;
        return Some(MissingForecast);
      }
      var decision := policy.Decide(row.value);
      if decision.Failure? {
        running := false;
        return Some(PolicyFailure);
      }
      pending := Some(decision.value);
      return None;
    }

    /** The part of a tick under the lock. Without safety the policy's own action decides whether an
        update is sent. */
    method TickCommit(reply: Reply) returns (error: Option<TickError>)
      requires Valid() && pending.Some?
      requires pending.value.action == Change(pending.value.prior, pending.value.commanded)
      modifies this, arbiter
      ensures Valid() && View() == CommitStep(config.safetyEnabled, old(View()), reply)
      ensures old(running) ==> (error.None? <==> running)
    {
      if config.safetyEnabled {
        error := CommitArbitrated(reply);
      } else {
        error := CommitDirectly(reply);
      }
    }

    method CommitArbitrated(reply: Reply) returns (error: Option<TickError>)
      requires Valid() && pending.Some?
      modifies this, arbiter
      ensures Valid() && View() == CommitStep(true, old(View()), reply)
      ensures old(running) ==> (error.None? <==> running)
    {
      var decision := pending.value;
      pending := None;
      error := ArbitrateCommand(decision.commanded, reply);
      if error.Some? {
        running := false;
      }
    }

    /** A predictive command is arbitrated and the final applied. */
    method ArbitrateCommand(commanded: int, reply: Reply) returns (error: Option<TickError>)
      modifies this, arbiter
      ensures var s, a := old(View()), Arbiter.Update(old(arbiter.state), commanded, old(arbiter.state).safetyFloor);
              && View() == (if a.None? then s else Apply(s.(arbiter := a.value), s.arbiter.final, a.value.final, reply))
              && (error.None? <==> a.Some? && Acknowledged(s.arbiter.final, a.value.final, reply))
    {
      var arbitrated := arbiter.UpdatePredictive(commanded);
      if arbitrated.Failure? {
        return Some(ArbitrationFailure);
      }
      var a := arbitrated.value;
      var ok := ApplyFinalDecision(a.priorFinal, a.action, a.final, reply);
      return if ok then None else Some(ScaleFailure);
    }

    method CommitDirectly(reply: Reply) returns (error: Option<TickError>)
      requires Valid() && pending.Some?
      requires pending.value.action == Change(pending.value.prior, pending.value.commanded)
      modifies this
      ensures Valid() && View() == CommitStep(false, old(View()), reply)
      ensures old(running) ==> (error.None? <==> running)
    {
      var decision := pending.value;
      pending := None;
      var ok := ApplyFinalDecision(decision.prior, decision.action, decision.commanded, reply);
      if !ok {
        running := false;
        return Some(ScaleFailure);
      }
      return None;
    }

    /** A safety observation, entirely under the lock. */
    method SafetyTick(observation: SafetyEngine.Observation, attempts: seq<Option<int>>,
                      reply: Reply) returns (ok: bool)
      requires Valid() && config.safetyEnabled
      modifies this, safety, arbiter
      ensures Valid()
      ensures View() == ObserveStep(config.safety, SafetyParams(config), old(View()),
                                   observation, FirstReady(attempts, READY_READ_MAX_ATTEMPTS), reply)
      ensures ok <==> ObserveSucceeds(config.safety, SafetyParams(config), old(View()),
                                      observation, FirstReady(attempts, READY_READ_MAX_ATTEMPTS), reply)
    {
      var ready := ReadReadyReplicas(attempts);
      if ready.None? {
        return false;
      }
      var predictive, _, _ := arbiter.Snapshot();
      var decision := safety.Evaluate(observation, ready.value, predictive);
      if decision.Failure? {
        return false;
      }
      assert Front(safety.history) == old(safety.history);
      ok := RaiseFloor(decision.value.floor, reply);
    }

    /** The floor of an accepted observation is arbitrated and its final applied. */
    method RaiseFloor(floor: int, reply: Reply) returns (ok: bool)
      modifies this, arbiter
      ensures var s, a := old(View()), Arbiter.Update(old(arbiter.state), old(arbiter.state).predictive, floor);
              && View() == (if a.None? then s else Apply(s.(arbiter := a.value), s.arbiter.final, a.value.final, reply))
              && (ok <==> a.Some? && Acknowledged(s.arbiter.final, a.value.final, reply))
    {
      var arbitrated := arbiter.UpdateSafetyFloor(floor);
      if arbitrated.Failure? {
        return false;
      }
      var a := arbitrated.value;
      ok := ApplyFinalDecision(a.priorFinal, a.action, a.final, reply);
    }

    /** One tick of the loop: its row is looked up by its decision offset. */
    method Tick(trace: Forecast.Trace, issuedMs: int, reply: Reply) returns (error: Option<TickError>)
      requires Valid() && running && pending.None?
      modifies this, policy, arbiter
      ensures Valid()
      ensures var row := if issuedMs in trace.byIssued then Some(trace.byIssued[issuedMs].predictedRps) else None;
              var decided := DecideStep(Settings(), old(View()), row);
              View() == if decided.running then CommitStep(config.safetyEnabled, decided, reply) else decided
      ensures error.None? <==> running
    {
      var row := if issuedMs in trace.byIssued then Some(trace.byIssued[issuedMs].predictedRps) else None;
      error := TickDecide(row);
      if error.None? {
        error := TickCommit(reply);
      }
    }

    /** Between ticks: nothing is pending, the loop goes on and the joint invariant holds. */
    ghost predicate Idle()
      reads this, policy, arbiter, safety
    {
      && Valid() && running && pending.None?
      && Invariant(config, Settings(), View())
    }

    /** The decisions so far are those on `done`. */
    ghost predicate Decided(done: seq<real>)
      requires PolicyEngine.ValidConfig(config.policy)
      reads this, policy
    {
      AllServable(Settings(), done) && policy.history == Requirements(Settings(), done)
    }

    /** The tick of row `k` of an accepted forecast. */
    method TickRow(trace: Forecast.Trace, ghost q: Forecast.Requirements, k: nat, reply: Reply, ghost done: seq<real>)
      returns (error: Option<TickError>)
      requires Idle() && Decided(done) && k < |trace.rows|
      requires Forecast.RowOk(q, trace.rows[k], k) && Forecast.Indexed(q, trace)
      requires q.maximumRps == Last(config.policy.lookup).rps
      modifies this, policy, arbiter
      ensures Valid()
      ensures config.policy.safetyFactor <= 1.0 && error.Some? ==> !scaleOk
      ensures error.None? ==> Idle() && Decided(done + [trace.rows[k].predictedRps])
    {
      var row := trace.rows[k];
      ghost var s := Settings();
      ValidIsSound(config);
      TickKeeps(config, s, View(), row.predictedRps, reply);
      if config.policy.safetyFactor <= 1.0 {
        ContractIsServable(config.policy, row.predictedRps);
      }
      if Servable(s, row.predictedRps) {
        Extend(s, done, row.predictedRps);
      }
      error := Tick(trace, row.issuedMs, reply);
    }

    /** The tick loop over an accepted forecast makes one decision per row, and stops early only
        when an update fails or is acknowledged with another count. */
    method RunAfterPreflight(trace: Forecast.Trace, q: Forecast.Requirements, replies: seq<Reply>)
      returns (error: Option<TickError>)
      requires Valid() && View() == Initial(config)
      requires Forecast.Contract(q, trace.rows) && Forecast.Indexed(q, trace)
      requires q.maximumRps == Last(config.policy.lookup).rps && |replies| == |trace.rows|
      modifies this, policy, arbiter
      ensures Valid()
      ensures config.policy.safetyFactor <= 1.0 && error.Some? ==> !scaleOk
      ensures error.None? ==> Decided(Predictions(trace.rows)) && policy.sequence == |trace.rows|
    {
      ValidIsSound(config);
      InitialInvariant(config, Settings());
      ghost var done: seq<real> := [];
      for k := 0 to |trace.rows|
        invariant Idle() && Decided(done)
        invariant done == Predictions(trace.rows[..k])
      {
        error := TickRow(trace, q, k, replies[k], done);
        if error.Some? {
          return;
        }
        PredictionsExtend(trace.rows, k);
        done := done + [trace.rows[k].predictedRps];
      }
      assert trace.rows[..|trace.rows|] == trace.rows;
      return None;
    }
  }
}

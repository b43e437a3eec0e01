/** The controller as a state machine over its lock-protected steps: a predictive tick decides
    outside `decisionMu` and commits under it, a safety observation runs entirely under it, and
    both write the one Deployment. */
module ControllerModel {
  import opened Basics
  import opened Capacity
  import opened PolicyModel
  import opened PolicyDecisions
  import SafetyHistory
  import SafetyEngine
  import PolicyEngine
  import Arbiter

  datatype Config = Config(policy: PolicyEngine.Config, safety: SafetyEngine.Config, safetyEnabled: bool)

  /** What a scale update returns. */
  datatype Reply = ApiError | Acked(replicas: int)

  /** `Decide(None)` is a tick whose forecast row is missing; `ready == None` is a failed Ready read. */
  datatype Event =
    | Decide(row: Option<real>)
    | Commit(reply: Reply)
    | Observe(observation: SafetyEngine.Observation, ready: Option<int>, reply: Reply)

  /** `requirements` and `samples` are the histories of the two engines; `finals` are the final
      counts of the records written, `writes` the scale updates sent; `running` says the tick loop
      has not returned an error, `scaleOk` that the last update sent, if any, was acknowledged as sent,
      and `everyOk` that all of them were. */
  datatype Sys = Sys(
    requirements: seq<int>, pending: Option<Decision>, arbiter: Arbiter.State,
    samples: seq<SafetyHistory.Sample>, deployment: int, finals: seq<int>, writes: seq<int>,
    running: bool, scaleOk: bool, everyOk: bool)

  /** Without safety no safety configuration is loaded, and the one recorded here is ignored. */
  ghost predicate ValidConfig(c: Config) {
    PolicyEngine.ValidConfig(c.policy) && (c.safetyEnabled ==> SafetyEngine.ValidConfig(c.safety))
  }

  /** A valid observation that needs more replicas than a maximum. */
  predicate Excessive(c: SafetyEngine.Config, maximum: int, o: SafetyEngine.Observation)
    requires c.intervalSecs > 0
  {
    && SafetyEngine.ObservationOk(o, c.intervalSecs)
    && Required(c.lookup, o.demand).Some? && Required(c.lookup, o.demand).value > maximum
  }

  ghost predicate WithinMaximum(c: SafetyEngine.Config, maximum: int)
    requires c.intervalSecs > 0
  {
    forall o :: !Excessive(c, maximum, o)
  }

  /** With safety the two configurations have the same minimum, and no valid observation needs more
      than the policy's maximum. */
  ghost predicate Compatible(c: Config) {
    && ValidConfig(c)
    && (c.safetyEnabled ==> c.policy.minimum == c.safety.minimum && WithinMaximum(c.safety, c.policy.maximum))
  }

  /** A lookup that ends within the maximum meets the last condition. */
  lemma ExactLookupIsWithin(c: SafetyEngine.Config, maximum: int)
    requires SafetyEngine.ValidConfig(c) && Last(c.lookup).replicas <= maximum
    ensures WithinMaximum(c, maximum)
  {
    forall o
      ensures !Excessive(c, maximum, o)
    {
      RequiredDefined(c.lookup, o.demand);
    }
  }

  function SafetyParams(c: Config): SafetyHistory.Params
    requires c.safetyEnabled ==>
               c.safety.intervalSecs > 0 && c.safety.persistenceSecs >= 0 && c.safety.holdSecs >= 0
  {
    if c.safetyEnabled then SafetyEngine.ParamsOf(c.safety) else SafetyHistory.Params(0, 0, c.policy.minimum)
  }

  function PolicySettings(c: Config): Settings
    requires c.policy.intervalSecs > 0 && c.policy.stabilizationSecs >= 0 && c.policy.maxDownStep >= 0
  {
    PolicyEngine.SettingsOf(c.policy)
  }

  /** The state after the preflight check that the Deployment has the configured initial count. */
  function Initial(c: Config): Sys {
    Sys([], None, Arbiter.Initial(c.policy.minimum, c.policy.maximum, c.policy.initial), [],
        c.policy.initial, [], [], true, true, true)
  }

  /** Apply a final count: send an update only when it differs from the prior final. */
  function Apply(s: Sys, prior: int, final: int, reply: Reply): Sys {
    var logged := s.(finals := s.finals + [final]);
    if final == prior then logged
    else
      var sent := logged.(writes := s.writes + [final]);
      match reply
      case ApiError => sent.(scaleOk := false, everyOk := false)
      case Acked(n) => sent.(deployment := n, scaleOk := n == final, everyOk := s.everyOk && n == final)
  }

  predicate Acknowledged(prior: int, final: int, reply: Reply) {
    final == prior || reply == Acked(final)
  }

  function DecideStep(s: Settings, sys: Sys, row: Option<real>): Sys {
    if !sys.running || sys.pending.Some? then sys
    else if row.None? || row.value < 0.0 || !Servable(s, row.value) then sys.(running := false)
    else
      var requirements := sys.requirements + [Bounded(s, row.value)];
      sys.(requirements := requirements, pending := Some(DecisionOf(s, requirements, row.value)))
  }

  function CommitStep(enabled: bool, sys: Sys, reply: Reply): Sys {
    if sys.pending.None? then sys
    else
      var d := sys.pending.value;
      var free := sys.(pending := None);
      if enabled then
        match Arbiter.Update(sys.arbiter, d.commanded, sys.arbiter.safetyFloor)
        case None => free.(running := false)
        case Some(a) =>
          Apply(free.(arbiter := a, running := sys.running && Acknowledged(sys.arbiter.final, a.final, reply)),
                sys.arbiter.final, a.final, reply)
      else
        Apply(free.(running := sys.running && Acknowledged(d.prior, d.commanded, reply)), d.prior, d.commanded, reply)
  }

  function ObserveStep(c: SafetyEngine.Config, p: SafetyHistory.Params, sys: Sys,
                       o: SafetyEngine.Observation, ready: Option<int>, reply: Reply): Sys
    requires c.intervalSecs > 0
  {
    if ready.None? || !SafetyEngine.ObservationOk(o, c.intervalSecs) then sys
    else
      match SafetyEngine.Observed(c, Some(o.demand), ready.value, sys.arbiter.predictive)
      case Failure(_) => sys
      case Success(x) => AcceptStep(p, sys, x, reply)
  }

  /** An accepted window moves the safety engine, then its floor is arbitrated and applied. */
  function AcceptStep(p: SafetyHistory.Params, sys: Sys, x: SafetyHistory.Sample, reply: Reply): Sys {
    var samples := sys.samples + [x];
    var floor := SafetyHistory.EffectiveFloor(p, SafetyHistory.After(p, samples));
    var seen := sys.(samples := samples);
    match Arbiter.Update(sys.arbiter, sys.arbiter.predictive, floor)
    case None => seen
    case Some(a) => Apply(seen.(arbiter := a), sys.arbiter.final, a.final, reply)
  }

  /** The observation is accepted, its floor arbitrated and its final applied. */
  predicate ObserveSucceeds(c: SafetyEngine.Config, p: SafetyHistory.Params, sys: Sys,
                            o: SafetyEngine.Observation, ready: Option<int>, reply: Reply)
    requires c.intervalSecs > 0
  {
    && ready.Some? && SafetyEngine.ObservationOk(o, c.intervalSecs)
    && var x := SafetyEngine.Observed(c, Some(o.demand), ready.value, sys.arbiter.predictive);
    && x.Success?
    && var floor := SafetyHistory.EffectiveFloor(p, SafetyHistory.After(p, sys.samples + [x.value]));
    && var a := Arbiter.Update(sys.arbiter, sys.arbiter.predictive, floor);
    && a.Some? && Acknowledged(sys.arbiter.final, a.value.final, reply)
  }

  function Step(c: Config, s: Settings, p: SafetyHistory.Params, sys: Sys, e: Event): Sys
    requires c.safetyEnabled ==> c.safety.intervalSecs > 0
  {
    match e
    case Decide(row) => DecideStep(s, sys, row)
    case Commit(reply) => CommitStep(c.safetyEnabled, sys, reply)
    case Observe(o, ready, reply) =>
      if c.safetyEnabled then ObserveStep(c.safety, p, sys, o, ready, reply) else sys
  }

  function Run(c: Config, s: Settings, p: SafetyHistory.Params, events: seq<Event>): Sys
    requires c.safetyEnabled ==> c.safety.intervalSecs > 0
  {
    if events == [] then Initial(c) else Step(c, s, p, Run(c, s, p, Front(events)), Last(events))
  }

  // ---------------------------------------------------------------- the log of writes

  /** A sequence without its repeats of the element before, where `prior` precedes the first. */
  function Destutter(prior: int, finals: seq<int>): seq<int> {
    if finals == [] then []
    else if Last(finals) == LastOr(prior, Front(finals)) then Destutter(prior, Front(finals))
    else Destutter(prior, Front(finals)) + [Last(finals)]
  }

  function LastOr(prior: int, finals: seq<int>): int {
    if finals == [] then prior else Last(finals)
  }

  lemma DestutterExtend(prior: int, finals: seq<int>, final: int)
    ensures Destutter(prior, finals + [final])
         == if final == LastOr(prior, finals) then Destutter(prior, finals) else Destutter(prior, finals) + [final]
    ensures LastOr(prior, finals + [final]) == final
  {
    assert Front(finals + [final]) == finals;
  }

  // ---------------------------------------------------------------- the invariant

  /** The command of the last committed tick. */
  function Committed(s: Settings, sys: Sys): int {
    if sys.pending.Some? && sys.requirements != [] then Command(s.params, Front(sys.requirements))
    else Command(s.params, sys.requirements)
  }

  /** The final count in force. */
  function Final(enabled: bool, s: Settings, sys: Sys): int {
    if enabled then sys.arbiter.final else Committed(s, sys)
  }

  ghost predicate PolicyPart(s: Settings, sys: Sys) {
    && (forall i :: 0 <= i < |sys.requirements| ==> s.minimum <= sys.requirements[i] <= s.maximum)
    && (sys.pending.Some? ==>
          && sys.requirements != []
          && sys.pending.value.commanded == Command(s.params, sys.requirements)
          && sys.pending.value.prior == Command(s.params, Front(sys.requirements)))
  }

  ghost predicate ArbiterPart(s: Settings, sys: Sys) {
    && sys.arbiter.minimum == s.minimum && sys.arbiter.maximum == s.maximum
    && sys.arbiter.predictive == Committed(s, sys)
    && Arbiter.InBounds(sys.arbiter, sys.arbiter.safetyFloor)
    && sys.arbiter.final == Max(sys.arbiter.predictive, sys.arbiter.safetyFloor)
  }

  ghost predicate LogPart(enabled: bool, s: Settings, sys: Sys) {
    && sys.writes == Destutter(s.params.initial, sys.finals)
    && LastOr(s.params.initial, sys.finals) == Final(enabled, s, sys)
    && (sys.scaleOk ==> sys.deployment == Final(enabled, s, sys))
  }

  /** What the steps need of the settings: those of the policy, with the initial count in bounds. */
  ghost predicate Sound(c: Config, s: Settings) {
    && s.minimum <= s.params.initial <= s.maximum
    && c.policy.minimum == s.minimum && c.policy.maximum == s.maximum && c.policy.initial == s.params.initial
    && (c.safetyEnabled ==> c.safety.intervalSecs > 0)
  }

  lemma ValidIsSound(c: Config)
    requires ValidConfig(c)
    ensures Sound(c, PolicySettings(c))
  {
  }

  /** What every run keeps, whatever the two configurations have in common. */
  ghost predicate Invariant(c: Config, s: Settings, sys: Sys) {
    && PolicyPart(s, sys)
    && (c.safetyEnabled ==> ArbiterPart(s, sys))
    && LogPart(c.safetyEnabled, s, sys)
  }

  /** Applying a final extends the log correctly, whatever the update returns. */
  lemma ApplyKeepsLog(enabled: bool, s: Settings, before: Sys, updated: Sys, final: int, reply: Reply)
    requires LogPart(enabled, s, before)
    requires (updated.finals, updated.writes, updated.deployment, updated.scaleOk)
          == (before.finals, before.writes, before.deployment, before.scaleOk)
    requires Final(enabled, s, Apply(updated, Final(enabled, s, before), final, reply)) == final
    ensures LogPart(enabled, s, Apply(updated, Final(enabled, s, before), final, reply))
  {
    DestutterExtend(s.params.initial, before.finals, final);
  }

  lemma CommandBounds(s: Settings, sys: Sys)
    requires s.minimum <= s.params.initial <= s.maximum && PolicyPart(s, sys)
    ensures s.minimum <= Command(s.params, sys.requirements) <= s.maximum
    ensures s.minimum <= Committed(s, sys) <= s.maximum
  {
    CommandInBounds(s.params, sys.requirements, s.minimum, s.maximum);
    if sys.requirements != [] {
      CommandInBounds(s.params, Front(sys.requirements), s.minimum, s.maximum);
    }
  }

  lemma DecideKeeps(c: Config, s: Settings, sys: Sys, row: Option<real>)
    requires Sound(c, s) && Invariant(c, s, sys)
    ensures Invariant(c, s, DecideStep(s, sys, row))
  {
    var sys' := DecideStep(s, sys, row);
    if sys'.pending.Some? && sys.pending.None? {
      assert Front(sys'.requirements) == sys.requirements;
      assert sys'.pending.value.commanded == Command(s.params, sys'.requirements);
      assert Committed(s, sys') == Committed(s, sys);
    }
  }

  /** The arbiter accepts every command the policy can reach. */
  lemma CommitUpdates(s: Settings, sys: Sys)
    requires s.minimum <= s.params.initial <= s.maximum
    requires PolicyPart(s, sys) && ArbiterPart(s, sys) && sys.pending.Some?
    ensures var d := sys.pending.value;
            Arbiter.Update(sys.arbiter, d.commanded, sys.arbiter.safetyFloor)
            == Some(sys.arbiter.(predictive := d.commanded, final := Max(d.commanded, sys.arbiter.safetyFloor)))
  {
    CommandBounds(s, sys);
  }

  lemma ArbitratedCommitKeepsParts(s: Settings, sys: Sys, reply: Reply)
    requires s.minimum <= s.params.initial <= s.maximum
    requires PolicyPart(s, sys) && ArbiterPart(s, sys) && sys.pending.Some?
    ensures var sys' := CommitStep(true, sys, reply);
            PolicyPart(s, sys') && ArbiterPart(s, sys')
  {
    CommitUpdates(s, sys);
  }

  lemma ArbitratedCommitKeeps(s: Settings, sys: Sys, reply: Reply)
    requires s.minimum <= s.params.initial <= s.maximum
    requires PolicyPart(s, sys) && ArbiterPart(s, sys) && LogPart(true, s, sys) && sys.pending.Some?
    ensures var sys' := CommitStep(true, sys, reply);
            PolicyPart(s, sys') && ArbiterPart(s, sys') && LogPart(true, s, sys')
  {
    ArbitratedCommitKeepsParts(s, sys, reply);
    CommitUpdates(s, sys);
    var d := sys.pending.value;
    var a := sys.arbiter.(predictive := d.commanded, final := Max(d.commanded, sys.arbiter.safetyFloor));
    var free := sys.(pending := None, arbiter := a,
                     running := sys.running && Acknowledged(sys.arbiter.final, a.final, reply));
    ApplyKeepsLog(true, s, sys, free, a.final, reply);
  }

  lemma DirectCommitKeeps(s: Settings, sys: Sys, reply: Reply)
    requires PolicyPart(s, sys) && LogPart(false, s, sys) && sys.pending.Some?
    ensures var sys' := CommitStep(false, sys, reply);
            PolicyPart(s, sys') && LogPart(false, s, sys')
  {
    var d := sys.pending.value;
    var free := sys.(pending := None, running := sys.running && Acknowledged(d.prior, d.commanded, reply));
    ApplyKeepsLog(false, s, sys, free, d.commanded, reply);
  }

  lemma CommitKeeps(c: Config, s: Settings, sys: Sys, reply: Reply)
    requires Sound(c, s) && Invariant(c, s, sys)
    ensures Invariant(c, s, CommitStep(c.safetyEnabled, sys, reply))
  {
    if sys.pending.Some? {
      if c.safetyEnabled {
        ArbitratedCommitKeeps(s, sys, reply);
      } else {
        DirectCommitKeeps(s, sys, reply);
      }
    }
  }

  /** The floor that a window implies, and what the arbiter makes of it: an update, or a refusal. */
  lemma AcceptCases(p: SafetyHistory.Params, sys: Sys, x: SafetyHistory.Sample, reply: Reply)
    ensures var floor := SafetyHistory.EffectiveFloor(p, SafetyHistory.After(p, sys.samples + [x]));
            var seen := sys.(samples := sys.samples + [x]);
            var a := sys.arbiter.(safetyFloor := floor, final := Max(sys.arbiter.predictive, floor));
            AcceptStep(p, sys, x, reply)
            == if Arbiter.InBounds(sys.arbiter, sys.arbiter.predictive) && Arbiter.InBounds(sys.arbiter, floor)
               then Apply(seen.(arbiter := a), sys.arbiter.final, a.final, reply) else seen
  {
  }

  lemma AcceptKeepsParts(s: Settings, p: SafetyHistory.Params, sys: Sys, x: SafetyHistory.Sample, reply: Reply)
    requires PolicyPart(s, sys) && ArbiterPart(s, sys)
    ensures var sys' := AcceptStep(p, sys, x, reply);
            PolicyPart(s, sys') && ArbiterPart(s, sys')
  {
    AcceptCases(p, sys, x, reply);
    assert Committed(s, AcceptStep(p, sys, x, reply)) == Committed(s, sys);
  }

  lemma AcceptKeeps(s: Settings, p: SafetyHistory.Params, sys: Sys, x: SafetyHistory.Sample, reply: Reply)
    requires PolicyPart(s, sys) && ArbiterPart(s, sys) && LogPart(true, s, sys)
    ensures var sys' := AcceptStep(p, sys, x, reply);
            PolicyPart(s, sys') && ArbiterPart(s, sys') && LogPart(true, s, sys')
  {
    AcceptKeepsParts(s, p, sys, x, reply);
    AcceptCases(p, sys, x, reply);
    var floor := SafetyHistory.EffectiveFloor(p, SafetyHistory.After(p, sys.samples + [x]));
    var seen := sys.(samples := sys.samples + [x]);
    if Arbiter.InBounds(sys.arbiter, sys.arbiter.predictive) && Arbiter.InBounds(sys.arbiter, floor) {
      var a := sys.arbiter.(safetyFloor := floor, final := Max(sys.arbiter.predictive, floor));
      ApplyKeepsLog(true, s, sys, seen.(arbiter := a), a.final, reply);
    }
  }

  lemma ObserveKeeps(c: Config, s: Settings, p: SafetyHistory.Params, sys: Sys,
                     o: SafetyEngine.Observation, ready: Option<int>, reply: Reply)
    requires Sound(c, s) && Invariant(c, s, sys) && c.safetyEnabled
    ensures Invariant(c, s, ObserveStep(c.safety, p, sys, o, ready, reply))
  {
    if ready.Some? {
      var observed := SafetyEngine.Observed(c.safety, Some(o.demand), ready.value, sys.arbiter.predictive);
      if observed.Success? {
        AcceptKeeps(s, p, sys, observed.value, reply);
      }
    }
  }

  lemma InitialInvariant(c: Config, s: Settings)
    requires Sound(c, s)
    ensures Invariant(c, s, Initial(c))
  {
  }

  /** Every interleaving of ticks and observations keeps the invariant. */
  lemma {:induction false} RunKeeps(c: Config, s: Settings, p: SafetyHistory.Params, events: seq<Event>)
    requires Sound(c, s)
    ensures Invariant(c, s, Run(c, s, p, events))
  {
    if events != [] {
      RunKeeps(c, s, p, Front(events));
      var sys := Run(c, s, p, Front(events));
      match Last(events)
      case Decide(row) => DecideKeeps(c, s, sys, row);
      case Commit(reply) => CommitKeeps(c, s, sys, reply);
      case Observe(o, ready, reply) =>
        if c.safetyEnabled {
          ObserveKeeps(c, s, p, sys, o, ready, reply);
        }
    }
  }

  // ---------------------------------------------------------------- the main results

  /** Single-writer agreement: between steps, whenever the last update sent was acknowledged as sent
      or none was sent, the Deployment has the final count in force. With safety that is the arbiter's,
      the larger of the committed predictive command and the floor it last accepted; without, it is the
      committed command. */
  lemma Agreement(c: Config, events: seq<Event>)
    requires ValidConfig(c)
    ensures var s := PolicySettings(c);
            var sys := Run(c, s, SafetyParams(c), events);
            && (c.safetyEnabled ==>
                  && sys.arbiter.predictive == Committed(s, sys)
                  && sys.arbiter.final == Max(sys.arbiter.predictive, sys.arbiter.safetyFloor))
            && (sys.scaleOk ==> sys.deployment == if c.safetyEnabled then sys.arbiter.final else Committed(s, sys))
  {
    ValidIsSound(c);
    RunKeeps(c, PolicySettings(c), SafetyParams(c), events);
  }

  /** The updates sent are the logged finals without consecutive repeats, even past a failure. */
  lemma WriteLog(c: Config, events: seq<Event>)
    requires ValidConfig(c)
    ensures var sys := Run(c, PolicySettings(c), SafetyParams(c), events);
            sys.writes == Destutter(c.policy.initial, sys.finals)
  {
    ValidIsSound(c);
    RunKeeps(c, PolicySettings(c), SafetyParams(c), events);
  }

  // ---------------------------------------------------------------- the arbiter and the safety engine

  /** The arbiter has the floor that the windows so far imply, and none of them needed more than the maximum. */
  ghost predicate FloorPart(p: SafetyHistory.Params, maximum: int, sys: Sys) {
    && sys.arbiter.safetyFloor == SafetyHistory.EffectiveFloor(p, SafetyHistory.After(p, sys.samples))
    && (forall i :: 0 <= i < |sys.samples| ==> sys.samples[i].required <= maximum)
  }

  /** The arbiter accepts every floor implied by windows within the maximum. */
  lemma AcceptUpdates(s: Settings, p: SafetyHistory.Params, sys: Sys, x: SafetyHistory.Sample, reply: Reply)
    requires s.minimum <= s.params.initial <= s.maximum && p.minimum == s.minimum
    requires PolicyPart(s, sys) && ArbiterPart(s, sys)
    requires FloorPart(p, s.maximum, sys) && x.required <= s.maximum
    ensures var floor := SafetyHistory.EffectiveFloor(p, SafetyHistory.After(p, sys.samples + [x]));
            var a := sys.arbiter.(safetyFloor := floor, final := Max(sys.arbiter.predictive, floor));
            AcceptStep(p, sys, x, reply)
            == Apply(sys.(samples := sys.samples + [x], arbiter := a), sys.arbiter.final, a.final, reply)
  {
    SafetyHistory.FloorBounds(p, sys.samples + [x], s.maximum);
    CommandBounds(s, sys);
    AcceptCases(p, sys, x, reply);
  }

  lemma AcceptKeepsFloor(s: Settings, p: SafetyHistory.Params, sys: Sys, x: SafetyHistory.Sample, reply: Reply)
    requires s.minimum <= s.params.initial <= s.maximum && p.minimum == s.minimum
    requires PolicyPart(s, sys) && ArbiterPart(s, sys)
    requires FloorPart(p, s.maximum, sys) && x.required <= s.maximum
    ensures FloorPart(p, s.maximum, AcceptStep(p, sys, x, reply))
  {
    AcceptUpdates(s, p, sys, x, reply);
    var samples := sys.samples + [x];
    var floor := SafetyHistory.EffectiveFloor(p, SafetyHistory.After(p, samples));
    var a := sys.arbiter.(safetyFloor := floor, final := Max(sys.arbiter.predictive, floor));
    ApplyKeepsRest(sys.(samples := samples, arbiter := a), sys.arbiter.final, a.final, reply);
  }

  /** Applying a final leaves the windows and the arbiter as they are. */
  lemma ApplyKeepsRest(s: Sys, prior: int, final: int, reply: Reply)
    ensures var s' := Apply(s, prior, final, reply); s'.samples == s.samples && s'.arbiter == s.arbiter
  {
  }

  lemma ObservedRequirement(c: SafetyEngine.Config, maximum: int, o: SafetyEngine.Observation,
                            ready: int, predictive: int)
    requires c.intervalSecs > 0 && WithinMaximum(c, maximum) && SafetyEngine.ObservationOk(o, c.intervalSecs)
    requires SafetyEngine.Observed(c, Some(o.demand), ready, predictive).Success?
    ensures SafetyEngine.Observed(c, Some(o.demand), ready, predictive).value.required <= maximum
  {
    assert !Excessive(c, maximum, o);
  }

  lemma ObserveKeepsFloor(c: Config, s: Settings, p: SafetyHistory.Params, sys: Sys,
                          o: SafetyEngine.Observation, ready: Option<int>, reply: Reply)
    requires Sound(c, s) && Invariant(c, s, sys) && c.safetyEnabled
    requires p.minimum == s.minimum && WithinMaximum(c.safety, s.maximum) && FloorPart(p, s.maximum, sys)
    ensures FloorPart(p, s.maximum, ObserveStep(c.safety, p, sys, o, ready, reply))
  {
    if ready.Some? {
      var observed := SafetyEngine.Observed(c.safety, Some(o.demand), ready.value, sys.arbiter.predictive);
      if observed.Success? && SafetyEngine.ObservationOk(o, c.safety.intervalSecs) {
        ObservedRequirement(c.safety, s.maximum, o, ready.value, sys.arbiter.predictive);
        AcceptKeepsFloor(s, p, sys, observed.value, reply);
      }
    }
  }

  lemma TickKeepsFloor(c: Config, s: Settings, p: SafetyHistory.Params, sys: Sys, e: Event)
    requires (c.safetyEnabled ==> c.safety.intervalSecs > 0) && !e.Observe?
    ensures Step(c, s, p, sys, e).samples == sys.samples
    ensures Step(c, s, p, sys, e).arbiter.safetyFloor == sys.arbiter.safetyFloor
  {
  }

  lemma {:induction false} RunKeepsFloor(c: Config, s: Settings, p: SafetyHistory.Params, events: seq<Event>)
    requires Sound(c, s) && c.safetyEnabled && p.minimum == s.minimum && WithinMaximum(c.safety, s.maximum)
    ensures FloorPart(p, s.maximum, Run(c, s, p, events))
  {
    if events != [] {
      var f, e := Front(events), Last(events);
      RunKeepsFloor(c, s, p, f);
      if e.Observe? {
        RunKeeps(c, s, p, f);
        ObserveKeepsFloor(c, s, p, Run(c, s, p, f), e.observation, e.ready, e.reply);
      } else {
        TickKeepsFloor(c, s, p, Run(c, s, p, f), e);
      }
    }
  }

  /** Between steps the arbiter has the floor that the observations so far imply, so the final count is
      the larger of that floor and the committed command. */
  lemma FloorAgreement(c: Config, events: seq<Event>)
    requires Compatible(c) && c.safetyEnabled
    ensures var s, p := PolicySettings(c), SafetyParams(c);
            var sys := Run(c, s, p, events);
            var floor := SafetyHistory.EffectiveFloor(p, SafetyHistory.After(p, sys.samples));
            sys.arbiter.safetyFloor == floor && sys.arbiter.final == Max(Committed(s, sys), floor)
  {
    ValidIsSound(c);
    RunKeepsFloor(c, PolicySettings(c), SafetyParams(c), events);
    Agreement(c, events);
  }

  /** The final that the safety engine reports on its own is the arbitrated one. */
  lemma SafetyFinalAgrees(c: Config, events: seq<Event>, o: SafetyEngine.Observation, ready: int, reply: Reply)
    requires Compatible(c) && c.safetyEnabled && SafetyEngine.ObservationOk(o, c.safety.intervalSecs)
    requires var sys := Run(c, PolicySettings(c), SafetyParams(c), events);
             SafetyEngine.Observed(c.safety, Some(o.demand), ready, sys.arbiter.predictive).Success?
    ensures var s, p := PolicySettings(c), SafetyParams(c);
            var sys := Run(c, s, p, events);
            var sys' := Run(c, s, p, events + [Observe(o, Some(ready), reply)]);
            var d := SafetyEngine.DecisionOf(c.safety, p, sys.samples, Some(o.demand), ready, sys.arbiter.predictive);
            sys'.arbiter.final == d.final && sys'.finals == sys.finals + [d.final]
  {
    var s, p := PolicySettings(c), SafetyParams(c);
    ValidIsSound(c);
    RunKeeps(c, s, p, events);
    RunKeepsFloor(c, s, p, events);
    assert Front(events + [Observe(o, Some(ready), reply)]) == events;
    var sys := Run(c, s, p, events);
    var x := SafetyEngine.Observed(c.safety, Some(o.demand), ready, sys.arbiter.predictive).value;
    ObservedRequirement(c.safety, s.maximum, o, ready, sys.arbiter.predictive);
    AcceptUpdates(s, p, sys, x, reply);
    EngineFinal(c.safety, p, sys.samples, o.demand, ready, sys.arbiter.predictive);
  }

  lemma EngineFinal(c: SafetyEngine.Config, p: SafetyHistory.Params, h: seq<SafetyHistory.Sample>,
                    demand: real, ready: int, predictive: int)
    requires SafetyEngine.Observed(c, Some(demand), ready, predictive).Success?
    ensures var x := SafetyEngine.Observed(c, Some(demand), ready, predictive).value;
            SafetyEngine.DecisionOf(c, p, h, Some(demand), ready, predictive).final
            == Max(predictive, SafetyHistory.EffectiveFloor(p, SafetyHistory.After(p, h + [x])))
  {
    var x := SafetyEngine.Observed(c, Some(demand), ready, predictive).value;
    assert Front(h + [x]) == h;
  }

  // ---------------------------------------------------------------- the tick loop

  /** A commit is never rejected by the arbiter: it stops the loop only by an unacknowledged update. */
  lemma CommitStops(c: Config, s: Settings, sys: Sys, reply: Reply)
    requires Sound(c, s) && Invariant(c, s, sys) && sys.pending.Some?
    ensures var sys' := CommitStep(c.safetyEnabled, sys, reply);
            && sys'.pending.None? && sys'.requirements == sys.requirements && sys'.samples == sys.samples
            && (sys'.running <==>
                sys.running && Acknowledged(Final(c.safetyEnabled, s, sys), Final(c.safetyEnabled, s, sys'), reply))
            && (sys.running && !sys'.running ==> !sys'.scaleOk && !sys'.everyOk)
            && (!sys.everyOk ==> !sys'.everyOk)
  {
    if c.safetyEnabled {
      CommitUpdates(s, sys);
    }
  }

  predicate RowAccepted(s: Settings, e: Event) {
    e.Decide? ==> e.row.Some? && e.row.value >= 0.0 && Servable(s, e.row.value)
  }

  /** The update of a commit, if it needed one, was acknowledged as sent. */
  predicate CommitOk(c: Config, s: Settings, sys: Sys, e: Event) {
    e.Commit? && sys.pending.Some? ==>
      Acknowledged(Final(c.safetyEnabled, s, sys),
                   Final(c.safetyEnabled, s, CommitStep(c.safetyEnabled, sys, e.reply)), e.reply)
  }

  predicate CommitsOk(c: Config, s: Settings, p: SafetyHistory.Params, events: seq<Event>)
    requires c.safetyEnabled ==> c.safety.intervalSecs > 0
  {
    events == [] || (CommitsOk(c, s, p, Front(events)) && CommitOk(c, s, Run(c, s, p, Front(events)), Last(events)))
  }

  lemma ObserveRuns(c: SafetyEngine.Config, p: SafetyHistory.Params, sys: Sys,
                    o: SafetyEngine.Observation, ready: Option<int>, reply: Reply)
    requires c.intervalSecs > 0
    ensures var sys' := ObserveStep(c, p, sys, o, ready, reply);
            sys'.running == sys.running && (!sys.everyOk ==> !sys'.everyOk)
  {
  }

  /** With an accepted row, a step stops the tick loop only by an unacknowledged update of its own. */
  lemma StepRuns(c: Config, s: Settings, p: SafetyHistory.Params, sys: Sys, e: Event)
    requires Sound(c, s) && Invariant(c, s, sys) && RowAccepted(s, e)
    ensures var sys' := Step(c, s, p, sys, e);
            && (sys'.running <==> sys.running && CommitOk(c, s, sys, e))
            && (sys.running || !sys.everyOk ==> sys'.running || !sys'.everyOk)
  {
    match e
    case Decide(_) =>
    case Commit(reply) =>
      if sys.pending.Some? {
        CommitStops(c, s, sys, reply);
      }
    case Observe(o, ready, reply) =>
      if c.safetyEnabled {
        ObserveRuns(c.safety, p, sys, o, ready, reply);
      }
  }

  lemma {:induction false} RunRuns(c: Config, s: Settings, p: SafetyHistory.Params, events: seq<Event>)
    requires Sound(c, s) && forall k :: 0 <= k < |events| ==> RowAccepted(s, events[k])
    ensures var sys := Run(c, s, p, events);
            (sys.running <==> CommitsOk(c, s, p, events)) && (sys.running || !sys.everyOk)
  {
    if events != [] {
      var f := Front(events);
      RunRuns(c, s, p, f);
      RunKeeps(c, s, p, f);
      assert RowAccepted(s, events[|events| - 1]);
      StepRuns(c, s, p, Run(c, s, p, f), Last(events));
    }
  }

  /** With accepted rows, in any interleaving with observations, the tick loop goes on exactly as long
      as every commit's own update is unneeded or acknowledged as sent; a lost safety update never
      stops it. */
  lemma NeverStalls(c: Config, events: seq<Event>)
    requires ValidConfig(c) && forall k :: 0 <= k < |events| ==> RowAccepted(PolicySettings(c), events[k])
    ensures var s, p := PolicySettings(c), SafetyParams(c);
            var sys := Run(c, s, p, events);
            (sys.running <==> CommitsOk(c, s, p, events)) && (sys.running || !sys.everyOk)
  {
    ValidIsSound(c);
    RunRuns(c, PolicySettings(c), SafetyParams(c), events);
  }

  /** One whole tick, decided and committed with nothing in between. */
  lemma TickKeeps(c: Config, s: Settings, sys: Sys, rps: real, reply: Reply)
    requires Sound(c, s) && Invariant(c, s, sys)
    requires sys.running && sys.pending.None? && rps >= 0.0
    ensures var decided := DecideStep(s, sys, Some(rps));
            && (decided.running <==> Servable(s, rps))
            && (decided.running ==>
                  var sys' := CommitStep(c.safetyEnabled, decided, reply);
                  && Invariant(c, s, sys') && sys'.pending.None? && sys'.samples == sys.samples
                  && sys'.requirements == sys.requirements + [Bounded(s, rps)]
                  && (sys'.running || !sys'.scaleOk))
  {
    var decided := DecideStep(s, sys, Some(rps));
    if decided.running {
      DecideKeeps(c, s, sys, Some(rps));
      CommitKeeps(c, s, decided, reply);
      CommitStops(c, s, decided, reply);
    }
  }

  // ---------------------------------------------------------------- safety that never triggers

  function WithoutObservations(events: seq<Event>): seq<Event> {
    if events == [] then []
    else if Last(events).Observe? then WithoutObservations(Front(events))
    else WithoutObservations(Front(events)) + [Last(events)]
  }

  function SafetyOff(c: Config): Config {
    c.(safetyEnabled := false)
  }

  /** The two runs agree on everything outside the safety layer and the record log. */
  ghost predicate SameTicks(x: Sys, y: Sys) {
    && x.requirements == y.requirements && x.pending == y.pending
    && x.deployment == y.deployment && x.writes == y.writes
    && x.running == y.running && x.scaleOk == y.scaleOk && x.everyOk == y.everyOk
  }

  ghost predicate Silent(p: SafetyHistory.Params, samples: seq<SafetyHistory.Sample>) {
    forall j :: !SafetyHistory.Triggered(p, samples, j)
  }

  lemma SilentFloor(p: SafetyHistory.Params, samples: seq<SafetyHistory.Sample>)
    requires Silent(p, samples)
    ensures SafetyHistory.EffectiveFloor(p, SafetyHistory.After(p, samples)) == p.minimum
  {
    SafetyHistory.Meaning(p, samples);
    assert forall j :: SafetyHistory.Live(p, samples, j) ==> SafetyHistory.Triggered(p, samples, j);
  }

  lemma SilentPrefix(p: SafetyHistory.Params, samples: seq<SafetyHistory.Sample>, x: SafetyHistory.Sample)
    requires Silent(p, samples + [x])
    ensures Silent(p, samples)
  {
    forall j
      ensures !SafetyHistory.Triggered(p, samples, j)
    {
      if j < |samples| {
        SafetyHistory.TriggeredPrefix(p, samples, x, j);
      }
    }
  }

  /** Without a trigger the arbiter's floor stays at the policy's minimum. */
  ghost predicate AtMinimum(s: Settings, sys: Sys) {
    sys.arbiter.safetyFloor == s.minimum
  }

  lemma SilentAccept(s: Settings, p: SafetyHistory.Params, sys: Sys, x: SafetyHistory.Sample, reply: Reply)
    requires s.minimum <= s.params.initial <= s.maximum && p.minimum <= s.minimum
    requires PolicyPart(s, sys) && ArbiterPart(s, sys) && AtMinimum(s, sys)
    requires Silent(p, sys.samples + [x])
    ensures SameTicks(AcceptStep(p, sys, x, reply), sys) && AtMinimum(s, AcceptStep(p, sys, x, reply))
  {
    SilentFloor(p, sys.samples + [x]);
    CommandBounds(s, sys);
    AcceptCases(p, sys, x, reply);
  }

  lemma SilentCommit(c: Config, s: Settings, on: Sys, off: Sys, reply: Reply)
    requires Sound(c, s) && c.safetyEnabled && Invariant(c, s, on)
    requires SameTicks(on, off) && AtMinimum(s, on)
    ensures SameTicks(CommitStep(true, on, reply), CommitStep(false, off, reply))
  {
    if on.pending.Some? {
      CommandBounds(s, on);
      CommitUpdates(s, on);
      var d := on.pending.value;
      var a := on.arbiter.(predictive := d.commanded, final := d.commanded);
      assert on.arbiter.final == d.prior;
      var running := on.running && Acknowledged(d.prior, d.commanded, reply);
      ApplySame(on.(pending := None, arbiter := a, running := running), off.(pending := None, running := running),
                d.prior, d.commanded, reply);
    }
  }

  lemma ApplySame(x: Sys, y: Sys, prior: int, final: int, reply: Reply)
    requires SameTicks(x, y)
    ensures SameTicks(Apply(x, prior, final, reply), Apply(y, prior, final, reply))
  {
  }

  lemma SilentObserve(c: Config, s: Settings, p: SafetyHistory.Params, sys: Sys,
                      o: SafetyEngine.Observation, ready: Option<int>, reply: Reply)
    requires Sound(c, s) && c.safetyEnabled && Invariant(c, s, sys) && p.minimum <= s.minimum
    requires Silent(p, ObserveStep(c.safety, p, sys, o, ready, reply).samples)
    ensures Silent(p, sys.samples)
    ensures AtMinimum(s, sys) ==>
              var sys' := ObserveStep(c.safety, p, sys, o, ready, reply);
              SameTicks(sys', sys) && AtMinimum(s, sys')
  {
    if ready.Some? {
      var observed := SafetyEngine.Observed(c.safety, Some(o.demand), ready.value, sys.arbiter.predictive);
      if observed.Success? && SafetyEngine.ObservationOk(o, c.safety.intervalSecs) {
        AcceptCases(p, sys, observed.value, reply);
        SilentPrefix(p, sys.samples, observed.value);
        if AtMinimum(s, sys) {
          SilentAccept(s, p, sys, observed.value, reply);
        }
      }
    }
  }

  /** A tick step takes both runs to states that agree again. */
  lemma SilentTick(c: Config, s: Settings, p: SafetyHistory.Params, on: Sys, off: Sys, e: Event)
    requires Sound(c, s) && c.safetyEnabled && Invariant(c, s, on)
    requires SameTicks(on, off) && AtMinimum(s, on) && !e.Observe?
    ensures SameTicks(Step(c, s, p, on, e), Step(SafetyOff(c), s, p, off, e))
  {
    if e.Commit? {
      SilentCommit(c, s, on, off, e.reply);
    }
  }

  lemma {:induction false} SilentRun(c: Config, s: Settings, p: SafetyHistory.Params, events: seq<Event>)
    requires Sound(c, s) && c.safetyEnabled && p.minimum <= s.minimum
    requires Silent(p, Run(c, s, p, events).samples)
    ensures SameTicks(Run(c, s, p, events), Run(SafetyOff(c), s, p, WithoutObservations(events)))
    ensures AtMinimum(s, Run(c, s, p, events))
  {
    if events != [] {
      var f, e := Front(events), Last(events);
      var on := Run(c, s, p, f);
      RunKeeps(c, s, p, f);
      if e.Observe? {
        SilentObserve(c, s, p, on, e.observation, e.ready, e.reply);
        SilentRun(c, s, p, f);
      } else {
        TickKeepsFloor(c, s, p, on, e);
        SilentRun(c, s, p, f);
        var kept := WithoutObservations(f);
        assert Front(kept + [e]) == kept;
        SilentTick(c, s, p, on, Run(SafetyOff(c), s, p, kept), e);
      }
    }
  }

  /** A run in which no window triggers sends exactly the updates of the run without safety, provided
      the safety minimum is not above the policy's. */
  lemma UntriggeredSafetyIsInvisible(c: Config, events: seq<Event>)
    requires ValidConfig(c) && c.safetyEnabled && c.safety.minimum <= c.policy.minimum
    requires var p := SafetyParams(c);
             Silent(p, Run(c, PolicySettings(c), p, events).samples)
    ensures var s, p := PolicySettings(c), SafetyParams(c);
            var on, off := Run(c, s, p, events), Run(SafetyOff(c), s, p, WithoutObservations(events));
            on.writes == off.writes && on.deployment == off.deployment
  {
    ValidIsSound(c);
    SilentRun(c, PolicySettings(c), SafetyParams(c), events);
  }
}

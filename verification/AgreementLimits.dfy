/** Where the agreement of Deployment, arbiter and engines ends: lost scale updates, lookups that go on
    past the replica maximum, and different minima. */
module AgreementLimits {
  import opened Basics
  import opened Capacity
  import opened PolicyModel
  import opened PolicyDecisions
  import opened ControllerModel
  import SafetyHistory
  import SafetyEngine
  import PolicyEngine
  import PolicyAgreement
  import ForecastQuality
  import Arbiter
  import Observations

  // ---------------------------------------------------------------- lost updates

  /** What one application of a final does to the updates and the Deployment. */
  lemma ApplySends(s: Sys, prior: int, final: int, reply: Reply)
    ensures var s' := Apply(s, prior, final, reply);
            && s'.finals == s.finals + [final]
            && (final == prior ==>
                  s'.writes == s.writes && s'.deployment == s.deployment && s'.scaleOk == s.scaleOk)
            && (final != prior ==>
                  && s'.writes == s.writes + [final]
                  && s'.deployment == (if reply.Acked? then reply.replicas else s.deployment)
                  && (s'.scaleOk <==> reply == Acked(final)))
  {
  }

  /** The later state has sent more updates, or its Deployment is as before. */
  ghost predicate Later(x: Sys, y: Sys) {
    && |x.finals| <= |y.finals| && y.finals[..|x.finals|] == x.finals
    && |x.writes| <= |y.writes|
    && (|x.writes| == |y.writes| ==> x.deployment == y.deployment && x.scaleOk == y.scaleOk)
  }

  /** When an update was sent, the Deployment is what its reply says. */
  ghost predicate Effect(x: Sys, y: Sys, reply: Reply) {
    |y.writes| > |x.writes| ==> y.deployment == if reply.Acked? then reply.replicas else x.deployment
  }

  lemma AppliedLater(sys: Sys, updated: Sys, prior: int, final: int, reply: Reply)
    requires (updated.finals, updated.writes, updated.deployment, updated.scaleOk)
          == (sys.finals, sys.writes, sys.deployment, sys.scaleOk)
    ensures var sys' := Apply(updated, prior, final, reply);
            && Later(sys, sys')
            && (|sys'.writes| > |sys.writes| ==> (sys'.scaleOk <==> reply == Acked(Last(sys'.writes))))
            && |sys'.finals| <= |sys.finals| + 1 && Effect(sys, sys', reply)
  {
    ApplySends(updated, prior, final, reply);
  }

  /** A step that sends an update reports whether it was acknowledged as sent, whatever came before. */
  lemma StepSends(c: Config, s: Settings, p: SafetyHistory.Params, sys: Sys, e: Event)
    requires c.safetyEnabled ==> c.safety.intervalSecs > 0
    ensures var sys' := Step(c, s, p, sys, e);
            && Later(sys, sys')
            && |sys'.finals| <= |sys.finals| + 1
            && (|sys'.writes| > |sys.writes| ==>
                  !e.Decide? && (sys'.scaleOk <==> e.reply == Acked(Last(sys'.writes))) && Effect(sys, sys', e.reply))
  {
    match e
    case Decide(_) =>
    case Commit(reply) => CommitSends(c.safetyEnabled, sys, reply);
    case Observe(o, ready, reply) =>
      if c.safetyEnabled && ready.Some? && SafetyEngine.ObservationOk(o, c.safety.intervalSecs) {
        var x := SafetyEngine.Observed(c.safety, Some(o.demand), ready.value, sys.arbiter.predictive);
        if x.Success? {
          AcceptSends(p, sys, x.value, reply);
        }
      }
  }

  lemma CommitSends(enabled: bool, sys: Sys, reply: Reply)
    ensures var sys' := CommitStep(enabled, sys, reply);
            && Later(sys, sys')
            && (|sys'.writes| > |sys.writes| ==> (sys'.scaleOk <==> reply == Acked(Last(sys'.writes))))
            && |sys'.finals| <= |sys.finals| + 1 && Effect(sys, sys', reply)
  {
    if sys.pending.Some? {
      var d := sys.pending.value;
      var free := sys.(pending := None);
      if enabled {
        var a := Arbiter.Update(sys.arbiter, d.commanded, sys.arbiter.safetyFloor);
        if a.Some? {
          var prior, final := sys.arbiter.final, a.value.final;
          AppliedLater(sys, free.(arbiter := a.value, running := sys.running && Acknowledged(prior, final, reply)),
                       prior, final, reply);
        }
      } else {
        AppliedLater(sys, free.(running := sys.running && Acknowledged(d.prior, d.commanded, reply)),
                     d.prior, d.commanded, reply);
      }
    }
  }

  lemma AcceptSends(p: SafetyHistory.Params, sys: Sys, x: SafetyHistory.Sample, reply: Reply)
    ensures var sys' := AcceptStep(p, sys, x, reply);
            && Later(sys, sys')
            && (|sys'.writes| > |sys.writes| ==> (sys'.scaleOk <==> reply == Acked(Last(sys'.writes))))
            && |sys'.finals| <= |sys.finals| + 1 && Effect(sys, sys', reply)
  {
    var samples := sys.samples + [x];
    var floor := SafetyHistory.EffectiveFloor(p, SafetyHistory.After(p, samples));
    var a := Arbiter.Update(sys.arbiter, sys.arbiter.predictive, floor);
    if a.Some? {
      AppliedLater(sys, sys.(samples := samples, arbiter := a.value), sys.arbiter.final, a.value.final, reply);
    }
  }

  /** The Deployment has the final count in force. */
  ghost predicate Agrees(c: Config, s: Settings, sys: Sys) {
    sys.deployment == Final(c.safetyEnabled, s, sys)
  }

  /** An update is sent exactly for a final that differs from the one in force. */
  lemma SentIsNew(enabled: bool, s: Settings, x: Sys, y: Sys)
    requires LogPart(enabled, s, x) && LogPart(enabled, s, y) && Later(x, y)
    requires |y.finals| <= |x.finals| + 1 && |y.writes| > |x.writes|
    ensures Last(y.writes) == Final(enabled, s, y) != Final(enabled, s, x)
  {
    assert |y.finals| == |x.finals| ==> y.finals == x.finals;
    assert y.finals == x.finals + [Last(y.finals)];
    DestutterExtend(s.params.initial, x.finals, Last(y.finals));
  }

  /** The next update that is acknowledged as sent restores agreement, whatever was lost before; from an
      agreeing state, one that is not acknowledged as sent ends it. */
  lemma AcknowledgedUpdateAgrees(c: Config, events: seq<Event>, e: Event)
    requires ValidConfig(c)
    requires var s, p := PolicySettings(c), SafetyParams(c);
             |Run(c, s, p, events + [e]).writes| > |Run(c, s, p, events).writes|
    ensures var s, p := PolicySettings(c), SafetyParams(c);
            var sys, sys' := Run(c, s, p, events), Run(c, s, p, events + [e]);
            && !e.Decide?
            && (e.reply == Acked(Last(sys'.writes)) ==> Agrees(c, s, sys'))
            && (Agrees(c, s, sys) ==> (Agrees(c, s, sys') <==> e.reply == Acked(Last(sys'.writes))))
  {
    var s, p := PolicySettings(c), SafetyParams(c);
    assert Front(events + [e]) == events;
    ValidIsSound(c);
    RunKeeps(c, s, p, events);
    RunKeeps(c, s, p, events + [e]);
    StepSends(c, s, p, Run(c, s, p, events), e);
    SentIsNew(c.safetyEnabled, s, Run(c, s, p, events), Run(c, s, p, events + [e]));
  }

  lemma LaterTrans(x: Sys, y: Sys, z: Sys)
    requires Later(x, y) && Later(y, z)
    ensures Later(x, z)
  {
    assert z.finals[..|x.finals|] == y.finals[..|x.finals|];
  }

  lemma {:induction false} RunLater(c: Config, s: Settings, p: SafetyHistory.Params, events: seq<Event>,
                                    more: seq<Event>)
    requires c.safetyEnabled ==> c.safety.intervalSecs > 0
    ensures Later(Run(c, s, p, events), Run(c, s, p, events + more))
  {
    if more == [] {
      assert events + more == events;
    } else {
      var f := events + Front(more);
      assert Front(events + more) == f;
      RunLater(c, s, p, events, Front(more));
      StepSends(c, s, p, Run(c, s, p, f), Last(more));
      LaterTrans(Run(c, s, p, events), Run(c, s, p, f), Run(c, s, p, events + more));
    }
  }

  lemma {:induction false} DestutterRepeats(prior: int, finals: seq<int>, more: seq<int>)
    requires |finals| <= |more| && more[..|finals|] == finals
    requires forall i :: |finals| <= i < |more| ==> more[i] == LastOr(prior, finals)
    ensures Destutter(prior, more) == Destutter(prior, finals)
    ensures LastOr(prior, more) == LastOr(prior, finals)
  {
    if |more| == |finals| {
      assert more == finals;
    } else {
      DestutterRepeats(prior, finals, Front(more));
    }
  }

  /** Every record written since the earlier state repeats the final in force there. */
  ghost predicate FinalRepeats(enabled: bool, s: Settings, x: Sys, y: Sys) {
    forall i :: |x.finals| <= i < |y.finals| ==> y.finals[i] == Final(enabled, s, x)
  }

  /** A lost update is not retried: while the final in force repeats, over any number of ticks and
      observations, no update is sent and the Deployment stays where it was. */
  lemma LostUpdateNotRetried(c: Config, events: seq<Event>, more: seq<Event>)
    requires ValidConfig(c)
    requires var s, p := PolicySettings(c), SafetyParams(c);
             FinalRepeats(c.safetyEnabled, s, Run(c, s, p, events), Run(c, s, p, events + more))
    ensures var s, p := PolicySettings(c), SafetyParams(c);
            var x, y := Run(c, s, p, events), Run(c, s, p, events + more);
            y.writes == x.writes && y.deployment == x.deployment && y.scaleOk == x.scaleOk
  {
    var s, p := PolicySettings(c), SafetyParams(c);
    ValidIsSound(c);
    RunKeeps(c, s, p, events);
    RunKeeps(c, s, p, events + more);
    RunLater(c, s, p, events, more);
    NothingSent(c.safetyEnabled, s, Run(c, s, p, events), Run(c, s, p, events + more));
  }

  lemma NothingSent(enabled: bool, s: Settings, x: Sys, y: Sys)
    requires LogPart(enabled, s, x) && LogPart(enabled, s, y) && Later(x, y)
    requires FinalRepeats(enabled, s, x, y)
    ensures y.writes == x.writes && y.deployment == x.deployment && y.scaleOk == x.scaleOk
  {
    DestutterRepeats(s.params.initial, x.finals, y.finals);
  }

  /** Two valid configurations over one lookup of two points. */
  function TwoPoints(maximum: int): Config {
    var lookup := [Point(1, 10.0), Point(2, 20.0)];
    Config(PolicyEngine.Config("policy", "1", lookup, 6, 1, 1, maximum, 1, 1.0, 30, 1, 0),
           SafetyEngine.Config("safety", "1", 1, 1, 0, 1, maximum, lookup), true)
  }

  /** One overloaded window: 15 dispatches in the first second. */
  const OVERLOAD := SafetyEngine.Observation("run", 0, 0, 1000, 15, 15.0)

  lemma TwoPointsObserved(maximum: int)
    requires maximum >= 1
    ensures var c := TwoPoints(maximum);
            var s, p := PolicySettings(c), SafetyParams(c);
            var x := SafetyHistory.Sample(true, 2, true);
            && Run(c, s, p, [Observe(OVERLOAD, Some(1), ApiError)]) == AcceptStep(p, Initial(c), x, ApiError)
            && SafetyHistory.After(p, [x]) == SafetyHistory.State(1, 0, 2, true)
  {
    var c := TwoPoints(maximum);
    var s, p := PolicySettings(c), SafetyParams(c);
    var e := Observe(OVERLOAD, Some(1), ApiError);
    var x := SafetyHistory.Sample(true, 2, true);
    assert Front([e]) == [];
    assert c.safety.lookup[1..] == [Point(2, 20.0)];
    assert FirstServing(c.safety.lookup, 15.0) == 1;
    assert SafetyEngine.Observed(c.safety, Some(15.0), 1, 1) == Success(x);
    assert Front([x]) == [] && SafetyHistory.After(p, [x]) == SafetyHistory.Step(p, SafetyHistory.Initial(p), x).0;
  }

  /** A safety update is lost; the tick that follows repeats the final, goes on without an error and
      leaves the Deployment at the count from before. */
  lemma LostUpdate()
    ensures var c := TwoPoints(2);
            var events := [Observe(OVERLOAD, Some(1), ApiError), Decide(Some(5.0)), Commit(Acked(1))];
            var sys := Run(c, PolicySettings(c), SafetyParams(c), events);
            && Compatible(c)
            && sys.running && sys.finals == [2, 2] && sys.writes == [2]
            && sys.arbiter.final == 2 && sys.deployment == 1
  {
    var c := TwoPoints(2);
    var s, p := PolicySettings(c), SafetyParams(c);
    ExactLookupIsWithin(c.safety, 2);
    TwoPointsObserved(2);
    var first, second, third := Observe(OVERLOAD, Some(1), ApiError), Decide(Some(5.0)), Commit(Acked(1));
    assert Front([first, second, third]) == [first, second] && Front([first, second]) == [first];
    var sys := Run(c, s, p, [first]);
    LostFirst();
    OneRequirement(s);
    FiveNeedsOne(s);
    RepeatedTick(s, sys, 5.0);
  }

  lemma LostFirst()
    ensures var c := TwoPoints(2);
            AcceptStep(SafetyParams(c), Initial(c), SafetyHistory.Sample(true, 2, true), ApiError)
            == Initial(c).(samples := [SafetyHistory.Sample(true, 2, true)], arbiter := Arbiter.State(1, 2, 1, 2, 2),
                           finals := [2], writes := [2], scaleOk := false, everyOk := false)
  {
    TwoPointsObserved(2);
    var x := SafetyHistory.Sample(true, 2, true);
    assert [] + [x] == [x];
  }

  /** A tick that commands one replica under a floor of two changes nothing but the log. */
  lemma RepeatedTick(s: Settings, sys: Sys, rps: real)
    requires sys.running && sys.pending.None? && sys.requirements == []
    requires sys.arbiter == Arbiter.State(1, 2, 1, 2, 2)
    requires rps >= 0.0 && Servable(s, rps) && Bounded(s, rps) == 1 && Command(s.params, [1]) == 1
    ensures var sys' := CommitStep(true, DecideStep(s, sys, Some(rps)), Acked(1));
            && sys'.running && sys'.arbiter.final == 2
            && sys'.finals == sys.finals + [2] && sys'.writes == sys.writes && sys'.deployment == sys.deployment
  {
    assert [] + [1] == [1];
    var decided := sys.(requirements := [1], pending := Some(DecisionOf(s, [1], rps)));
    assert DecideStep(s, sys, Some(rps)) == decided;
  }

  lemma FiveNeedsOne(s: Settings)
    requires |s.lookup| > 0 && s.lookup[0] == Point(1, 10.0) && s.factor == 1.0 && s.minimum == 1 <= s.maximum
    ensures Servable(s, 5.0) && Bounded(s, 5.0) == 1
  {
    assert Adjusted(s, 5.0) == 5.0;
  }

  lemma OneRequirement(s: Settings)
    requires s.params.initial == 1
    ensures Command(s.params, [1]) == 1
  {
    assert Front([1]) == [];
    var i := StabilizedAttained(s.params, [1]);
  }

  // ---------------------------------------------------------------- where agreement ends

  /** An accepted window leaves the arbiter with the engine's floor exactly when that floor is within
      the arbiter's bounds; otherwise the engine has moved and the arbiter has not. */
  lemma AcceptAgrees(p: SafetyHistory.Params, sys: Sys, x: SafetyHistory.Sample, reply: Reply)
    requires sys.arbiter.minimum == p.minimum
    requires Arbiter.InBounds(sys.arbiter, sys.arbiter.predictive)
    requires Arbiter.InBounds(sys.arbiter, sys.arbiter.safetyFloor)
    ensures var floor := SafetyHistory.EffectiveFloor(p, SafetyHistory.After(p, sys.samples + [x]));
            AcceptStep(p, sys, x, reply).arbiter.safetyFloor == floor <==> floor <= sys.arbiter.maximum
  {
    SafetyHistory.FloorFromMinimum(p, sys.samples + [x]);
    FloorTaken(p, sys, x, reply);
  }

  lemma FloorTaken(p: SafetyHistory.Params, sys: Sys, x: SafetyHistory.Sample, reply: Reply)
    ensures var floor := SafetyHistory.EffectiveFloor(p, SafetyHistory.After(p, sys.samples + [x]));
            AcceptStep(p, sys, x, reply).arbiter.safetyFloor
            == if Arbiter.InBounds(sys.arbiter, sys.arbiter.predictive) && Arbiter.InBounds(sys.arbiter, floor)
               then floor else sys.arbiter.safetyFloor
  {
  }

  /** Validation admits a lookup that goes on past the common maximum, and one overloaded window then
      separates the arbiter from the safety engine. */
  lemma OversizedLookupDisagrees()
    ensures var c := TwoPoints(1);
            var p := SafetyParams(c);
            var sys := Run(c, PolicySettings(c), p, [Observe(OVERLOAD, Some(1), ApiError)]);
            && ValidConfig(c) && c.policy.minimum == c.safety.minimum && c.policy.maximum == c.safety.maximum
            && SafetyHistory.EffectiveFloor(p, SafetyHistory.After(p, sys.samples)) == 2
            && sys.arbiter.safetyFloor == 1 && sys.arbiter.final == 1
  {
    TwoPointsObserved(1);
    var x := SafetyHistory.Sample(true, 2, true);
    assert [] + [x] == [x];
  }

  /** The arbiter has the floor of the safety engine. */
  ghost predicate FloorsAgree(c: Config, events: seq<Event>)
    requires ValidConfig(c)
  {
    var p := SafetyParams(c);
    var sys := Run(c, PolicySettings(c), p, events);
    sys.arbiter.safetyFloor == SafetyHistory.EffectiveFloor(p, SafetyHistory.After(p, sys.samples))
  }

  /** With the fewest listed replicas Ready it is an overload. */
  lemma ExcessObserved(c: SafetyEngine.Config, maximum: int, o: SafetyEngine.Observation, predictive: int)
    requires SafetyEngine.ValidConfig(c) && Excessive(c, maximum, o) && c.lookup[0].replicas <= maximum
    requires c.minimum <= predictive <= c.maximum && predictive <= maximum
    ensures SafetyEngine.Observed(c, Some(o.demand), c.lookup[0].replicas, predictive)
         == Success(SafetyHistory.Sample(true, Required(c.lookup, o.demand).value, true))
  {
    assert CapacityOf(c.lookup, c.lookup[0].replicas) == Some(c.lookup[0].rps);
    assert !Serves(c.lookup[0], o.demand);
  }

  /** The observation moved to window `k`. */
  function Numbered(intervalSecs: int, o: SafetyEngine.Observation, k: nat): SafetyEngine.Observation {
    var start := k * intervalSecs * 1000;
    o.(sequence := k, windowStartMs := start, windowEndMs := start + intervalSecs * 1000)
  }

  lemma NumberedExcess(c: SafetyEngine.Config, maximum: int, o: SafetyEngine.Observation, k: nat)
    requires c.intervalSecs > 0 && Excessive(c, maximum, o)
    ensures Excessive(c, maximum, Numbered(c.intervalSecs, o, k))
  {
    Observations.WindowStartNonNegative(k, c.intervalSecs);
  }

  /** An excessive observation for window `k`, with the fewest listed replicas Ready. */
  function ExcessEvent(c: SafetyEngine.Config, o: SafetyEngine.Observation, k: nat): Event
    requires |c.lookup| > 0
  {
    Observe(Numbered(c.intervalSecs, o, k), Some(c.lookup[0].replicas), ApiError)
  }

  /** A run ends with the tick of one row. */
  lemma RunEndsWithTick(c: Config, s: Settings, p: SafetyHistory.Params, before: seq<Event>, rps: real, reply: Reply,
                        sys: Sys)
    returns (sys': Sys)
    requires c.safetyEnabled ==> c.safety.intervalSecs > 0
    requires Run(c, s, p, before) == sys
    ensures sys' == Run(c, s, p, before + [Decide(Some(rps)), Commit(reply)])
    ensures sys' == CommitStep(c.safetyEnabled, DecideStep(s, sys, Some(rps)), reply)
  {
    var decide, commit := Decide(Some(rps)), Commit(reply);
    assert Front(before + [decide, commit]) == before + [decide];
    assert Front(before + [decide]) == before;
    sys' := CommitStep(c.safetyEnabled, DecideStep(s, sys, Some(rps)), reply);
  }

  /** Ticks without load, each update acknowledged as sent. */
  function UnloadedTicks(s: Settings, n: nat): seq<Event>
    requires Servable(s, 0.0)
  {
    if n == 0 then []
    else UnloadedTicks(s, n - 1) + [Decide(Some(0.0)), Commit(Acked(Command(s.params, Level(Bounded(s, 0.0), n))))]
  }

  /** Between ticks, with requirements `b` and no window seen. */
  ghost predicate Unobserved(s: Settings, sys: Sys, b: seq<int>) {
    && sys.running && sys.pending.None? && sys.samples == [] && sys.requirements == b
    && sys.arbiter == Arbiter.State(s.minimum, s.maximum, Command(s.params, b), s.minimum, Command(s.params, b))
  }

  lemma UnloadedTick(s: Settings, sys: Sys, b: seq<int>, x: int)
    requires Servable(s, 0.0) && x == Bounded(s, 0.0) && Unobserved(s, sys, b)
    requires s.minimum <= Command(s.params, b + [x]) <= s.maximum
    ensures Unobserved(s, CommitStep(true, DecideStep(s, sys, Some(0.0)), Acked(Command(s.params, b + [x]))), b + [x])
  {
    var decided := sys.(requirements := b + [x], pending := Some(DecisionOf(s, b + [x], 0.0)));
    assert DecideStep(s, sys, Some(0.0)) == decided;
  }

  lemma {:induction false} UnloadedRun(c: Config, s: Settings, p: SafetyHistory.Params, n: nat) returns (sys: Sys)
    requires Sound(c, s) && c.safetyEnabled && Servable(s, 0.0)
    ensures sys == Run(c, s, p, UnloadedTicks(s, n)) && Unobserved(s, sys, Level(Bounded(s, 0.0), n))
  {
    var x := Bounded(s, 0.0);
    if n == 0 {
      sys := Initial(c);
    } else {
      var before := UnloadedRun(c, s, p, n - 1);
      var reply := Acked(Command(s.params, Level(x, n)));
      sys := RunEndsWithTick(c, s, p, UnloadedTicks(s, n - 1), 0.0, reply, before);
      CommandInBounds(s.params, Level(x, n), s.minimum, s.maximum);
      UnloadedTick(s, before, Level(x, n - 1), x);
    }
  }

  /** The observations of a run, in order. */
  function ObservationsOf(events: seq<Event>): seq<SafetyEngine.Observation> {
    if events == [] then []
    else if Last(events).Observe? then ObservationsOf(Front(events)) + [Last(events).observation]
    else ObservationsOf(Front(events))
  }

  lemma TickObservesNothing(before: seq<Event>, decide: Event, commit: Event)
    requires decide.Decide? && commit.Commit?
    ensures ObservationsOf(before + [decide, commit]) == ObservationsOf(before)
  {
    assert Front(before + [decide, commit]) == before + [decide];
    assert Front(before + [decide]) == before;
  }

  lemma {:induction false} UnloadedObservations(s: Settings, n: nat)
    requires Servable(s, 0.0)
    ensures ObservationsOf(UnloadedTicks(s, n)) == []
  {
    if n > 0 {
      UnloadedObservations(s, n - 1);
      var reply := Acked(Command(s.params, Level(Bounded(s, 0.0), n)));
      TickObservesNothing(UnloadedTicks(s, n - 1), Decide(Some(0.0)), Commit(reply));
    }
  }

  /** The run `lead` and then the observation in the windows 0 to `n - 1`. */
  function ExcessEvents(c: SafetyEngine.Config, o: SafetyEngine.Observation, lead: seq<Event>, n: nat): seq<Event>
    requires |c.lookup| > 0
  {
    if n == 0 then lead else ExcessEvents(c, o, lead, n - 1) + [ExcessEvent(c, o, n - 1)]
  }

  /** The observation store of a run takes them all: valid windows of that run, numbered from 0 and
      aligned to the interval. */
  ghost predicate Deliverable(c: SafetyEngine.Config, runId: string, events: seq<Event>)
    requires c.intervalSecs > 0
  {
    var o := ObservationsOf(events);
    forall k :: 0 <= k < |o| ==>
      && SafetyEngine.ObservationOk(o[k], c.intervalSecs) && o[k].runId == runId
      && o[k].sequence == k && o[k].windowStartMs == k * c.intervalSecs * 1000
  }

  lemma {:induction false} ExcessDeliverable(c: SafetyEngine.Config, maximum: int, o: SafetyEngine.Observation,
                                             lead: seq<Event>, n: nat)
    requires c.intervalSecs > 0 && |c.lookup| > 0 && Excessive(c, maximum, o) && ObservationsOf(lead) == []
    ensures |ObservationsOf(ExcessEvents(c, o, lead, n))| == n
    ensures Deliverable(c, o.runId, ExcessEvents(c, o, lead, n))
  {
    if n > 0 {
      ExcessDeliverable(c, maximum, o, lead, n - 1);
      NumberedExcess(c, maximum, o, n - 1);
      assert Front(ExcessEvents(c, o, lead, n)) == ExcessEvents(c, o, lead, n - 1);
    }
  }

  function ExcessSample(c: SafetyEngine.Config, maximum: int, o: SafetyEngine.Observation): SafetyHistory.Sample
    requires c.intervalSecs > 0 && Excessive(c, maximum, o)
  {
    SafetyHistory.Sample(true, Required(c.lookup, o.demand).value, true)
  }

  ghost predicate EqualMinima(c: Config) {
    ValidConfig(c) && c.safetyEnabled && c.policy.minimum == c.safety.minimum
  }

  /** The predictive command is one that both engines know. */
  predicate Shared(c: Config, a: Arbiter.State) {
    c.safety.minimum <= a.predictive <= Min(c.safety.maximum, c.policy.maximum)
  }

  lemma ExcessStep(c: Config, s: Settings, p: SafetyHistory.Params, sys: Sys, o: SafetyEngine.Observation, k: nat)
    requires EqualMinima(c) && Excessive(c.safety, c.policy.maximum, o) && Shared(c, sys.arbiter)
    ensures Step(c, s, p, sys, ExcessEvent(c.safety, o, k))
         == AcceptStep(p, sys, ExcessSample(c.safety, c.policy.maximum, o), ApiError)
  {
    NumberedExcess(c.safety, c.policy.maximum, o, k);
    ExcessObserved(c.safety, c.policy.maximum, Numbered(c.safety.intervalSecs, o, k), sys.arbiter.predictive);
  }

  lemma ExcessRun(c: Config, s: Settings, p: SafetyHistory.Params, o: SafetyEngine.Observation, lead: seq<Event>,
                  n: nat, before: Sys)
    returns (after: Sys)
    requires EqualMinima(c) && Excessive(c.safety, c.policy.maximum, o) && Shared(c, before.arbiter)
    requires before == Run(c, s, p, ExcessEvents(c.safety, o, lead, n))
    ensures after == Run(c, s, p, ExcessEvents(c.safety, o, lead, n + 1))
    ensures after == AcceptStep(p, before, ExcessSample(c.safety, c.policy.maximum, o), ApiError)
  {
    assert Front(ExcessEvents(c.safety, o, lead, n + 1)) == ExcessEvents(c.safety, o, lead, n);
    ExcessStep(c, s, p, before, o, n);
    after := AcceptStep(p, before, ExcessSample(c.safety, c.policy.maximum, o), ApiError);
  }

  /** After `n` overloaded windows, fewer than the persistence, nothing has triggered. */
  ghost predicate Untriggered(p: SafetyHistory.Params, start: Sys, sys: Sys, n: nat) {
    && sys.arbiter == start.arbiter
    && SafetyHistory.After(p, sys.samples) == SafetyHistory.State(n, 0, p.minimum, false)
  }

  /** The floor is at the minimum and the final is the predictive command, both in bounds. */
  predicate AtRest(p: SafetyHistory.Params, a: Arbiter.State) {
    a.minimum == p.minimum == a.safetyFloor <= a.predictive == a.final <= a.maximum
  }

  lemma AfterOneMore(p: SafetyHistory.Params, samples: seq<SafetyHistory.Sample>, x: SafetyHistory.Sample)
    ensures SafetyHistory.After(p, samples + [x]) == SafetyHistory.Step(p, SafetyHistory.After(p, samples), x).0
  {
    assert Front(samples + [x]) == samples;
  }

  lemma AcceptUntriggered(p: SafetyHistory.Params, start: Sys, sys: Sys, x: SafetyHistory.Sample, n: nat)
    requires AtRest(p, start.arbiter) && Untriggered(p, start, sys, n) && n + 1 < p.persistence && x.overload
    ensures Untriggered(p, start, AcceptStep(p, sys, x, ApiError), n + 1)
  {
    AfterOneMore(p, sys.samples, x);
  }

  lemma {:induction false} BeforeTrigger(c: Config, s: Settings, p: SafetyHistory.Params,
                                         o: SafetyEngine.Observation, lead: seq<Event>, start: Sys, n: nat)
    returns (sys: Sys)
    requires EqualMinima(c) && Excessive(c.safety, c.policy.maximum, o) && Shared(c, start.arbiter)
    requires start == Run(c, s, p, lead) && AtRest(p, start.arbiter) && start.samples == [] && n < p.persistence
    ensures sys == Run(c, s, p, ExcessEvents(c.safety, o, lead, n)) && Untriggered(p, start, sys, n)
  {
    if n == 0 {
      sys := start;
    } else {
      var before := BeforeTrigger(c, s, p, o, lead, start, n - 1);
      sys := ExcessRun(c, s, p, o, lead, n - 1, before);
      AcceptUntriggered(p, start, before, ExcessSample(c.safety, c.policy.maximum, o), n - 1);
    }
  }

  /** The window that completes the persistence raises the engine's floor past the arbiter's bounds. */
  lemma AcceptTriggers(p: SafetyHistory.Params, start: Sys, sys: Sys, x: SafetyHistory.Sample, n: nat)
    requires AtRest(p, start.arbiter) && Untriggered(p, start, sys, n) && n + 1 == p.persistence
    requires x.overload && x.required > start.arbiter.maximum
    ensures var sys' := AcceptStep(p, sys, x, ApiError);
            sys'.arbiter.safetyFloor < SafetyHistory.EffectiveFloor(p, SafetyHistory.After(p, sys'.samples))
  {
    AfterOneMore(p, sys.samples, x);
  }

  /** A full persistence of excessive observations separates arbiter and engine. */
  lemma ExcessDisagrees(c: Config, o: SafetyEngine.Observation, lead: seq<Event>, start: Sys)
    requires EqualMinima(c) && Excessive(c.safety, c.policy.maximum, o) && Shared(c, start.arbiter)
    requires var p := SafetyParams(c);
             start == Run(c, PolicySettings(c), p, lead) && AtRest(p, start.arbiter) && start.samples == []
    requires start.arbiter.maximum == c.policy.maximum
    ensures !FloorsAgree(c, ExcessEvents(c.safety, o, lead, SafetyParams(c).persistence))
  {
    var s, p := PolicySettings(c), SafetyParams(c);
    var n := p.persistence - 1;
    var before := BeforeTrigger(c, s, p, o, lead, start, n);
    var after := ExcessRun(c, s, p, o, lead, n, before);
    AcceptTriggers(p, start, before, ExcessSample(c.safety, c.policy.maximum, o), n);
  }

  /** Some accepted rows bring the command down to what the safety engine accepts. */
  predicate Meet(c: Config, s: Settings) {
    PolicyAgreement.Lowest(s) <= c.safety.maximum
  }

  /** Ticks that bring the predictive command into the safety bounds before any window is seen. */
  lemma LeadIn(c: Config, s: Settings, p: SafetyHistory.Params) returns (lead: seq<Event>, start: Sys)
    requires EqualMinima(c) && Sound(c, s) && PolicyAgreement.Proper(s) && Meet(c, s) && p.minimum == s.minimum
    ensures start == Run(c, s, p, lead) && ObservationsOf(lead) == []
    ensures Shared(c, start.arbiter) && AtRest(p, start.arbiter) && start.samples == []
    ensures start.arbiter.maximum == c.policy.maximum
  {
    lead, start := [], Initial(c);
    if Servable(s, 0.0) {
      var n := PolicyAgreement.AtLowest(s);
      lead := UnloadedTicks(s, n);
      UnloadedObservations(s, n);
      start := UnloadedRun(c, s, p, n);
    }
  }

  /** No row asks for less than the lowest command. */
  lemma DecideAboveLowest(s: Settings, sys: Sys, row: Option<real>)
    requires PolicyAgreement.Proper(s)
    requires Within(sys.requirements, PolicyAgreement.Lowest(s), s.maximum)
    ensures Within(DecideStep(s, sys, row).requirements, PolicyAgreement.Lowest(s), s.maximum)
  {
    if row.Some? && row.value >= 0.0 && Servable(s, row.value) {
      ForecastQuality.BoundedMonotone(s, 0.0, row.value);
    }
  }

  lemma CommittedAboveLowest(s: Settings, sys: Sys)
    requires PolicyAgreement.Proper(s)
    requires Within(sys.requirements, PolicyAgreement.Lowest(s), s.maximum)
    ensures Committed(s, sys) >= PolicyAgreement.Lowest(s)
  {
    var low := PolicyAgreement.Lowest(s);
    CommandInBounds(s.params, sys.requirements, low, s.maximum);
    if sys.requirements != [] {
      CommandInBounds(s.params, Front(sys.requirements), low, s.maximum);
    }
  }

  lemma ObserveRejected(c: SafetyEngine.Config, p: SafetyHistory.Params, sys: Sys,
                        o: SafetyEngine.Observation, ready: Option<int>, reply: Reply)
    requires c.intervalSecs > 0 && sys.arbiter.predictive > c.maximum
    ensures ObserveStep(c, p, sys, o, ready, reply) == sys
  {
  }

  /** No window was accepted, and no row asked for less than the lowest command. */
  ghost predicate Unseen(s: Settings, sys: Sys) {
    && Within(sys.requirements, PolicyAgreement.Lowest(s), s.maximum)
    && sys.samples == [] && sys.arbiter.safetyFloor == s.minimum
  }

  lemma StepUnseen(c: Config, s: Settings, p: SafetyHistory.Params, sys: Sys, e: Event)
    requires Sound(c, s) && PolicyAgreement.Proper(s) && c.safetyEnabled && !Meet(c, s)
    requires Unseen(s, sys) && sys.arbiter.predictive == Committed(s, sys)
    ensures Unseen(s, Step(c, s, p, sys, e))
  {
    if e.Observe? {
      CommittedAboveLowest(s, sys);
      ObserveRejected(c.safety, p, sys, e.observation, e.ready, e.reply);
    } else {
      TickKeepsFloor(c, s, p, sys, e);
      if e.Decide? {
        DecideAboveLowest(s, sys, e.row);
      }
    }
  }

  /** Where the bounds do not meet the safety engine never accepts a window. */
  lemma {:induction false} NeverObserved(c: Config, s: Settings, p: SafetyHistory.Params, events: seq<Event>)
    requires Sound(c, s) && PolicyAgreement.Proper(s) && c.safetyEnabled && !Meet(c, s)
    ensures Unseen(s, Run(c, s, p, events))
  {
    if events != [] {
      NeverObserved(c, s, p, Front(events));
      RunKeeps(c, s, p, Front(events));
      StepUnseen(c, s, p, Run(c, s, p, Front(events)), Last(events));
    }
  }

  lemma ValidIsProper(c: Config)
    requires ValidConfig(c)
    ensures PolicyAgreement.Proper(PolicySettings(c))
  {
  }

  /** Over all runs, and already over those that an observation store can deliver, arbiter and safety
      engine keep the same floor exactly when the minima are equal and no valid observation needs more
      than the policy's maximum, unless the safety engine rejects every command of the policy. */
  lemma FloorsAgreeIff(c: Config)
    requires ValidConfig(c) && c.safetyEnabled
    ensures var agree := c.policy.minimum == c.safety.minimum
                         && (Meet(c, PolicySettings(c)) ==> WithinMaximum(c.safety, c.policy.maximum));
            && ((forall events :: FloorsAgree(c, events)) <==> agree)
            && ((forall runId, events :: Deliverable(c.safety, runId, events) ==> FloorsAgree(c, events)) <==> agree)
  {
    var s, p := PolicySettings(c), SafetyParams(c);
    ValidIsSound(c);
    ValidIsProper(c);
    if c.policy.minimum != c.safety.minimum {
      assert Deliverable(c.safety, "run", []);
      assert !FloorsAgree(c, []);
    } else if !Meet(c, s) {
      forall events
        ensures FloorsAgree(c, events)
      {
        NeverObserved(c, s, p, events);
      }
    } else if Compatible(c) {
      forall events
        ensures FloorsAgree(c, events)
      {
        FloorAgreement(c, events);
      }
    } else {
      var o :| Excessive(c.safety, c.policy.maximum, o);
      var lead, start := LeadIn(c, s, p);
      ExcessDisagrees(c, o, lead, start);
      ExcessDeliverable(c.safety, c.policy.maximum, o, lead, p.persistence);
    }
  }

  /** The rate of an observation with a given count. */
  function Rate(c: SafetyEngine.Config, count: nat): real
    requires c.intervalSecs > 0
  {
    count as real / c.intervalSecs as real
  }

  /** The condition on observations, read off the lookup: `m` is its last point within the maximum, and
      no count may be served only by the points after it. */
  lemma WithinMaximumByCounts(c: SafetyEngine.Config, maximum: int, m: nat)
    requires SafetyEngine.ValidConfig(c) && m + 1 < |c.lookup| && Last(c.lookup).rps >= 0.0
    requires c.lookup[m].replicas <= maximum < c.lookup[m + 1].replicas
    ensures WithinMaximum(c, maximum)
       <==> forall count: nat :: c.lookup[m].rps < Rate(c, count) ==>
                Rate(c, count) > Last(c.lookup).rps + 2.0 * TOLERANCE
  {
    if WithinMaximum(c, maximum) {
      forall count: nat | c.lookup[m].rps < Rate(c, count)
        ensures Rate(c, count) > Last(c.lookup).rps + 2.0 * TOLERANCE
      {
        if Rate(c, count) <= Last(c.lookup).rps + 2.0 * TOLERANCE {
          CountExceeds(c, maximum, m, count);
        }
      }
    } else {
      var o :| Excessive(c, maximum, o);
      ExcessiveCount(c, maximum, m, o);
    }
  }

  /** An excessive observation has a count between the two capacities. */
  lemma ExcessiveCount(c: SafetyEngine.Config, maximum: int, m: nat, o: SafetyEngine.Observation)
    requires SafetyEngine.ValidConfig(c) && m + 1 < |c.lookup| && Excessive(c, maximum, o)
    requires c.lookup[m].replicas <= maximum < c.lookup[m + 1].replicas
    ensures o.dispatchCount >= 0
    ensures c.lookup[m].rps < Rate(c, o.dispatchCount) <= Last(c.lookup).rps + 2.0 * TOLERANCE
  {
    NeedsPastPoint(c, maximum, m, o.demand);
  }

  lemma NeedsPastPoint(c: SafetyEngine.Config, maximum: int, m: nat, demand: real)
    requires SafetyEngine.ValidConfig(c) && m + 1 < |c.lookup|
    requires c.lookup[m].replicas <= maximum < c.lookup[m + 1].replicas
    ensures Required(c.lookup, demand).Some? && Required(c.lookup, demand).value > maximum
       <==> c.lookup[m].rps + TOLERANCE < demand <= Last(c.lookup).rps + TOLERANCE
  {
    RequiredDefined(c.lookup, demand);
    var k := FirstServing(c.lookup, demand);
    if k < |c.lookup| && k <= m {
      assert c.lookup[k].replicas <= c.lookup[m].replicas;
      assert c.lookup[k].rps <= c.lookup[m].rps;
    } else if k < |c.lookup| && k > m + 1 {
      assert c.lookup[m + 1].replicas < c.lookup[k].replicas;
    }
  }

  /** A count between the two capacities comes with a valid excessive observation. */
  lemma CountExceeds(c: SafetyEngine.Config, maximum: int, m: nat, count: nat)
    requires SafetyEngine.ValidConfig(c) && m + 1 < |c.lookup| && Last(c.lookup).rps >= 0.0
    requires c.lookup[m].replicas <= maximum < c.lookup[m + 1].replicas
    requires c.lookup[m].rps < Rate(c, count) <= Last(c.lookup).rps + 2.0 * TOLERANCE
    ensures !WithinMaximum(c, maximum)
  {
    var most := Last(c.lookup).rps + TOLERANCE;
    var demand := if Rate(c, count) + TOLERANCE <= most then Rate(c, count) + TOLERANCE else most;
    assert c.lookup[m].rps < Last(c.lookup).rps;
    RateNonNegative(c, count);
    var o := SafetyEngine.Observation("run", 0, 0, c.intervalSecs * 1000, count, demand);
    NeedsPastPoint(c, maximum, m, demand);
    assert Excessive(c, maximum, o);
  }

  lemma RateNonNegative(c: SafetyEngine.Config, count: nat)
    requires c.intervalSecs > 0
    ensures Rate(c, count) >= 0.0
  {
  }

  // ---------------------------------------------------------------- a safety minimum above the policy's

  /** The policy may go down to one replica, the safety engine only to two. */
  function HigherMinimum(): Config {
    var lookup := [Point(1, 10.0), Point(2, 20.0)];
    Config(PolicyEngine.Config("policy", "1", lookup, 6, 1, 1, 2, 2, 1.0, 30, 1, 0),
           SafetyEngine.Config("safety", "1", 1, 1, 0, 2, 2, lookup), true)
  }

  /** A window without any dispatch. */
  const IDLE := SafetyEngine.Observation("run", 0, 0, 1000, 0, 0.0)

  const QUIET := SafetyHistory.Sample(false, 1, false)

  /** The state after the idle window: the floor is two, as the final count was. */
  function AfterIdle(): Sys {
    Initial(HigherMinimum()).(samples := [QUIET], arbiter := Arbiter.State(1, 2, 2, 2, 2), finals := [2])
  }

  lemma IdleObserved()
    ensures var c := HigherMinimum();
            && SafetyEngine.ObservationOk(IDLE, 1)
            && SafetyEngine.Observed(c.safety, Some(0.0), 1, 2) == Success(QUIET)
  {
    var c := HigherMinimum();
    assert FirstServing(c.safety.lookup, 0.0) == 0;
    assert CapacityOf(c.safety.lookup, 1) == Some(10.0);
  }

  /** A first window without overload puts a floor of two into force. */
  lemma QuietFirst(p: SafetyHistory.Params, sys: Sys, x: SafetyHistory.Sample)
    requires sys.samples == [] && !x.overload && p.minimum == 2 && sys.arbiter == Arbiter.State(1, 2, 2, 1, 2)
    ensures AcceptStep(p, sys, x, ApiError)
         == sys.(samples := [x], arbiter := Arbiter.State(1, 2, 2, 2, 2), finals := sys.finals + [2])
  {
    AfterOneMore(p, [], x);
    assert [] + [x] == [x];
    AcceptCases(p, sys, x, ApiError);
  }

  lemma IdleRun()
    ensures var c := HigherMinimum();
            Run(c, PolicySettings(c), SafetyParams(c), [Observe(IDLE, Some(1), ApiError)]) == AfterIdle()
  {
    var c := HigherMinimum();
    OneEvent(c, PolicySettings(c), SafetyParams(c), Observe(IDLE, Some(1), ApiError));
    IdleObserved();
    QuietFirst(SafetyParams(c), Initial(c), QUIET);
  }

  lemma DownToOne(s: Settings)
    requires s.params.initial == 2 && s.params.down == 1 && s.params.up.None?
    ensures Command(s.params, [1]) == 1
  {
    assert Front([1]) == [];
    var i := StabilizedAttained(s.params, [1]);
  }

  /** A tick whose requirement is one replica, from two. */
  lemma FallingTick(s: Settings, sys: Sys, rps: real)
    requires sys.running && sys.pending.None? && sys.requirements == [] && s.params.initial == 2
    requires rps >= 0.0 && Servable(s, rps) && Bounded(s, rps) == 1 && Command(s.params, [1]) == 1
    ensures CommitStep(false, DecideStep(s, sys, Some(rps)), Acked(1)).writes == sys.writes + [1]
    ensures sys.arbiter == Arbiter.State(1, 2, 2, 2, 2) ==>
              var sys' := CommitStep(true, DecideStep(s, sys, Some(rps)), Acked(1));
              sys'.writes == sys.writes && sys'.samples == sys.samples
  {
    assert [] + [1] == [1] && Front([1]) == [];
    var decided := sys.(requirements := [1], pending := Some(DecisionOf(s, [1], rps)));
    assert DecideStep(s, sys, Some(rps)) == decided;
  }

  lemma OneEvent(c: Config, s: Settings, p: SafetyHistory.Params, e: Event)
    requires c.safetyEnabled ==> c.safety.intervalSecs > 0
    ensures Run(c, s, p, [e]) == Step(c, s, p, Initial(c), e)
  {
    assert Front([e]) == [];
  }

  lemma FilteredTick(e: Event, decide: Event, commit: Event)
    requires e.Observe? && decide.Decide? && commit.Commit?
    ensures WithoutObservations([e] + [decide, commit]) == [decide, commit]
  {
    assert Front([e]) == [] && WithoutObservations([e]) == [];
    assert Front([e, decide]) == [e] && [] + [decide] == [decide] && WithoutObservations([e, decide]) == [decide];
    assert Front([e] + [decide, commit]) == [e, decide] && [decide] + [commit] == [decide, commit];
  }

  lemma NothingOverloaded(p: SafetyHistory.Params, x: SafetyHistory.Sample)
    requires !x.overload
    ensures Silent(p, [x])
  {
  }

  /** Then a run in which nothing triggers does send other updates than the run without safety. */
  lemma HigherMinimumIsVisible()
    ensures var c := HigherMinimum();
            var s, p := PolicySettings(c), SafetyParams(c);
            var events := [Observe(IDLE, Some(1), ApiError)] + [Decide(Some(5.0)), Commit(Acked(1))];
            && ValidConfig(c) && Silent(p, Run(c, s, p, events).samples)
            && Run(c, s, p, events).writes == []
            && Run(SafetyOff(c), s, p, WithoutObservations(events)).writes == [1]
  {
    HigherMinimumValid();
    HigherMinimumOn();
    HigherMinimumOff();
  }

  /** The same over any configuration whose first event leaves the state `idle`. */
  lemma SilentThenTick(c: Config, s: Settings, p: SafetyHistory.Params, first: Event, idle: Sys,
                       x: SafetyHistory.Sample)
    requires c.safetyEnabled && c.safety.intervalSecs > 0 && Run(c, s, p, [first]) == idle && !x.overload
    requires var sys := CommitStep(true, DecideStep(s, idle, Some(5.0)), Acked(1));
             sys.writes == [] && sys.samples == [x]
    ensures var sys := Run(c, s, p, [first] + [Decide(Some(5.0)), Commit(Acked(1))]);
            Silent(p, sys.samples) && sys.writes == []
  {
    var sys := RunEndsWithTick(c, s, p, [first], 5.0, Acked(1), idle);
    NothingOverloaded(p, x);
  }

  lemma HigherMinimumValid()
    ensures ValidConfig(HigherMinimum())
  {
  }

  lemma HigherMinimumOn()
    ensures var c := HigherMinimum();
            var s, p := PolicySettings(c), SafetyParams(c);
            var sys := Run(c, s, p, [Observe(IDLE, Some(1), ApiError)] + [Decide(Some(5.0)), Commit(Acked(1))]);
            Silent(p, sys.samples) && sys.writes == []
  {
    var c := HigherMinimum();
    IdleRun();
    IdleTick();
    SilentThenTick(c, PolicySettings(c), SafetyParams(c), Observe(IDLE, Some(1), ApiError), AfterIdle(), QUIET);
  }

  lemma IdleTick()
    ensures var s := PolicySettings(HigherMinimum());
            var sys := CommitStep(true, DecideStep(s, AfterIdle(), Some(5.0)), Acked(1));
            sys.writes == [] && sys.samples == [QUIET]
  {
    var s := PolicySettings(HigherMinimum());
    DownToOne(s);
    FiveNeedsOne(s);
    FallingTick(s, AfterIdle(), 5.0);
  }

  lemma HigherMinimumOff()
    ensures var c := HigherMinimum();
            var s, p := PolicySettings(c), SafetyParams(c);
            var events := [Observe(IDLE, Some(1), ApiError)] + [Decide(Some(5.0)), Commit(Acked(1))];
            Run(SafetyOff(c), s, p, WithoutObservations(events)).writes == [1]
  {
    var c := HigherMinimum();
    var s, p := PolicySettings(c), SafetyParams(c);
    FilteredTick(Observe(IDLE, Some(1), ApiError), Decide(Some(5.0)), Commit(Acked(1)));
    DownToOne(s);
    FiveNeedsOne(s);
    FallingTick(s, Initial(SafetyOff(c)), 5.0);
    var sys := RunEndsWithTick(SafetyOff(c), s, p, [], 5.0, Acked(1), Initial(SafetyOff(c)));
    assert [] + [Decide(Some(5.0)), Commit(Acked(1))] == [Decide(Some(5.0)), Commit(Acked(1))];
  }
}

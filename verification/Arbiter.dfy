/** The arbiter: the final command is the larger of the predictive command and the safety floor. */
module Arbiter {
  import opened Basics
  import opened PolicyDecisions

  datatype State = State(minimum: int, maximum: int, predictive: int, safetyFloor: int, final: int)

  datatype Source = PredictiveTick | SafetyObservation

  datatype Arbitration = Arbitration(
    source: Source, priorFinal: int, predictive: int, safetyFloor: int, final: int,
    action: Action, safetyChangesCommand: bool)

  datatype ArbiterError = InvalidBounds | OutsideBounds

  predicate InBounds(s: State, replicas: int) {
    s.minimum <= replicas <= s.maximum
  }

  function Initial(minimum: int, maximum: int, initial: int): State {
    State(minimum, maximum, initial, minimum, initial)
  }

  function Update(s: State, predictive: int, safetyFloor: int): Option<State> {
    if InBounds(s, predictive) && InBounds(s, safetyFloor)
    then Some(s.(predictive := predictive, safetyFloor := safetyFloor, final := Max(predictive, safetyFloor)))
    else None
  }

  /** An update needs both inputs within the bounds, and then the final is the larger of them. */
  lemma UpdateMeaning(s: State, predictive: int, safetyFloor: int)
    ensures var r := Update(s, predictive, safetyFloor);
            && (r.Some? <==> s.minimum <= predictive <= s.maximum && s.minimum <= safetyFloor <= s.maximum)
            && (r.Some? ==>
                  && (r.value.minimum, r.value.maximum) == (s.minimum, s.maximum)
                  && (r.value.predictive, r.value.safetyFloor) == (predictive, safetyFloor)
                  && predictive <= r.value.final && safetyFloor <= r.value.final
                  && (r.value.final == predictive || r.value.final == safetyFloor))
  {
  }

  class Engine {
    var state: State

    constructor (minimum: int, maximum: int, initial: int)
      ensures state == Initial(minimum, maximum, initial)
    {
      state := Initial(minimum, maximum, initial);
    }

    static method New(minimum: int, maximum: int, initial: int) returns (r: Result<Engine, ArbiterError>)
      ensures r.Success? <==> 1 <= minimum <= initial <= maximum
      ensures r.Success? ==> fresh(r.value) && r.value.state == Initial(minimum, maximum, initial)
    {
      if minimum < 1 || maximum < minimum || initial < minimum || initial > maximum {
        return Failure(InvalidBounds);
      }
      var e := new Engine(minimum, maximum, initial);
      return Success(e);
    }

    method UpdatePredictive(replicas: int) returns (r: Result<Arbitration, ArbiterError>)
      modifies this
      ensures r.Success? <==> Update(old(state), replicas, old(state).safetyFloor).Some?
      ensures r.Failure? ==> state == old(state)
      ensures r.Success? ==>
                && state == Update(old(state), replicas, old(state).safetyFloor).value
                && r.value == Arbitration(PredictiveTick, old(state).final, replicas, old(state).safetyFloor,
                                          state.final, Change(old(state).final, state.final),
                                          old(state).safetyFloor > replicas)
    {
      r := UpdateLocked(PredictiveTick, replicas, state.safetyFloor);
    }

    method UpdateSafetyFloor(replicas: int) returns (r: Result<Arbitration, ArbiterError>)
      modifies this
      ensures r.Success? <==> Update(old(state), old(state).predictive, replicas).Some?
      ensures r.Failure? ==> state == old(state)
      ensures r.Success? ==>
                && state == Update(old(state), old(state).predictive, replicas).value
                && r.value == Arbitration(SafetyObservation, old(state).final, old(state).predictive, replicas,
                                          state.final, Change(old(state).final, state.final),
                                          replicas > old(state).predictive)
    {
      r := UpdateLocked(SafetyObservation, state.predictive, replicas);
    }

    method UpdateLocked(source: Source, predictive: int, safetyFloor: int)
      returns (r: Result<Arbitration, ArbiterError>)
      modifies this
      ensures r.Success? <==> Update(old(state), predictive, safetyFloor).Some?
      ensures r.Failure? ==> state == old(state)
      ensures r.Success? ==>
                && state == Update(old(state), predictive, safetyFloor).value
                && r.value == Arbitration(source, old(state).final, predictive, safetyFloor, state.final,
                                          Change(old(state).final, state.final), safetyFloor > predictive)
    {
      if predictive < state.minimum || predictive > state.maximum
         || safetyFloor < state.minimum || safetyFloor > state.maximum {
        return Failure(OutsideBounds);
      }
      var prior, final := state.final, predictive;
      if safetyFloor > final {
        final := safetyFloor;
      }
      var action := Keep;
      if final > prior {
        action := ScaleUp;
      } else if final < prior {
        action := ScaleDown;
      }
      state := state.(predictive := predictive, safetyFloor := safetyFloor, final := final);
      return Success(Arbitration(source, prior, predictive, safetyFloor, final, action, safetyFloor > predictive));
    }

    method Snapshot() returns (predictive: int, safetyFloor: int, final: int)
      ensures (predictive, safetyFloor, final) == (state.predictive, state.safetyFloor, state.final)
    {
      return state.predictive, state.safetyFloor, state.final;
    }
  }
}

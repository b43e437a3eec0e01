/** What forecast quality means for the commands: lead coverage of a perfect forecast, order and
    distance preservation, and the replica-second accounting of the metrics. */
module ForecastQuality {
  import opened Basics
  import opened Capacity
  import opened PolicyModel
  import opened PolicyDecisions

  /** The trace value at a second, clamped to the ends of the trace. */
  function ValueAt(values: seq<real>, second: int): real
    requires values != []
  {
    values[Min(Max(second, 0), |values| - 1)]
  }

  /** The perfect forecast: row `i` carries the workload `horizon` seconds later. */
  function OracleForecast(values: seq<real>, horizon: nat): (f: seq<real>)
    ensures |f| == |values|
  {
    seq(|values|, i requires 0 <= i < |values| => ValueAt(values, i + horizon))
  }

  /** Row `i` carries the value `horizon` seconds later, and past the end of the trace its last value. */
  lemma OracleRow(values: seq<real>, horizon: nat, i: nat)
    requires i < |values|
    ensures OracleForecast(values, horizon)[i]
         == if i + horizon < |values| then values[i + horizon] else Last(values)
  {
    assert OracleForecast(values, horizon)[i] == ValueAt(values, i + horizon);
  }

  /** A perfect forecast with a window longer than the horizon covers every workload from
      `horizon` seconds before it arrives up to the second in which it arrives. */
  lemma LeadCoverage(s: Settings, values: seq<real>, horizon: nat, second: nat, t: nat)
    requires s.params.up.None? && Span(s.params) >= horizon + 1
    requires AllServable(s, OracleForecast(values, horizon))
    requires horizon <= second < |values| && second - horizon <= t <= second
    ensures Servable(s, values[second])
    ensures Commands(s, OracleForecast(values, horizon))[t] >= Bounded(s, values[second])
  {
    var f := OracleForecast(values, horizon);
    var i := second - horizon;
    assert f[i] == ValueAt(values, i + horizon) == values[second];
    RequirementsPrefix(s, f, i);
    At(s, f, t);
    HeldForWindow(s.params, Requirements(s, f)[..t + 1], i);
  }

  lemma ScaleMonotone(x: real, y: real, factor: real)
    requires x <= y && factor > 0.0
    ensures x * factor <= y * factor
  {
  }

  lemma BoundedMonotone(s: Settings, low: real, high: real)
    requires Increasing(s.lookup) && s.factor > 0.0
    requires low <= high && Servable(s, high)
    ensures Servable(s, low) && Bounded(s, low) <= Bounded(s, high)
  {
    ScaleMonotone(low, high, s.factor);
    RequiredMonotone(s.lookup, Adjusted(s, low), Adjusted(s, high));
  }

  ghost predicate Close(b: seq<int>, c: seq<int>, bound: nat) {
    |b| == |c| && forall i :: 0 <= i < |b| ==> Abs(b[i] - c[i]) <= bound
  }

  /** Commands differ by at most the largest difference of the requirements so far. */
  lemma CommandDistance(s: Settings, f: seq<real>, g: seq<real>, t: nat, bound: nat)
    requires AllServable(s, f) && AllServable(s, g) && |f| == |g| && t < |f|
    requires Close(Requirements(s, f)[..t + 1], Requirements(s, g)[..t + 1], bound)
    ensures Abs(Commands(s, f)[t] - Commands(s, g)[t]) <= bound
  {
    var b := CommandAt(s, f, t);
    var b' := CommandAt(s, g, t);
    NonExpansive(s.params, b, b', bound);
  }

  /** A decision without the workload it was taken on. */
  function Outcome(d: Decision): Decision {
    d.(workload := 0.0, adjusted := 0.0)
  }

  /** Two workloads lie in the same replica region. */
  predicate SameRegion(s: Settings, x: real, y: real) {
    Servable(s, x) && Required(s.lookup, Adjusted(s, x)) == Required(s.lookup, Adjusted(s, y))
  }

  lemma {:induction false} SameRequirements(s: Settings, f: seq<real>, g: seq<real>)
    requires |f| == |g| && forall i :: 0 <= i < |f| ==> SameRegion(s, f[i], g[i])
    ensures AllServable(s, f) && AllServable(s, g)
    ensures Requirements(s, f) == Requirements(s, g)
  {
    if f != [] {
      SameRequirements(s, Front(f), Front(g));
      assert SameRegion(s, f[|f| - 1], g[|f| - 1]);
    }
  }

  /** Forecasts whose values lie in the same replica regions are operationally identical: the
      decisions differ in nothing but the workloads they report. */
  lemma SameRegions(s: Settings, f: seq<real>, g: seq<real>, t: nat)
    requires |f| == |g| && t < |f| && forall i :: 0 <= i < |f| ==> SameRegion(s, f[i], g[i])
    ensures AllServable(s, f) && AllServable(s, g)
    ensures Outcome(Decisions(s, f)[t]) == Outcome(Decisions(s, g)[t])
    ensures Commands(s, f)[t] == Commands(s, g)[t]
  {
    SameRequirements(s, f, g);
    At(s, f, t);
    At(s, g, t);
    assert SameRegion(s, f[t], g[t]);
  }

  lemma CommandsMonotone(s: Settings, low: seq<real>, high: seq<real>, t: nat)
    requires Increasing(s.lookup) && s.factor > 0.0
    requires AllServable(s, low) && AllServable(s, high) && |low| == |high| && t < |low|
    requires forall i :: 0 <= i <= t ==> low[i] <= high[i]
    ensures Commands(s, low)[t] <= Commands(s, high)[t]
  {
    var b, b' := Requirements(s, low), Requirements(s, high);
    forall i | 0 <= i <= t
      ensures b[i] <= b'[i]
    {
      RequirementsPrefix(s, low, i);
      RequirementsPrefix(s, high, i);
      BoundedMonotone(s, low[i], high[i]);
    }
    At(s, low, t);
    At(s, high, t);
    OrderPreserving(s.params, b[..t + 1], b'[..t + 1], 0);
  }

  // ---------------------------------------------------------------- replica-second accounting

  /** Replica-seconds missing from `commands` relative to the oracle commands. */
  function Deficient(oracle: seq<int>, commands: seq<int>): nat
    requires |oracle| == |commands|
  {
    if oracle == [] then 0
    else Deficient(Front(oracle), Front(commands)) + Max(Last(oracle) - Last(commands), 0)
  }

  function Excess(oracle: seq<int>, commands: seq<int>): nat
    requires |oracle| == |commands|
  {
    Deficient(commands, oracle)
  }

  function Disagreement(oracle: seq<int>, commands: seq<int>): nat
    requires |oracle| == |commands|
  {
    if oracle == [] then 0
    else Disagreement(Front(oracle), Front(commands)) + (if Last(oracle) != Last(commands) then 1 else 0)
  }

  /** Conservation of replica-seconds, and disagreement seconds as a lower bound on what is misplaced. */
  lemma {:induction false} Accounting(oracle: seq<int>, commands: seq<int>)
    requires |oracle| == |commands|
    ensures Excess(oracle, commands) - Deficient(oracle, commands) == Sum(commands) - Sum(oracle)
    ensures Disagreement(oracle, commands) <= Excess(oracle, commands) + Deficient(oracle, commands)
    ensures Disagreement(oracle, commands) == 0 <==> oracle == commands
  {
    if oracle != [] {
      Accounting(Front(oracle), Front(commands));
      assert oracle == Front(oracle) + [Last(oracle)];
      assert commands == Front(commands) + [Last(commands)];
    }
  }

  lemma {:induction false} NothingDeficient(oracle: seq<int>, commands: seq<int>)
    requires |oracle| == |commands|
    ensures Deficient(oracle, commands) == 0 <==> forall i :: 0 <= i < |oracle| ==> oracle[i] <= commands[i]
  {
    if oracle != [] {
      NothingDeficient(Front(oracle), Front(commands));
      assert forall i :: 0 <= i < |oracle| - 1 ==> Front(oracle)[i] == oracle[i] && Front(commands)[i] == commands[i];
    }
  }

  /** Over-forecasting everywhere never leaves a replica-second deficient. */
  lemma OverForecastIsSafe(s: Settings, actual: seq<real>, forecast: seq<real>)
    requires Increasing(s.lookup) && s.factor > 0.0
    requires AllServable(s, actual) && AllServable(s, forecast) && |actual| == |forecast|
    requires forall i :: 0 <= i < |actual| ==> actual[i] <= forecast[i]
    ensures Deficient(Commands(s, actual), Commands(s, forecast)) == 0
  {
    forall t | 0 <= t < |actual|
      ensures Commands(s, actual)[t] <= Commands(s, forecast)[t]
    {
      CommandsMonotone(s, actual, forecast, t);
    }
    NothingDeficient(Commands(s, actual), Commands(s, forecast));
  }
}

/** The closed loop in which every commanded count is Ready one window later, and the bound it
    puts on how long overload can last. */
module ClosedLoop {
  import opened Basics
  import opened Capacity
  import opened SafetyHistory
  import opened SafetyEngine

  datatype Row = Row(demand: real, predictive: int)

  datatype ReplayError = LengthsDiffer | Rejected(reason: SafetyError)

  /** The accepted windows and the decisions taken on them. */
  datatype Trace = Trace(samples: seq<Sample>, decisions: seq<Decision>)

  function ReadyNext(start: int, decisions: seq<Decision>): int {
    if decisions == [] then start else Last(decisions).final
  }

  function Loop(c: Config, p: Params, start: int, rows: seq<Row>): Result<Trace, SafetyError> {
    if rows == [] then Success(Trace([], []))
    else
      match Loop(c, p, start, Front(rows))
      case Failure(e) => Failure(e)
      case Success(t) => Extend(c, p, start, t, Last(rows))
  }

  function Extend(c: Config, p: Params, start: int, t: Trace, row: Row): Result<Trace, SafetyError> {
    var ready := ReadyNext(start, t.decisions);
    match Observed(c, Some(row.demand), ready, row.predictive)
    case Failure(e) => Failure(e)
    case Success(x) =>
      Success(Trace(t.samples + [x],
                    t.decisions + [DecisionOf(c, p, t.samples, Some(row.demand), ready, row.predictive)]))
  }

  /** The replay starts with one Ready replica and stops at the first rejected window. */
  method Replay(c: Config, workload: seq<real>, predictive: seq<int>) returns (r: Result<seq<Decision>, ReplayError>)
    requires ValidTiming(c)
    ensures |workload| != |predictive| ==> r == Failure(LengthsDiffer)
    ensures |workload| == |predictive| ==>
              match Loop(c, ParamsOf(c), 1, Rows(workload, predictive))
              case Success(t) => r == Success(t.decisions)
              case Failure(e) => r == Failure(Rejected(e))
  {
    if |workload| != |predictive| {
      return Failure(LengthsDiffer);
    }
    var engine := new Engine(c);
    ghost var p := ParamsOf(c);
    ghost var rows := Rows(workload, predictive);
    var ready := 1;
    var output: seq<Decision> := [];
    for k := 0 to |workload|
      invariant engine.Valid() && engine.config == c
      invariant Loop(c, p, 1, rows[..k]) == Success(Trace(engine.history, output))
      invariant ready == ReadyNext(1, output)
    {
      assert Front(rows[..k + 1]) == rows[..k];
      var record := engine.EvaluateDemand(Some(workload[k]), ready, predictive[k]);
      if record.Failure? {
        EarlyFailure(c, p, 1, rows, k + 1);
        return Failure(Rejected(record.error));
      }
      output := output + [record.value];
      ready := record.value.final;
    }
    assert rows[..|workload|] == rows;
    return Success(output);
  }

  function Rows(workload: seq<real>, predictive: seq<int>): (rows: seq<Row>)
    requires |workload| == |predictive|
    ensures |rows| == |workload|
    ensures forall k :: 0 <= k < |rows| ==> rows[k] == Row(workload[k], predictive[k])
  {
    seq(|workload|, k requires 0 <= k < |workload| => Row(workload[k], predictive[k]))
  }

  lemma {:induction false} EarlyFailure(c: Config, p: Params, start: int, rows: seq<Row>, n: nat)
    requires n <= |rows| && Loop(c, p, start, rows[..n]).Failure?
    ensures Loop(c, p, start, rows) == Failure(Loop(c, p, start, rows[..n]).error)
  {
    if n == |rows| {
      assert rows[..n] == rows;
    } else {
      assert Front(rows)[..n] == rows[..n];
      EarlyFailure(c, p, start, Front(rows), n);
    }
  }

  // ---------------------------------------------------------------- which traces complete

  /** The lookup lists every count between the bounds and ends at the maximum. */
  ghost predicate Full(c: Config) {
    && |c.lookup| > 0 && Last(c.lookup).replicas == c.maximum
    && forall n :: c.minimum <= n <= c.maximum ==> CapacityOf(c.lookup, n).Some?
  }

  /** Demand within the validated capacity and a predictive command within the bounds. */
  predicate InRange(c: Config, row: Row)
    requires |c.lookup| > 0
  {
    0.0 <= row.demand <= Last(c.lookup).rps + TOLERANCE && c.minimum <= row.predictive <= c.maximum
  }

  lemma ObservedInRange(c: Config, ready: int, row: Row)
    requires |c.lookup| > 0 && Increasing(c.lookup) && CapacityOf(c.lookup, ready).Some?
    ensures var x := Observed(c, Some(row.demand), ready, row.predictive);
            && (x.Success? <==> InRange(c, row))
            && (x.Success? ==> x.value.required <= Last(c.lookup).replicas)
  {
    RequiredDefined(c.lookup, row.demand);
  }

  /** The loop has stayed within the bounds, so the next Ready count is listed. */
  ghost predicate OnTrack(c: Config, start: int, t: Trace) {
    && CapacityOf(c.lookup, ReadyNext(start, t.decisions)).Some?
    && forall i :: 0 <= i < |t.samples| ==> t.samples[i].required <= c.maximum
  }

  lemma ExtendOnTrack(c: Config, start: int, t: Trace, row: Row)
    requires ValidConfig(c) && Full(c) && OnTrack(c, start, t)
    ensures var r := Extend(c, ParamsOf(c), start, t, row);
            && (r.Success? <==> InRange(c, row))
            && (r.Success? ==> OnTrack(c, start, r.value))
  {
    var p := ParamsOf(c);
    var ready := ReadyNext(start, t.decisions);
    ObservedInRange(c, ready, row);
    var x := Observed(c, Some(row.demand), ready, row.predictive);
    if x.Success? {
      var samples := t.samples + [x.value];
      FloorBounds(p, samples, c.maximum);
      assert Front(samples) == t.samples;
      var final := DecisionOf(c, p, t.samples, Some(row.demand), ready, row.predictive).final;
      assert c.minimum <= final <= c.maximum;
    }
  }

  predicate AllInRange(c: Config, rows: seq<Row>)
    requires |c.lookup| > 0
  {
    rows == [] || (AllInRange(c, Front(rows)) && InRange(c, Last(rows)))
  }

  lemma {:induction false} InRangeAt(c: Config, rows: seq<Row>)
    requires |c.lookup| > 0
    ensures AllInRange(c, rows) <==> forall k :: 0 <= k < |rows| ==> InRange(c, rows[k])
  {
    if rows != [] {
      var f := Front(rows);
      InRangeAt(c, f);
      assert forall k :: 0 <= k < |f| ==> f[k] == rows[k];
      assert rows[|f|] == Last(rows);
    }
  }

  lemma {:induction false} LoopOnTrack(c: Config, start: int, rows: seq<Row>)
    requires ValidConfig(c) && Full(c) && CapacityOf(c.lookup, start).Some?
    ensures var r := Loop(c, ParamsOf(c), start, rows);
            && (r.Success? <==> AllInRange(c, rows))
            && (r.Success? ==> OnTrack(c, start, r.value))
  {
    if rows != [] {
      LoopOnTrack(c, start, Front(rows));
      var r := Loop(c, ParamsOf(c), start, Front(rows));
      if r.Success? {
        ExtendOnTrack(c, start, r.value, Last(rows));
      }
    }
  }

  /** The replay completes exactly on the in-range traces. */
  lemma Completes(c: Config, start: int, rows: seq<Row>)
    requires ValidConfig(c) && Full(c) && CapacityOf(c.lookup, start).Some?
    ensures Loop(c, ParamsOf(c), start, rows).Success? <==> forall k :: 0 <= k < |rows| ==> InRange(c, rows[k])
  {
    LoopOnTrack(c, start, rows);
    InRangeAt(c, rows);
  }

  // ---------------------------------------------------------------- what every window satisfies

  ghost predicate WindowAt(c: Config, p: Params, start: int, rows: seq<Row>, t: Trace, k: nat)
    requires |rows| == |t.samples| == |t.decisions| && k < |rows|
  {
    var ready := ReadyNext(start, t.decisions[..k]);
    var observed := Observed(c, Some(rows[k].demand), ready, rows[k].predictive);
    && observed == Success(t.samples[k])
    && t.decisions[k] == DecisionOf(c, p, t.samples[..k], Some(rows[k].demand), ready, rows[k].predictive)
  }

  lemma {:induction false} Windows(c: Config, p: Params, start: int, rows: seq<Row>, k: nat)
    requires Loop(c, p, start, rows).Success? && k < |rows|
    ensures var t := Loop(c, p, start, rows).value;
            |rows| == |t.samples| == |t.decisions| && WindowAt(c, p, start, rows, t, k)
  {
    var f := Front(rows);
    var t, t0 := Loop(c, p, start, rows).value, Loop(c, p, start, f).value;
    if k < |f| {
      Windows(c, p, start, f, k);
      assert t.decisions[..k] == t0.decisions[..k] && t.samples[..k] == t0.samples[..k];
    } else {
      if f != [] {
        Windows(c, p, start, f, |f| - 1);
      }
      assert t.decisions[..k] == t0.decisions && t.samples[..k] == t0.samples;
    }
  }

  /** In the loop a window is overloaded exactly when it needs more than is Ready, a triggered
      window makes what it needs Ready for the next one, and nothing needs more than the lookup offers. */
  lemma WindowFacts(c: Config, start: int, rows: seq<Row>, k: nat)
    requires ValidConfig(c) && Loop(c, ParamsOf(c), start, rows).Success? && k < |rows|
    ensures var d := Loop(c, ParamsOf(c), start, rows).value.decisions;
            && |d| == |rows|
            && d[k].demand == Some(rows[k].demand)
            && (d[k].overload <==> d[k].required > d[k].ready)
            && d[k].required <= Last(c.lookup).replicas
            && Required(c.lookup, rows[k].demand) == Some(d[k].required)
            && (k == 0 ==> d[k].ready == start)
            && (k > 0 ==> d[k].ready == d[k - 1].final && d[k].ready >= c.minimum)
            && (d[k].triggered ==> d[k].final >= d[k].required)
  {
    var p := ParamsOf(c);
    Windows(c, p, start, rows, k);
    var t := Loop(c, p, start, rows).value;
    if k > 0 {
      Windows(c, p, start, rows, k - 1);
      assert Last(t.decisions[..k]) == t.decisions[k - 1];
    }
    OverloadNeedsMore(c.lookup, rows[k].demand, t.decisions[k].ready);
    RequiredDefined(c.lookup, rows[k].demand);
  }

  /** A window that ends a run of at least `persistence` overloaded windows is triggered. */
  lemma RunTriggers(c: Config, start: int, rows: seq<Row>, first: nat, k: nat)
    requires ValidConfig(c) && Loop(c, ParamsOf(c), start, rows).Success?
    requires first + ParamsOf(c).persistence <= k + 1 && k < |rows|
    requires Overloaded(c, start, rows, first, k + 1)
    ensures Loop(c, ParamsOf(c), start, rows).value.decisions[k].triggered
  {
    var p := ParamsOf(c);
    var t := Loop(c, p, start, rows).value;
    Windows(c, p, start, rows, k);
    var h := t.samples[..k];
    forall i | first <= i <= k
      ensures (h + [t.samples[k]])[i].overload
    {
      Windows(c, p, start, rows, i);
    }
    StepTriggers(p, h, t.samples[k]);
  }

  /** The replay completes, and windows `first` to `last - 1` are all overloaded. */
  ghost predicate Overloaded(c: Config, start: int, rows: seq<Row>, first: nat, last: nat)
    requires ValidConfig(c)
  {
    var r := Loop(c, ParamsOf(c), start, rows);
    r.Success? && last <= |r.value.decisions| && forall k :: first <= k < last ==> r.value.decisions[k].overload
  }

  // ---------------------------------------------------------------- the bound

  /** The requirement rises by at least one replica in every window after the trigger. */
  lemma {:induction false} RequirementClimbs(c: Config, start: int, rows: seq<Row>, first: nat, i: nat)
    requires ValidConfig(c) && Loop(c, ParamsOf(c), start, rows).Success?
    requires var P := ParamsOf(c).persistence;
             first + P + i <= |rows| && Overloaded(c, start, rows, first, first + P + i)
    ensures var P := ParamsOf(c).persistence;
            var k := first + P - 1 + i;
            k >= 0 && |rows| == |Loop(c, ParamsOf(c), start, rows).value.decisions| &&
            Loop(c, ParamsOf(c), start, rows).value.decisions[k].required > FirstReady(c, start, first) + i
    decreases i
  {
    PersistencePositive(c);
    var k := first + ParamsOf(c).persistence - 1 + i;
    WindowFacts(c, start, rows, k);
    if i > 0 {
      RequirementClimbs(c, start, rows, first, i - 1);
      WindowFacts(c, start, rows, k - 1);
      RunTriggers(c, start, rows, first, k - 1);
    }
  }

  lemma PersistencePositive(c: Config)
    requires ValidTiming(c)
    ensures ParamsOf(c).persistence >= 1
  {
  }

  /** The fewest replicas that can be Ready when a run of overload first triggers. */
  function FirstReady(c: Config, start: int, first: nat): int
    requires c.intervalSecs > 0 && c.persistenceSecs >= 0 && c.holdSecs >= 0
  {
    if first + ParamsOf(c).persistence == 1 then start else c.minimum
  }

  /** In a replay that completes, under any valid configuration, no run of overloaded windows is
      longer than the persistence plus the replicas that can still be added. */
  lemma CompletedBound(c: Config, start: int, rows: seq<Row>, first: nat, n: nat)
    requires ValidConfig(c) && Overloaded(c, start, rows, first, first + n)
    ensures n <= ParamsOf(c).persistence - 1 + Max(0, Last(c.lookup).replicas - FirstReady(c, start, first))
  {
    PersistencePositive(c);
    var P := ParamsOf(c).persistence;
    if n >= P {
      if rows != [] {
        WindowFacts(c, start, rows, 0);
      }
      RequirementClimbs(c, start, rows, first, n - P);
      WindowFacts(c, start, rows, first + n - 1);
    }
  }

  /** Demand does not rise after `first`, up to `last`. */
  ghost predicate Steady(rows: seq<Row>, first: nat, last: nat) {
    forall k :: first < k < last && k < |rows| ==> rows[k].demand <= rows[k - 1].demand
  }

  /** When demand does not rise inside the run, the first trigger already ends it. */
  lemma CompletedSteadyBound(c: Config, start: int, rows: seq<Row>, first: nat, n: nat)
    requires ValidConfig(c) && Overloaded(c, start, rows, first, first + n)
    requires Steady(rows, first, first + n)
    ensures n <= ParamsOf(c).persistence
  {
    PersistencePositive(c);
    var P := ParamsOf(c).persistence;
    if n > P {
      WindowFacts(c, start, rows, 0);
      var k := first + P;
      WindowFacts(c, start, rows, k - 1);
      WindowFacts(c, start, rows, k);
      RunTriggers(c, start, rows, first, k - 1);
      RequiredMonotone(c.lookup, rows[k].demand, rows[k - 1].demand);
      assert false;
    }
  }

  /** Closed-loop bound: every in-range demand and predictive trace completes, and no run of
      overloaded windows is longer than the persistence plus the replicas that can still be added. */
  lemma OverloadBound(c: Config, start: int, rows: seq<Row>)
    requires ValidConfig(c) && Full(c) && CapacityOf(c.lookup, start).Some?
    requires forall k :: 0 <= k < |rows| ==> InRange(c, rows[k])
    ensures Loop(c, ParamsOf(c), start, rows).Success?
    ensures forall first: nat, last: nat :: first <= last && Overloaded(c, start, rows, first, last) ==>
              last - first <= ParamsOf(c).persistence - 1 + Max(0, c.maximum - FirstReady(c, start, first))
  {
    Completes(c, start, rows);
    forall first: nat, last: nat | first <= last && Overloaded(c, start, rows, first, last)
      ensures last - first <= ParamsOf(c).persistence - 1 + Max(0, c.maximum - FirstReady(c, start, first))
    {
      assert first + (last - first) == last;
      CompletedBound(c, start, rows, first, last - first);
    }
  }

  /** The published setting: one Ready replica is the minimum. */
  lemma OverloadBoundFromMinimum(c: Config, rows: seq<Row>)
    requires ValidConfig(c) && Full(c) && c.minimum == 1
    requires forall k :: 0 <= k < |rows| ==> InRange(c, rows[k])
    ensures Loop(c, ParamsOf(c), 1, rows).Success?
    ensures forall first: nat, last: nat :: first <= last && Overloaded(c, 1, rows, first, last) ==>
              last - first <= ParamsOf(c).persistence - 1 + (c.maximum - c.minimum)
  {
    OverloadBound(c, 1, rows);
  }

  /** The same in seconds of the configuration. */
  lemma OverloadSeconds(c: Config, rows: seq<Row>, first: nat, last: nat)
    requires ValidConfig(c) && Full(c) && c.minimum == 1
    requires forall k :: 0 <= k < |rows| ==> InRange(c, rows[k])
    requires first <= last && Overloaded(c, 1, rows, first, last)
    ensures (last - first + 1) * c.intervalSecs <= c.persistenceSecs + (c.maximum - c.minimum) * c.intervalSecs
  {
    OverloadBoundFromMinimum(c, rows);
    InSeconds(last - first, ParamsOf(c).persistence, c.maximum - c.minimum, c.intervalSecs, c.persistenceSecs);
  }

  lemma InSeconds(windows: int, persistence: int, room: int, interval: int, secs: int)
    requires interval > 0 && windows <= persistence - 1 + room && secs % interval == 0 && persistence == secs / interval
    ensures (windows + 1) * interval <= secs + room * interval
  {
    assert secs == persistence * interval;
    assert (windows + 1) * interval <= (persistence + room) * interval;
  }

  lemma SteadyOverloadBound(c: Config, start: int, rows: seq<Row>)
    requires ValidConfig(c) && Full(c) && CapacityOf(c.lookup, start).Some?
    requires forall k :: 0 <= k < |rows| ==> InRange(c, rows[k])
    ensures Loop(c, ParamsOf(c), start, rows).Success?
    ensures forall first: nat, last: nat ::
              first <= last && Overloaded(c, start, rows, first, last) && Steady(rows, first, last) ==>
                last - first <= ParamsOf(c).persistence
  {
    Completes(c, start, rows);
    forall first: nat, last: nat | first <= last && Overloaded(c, start, rows, first, last) && Steady(rows, first, last)
      ensures last - first <= ParamsOf(c).persistence
    {
      assert first + (last - first) == last;
      CompletedSteadyBound(c, start, rows, first, last - first);
    }
  }

  // ---------------------------------------------------------------- the bound is reached

  /** The capacity of a listed count. */
  function Cap(c: Config, replicas: int): real
    requires CapacityOf(c.lookup, replicas).Some?
  {
    CapacityOf(c.lookup, replicas).value
  }

  /** How many replicas above the minimum the worst-case demand asks for in window `k`. */
  function Stair(p: Params, k: nat): nat {
    if k < p.persistence then 1 else k - p.persistence + 2
  }

  /** The bound itself. */
  function Longest(c: Config, p: Params): int {
    p.persistence - 1 + (c.maximum - c.minimum)
  }

  /** What the worst case needs of a configuration: room to climb, and a first step that serves some demand. */
  ghost predicate Climbable(c: Config, p: Params) {
    && p.persistence >= 1 && p.minimum == c.minimum < c.maximum
    && Full(c) && Increasing(c.lookup)
    && CapacityOf(c.lookup, c.minimum + 1).Some? && Cap(c, c.minimum + 1) + TOLERANCE >= 0.0
  }

  /** The row of window `k`: the most that its count can serve, with the lowest prediction. */
  function StairRow(c: Config, p: Params, k: nat): Row
    requires CapacityOf(c.lookup, c.minimum + Stair(p, k)).Some?
  {
    Row(Cap(c, c.minimum + Stair(p, k)) + TOLERANCE, c.minimum)
  }

  lemma StairListed(c: Config, p: Params, k: nat)
    requires Climbable(c, p) && k < Longest(c, p)
    ensures 1 <= Stair(p, k) <= c.maximum - c.minimum
    ensures CapacityOf(c.lookup, c.minimum + Stair(p, k)).Some?
  {
  }

  /** Demand that always needs one replica more than is Ready. */
  function StairRows(c: Config, p: Params, n: nat): (rows: seq<Row>)
    requires Climbable(c, p) && n <= Longest(c, p)
    ensures |rows| == n
  {
    if n == 0 then []
    else
      StairListed(c, p, n - 1);
      StairRows(c, p, n - 1) + [StairRow(c, p, n - 1)]
  }

  function StairState(p: Params, n: nat): State {
    if n < p.persistence then State(n, 0, p.minimum, false)
    else State(n, p.hold, p.minimum + Stair(p, n) - 1, true)
  }

  /** Listed counts are ordered like their capacities. */
  lemma CapIncreases(lookup: Lookup, low: int, high: int)
    requires Increasing(lookup) && CapacityOf(lookup, low).Some? && CapacityOf(lookup, high).Some? && low < high
    ensures CapacityOf(lookup, low).value < CapacityOf(lookup, high).value
  {
    var i :| 0 <= i < |lookup| && lookup[i] == Point(low, CapacityOf(lookup, low).value);
    var j :| 0 <= j < |lookup| && lookup[j] == Point(high, CapacityOf(lookup, high).value);
    if j < i {
      assert lookup[j].replicas < lookup[i].replicas;
    }
  }

  /** The most that a count can serve needs exactly that count. */
  lemma ExactlyServed(lookup: Lookup, replicas: int)
    requires Increasing(lookup) && CapacityOf(lookup, replicas).Some?
    ensures Required(lookup, CapacityOf(lookup, replicas).value + TOLERANCE) == Some(replicas)
  {
    var demand := CapacityOf(lookup, replicas).value + TOLERANCE;
    var i :| 0 <= i < |lookup| && lookup[i] == Point(replicas, CapacityOf(lookup, replicas).value);
    var k := FirstServing(lookup, demand);
    assert Serves(lookup[i], demand) && k <= i;
  }

  lemma CapOrder(c: Config, p: Params, replicas: int)
    requires Climbable(c, p) && c.minimum < replicas <= c.maximum
    ensures CapacityOf(c.lookup, replicas).Some? && CapacityOf(c.lookup, replicas - 1).Some?
    ensures Cap(c, replicas - 1) < Cap(c, replicas) && Cap(c, replicas) + TOLERANCE >= 0.0
    ensures Required(c.lookup, Cap(c, replicas) + TOLERANCE) == Some(replicas)
  {
    ExactlyServed(c.lookup, replicas);
    CapIncreases(c.lookup, replicas - 1, replicas);
    if replicas > c.minimum + 1 {
      CapIncreases(c.lookup, c.minimum + 1, replicas);
    }
  }

  /** The most that a count can serve overloads the count below. */
  lemma JustOverloads(c: Config, p: Params, replicas: int) returns (row: Row)
    requires Climbable(c, p) && c.minimum < replicas <= c.maximum
    ensures row == Row(Cap(c, replicas) + TOLERANCE, c.minimum)
    ensures Observed(c, Some(row.demand), replicas - 1, c.minimum) == Success(Sample(true, replicas, true))
  {
    CapOrder(c, p, replicas);
    row := Row(Cap(c, replicas) + TOLERANCE, c.minimum);
  }

  lemma StairStep(p: Params, m: nat, x: Sample)
    requires p.persistence >= 1 && x == Sample(true, p.minimum + Stair(p, m), true)
    ensures Step(p, StairState(p, m), x).0 == StairState(p, m + 1)
    ensures EffectiveFloor(p, StairState(p, m + 1)) == p.minimum + Stair(p, m + 1) - 1
  {
  }

  ghost predicate OnStair(p: Params, t: Trace, n: nat) {
    && |t.decisions| == n
    && After(p, t.samples) == StairState(p, n)
    && ReadyNext(p.minimum, t.decisions) == p.minimum + Stair(p, n) - 1
    && forall k :: 0 <= k < n ==> t.decisions[k].overload
  }

  /** Row `k` overloads a Ready count one below the one it needs. */
  predicate OnStep(c: Config, p: Params, k: nat, row: Row) {
    && row.predictive == c.minimum
    && Observed(c, Some(row.demand), c.minimum + Stair(p, k) - 1, c.minimum)
       == Success(Sample(true, c.minimum + Stair(p, k), true))
  }

  predicate Ladder(c: Config, p: Params, rows: seq<Row>) {
    rows == [] || (Ladder(c, p, Front(rows)) && OnStep(c, p, |rows| - 1, Last(rows)))
  }

  lemma StairExtends(c: Config, p: Params, t: Trace, m: nat, row: Row) returns (t': Trace)
    requires p.persistence >= 1 && p.minimum == c.minimum && OnStair(p, t, m) && OnStep(c, p, m, row)
    ensures Extend(c, p, c.minimum, t, row) == Success(t') && OnStair(p, t', m + 1)
  {
    var x := Sample(true, c.minimum + Stair(p, m), true);
    StairStep(p, m, x);
    assert Front(t.samples + [x]) == t.samples;
    t' := Extend(c, p, c.minimum, t, row).value;
  }

  lemma {:induction false} LadderClimbs(c: Config, p: Params, rows: seq<Row>) returns (t: Trace)
    requires p.persistence >= 1 && p.minimum == c.minimum && Ladder(c, p, rows)
    ensures Loop(c, p, c.minimum, rows) == Success(t) && OnStair(p, t, |rows|)
  {
    if rows == [] {
      t := Trace([], []);
    } else {
      var before := LadderClimbs(c, p, Front(rows));
      t := StairExtends(c, p, before, |rows| - 1, Last(rows));
    }
  }

  lemma StairRowOnStep(c: Config, p: Params, k: nat) returns (row: Row)
    requires Climbable(c, p) && k < Longest(c, p)
    ensures CapacityOf(c.lookup, c.minimum + Stair(p, k)).Some?
    ensures row == StairRow(c, p, k) && OnStep(c, p, k, row)
  {
    StairListed(c, p, k);
    row := JustOverloads(c, p, c.minimum + Stair(p, k));
  }

  lemma LadderExtends(c: Config, p: Params, rows: seq<Row>, row: Row) returns (all: seq<Row>)
    requires Ladder(c, p, rows) && OnStep(c, p, |rows|, row)
    ensures all == rows + [row] && Ladder(c, p, all)
  {
    all := rows + [row];
    assert Front(all) == rows;
  }

  lemma {:induction false} StairIsLadder(c: Config, p: Params, n: nat) returns (rows: seq<Row>)
    requires Climbable(c, p) && n <= Longest(c, p)
    ensures rows == StairRows(c, p, n) && Ladder(c, p, rows)
  {
    if n == 0 {
      rows := [];
    } else {
      var before := StairIsLadder(c, p, n - 1);
      var row := StairRowOnStep(c, p, n - 1);
      rows := LadderExtends(c, p, before, row);
    }
  }

  /** Where the first count above the minimum serves some demand, the bound is attained. */
  lemma OverloadBoundReached(c: Config)
    requires ValidConfig(c) && Climbable(c, ParamsOf(c))
    ensures var n := Longest(c, ParamsOf(c));
            n >= 0 && Overloaded(c, c.minimum, StairRows(c, ParamsOf(c), n), 0, n)
  {
    var p := ParamsOf(c);
    var rows := StairIsLadder(c, p, Longest(c, p));
    var t := LadderClimbs(c, p, rows);
  }

  /** From the first trigger on the requirement rises by at least one replica per window. */
  lemma {:induction false} ClimbsFrom(c: Config, start: int, rows: seq<Row>, first: nat, i: nat)
    requires ValidConfig(c)
    requires var P := ParamsOf(c).persistence;
             first + P + i <= |rows| && Overloaded(c, start, rows, first, first + P + i)
    ensures var P := ParamsOf(c).persistence;
            var d := Loop(c, ParamsOf(c), start, rows).value.decisions;
            && first + P >= 1 && |rows| == |d|
            && d[first + P - 1 + i].required >= d[first + P - 1].required + i
    decreases i
  {
    PersistencePositive(c);
    var k := first + ParamsOf(c).persistence - 1 + i;
    WindowFacts(c, start, rows, k);
    if i > 0 {
      ClimbsFrom(c, start, rows, first, i - 1);
      WindowFacts(c, start, rows, k - 1);
      RunTriggers(c, start, rows, first, k - 1);
    }
  }

  /** No window needs more than the lookup offers. */
  lemma RequiredListed(c: Config, start: int, rows: seq<Row>, k: nat)
    requires ValidConfig(c) && Loop(c, ParamsOf(c), start, rows).Success? && k < |rows|
    ensures var d := Loop(c, ParamsOf(c), start, rows).value.decisions;
            && |d| == |rows| && d[k].required <= Last(c.lookup).replicas
            && Required(c.lookup, rows[k].demand) == Some(d[k].required)
  {
    WindowFacts(c, start, rows, k);
  }

  lemma LoopLength(c: Config, start: int, rows: seq<Row>)
    requires ValidConfig(c) && Loop(c, ParamsOf(c), start, rows).Success?
    ensures |Loop(c, ParamsOf(c), start, rows).value.decisions| == |rows|
  {
    if rows != [] {
      WindowFacts(c, start, rows, 0);
    }
  }

  /** In a run of the greatest length the first trigger needs exactly one replica above the minimum. */
  lemma LongestStartsLow(c: Config, rows: seq<Row>, first: nat)
    requires ValidConfig(c) && Last(c.lookup).replicas == c.maximum && c.minimum < c.maximum
    requires Overloaded(c, c.minimum, rows, first, first + ParamsOf(c).persistence + (c.maximum - c.minimum - 1))
    ensures var k := first + ParamsOf(c).persistence - 1;
            0 <= k < |rows| && Required(c.lookup, rows[k].demand) == Some(c.minimum + 1)
  {
    PersistencePositive(c);
    LoopLength(c, c.minimum, rows);
    var i := c.maximum - c.minimum - 1;
    var k := first + ParamsOf(c).persistence - 1;
    RequirementClimbs(c, c.minimum, rows, first, 0);
    FirstTriggerLow(c, c.minimum, rows, first, i);
    RequiredListed(c, c.minimum, rows, k);
  }

  /** The first trigger leaves room for the climb that follows it. */
  lemma FirstTriggerLow(c: Config, start: int, rows: seq<Row>, first: nat, i: nat)
    requires ValidConfig(c)
    requires var P := ParamsOf(c).persistence;
             first + P + i <= |rows| && Overloaded(c, start, rows, first, first + P + i)
    ensures var P := ParamsOf(c).persistence;
            var d := Loop(c, ParamsOf(c), start, rows).value.decisions;
            first + P >= 1 && |rows| == |d| && d[first + P - 1].required + i <= Last(c.lookup).replicas
  {
    ClimbsFrom(c, start, rows, first, i);
    RequiredListed(c, start, rows, first + ParamsOf(c).persistence - 1 + i);
  }

  lemma DemandNonNegative(c: Config, start: int, rows: seq<Row>, k: nat)
    requires ValidConfig(c) && Loop(c, ParamsOf(c), start, rows).Success? && k < |rows|
    ensures rows[k].demand >= 0.0
  {
    Windows(c, ParamsOf(c), start, rows, k);
  }

  lemma ServedByCount(lookup: Lookup, demand: real, replicas: int)
    requires Increasing(lookup) && Required(lookup, demand) == Some(replicas)
    ensures CapacityOf(lookup, replicas).Some? && demand <= CapacityOf(lookup, replicas).value + TOLERANCE
  {
    var k := FirstServing(lookup, demand);
    assert lookup[k] in lookup;
    var r := CapacityOf(lookup, replicas);
    var i :| 0 <= i < |lookup| && lookup[i] == Point(replicas, r.value);
    assert i == k;
  }

  lemma LongestNeedsCapacity(c: Config, rows: seq<Row>, first: nat, last: nat)
    requires ValidConfig(c) && Full(c) && c.minimum < c.maximum
    requires first <= last && last - first == Longest(c, ParamsOf(c)) && Overloaded(c, c.minimum, rows, first, last)
    ensures Cap(c, c.minimum + 1) + TOLERANCE >= 0.0
  {
    PersistencePositive(c);
    assert last == first + ParamsOf(c).persistence + (c.maximum - c.minimum - 1);
    LongestStartsLow(c, rows, first);
    var k := first + ParamsOf(c).persistence - 1;
    DemandNonNegative(c, c.minimum, rows, k);
    ServedByCount(c.lookup, rows[k].demand, c.minimum + 1);
  }

  /** Some trace has an overloaded run of the greatest length. */
  ghost predicate Attained(c: Config)
    requires ValidConfig(c)
  {
    exists rows: seq<Row>, first: nat, last: nat ::
      first <= last && last - first == Longest(c, ParamsOf(c)) && Overloaded(c, c.minimum, rows, first, last)
  }

  /** The bound is tight exactly when the first count above the minimum serves some demand. */
  lemma OverloadBoundReachedIff(c: Config)
    requires ValidConfig(c) && Full(c) && c.minimum < c.maximum
    ensures Attained(c) <==> Cap(c, c.minimum + 1) + TOLERANCE >= 0.0
  {
    if Cap(c, c.minimum + 1) + TOLERANCE >= 0.0 {
      PersistencePositive(c);
      OverloadBoundReached(c);
    }
    if Attained(c) {
      var rows: seq<Row>, first: nat, last: nat :|
        first <= last && last - first == Longest(c, ParamsOf(c)) && Overloaded(c, c.minimum, rows, first, last);
      LongestNeedsCapacity(c, rows, first, last);
    }
  }
}

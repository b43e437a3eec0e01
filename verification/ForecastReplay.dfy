/** Two independent replays of the policy over a bounded deque: the one that drives forecast
    generation and the one that validates finished runs. Both branch differently from the engine. */
module ForecastReplay {
  import opened Basics
  import opened Capacity
  import opened PolicyModel
  import opened PolicyDecisions

  datatype ReplayError = ExceedsCapacity | EmptyWindow

  /** The window keeps the engine's suffix: its maximum is the stabilized requirement. */
  lemma DequeIsWindow(p: Params, b: seq<int>, x: int)
    ensures DequeAppend(Suffix(b, Span(p)), x, Span(p)) == Suffix(b + [x], Span(p))
    ensures MaxOf(DequeAppend(Suffix(b, Span(p)), x, Span(p))) == Stabilized(p, b + [x])
  {
    DequeKeepsSuffix(b, x, Span(p));
  }

  /** A deque of length 0 stays empty, so it has no maximum. */
  lemma UnpaddedWindow(p: Params, b: seq<int>, x: int)
    ensures p.window == 0 ==> DequeAppend(Suffix(b, p.window), x, p.window) == []
    ensures p.window >= 1 ==>
              && DequeAppend(Suffix(b, p.window), x, p.window) == Suffix(b + [x], p.window) != []
              && MaxOf(Suffix(b + [x], p.window)) == Stabilized(p, b + [x])
  {
    DequeKeepsSuffix(b, x, p.window);
  }

  /** Testing the new requirement instead of the window maximum takes the same branch, because
      the prior command already covers the rest of the window. */
  lemma {:induction false} BranchesAgree(p: Params, b: seq<int>, x: int)
    requires p.up.None?
    ensures var prior := Command(p, b); var stabilized := Stabilized(p, b + [x]);
            && (x > prior <==> stabilized > prior)
            && (x > prior ==> stabilized == x)
  {
    assert Front(b + [x]) == b;
    StabilizedSplit(p, b + [x]);
    if b != [] {
      NeverBelowWindow(p, b);
    }
  }

  /** The replay calls every decision below the prior command a scale-down that is not held. */
  function Relabelled(d: Decision): Decision {
    if d.stabilized < d.prior then d.(action := ScaleDown, held := false) else d
  }

  /** The rows of the replay. */
  function ReplayRows(s: Settings, workloads: seq<real>): (rows: seq<Decision>)
    requires AllServable(s, workloads)
    ensures |rows| == |workloads|
  {
    if workloads == [] then []
    else ReplayRows(s, Front(workloads)) + [Relabelled(DecisionOf(s, Requirements(s, workloads), Last(workloads)))]
  }

  lemma RowsExtend(s: Settings, done: seq<real>, workload: real)
    requires AllServable(s, done) && AllServable(s, done + [workload]) && Servable(s, workload)
    ensures ReplayRows(s, done + [workload])
         == ReplayRows(s, done) + [Relabelled(DecisionOf(s, Requirements(s, done + [workload]), workload))]
  {
    assert Front(done + [workload]) == done;
  }

  /** The label is the decision's own exactly when the down-step moves the command or there is
      nothing to move. */
  lemma LabelsAgree(s: Settings, b: seq<int>, workload: real)
    requires s.params.up.None? && b != [] && Servable(s, workload)
    ensures var d := DecisionOf(s, b, workload);
            Relabelled(d) == d <==> s.params.down >= 1 || d.stabilized >= d.prior
  {
    NeverBelowWindow(s.params, b);
  }

  /** With a down-step of at least 1 the replay reports the decisions themselves. */
  lemma {:induction false} RowsAreDecisions(s: Settings, workloads: seq<real>)
    requires s.params.up.None? && s.params.down >= 1 && AllServable(s, workloads)
    ensures ReplayRows(s, workloads) == Decisions(s, workloads)
  {
    if workloads != [] {
      RowsAreDecisions(s, Front(workloads));
      LabelsAgree(s, Requirements(s, workloads), Last(workloads));
    }
  }

  lemma {:induction false} RowsCommand(s: Settings, workloads: seq<real>)
    requires AllServable(s, workloads)
    ensures CommandsOf(ReplayRows(s, workloads)) == Commands(s, workloads)
  {
    if workloads != [] {
      RowsCommand(s, Front(workloads));
      CommandsOfAppend(ReplayRows(s, Front(workloads)), Last(ReplayRows(s, workloads)));
    }
  }

  method ReplayBranch(p: Params, ghost b: seq<int>, bounded: int, stabilized: int, prior: int)
    returns (command: int, action: Action, held: bool)
    requires p.up.None?
    requires stabilized == Stabilized(p, b + [bounded]) && prior == Command(p, b)
    ensures command == Command(p, b + [bounded])
    ensures action == if stabilized < prior then ScaleDown else Change(prior, command)
    ensures held == (stabilized >= prior && bounded < prior && command >= prior)
  {
    BranchesAgree(p, b, bounded);
    assert Front(b + [bounded]) == b;
    command, action, held := prior, Keep, bounded < prior;
    if bounded > prior {
      command, action, held := bounded, ScaleUp, false;
    } else if stabilized < prior {
      command, action, held := Max(stabilized, prior - p.down), ScaleDown, false;
    }
  }

  /** One pass of the replay loop over the deque of recent requirements; the branch is taken on
      the new requirement. `None` reports a value beyond the lookup. */
  method ReplayRow(s: Settings, ghost b: seq<int>, sequence: nat, value: real, deque: seq<int>, prior: int)
    returns (r: Option<(Decision, seq<int>)>)
    requires s.params.up.None? && |b| == sequence
    requires deque == Suffix(b, Span(s.params)) && prior == Command(s.params, b)
    ensures r.Some? <==> Servable(s, value)
    ensures r.Some? ==> var b' := b + [Bounded(s, value)];
              && r.value.1 == Suffix(b', Span(s.params))
              && r.value.0 == Relabelled(DecisionOf(s, b', value))
  {
    var adjusted := Adjusted(s, value);
    var raw := ScanRequired(s.lookup, adjusted);
    if raw.None? {
      return None;
    }
    var bounded := Min(s.maximum, Max(s.minimum, raw.value));
    var history := DequeAppend(deque, bounded, Max(1, s.params.window));
    var stabilized := MaxOf(history);
    DequeIsWindow(s.params, b, bounded);
    var command, action, held := ReplayBranch(s.params, b, bounded, stabilized, prior);
    var row := Decision(sequence, value, adjusted, raw.value, bounded, stabilized, prior, command, action, held);
    return Some((row, history));
  }

  /** The replay fails exactly on a value beyond the lookup; otherwise its rows are the decisions
      with its own labels. */
  method Replay(s: Settings, values: seq<real>) returns (r: Result<seq<Decision>, ReplayError>)
    requires s.params.up.None?
    ensures r.Success? <==> AllServable(s, values)
    ensures r.Success? ==> r.value == ReplayRows(s, values)
  {
    var history: seq<int> := [];
    var prior := s.params.initial;
    var rows: seq<Decision> := [];
    ghost var done: seq<real> := [];
    ghost var b: seq<int> := [];
    for k := 0 to |values|
      invariant done == values[..k]
      invariant AllServable(s, done) && b == Requirements(s, done)
      invariant history == Suffix(b, Span(s.params)) && prior == Command(s.params, b)
      invariant rows == ReplayRows(s, done)
    {
      TakeOneMore(values, k);
      var row := ReplayRow(s, b, k, values[k], history, prior);
      if row.None? {
        ServableAt(s, values);
        return Failure(ExceedsCapacity);
      }
      Extend(s, done, values[k]);
      RowsExtend(s, done, values[k]);
      rows, history, prior := rows + [row.value.0], row.value.1, row.value.0.commanded;
      done, b := done + [values[k]], b + [Bounded(s, values[k])];
    }
    TakeAll(values);
    return Success(rows);
  }

  function CommandsOf(rows: seq<Decision>): seq<int> {
    if rows == [] then [] else CommandsOf(Front(rows)) + [Last(rows).commanded]
  }

  lemma {:induction false} CommandsOfAppend(rows: seq<Decision>, row: Decision)
    ensures CommandsOf(rows + [row]) == CommandsOf(rows) + [row.commanded]
  {
    assert Front(rows + [row]) == rows;
  }

  method DesiredBranch(p: Params, ghost b: seq<int>, bounded: int, stable: int, prior: int) returns (command: int)
    requires p.up.None?
    requires stable == Stabilized(p, b + [bounded]) && prior == Command(p, b)
    ensures command == Command(p, b + [bounded])
  {
    BranchesAgree(p, b, bounded);
    assert Front(b + [bounded]) == b;
    command := if bounded > prior then bounded
               else if stable < prior then Max(stable, prior - p.down)
               else prior;
  }

  method DesiredRow(s: Settings, ghost b: seq<int>, value: real, deque: seq<int>, prior: int)
    returns (r: Result<(int, seq<int>), ReplayError>)
    requires s.params.up.None?
    requires deque == Suffix(b, s.params.window) && prior == Command(s.params, b)
    ensures r.Success? <==> Servable(s, value) && s.params.window >= 1
    ensures r.Success? ==> var b' := b + [Bounded(s, value)];
              r.value.1 == Suffix(b', s.params.window) && r.value.0 == Command(s.params, b')
  {
    var raw := ScanRequired(s.lookup, Adjusted(s, value));
    if raw.None? {
      return Failure(ExceedsCapacity);
    }
    var bounded := Min(s.maximum, Max(s.minimum, raw.value));
    var window := DequeAppend(deque, bounded, s.params.window);
    UnpaddedWindow(s.params, b, bounded);
    if window == [] {
      return Failure(EmptyWindow);
    }
    var stable := MaxOf(window);
    var command := DesiredBranch(s.params, b, bounded, stable, prior);
    return Success((command, window));
  }

  /** The run validator's replay gives the same commands, but fails on a zero-length window,
      where the engine does not. */
  method Desired(s: Settings, forecast: seq<real>) returns (r: Result<seq<int>, ReplayError>)
    requires s.params.up.None?
    ensures r.Success? <==> AllServable(s, forecast) && (forecast == [] || s.params.window >= 1)
    ensures r.Success? ==> r.value == Commands(s, forecast)
  {
    var window: seq<int> := [];
    var prior := s.params.initial;
    var out: seq<int> := [];
    ghost var done: seq<real> := [];
    ghost var b: seq<int> := [];
    for k := 0 to |forecast|
      invariant done == forecast[..k]
      invariant AllServable(s, done) && b == Requirements(s, done)
      invariant k > 0 ==> s.params.window >= 1
      invariant window == Suffix(b, s.params.window) && prior == Command(s.params, b)
      invariant out == Commands(s, done)
    {
      TakeOneMore(forecast, k);
      var row := DesiredRow(s, b, forecast[k], window, prior);
      if row.Failure? {
        ServableAt(s, forecast);
        return Failure(row.error);
      }
      Extend(s, done, forecast[k]);
      out, prior, window := out + [row.value.0], row.value.0, row.value.1;
      done, b := done + [forecast[k]], b + [Bounded(s, forecast[k])];
    }
    TakeAll(forecast);
    return Success(out);
  }
}

/** From dispatched requests to accepted observations: the window accumulator of the load
    generator and the strict-sequence store of the controller. */
module Observations {
  import opened Basics
  import opened SafetyEngine

  datatype SubmitError = InvalidObservation | RunMismatch | OutOfSequence | MisalignedWindow

  datatype DispatchError = NegativeSecond | AlreadyFinalized | NotNextWindow

  /** The observation that closes window `k` with `count` dispatches. */
  function WindowOf(runId: string, intervalSecs: int, k: int, count: int): Observation
    requires intervalSecs > 0
  {
    var start := k * intervalSecs * 1000;
    Observation(runId, k, start, start + intervalSecs * 1000, count, count as real / intervalSecs as real)
  }

  // ---------------------------------------------------------------- the store

  class Store {
    const runId: string
    const intervalSecs: int
    var rows: map<int, Observation>
    var latestSequence: int
    /** The accepted observations in order of acceptance. */
    ghost var accepted: seq<Observation>

    ghost predicate Valid()
      reads this
    {
      && runId != "" && intervalSecs > 0
      && latestSequence == |accepted| - 1
      && (forall k :: k in rows <==> 0 <= k <= latestSequence)
      && (forall k :: 0 <= k < |accepted| ==> rows[k] == accepted[k])
      && (forall k :: 0 <= k < |accepted| ==> Fits(accepted[k], k))
    }

    /** The observation `o` is the one the store expects as number `k`. */
    predicate Fits(o: Observation, k: int)
      requires intervalSecs > 0
    {
      ObservationOk(o, intervalSecs) && o.runId == runId && o.sequence == k
      && o.windowStartMs == k * intervalSecs * 1000
    }

    constructor (runId: string, intervalSecs: int)
      requires runId != "" && intervalSecs > 0
      ensures Valid() && this.runId == runId && this.intervalSecs == intervalSecs && accepted == []
    {
      this.runId, this.intervalSecs := runId, intervalSecs;
      rows, latestSequence, accepted := map[], -1, [];
    }

    method Submit(o: Observation) returns (r: Option<SubmitError>)
      requires Valid()
      modifies this
      ensures Valid()
      ensures r.None? <==> Fits(o, |old(accepted)|)
      ensures r.None? ==> o.runId == runId && o.sequence == |old(accepted)|
      ensures accepted == if r.None? then old(accepted) + [o] else old(accepted)
    {
      if !ObservationOk(o, intervalSecs) { return Some(SubmitError.InvalidObservation); }
      if o.runId != runId { return Some(RunMismatch); }
      var expected := latestSequence + 1;
      if o.sequence != expected { return Some(OutOfSequence); }
      var expectedStart := o.sequence * intervalSecs * 1000;
      if o.windowStartMs != expectedStart { return Some(MisalignedWindow); }
      rows, latestSequence := rows[o.sequence := o], o.sequence;
      accepted := accepted + [o];
      return None;
    }

    method Get(sequence: int) returns (row: Option<Observation>)
      requires Valid()
      ensures row == if 0 <= sequence < |accepted| then Some(accepted[sequence]) else None
    {
      if sequence in rows {
        return Some(rows[sequence]);
      }
      return None;
    }

    method LatestSequence() returns (n: int)
      requires Valid()
      ensures n == |accepted| - 1
    {
      return latestSequence;
    }

    /** Window `k` lies between boundaries `k` and `k + 1`. */
    lemma WindowEdges(k: nat)
      requires Valid() && k < |accepted|
      ensures accepted[k].windowStartMs == Edge(intervalSecs * 1000, k)
      ensures accepted[k].windowEndMs == Edge(intervalSecs * 1000, k + 1)
    {
      assert Fits(accepted[k], k);
      EdgeIsProduct(intervalSecs * 1000, k);
      assert k * intervalSecs * 1000 == k * (intervalSecs * 1000);
    }

    /** A millisecond lies in the accepted window `k`. */
    ghost predicate Holds(k: int, ms: int)
      reads this
    {
      0 <= k < |accepted| && accepted[k].windowStartMs <= ms < accepted[k].windowEndMs
    }

    /** The accepted windows tile time: every millisecond up to the end of the last one lies in
        exactly one of them, and no other lies in any. */
    lemma WindowsTile(ms: int)
      requires Valid() && accepted != []
      ensures 0 <= ms < Last(accepted).windowEndMs <==> exists k :: Holds(k, ms)
      ensures forall j, k :: Holds(j, ms) && Holds(k, ms) ==> j == k
    {
      var width := intervalSecs * 1000;
      WindowEdges(|accepted| - 1);
      if 0 <= ms < Edge(width, |accepted|) {
        var k := Between(width, |accepted|, ms);
        WindowEdges(k);
        assert Holds(k, ms);
      }
      forall k | Holds(k, ms)
        ensures 0 <= ms < Edge(width, |accepted|) && Edge(width, k) <= ms < Edge(width, k + 1)
      {
        WindowEdges(k);
        EdgesIncrease(width, 0, k);
        EdgesIncrease(width, k + 1, |accepted|);
      }
      forall j, k | Holds(j, ms) && Holds(k, ms)
        ensures j == k
      {
        if j < k {
          EdgesIncrease(width, j + 1, k);
        } else if k < j {
          EdgesIncrease(width, k + 1, j);
        }
      }
    }
  }

  /** The boundary before window `k`. */
  function Edge(width: nat, k: nat): nat {
    if k == 0 then 0 else Edge(width, k - 1) + width
  }

  lemma {:induction false} EdgeIsProduct(width: nat, k: nat)
    ensures Edge(width, k) == k * width
  {
    if k > 0 {
      EdgeIsProduct(width, k - 1);
      assert (k - 1) * width + width == k * width;
    }
  }

  lemma {:induction false} EdgesIncrease(width: nat, j: nat, k: nat)
    requires j <= k
    ensures Edge(width, j) <= Edge(width, k)
    decreases k
  {
    if j < k {
      EdgesIncrease(width, j, k - 1);
    }
  }

  lemma {:induction false} Between(width: nat, n: nat, ms: int) returns (k: nat)
    requires 0 <= ms < Edge(width, n)
    ensures k < n && Edge(width, k) <= ms < Edge(width, k + 1)
  {
    if Edge(width, n - 1) <= ms {
      k := n - 1;
    } else {
      k := Between(width, n - 1, ms);
    }
  }

  // ---------------------------------------------------------------- the accumulator

  /** How often `second` occurs among the dispatches. */
  function Count(dispatches: seq<int>, second: int): nat {
    if dispatches == [] then 0
    else Count(Front(dispatches), second) + (if Last(dispatches) == second then 1 else 0)
  }

  function Pending(counts: map<int, int>, second: int): int {
    if second in counts then counts[second] else 0
  }

  class Accumulator {
    const runId: string
    const intervalSecs: int
    var counts: map<int, int>
    var finalized: int
    /** The accepted dispatches and the windows closed so far. */
    ghost var dispatches: seq<int>
    ghost var windows: seq<Observation>

    ghost predicate Valid()
      reads this
    {
      && runId != "" && intervalSecs > 0
      && finalized == |windows| - 1
      && (forall second :: second in counts ==> second > finalized)
      && (forall second :: second > finalized ==> Pending(counts, second) == Count(dispatches, second))
      && (forall i :: 0 <= i < |dispatches| ==> dispatches[i] >= 0)
      && (forall k :: 0 <= k < |windows| ==> windows[k] == WindowOf(runId, intervalSecs, k, Count(dispatches, k)))
    }

    constructor (runId: string, intervalSecs: int)
      requires runId != "" && intervalSecs > 0
      ensures Valid() && this.runId == runId && this.intervalSecs == intervalSecs
      ensures dispatches == [] && windows == []
    {
      this.runId, this.intervalSecs := runId, intervalSecs;
      counts, finalized := map[], -1;
      dispatches, windows := [], [];
    }

    method NoteDispatch(second: int) returns (r: Option<DispatchError>)
      requires Valid()
      modifies this`counts, this`dispatches
      ensures Valid()
      ensures r.None? <==> second >= 0 && second >= |windows|
      ensures dispatches == if r.None? then old(dispatches) + [second] else old(dispatches)
    {
      if second < 0 { return Some(NegativeSecond); }
      if second <= finalized { return Some(AlreadyFinalized); }
      counts := counts[second := (if second in counts then counts[second] else 0) + 1];
      dispatches := dispatches + [second];
      assert Front(dispatches) == old(dispatches);
      return None;
    }

    method Finalize(sequence: int) returns (r: Result<Observation, DispatchError>)
      requires Valid()
      modifies this`counts, this`finalized, this`windows
      ensures Valid()
      ensures r.Success? <==> sequence == |old(windows)|
      ensures r.Failure? ==> windows == old(windows)
      ensures r.Success? ==> windows == old(windows) + [r.value]
      ensures r.Success? ==> r.value == WindowOf(runId, intervalSecs, sequence, Count(dispatches, sequence))
    {
      if sequence != finalized + 1 { return Failure(NotNextWindow); }
      var count := if sequence in counts then counts[sequence] else 0;
      assert count == Count(dispatches, sequence);
      counts, finalized := counts - {sequence}, sequence;
      var start := sequence * intervalSecs * 1000;
      var o := Observation(runId, sequence, start, start + intervalSecs * 1000, count,
                           count as real / intervalSecs as real);
      windows := windows + [o];
      return Success(o);
    }

    /** Conservation: every accepted dispatch is in exactly one closed window or still pending. */
    lemma Conserved(horizon: nat)
      requires Valid() && |windows| <= horizon
      requires forall i :: 0 <= i < |dispatches| ==> dispatches[i] < horizon
      ensures WindowTotal(windows) + PendingTotal(counts, |windows|, horizon) == |dispatches|
    {
      ClosedTotal(dispatches, windows, runId, intervalSecs);
      OpenTotal(dispatches, counts, |windows|, horizon);
      CountsSplit(dispatches, |windows|, horizon);
      CountsComplete(dispatches, horizon);
    }
  }

  function WindowTotal(windows: seq<Observation>): int {
    if windows == [] then 0 else WindowTotal(Front(windows)) + Last(windows).dispatchCount
  }

  function PendingTotal(counts: map<int, int>, lo: nat, hi: nat): int
    requires lo <= hi
    decreases hi
  {
    if lo == hi then 0 else PendingTotal(counts, lo, hi - 1) + Pending(counts, hi - 1)
  }

  /** Dispatches whose second lies in `lo .. hi - 1`. */
  function CountRange(dispatches: seq<int>, lo: nat, hi: nat): nat
    requires lo <= hi
    decreases hi
  {
    if lo == hi then 0 else CountRange(dispatches, lo, hi - 1) + Count(dispatches, hi - 1)
  }

  lemma {:induction false} CountsSplit(dispatches: seq<int>, middle: nat, to: nat)
    requires middle <= to
    ensures CountRange(dispatches, 0, middle) + CountRange(dispatches, middle, to) == CountRange(dispatches, 0, to)
  {
    if middle < to {
      CountsSplit(dispatches, middle, to - 1);
    }
  }

  lemma {:induction false} RangeStep(dispatches: seq<int>, to: nat)
    requires dispatches != []
    ensures CountRange(dispatches, 0, to) == CountRange(Front(dispatches), 0, to)
                                             + (if 0 <= Last(dispatches) < to then 1 else 0)
  {
    if to > 0 {
      RangeStep(dispatches, to - 1);
    }
  }

  lemma {:induction false} RangeOfNothing(to: nat)
    ensures CountRange([], 0, to) == 0
  {
    if to > 0 {
      RangeOfNothing(to - 1);
    }
  }

  lemma {:induction false} CountsComplete(dispatches: seq<int>, horizon: nat)
    requires forall i :: 0 <= i < |dispatches| ==> 0 <= dispatches[i] < horizon
    ensures CountRange(dispatches, 0, horizon) == |dispatches|
  {
    if dispatches == [] {
      RangeOfNothing(horizon);
    } else {
      CountsComplete(Front(dispatches), horizon);
      RangeStep(dispatches, horizon);
    }
  }

  lemma {:induction false} ClosedTotal(dispatches: seq<int>, windows: seq<Observation>, runId: string,
                                       intervalSecs: int)
    requires intervalSecs > 0
    requires forall k :: 0 <= k < |windows| ==> windows[k].dispatchCount == Count(dispatches, k)
    ensures WindowTotal(windows) == CountRange(dispatches, 0, |windows|)
  {
    if windows != [] {
      ClosedTotal(dispatches, Front(windows), runId, intervalSecs);
    }
  }

  lemma {:induction false} OpenTotal(dispatches: seq<int>, counts: map<int, int>, lo: nat, hi: nat)
    requires lo <= hi
    requires forall second :: second >= lo ==> Pending(counts, second) == Count(dispatches, second)
    ensures PendingTotal(counts, lo, hi) == CountRange(dispatches, lo, hi)
    decreases hi
  {
    if lo < hi {
      OpenTotal(dispatches, counts, lo, hi - 1);
    }
  }

  // ---------------------------------------------------------------- the pipeline

  /** Closing a window and submitting it: a store for the same run that has taken every window so
      far takes this one too, so the store holds exactly the closed windows. */
  method CloseAndSubmit(a: Accumulator, s: Store, sequence: int) returns (r: Option<DispatchError>)
    requires a.Valid() && s.Valid()
    requires a.runId == s.runId && a.intervalSecs == s.intervalSecs && s.accepted == a.windows
    modifies a`counts, a`finalized, a`windows, s
    ensures a.Valid() && s.Valid() && s.accepted == a.windows
    ensures r.None? <==> sequence == |old(a.windows)|
    ensures r.None? ==> |a.windows| == |old(a.windows)| + 1
  {
    var closed := a.Finalize(sequence);
    if closed.Failure? {
      return Some(closed.error);
    }
    assert closed.value.dispatchCount == Count(a.dispatches, sequence);
    WindowStartNonNegative(sequence, s.intervalSecs);
    CountIsDemand(closed.value.dispatchCount, s.intervalSecs);
    var submitted := s.Submit(closed.value);
    assert submitted.None?;
    return None;
  }

  lemma WindowStartNonNegative(k: int, intervalSecs: int)
    requires k >= 0 && intervalSecs > 0
    ensures k * intervalSecs * 1000 >= 0
  {
  }

  lemma CountIsDemand(count: int, intervalSecs: int)
    requires count >= 0 && intervalSecs > 0
    ensures count as real / intervalSecs as real >= 0.0
  {
  }
}

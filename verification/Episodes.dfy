/** Maximal runs: intervals of a set of seconds, episodes of a flag series, event windows of a
    workload, and the replica-second accounting over them. */
module Episodes {
  import opened Basics
  import opened ForecastQuality

  /** Seconds `start` to `end`, both included. */
  datatype Run = Run(start: int, end: int)

  ghost predicate Covers(runs: seq<Run>, x: int) {
    exists i :: 0 <= i < |runs| && runs[i].start <= x <= runs[i].end
  }

  /** Non-empty runs in order, with a gap between any two. */
  ghost predicate Separated(runs: seq<Run>) {
    && (forall i :: 0 <= i < |runs| ==> runs[i].start <= runs[i].end)
    && (forall i, j :: 0 <= i < j < |runs| ==> runs[i].end + 1 < runs[j].start)
  }

  /** A list of distinct seconds in order. */
  ghost predicate Ascending(values: seq<int>) {
    forall i, j :: 0 <= i < j < |values| ==> values[i] < values[j]
  }

  ghost predicate Member(values: seq<int>, x: int) {
    exists i :: 0 <= i < |values| && values[i] == x
  }

  lemma CoversAppend(runs: seq<Run>, r: Run, x: int)
    ensures Covers(runs + [r], x) <==> Covers(runs, x) || r.start <= x <= r.end
  {
    var all := runs + [r];
    if r.start <= x <= r.end {
      assert all[|runs|] == r;
    }
    if i :| 0 <= i < |runs| && runs[i].start <= x <= runs[i].end {
      assert all[i] == runs[i];
    }
  }

  /** A scan in progress: the finished runs, and the one that reaches from `start` to `prior`. */
  datatype Scan = Scan(done: seq<Run>, start: int, prior: int) {
    function Runs(): seq<Run> {
      done + [Run(start, prior)]
    }

    /** The next second extends the open run or finishes it and opens another. */
    function Next(x: int): Scan {
      if x == prior + 1 then Scan(done, start, x) else Scan(Runs(), x, x)
    }
  }

  function ScanOf(values: seq<int>): Scan
    requires values != []
  {
    if |values| == 1 then Scan([], values[0], values[0]) else ScanOf(Front(values)).Next(Last(values))
  }

  function RunsOf(values: seq<int>): seq<Run> {
    if values == [] then [] else ScanOf(values).Runs()
  }

  lemma ScanAppend(values: seq<int>, x: int)
    ensures ScanOf(values + [x]) == if values == [] then Scan([], x, x) else ScanOf(values).Next(x)
  {
    assert Front(values + [x]) == values;
  }

  ghost predicate ScanOk(s: Scan) {
    && Separated(s.done) && s.start <= s.prior
    && (s.done != [] ==> Last(s.done).end + 1 < s.start)
  }

  lemma AppendSeparated(s: Scan)
    requires ScanOk(s)
    ensures Separated(s.Runs())
  {
    var runs := s.Runs();
    forall i, j | 0 <= i < j < |runs|
      ensures runs[i].end + 1 < runs[j].start
    {
      if j == |s.done| && i < j - 1 {
        assert s.done[i].end + 1 < Last(s.done).start <= Last(s.done).end;
      }
    }
  }

  lemma {:induction false} ScanIsOk(values: seq<int>)
    requires Ascending(values) && values != []
    ensures ScanOk(ScanOf(values)) && ScanOf(values).prior == Last(values)
  {
    if |values| > 1 {
      ScanIsOk(Front(values));
      AppendSeparated(ScanOf(Front(values)));
      assert values[|values| - 2] < Last(values);
    }
  }

  lemma {:induction false} ScanCovers(values: seq<int>, x: int)
    requires Ascending(values) && values != []
    ensures Covers(ScanOf(values).Runs(), x) <==> Member(values, x)
  {
    var s := ScanOf(values);
    CoversAppend(s.done, Run(s.start, s.prior), x);
    var f, v := Front(values), Last(values);
    assert values == f + [v];
    MemberAppend(f, v, x);
    if f != [] {
      var s0 := ScanOf(f);
      ScanCovers(f, x);
      ScanIsOk(f);
      CoversAppend(s0.done, Run(s0.start, s0.prior), x);
    }
  }

  lemma MemberAppend(values: seq<int>, v: int, x: int)
    ensures Member(values + [v], x) <==> Member(values, x) || x == v
  {
    var all := values + [v];
    if i :| 0 <= i < |values| && values[i] == x {
      assert all[i] == x;
    }
    if x == v {
      assert all[|values|] == x;
    }
  }

  /** The runs of the given seconds are maximal: in order, apart from each other, and together
      exactly those seconds. */
  lemma MaximalRuns(values: seq<int>)
    requires Ascending(values)
    ensures Separated(RunsOf(values))
    ensures forall x :: Covers(RunsOf(values), x) <==> Member(values, x)
  {
    if values != [] {
      ScanIsOk(values);
      AppendSeparated(ScanOf(values));
      forall x
        ensures Covers(RunsOf(values), x) <==> Member(values, x)
      {
        ScanCovers(values, x);
      }
    }
  }

  /** A second put in its place in an ascending list; one already listed is not repeated. */
  function Insert(values: seq<int>, x: int): seq<int> {
    if values == [] || x > Last(values) then values + [x]
    else if x == Last(values) then values
    else Insert(Front(values), x) + [Last(values)]
  }

  /** The distinct seconds in ascending order. */
  function SortedSet(seconds: seq<int>): seq<int> {
    if seconds == [] then [] else Insert(SortedSet(Front(seconds)), Last(seconds))
  }

  lemma AscendingAppend(values: seq<int>, x: int)
    requires Ascending(values) && forall i :: 0 <= i < |values| ==> values[i] < x
    ensures Ascending(values + [x])
  {
  }

  lemma {:induction false} InsertFacts(values: seq<int>, x: int)
    requires Ascending(values)
    ensures Ascending(Insert(values, x))
    ensures forall y :: Member(Insert(values, x), y) <==> Member(values, y) || y == x
  {
    if values != [] && x <= Last(values) {
      var f, last := Front(values), Last(values);
      assert values == f + [last];
      if x < last {
        InsertFacts(f, x);
        var r := Insert(f, x);
        forall i | 0 <= i < |r|
          ensures r[i] < last
        {
          assert Member(r, r[i]);
        }
        AscendingAppend(r, last);
        forall y
          ensures Member(r + [last], y) <==> Member(values, y) || y == x
        {
          MemberAppend(r, last, y);
          MemberAppend(f, last, y);
        }
      } else {
        assert values[|f|] == last;
      }
    } else {
      forall y
        ensures Member(values + [x], y) <==> Member(values, y) || y == x
      {
        MemberAppend(values, x, y);
      }
    }
  }

  lemma {:induction false} SortedSetFacts(seconds: seq<int>)
    ensures Ascending(SortedSet(seconds))
    ensures forall y :: Member(SortedSet(seconds), y) <==> Member(seconds, y)
  {
    if seconds != [] {
      SortedSetFacts(Front(seconds));
      InsertFacts(SortedSet(Front(seconds)), Last(seconds));
      assert seconds == Front(seconds) + [Last(seconds)];
      forall y
        ensures Member(SortedSet(seconds), y) <==> Member(seconds, y)
      {
        MemberAppend(Front(seconds), Last(seconds), y);
      }
    }
  }

  /** The intervals of a collection of seconds, in any order and with repeats, are its maximal runs. */
  method Intervals(seconds: seq<int>) returns (result: seq<Run>)
    ensures result == RunsOf(SortedSet(seconds))
    ensures Separated(result)
    ensures forall x :: Covers(result, x) <==> Member(seconds, x)
  {
    var values := SortedSet(seconds);
    SortedSetFacts(seconds);
    result := ScanRuns(values);
    MaximalRuns(values);
  }

  method ScanRuns(values: seq<int>) returns (result: seq<Run>)
    ensures result == RunsOf(values)
  {
    result := [];
    if values == [] {
      return;
    }
    var start, prior := values[0], values[0];
    for k := 1 to |values|
      invariant Scan(result, start, prior) == ScanOf(values[..k])
    {
      var value := values[k];
      assert values[..k + 1] == values[..k] + [value];
      ScanAppend(values[..k], value);
      if value != prior + 1 {
        result := result + [Run(start, prior)];
        start := value;
      }
      prior := value;
    }
    assert values[..|values|] == values;
    result := result + [Run(start, prior)];
  }

  /** The positions of the set flags, in order. */
  function Positions(flags: seq<bool>): (p: seq<nat>)
    ensures forall i :: 0 <= i < |p| ==> p[i] < |flags| && flags[p[i]]
    ensures forall i, j :: 0 <= i < j < |p| ==> p[i] < p[j]
  {
    if flags == [] then []
    else Positions(Front(flags)) + (if Last(flags) then [|flags| - 1] else [])
  }

  lemma PositionsNext(flags: seq<bool>, i: nat)
    requires i < |flags|
    ensures Positions(flags[..i + 1]) == if flags[i] then Positions(flags[..i]) + [i] else Positions(flags[..i])
  {
    assert Front(flags[..i + 1]) == flags[..i];
  }

  /** What the episode loop knows before flag `i`, whose earlier set flags are at positions `p`. */
  ghost predicate EpisodeState(p: seq<nat>, i: nat, result: seq<Run>, start: Option<nat>) {
    if start.Some? then p != [] && ScanOf(p) == Scan(result, start.value, i - 1)
    else result == RunsOf(p) && (p != [] ==> ScanOf(p).prior + 1 < i)
  }

  /** A set flag continues the open episode or opens one. */
  lemma EpisodeOpen(p: seq<nat>, i: nat, result: seq<Run>, start: Option<nat>)
    requires EpisodeState(p, i, result, start)
    ensures EpisodeState(p + [i], i + 1, result, if start.Some? then start else Some(i))
  {
    ScanAppend(p, i);
  }

  /** A flag that is not set closes the open episode. */
  lemma EpisodeClose(p: seq<nat>, i: nat, result: seq<Run>, start: Option<nat>)
    requires EpisodeState(p, i, result, start)
    ensures EpisodeState(p, i + 1, if start.Some? then result + [Run(start.value, i - 1)] else result, None)
  {
  }

  /** The episodes of a flag series are the intervals of the flagged seconds. */
  method EpisodesOf(flags: seq<bool>) returns (result: seq<Run>)
    ensures result == RunsOf(Positions(flags))
  {
    result := [];
    var start: Option<nat> := None;
    ghost var p: seq<nat> := [];
    assert flags[..0] == [];
    for i := 0 to |flags| + 1
      invariant p == Positions(flags[..Min(i, |flags|)])
      invariant EpisodeState(p, i, result, start)
      invariant i == |flags| + 1 ==> start.None?
    {
      // A sentinel after the last second closes an episode that is still open.
      var flag := i < |flags| && flags[i];
      if i < |flags| {
        PositionsNext(flags, i);
      }
      if flag {
        EpisodeOpen(p, i, result, start);
        p := p + [i];
      } else {
        EpisodeClose(p, i, result, start);
      }
      if flag && start.None? {
        start := Some(i);
      }
      if !flag && start.Some? {
        result := result + [Run(start.value, i - 1)];
        start := None;
      }
    }
    assert flags[..|flags|] == flags;
    EpisodesDone(p, |flags| + 1, result);
  }

  lemma EpisodesDone(p: seq<nat>, i: nat, result: seq<Run>)
    requires EpisodeState(p, i, result, None)
    ensures result == RunsOf(p)
  {
  }

  /** The decomposition is unique: separated runs are determined by the seconds they cover. */
  lemma {:induction false} Unique(a: seq<Run>, b: seq<Run>)
    requires Separated(a) && Separated(b) && forall x :: Covers(a, x) <==> Covers(b, x)
    ensures a == b
  {
    CoversFirst(a);
    CoversFirst(b);
    if a != [] && b != [] {
      SameFirst(a, b);
      forall x
        ensures Covers(a[1..], x) <==> Covers(b[1..], x)
      {
        CoversTail(a, x);
        CoversTail(b, x);
      }
      Unique(a[1..], b[1..]);
      assert a == [a[0]] + a[1..] && b == [b[0]] + b[1..];
    }
  }

  lemma CoversFirst(a: seq<Run>)
    requires Separated(a)
    ensures a != [] ==> Covers(a, a[0].start)
  {
    if a != [] {
      assert a[0].start <= a[0].start <= a[0].end;
    }
  }

  lemma CoversTail(a: seq<Run>, x: int)
    requires Separated(a) && a != []
    ensures Covers(a[1..], x) <==> Covers(a, x) && x > a[0].end
  {
    if i :| 0 <= i < |a[1..]| && a[1..][i].start <= x <= a[1..][i].end {
      assert a[i + 1].start <= x <= a[i + 1].end;
    }
    if i :| 0 <= i < |a| && a[i].start <= x <= a[i].end && x > a[0].end {
      assert a[1..][i - 1] == a[i];
    }
  }

  lemma SameFirst(a: seq<Run>, b: seq<Run>)
    requires Separated(a) && Separated(b) && a != [] && b != [] && forall x :: Covers(a, x) <==> Covers(b, x)
    ensures a[0] == b[0]
  {
    FirstStart(a, b);
    FirstStart(b, a);
    FirstEnd(a, b);
    FirstEnd(b, a);
  }

  lemma FirstStart(a: seq<Run>, b: seq<Run>)
    requires Separated(a) && Separated(b) && a != [] && b != [] && forall x :: Covers(a, x) <==> Covers(b, x)
    ensures a[0].start <= b[0].start
  {
    assert a[0].start <= a[0].end && b[0].start <= b[0].end;
    assert Covers(b, b[0].start);
    var i :| 0 <= i < |a| && a[i].start <= b[0].start <= a[i].end;
  }

  lemma FirstEnd(a: seq<Run>, b: seq<Run>)
    requires Separated(a) && Separated(b) && a != [] && b != [] && forall x :: Covers(a, x) <==> Covers(b, x)
    requires a[0].start == b[0].start
    ensures a[0].end <= b[0].end
  {
    assert b[0].start <= b[0].end;
    assert !Covers(b, b[0].end + 1);
    assert !(a[0].start <= b[0].end + 1 <= a[0].end);
  }

  // ---------------------------------------------------------------- event windows

  datatype Labels = Labels(onset: bool, peak: bool, ending: bool)

  datatype Window = Window(index: nat, start: nat, end: nat)

  function Onsets(w: seq<Labels>): (f: seq<bool>)
    ensures |f| == |w|
  {
    seq(|w|, i requires 0 <= i < |w| => w[i].onset)
  }

  function Peaks(w: seq<Labels>): (f: seq<bool>)
    ensures |f| == |w|
  {
    seq(|w|, i requires 0 <= i < |w| => w[i].peak)
  }

  /** Events start at transition onsets, or at peaks when there is no onset. */
  function Starts(w: seq<Labels>): (p: seq<nat>)
    ensures forall i :: 0 <= i < |p| ==> p[i] < |w|
    ensures forall i, j :: 0 <= i < j < |p| ==> p[i] < p[j]
  {
    if Positions(Onsets(w)) != [] then Positions(Onsets(w)) else Positions(Peaks(w))
  }

  /** Where event `n` must end at the latest. */
  function Limit(w: seq<Labels>, n: nat): nat
    requires n < |Starts(w)|
  {
    if n + 1 < |Starts(w)| then Starts(w)[n + 1] else |w|
  }

  /** An event runs from its start to its first ending label, or up to the next event. */
  ghost predicate WindowOk(w: seq<Labels>, n: nat, e: Window) {
    && n < |Starts(w)| && e.index == n + 1 && e.start == Starts(w)[n]
    && e.start <= e.end < Limit(w, n) <= |w|
    && (forall i :: e.start <= i < e.end ==> !w[i].ending)
    && (w[e.end].ending || e.end == Limit(w, n) - 1)
  }

  ghost predicate Ordered(events: seq<Window>, n: nat) {
    && (forall i :: 0 <= i < |events| ==> events[i].start <= events[i].end < n)
    && (forall i, j :: 0 <= i < j < |events| ==> events[i].end < events[j].start)
  }

  method BuildEvents(w: seq<Labels>) returns (events: seq<Window>)
    ensures |events| == |Starts(w)|
    ensures forall n :: 0 <= n < |events| ==> WindowOk(w, n, events[n])
    ensures Ordered(events, |w|)
  {
    var starts := Starts(w);
    events := [];
    for n := 0 to |starts|
      invariant |events| == n
      invariant forall i :: 0 <= i < n ==> WindowOk(w, i, events[i])
    {
      var start := starts[n];
      var nextStart := if n + 1 < |starts| then starts[n + 1] else |w|;
      var end := nextStart - 1;
      for i := start to nextStart
        invariant end == nextStart - 1
        invariant forall j :: start <= j < i ==> !w[j].ending
      {
        if w[i].ending {
          end := i;
          break;
        }
      }
      var e := Window(n + 1, start, end);
      assert WindowOk(w, n, e);
      events := events + [e];
    }
    forall i, j | 0 <= i < j < |events|
      ensures events[i].end < events[j].start
    {
      assert WindowOk(w, i, events[i]) && WindowOk(w, j, events[j]);
    }
  }

  lemma {:induction false} PositionsAre(f: seq<bool>, i: int)
    ensures i in Positions(f) <==> 0 <= i < |f| && f[i]
  {
    if f != [] && i != |f| - 1 {
      PositionsAre(Front(f), i);
    }
  }

  /** The events start at the transition onsets, every one of them; only without any onset, at the peaks. */
  lemma StartsAre(w: seq<Labels>, i: int)
    ensures i in Starts(w) <==> 0 <= i < |w| && if exists k :: 0 <= k < |w| && w[k].onset then w[i].onset else w[i].peak
  {
    PositionsAre(Onsets(w), i);
    PositionsAre(Peaks(w), i);
    if k :| 0 <= k < |w| && w[k].onset {
      PositionsAre(Onsets(w), k);
    }
    if Positions(Onsets(w)) != [] {
      PositionsAre(Onsets(w), Positions(Onsets(w))[0]);
    }
  }

  // ---------------------------------------------------------------- sums over events

  /** The deficient replica-seconds of the seconds before `hi` and from `lo` on. */
  function RangeDeficit(oracle: seq<int>, desired: seq<int>, lo: nat, hi: nat): nat
    requires |oracle| == |desired| && lo <= hi <= |oracle|
    decreases hi
  {
    if lo == hi then 0 else RangeDeficit(oracle, desired, lo, hi - 1) + Max(oracle[hi - 1] - desired[hi - 1], 0)
  }

  function EventDeficits(oracle: seq<int>, desired: seq<int>, events: seq<Window>): nat
    requires |oracle| == |desired| && forall i :: 0 <= i < |events| ==> events[i].start <= events[i].end < |oracle|
  {
    if events == [] then 0
    else EventDeficits(oracle, desired, Front(events))
         + RangeDeficit(oracle, desired, Last(events).start, Last(events).end + 1)
  }

  lemma {:induction false} RangeSplit(oracle: seq<int>, desired: seq<int>, lo: nat, middle: nat, hi: nat)
    requires |oracle| == |desired| && lo <= middle <= hi <= |oracle|
    ensures RangeDeficit(oracle, desired, lo, hi)
         == RangeDeficit(oracle, desired, lo, middle) + RangeDeficit(oracle, desired, middle, hi)
  {
    if middle < hi {
      RangeSplit(oracle, desired, lo, middle, hi - 1);
    }
  }

  lemma {:induction false} EventsWithin(oracle: seq<int>, desired: seq<int>, events: seq<Window>, n: nat)
    requires |oracle| == |desired| && n <= |oracle| && Ordered(events, n)
    ensures EventDeficits(oracle, desired, events) <= RangeDeficit(oracle, desired, 0, n)
  {
    if events != [] {
      var e := Last(events);
      EventsWithin(oracle, desired, Front(events), e.start);
      RangeSplit(oracle, desired, 0, e.start, n);
      RangeSplit(oracle, desired, e.start, e.end + 1, n);
    }
  }

  /** The deficits of the events never add up to more than the deficit of the run. */
  lemma EventDeficitsBounded(oracle: seq<int>, desired: seq<int>, events: seq<Window>)
    requires |oracle| == |desired| && Ordered(events, |oracle|)
    ensures EventDeficits(oracle, desired, events) <= Deficient(oracle, desired)
  {
    EventsWithin(oracle, desired, events, |oracle|);
    PartDeficit(oracle, desired, 0, |oracle|);
    assert oracle[0..|oracle|] == oracle && desired[0..|oracle|] == desired;
  }

  /** The deficit of one event is that of its seconds, both ends included. */
  lemma EventDeficit(oracle: seq<int>, desired: seq<int>, e: Window)
    requires |oracle| == |desired| && e.start <= e.end < |oracle|
    ensures EventDeficits(oracle, desired, [e])
         == Deficient(oracle[e.start..e.end + 1], desired[e.start..e.end + 1])
  {
    assert Front([e]) == [];
    PartDeficit(oracle, desired, e.start, e.end + 1);
  }

  lemma {:induction false} PartDeficit(oracle: seq<int>, desired: seq<int>, lo: nat, hi: nat)
    requires |oracle| == |desired| && lo <= hi <= |oracle|
    ensures RangeDeficit(oracle, desired, lo, hi) == Deficient(oracle[lo..hi], desired[lo..hi])
  {
    if lo < hi {
      PartDeficit(oracle, desired, lo, hi - 1);
      assert Front(oracle[lo..hi]) == oracle[lo..hi - 1] && Front(desired[lo..hi]) == desired[lo..hi - 1];
    }
  }

  // ---------------------------------------------------------------- scaling actions

  datatype Actions = Actions(count: nat, churn: nat, up: nat, down: nat)

  /** Changes of a command series, their total size, and how many go up and down. */
  function ActionMetrics(v: seq<int>): Actions {
    if |v| <= 1 then Actions(0, 0, 0, 0)
    else
      var a := ActionMetrics(Front(v));
      var delta := Last(v) - Last(Front(v));
      Actions(a.count + (if delta != 0 then 1 else 0), a.churn + Abs(delta),
              a.up + (if delta > 0 then 1 else 0), a.down + (if delta < 0 then 1 else 0))
  }

  /** Every action is an up or a down, each moves at least one replica, and the churn covers the
      net change with the same parity. */
  lemma {:induction false} ActionsBalance(v: seq<int>)
    requires v != []
    ensures var a := ActionMetrics(v);
            && a.count == a.up + a.down <= a.churn
            && Abs(Last(v) - v[0]) <= a.churn
            && (a.churn - (Last(v) - v[0])) % 2 == 0
  {
    if |v| > 1 {
      ActionsBalance(Front(v));
    }
  }

  /** A series that never falls has no action down and churns by its net change; so does one that never
      rises, with the directions exchanged. */
  lemma {:induction false} OneWayActions(v: seq<int>)
    requires v != []
    ensures (forall i :: 0 <= i < |v| - 1 ==> v[i] <= v[i + 1]) ==>
              ActionMetrics(v).down == 0 && ActionMetrics(v).churn == Last(v) - v[0]
    ensures (forall i :: 0 <= i < |v| - 1 ==> v[i] >= v[i + 1]) ==>
              ActionMetrics(v).up == 0 && ActionMetrics(v).churn == v[0] - Last(v)
  {
    if |v| > 1 {
      var f := Front(v);
      OneWayActions(f);
      assert v[|v| - 2] == Last(f);
      assert forall i :: 0 <= i < |f| ==> f[i] == v[i];
    }
  }

  /** Cutting a series at a second that both parts keep splits its actions and its churn. */
  lemma {:induction false} ActionsSplit(v: seq<int>, k: nat)
    requires k < |v|
    ensures var a, b, all := ActionMetrics(v[..k + 1]), ActionMetrics(v[k..]), ActionMetrics(v);
            all == Actions(a.count + b.count, a.churn + b.churn, a.up + b.up, a.down + b.down)
  {
    if k == |v| - 1 {
      assert v[..k + 1] == v;
    } else {
      var f := Front(v);
      ActionsSplit(f, k);
      assert f[..k + 1] == v[..k + 1] && Front(v[k..]) == f[k..] && Last(v[k..]) == Last(v);
      assert Last(f[k..]) == Last(f);
    }
  }
}

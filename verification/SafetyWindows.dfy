/** The safety engine in the words of its configuration and of the windows it is given: seconds instead
    of counters, and demand against listed capacity instead of samples. */
module SafetyWindows {
  import opened Basics
  import opened Capacity
  import opened SafetyEngine
  import opened SafetyHistory

  /** What one evaluation is given. */
  datatype Window = Window(demand: Option<real>, ready: int, predictive: int)

  function Observe(c: Config, w: Window): Result<Sample, SafetyError> {
    Observed(c, w.demand, w.ready, w.predictive)
  }

  ghost predicate Accepted(c: Config, ws: seq<Window>) {
    forall k :: 0 <= k < |ws| ==> Acceptable(c, ws[k].demand, ws[k].ready, ws[k].predictive)
  }

  /** The samples that the engine records for accepted windows. */
  ghost function Samples(c: Config, ws: seq<Window>): (h: seq<Sample>)
    requires Increasing(c.lookup) && Accepted(c, ws)
    ensures |h| == |ws|
  {
    if ws == [] then []
    else
      var w := Last(ws);
      WindowMeaning(c, w.demand, w.ready, w.predictive);
      Samples(c, Front(ws)) + [Observe(c, w).value]
  }

  /** The decision on the last of some windows. */
  ghost function Decided(c: Config, ws: seq<Window>): Decision
    requires ValidConfig(c) && Accepted(c, ws) && ws != []
  {
    var w := Last(ws);
    WindowMeaning(c, w.demand, w.ready, w.predictive);
    DecisionOf(c, ParamsOf(c), Samples(c, Front(ws)), w.demand, w.ready, w.predictive)
  }

  // ---------------------------------------------------------------- the windows' own words

  ghost predicate Overloaded(c: Config, ws: seq<Window>, k: int) {
    0 <= k < |ws| && Exceeded(c, ws[k].demand, ws[k].ready)
  }

  /** Windows `first` to `last` are overloaded. */
  ghost predicate OverloadedFrom(c: Config, ws: seq<Window>, first: int, last: int) {
    forall k :: first <= k <= last ==> Overloaded(c, ws, k)
  }

  /** The windows `first` to `last` take at least `secs` seconds. */
  predicate Lasting(c: Config, first: int, last: int, secs: int) {
    (last - first + 1) * c.intervalSecs >= secs
  }

  /** At window `j` the overload has lasted for the persistence time. */
  ghost predicate Triggers(c: Config, ws: seq<Window>, j: int) {
    exists i :: 0 <= i <= j && Lasting(c, i, j, c.persistenceSecs) && OverloadedFrom(c, ws, i, j)
  }

  /** Window `k` does not trigger, and its demand does not exceed the predictive command. */
  ghost predicate Calm(c: Config, ws: seq<Window>, k: int) {
    0 <= k < |ws| && !Triggers(c, ws, k) && !Exceeded(c, ws[k].demand, ws[k].predictive)
  }

  /** At window `m` at least one window, and the hold time, have been calm. */
  ghost predicate Ends(c: Config, ws: seq<Window>, m: int) {
    exists i :: i <= m && Lasting(c, i, m, c.holdSecs) && CalmFrom(c, ws, i, m)
  }

  ghost predicate CalmFrom(c: Config, ws: seq<Window>, first: int, last: int) {
    forall k :: first <= k <= last ==> Calm(c, ws, k)
  }

  /** Window `j` triggered an intervention that has not ended since. */
  ghost predicate InForce(c: Config, ws: seq<Window>, j: int) {
    0 <= j < |ws| && Triggers(c, ws, j) && forall m :: j < m < |ws| ==> !Ends(c, ws, m)
  }

  ghost predicate Active(c: Config, ws: seq<Window>) {
    exists j :: InForce(c, ws, j)
  }

  /** The floor is the greatest count that a window in force needs, and at least the minimum. */
  ghost predicate IsFloor(c: Config, ws: seq<Window>, floor: int) {
    && c.minimum <= floor
    && (forall j, n :: InForce(c, ws, j) && Needs(c, ws[j].demand, n) ==> n <= floor)
    && (floor == c.minimum || exists j :: InForce(c, ws, j) && Needs(c, ws[j].demand, floor))
  }

  // ---------------------------------------------------------------- seconds and windows

  lemma Scale(a: int, b: int, interval: int)
    requires interval > 0
    ensures a * interval >= b * interval <==> a >= b
  {
  }

  /** Windows last for a configured time exactly when they are the configured number. */
  lemma Lasts(c: Config, first: int, last: int, secs: int)
    requires c.intervalSecs > 0 && secs % c.intervalSecs == 0
    ensures Lasting(c, first, last, secs) <==> last - first + 1 >= secs / c.intervalSecs
  {
    Scale(last - first + 1, secs / c.intervalSecs, c.intervalSecs);
    assert secs == secs / c.intervalSecs * c.intervalSecs;
  }

  lemma AtLeastOne(secs: int, interval: int)
    requires interval > 0 && secs >= interval
    ensures secs / interval >= 1
  {
  }

  /** `p` counts in windows what `c` configures in seconds. */
  ghost predicate Counted(c: Config, p: Params) {
    && c.intervalSecs > 0 && p.minimum == c.minimum && p.persistence >= 1
    && c.persistenceSecs % c.intervalSecs == 0 && p.persistence == c.persistenceSecs / c.intervalSecs
    && c.holdSecs % c.intervalSecs == 0 && p.hold == c.holdSecs / c.intervalSecs
  }

  lemma ParamsCount(c: Config) returns (p: Params)
    requires ValidConfig(c)
    ensures p == ParamsOf(c) && Counted(c, p)
  {
    AtLeastOne(c.persistenceSecs, c.intervalSecs);
    p := ParamsOf(c);
  }

  // ---------------------------------------------------------------- windows and samples

  lemma {:induction false} SampleAt(c: Config, ws: seq<Window>, k: nat)
    requires Increasing(c.lookup) && Accepted(c, ws) && k < |ws|
    ensures var x := Samples(c, ws)[k];
            && (x.overload <==> Exceeded(c, ws[k].demand, ws[k].ready))
            && (x.protection <==> Exceeded(c, ws[k].demand, ws[k].predictive))
            && Needs(c, ws[k].demand, x.required)
  {
    if k < |ws| - 1 {
      SampleAt(c, Front(ws), k);
    } else {
      WindowMeaning(c, ws[k].demand, ws[k].ready, ws[k].predictive);
    }
  }

  /** The samples say of every window what it says itself. */
  ghost predicate Says(c: Config, ws: seq<Window>, h: seq<Sample>) {
    |h| == |ws| && forall k :: 0 <= k < |ws| ==>
                     && (h[k].overload <==> Overloaded(c, ws, k))
                     && (h[k].protection <==> Exceeded(c, ws[k].demand, ws[k].predictive))
                     && Needs(c, ws[k].demand, h[k].required)
  }

  lemma SamplesSay(c: Config, ws: seq<Window>) returns (h: seq<Sample>)
    requires Increasing(c.lookup) && Accepted(c, ws)
    ensures h == Samples(c, ws) && Says(c, ws, h)
  {
    h := Samples(c, ws);
    forall k | 0 <= k < |ws|
      ensures h[k].overload <==> Overloaded(c, ws, k)
      ensures h[k].protection <==> Exceeded(c, ws[k].demand, ws[k].predictive)
      ensures Needs(c, ws[k].demand, h[k].required)
    {
      SampleAt(c, ws, k);
    }
  }

  lemma SameTriggers(c: Config, p: Params, ws: seq<Window>, h: seq<Sample>, j: int)
    requires Counted(c, p) && Says(c, ws, h)
    ensures Triggered(p, h, j) <==> j < |ws| && Triggers(c, ws, j)
  {
    if Triggered(p, h, j) {
      var i := j - p.persistence + 1;
      Lasts(c, i, j, c.persistenceSecs);
      assert OverloadedFrom(c, ws, i, j);
    }
    if Triggers(c, ws, j) {
      var i :| 0 <= i <= j && Lasting(c, i, j, c.persistenceSecs) && OverloadedFrom(c, ws, i, j);
      Lasts(c, i, j, c.persistenceSecs);
      assert forall k :: i <= k <= j ==> Overloaded(c, ws, k);
    }
  }

  lemma SameCalm(c: Config, p: Params, ws: seq<Window>, h: seq<Sample>, k: int)
    requires Counted(c, p) && Says(c, ws, h)
    ensures Quiet(p, h, k) <==> Calm(c, ws, k)
  {
    SameTriggers(c, p, ws, h, k);
  }

  lemma SameEnds(c: Config, p: Params, ws: seq<Window>, h: seq<Sample>, m: int)
    requires Counted(c, p) && Says(c, ws, h)
    ensures ReleaseBlock(p, h, m) <==> Ends(c, ws, m)
  {
    forall k: int
      ensures Quiet(p, h, k) <==> Calm(c, ws, k)
    {
      SameCalm(c, p, ws, h, k);
    }
    if ReleaseBlock(p, h, m) {
      var i := m - ReleaseAfter(p) + 1;
      Lasts(c, i, m, c.holdSecs);
      assert CalmFrom(c, ws, i, m);
    }
    if Ends(c, ws, m) {
      var i :| i <= m && Lasting(c, i, m, c.holdSecs) && CalmFrom(c, ws, i, m);
      Lasts(c, i, m, c.holdSecs);
      assert Calm(c, ws, i);
    }
  }

  lemma SameInForce(c: Config, p: Params, ws: seq<Window>, h: seq<Sample>, j: int)
    requires Counted(c, p) && Says(c, ws, h)
    ensures Live(p, h, j) <==> InForce(c, ws, j)
  {
    SameTriggers(c, p, ws, h, j);
    forall m: int
      ensures ReleaseBlock(p, h, m) <==> Ends(c, ws, m)
    {
      SameEnds(c, p, ws, h, m);
    }
    if Triggered(p, h, j) {
      forall m | j < m < |ws| && ReleaseBlock(p, h, m)
        ensures j <= m - ReleaseAfter(p)
      {
        assert !Quiet(p, h, j);
      }
    }
  }

  // ---------------------------------------------------------------- the decision

  /** The last `n` windows, and no more, are overloaded. */
  ghost predicate OverloadedFor(c: Config, ws: seq<Window>, n: nat) {
    n <= |ws| && OverloadedFrom(c, ws, |ws| - n, |ws| - 1) && !Overloaded(c, ws, |ws| - n - 1)
  }

  /** While an intervention is active, the hold that remains is the configured one less the calm windows
      just seen. */
  ghost predicate HoldLeft(c: Config, ws: seq<Window>, active: bool, secs: int) {
    if active then
      exists calm: nat :: && calm < |ws| && !Calm(c, ws, |ws| - 1 - calm) && CalmFrom(c, ws, |ws| - calm, |ws| - 1)
                          && secs == c.holdSecs - calm * c.intervalSecs
    else secs == 0
  }

  /** What a decision says about the intervention, from the windows up to and including its own. */
  ghost predicate Explained(c: Config, ws: seq<Window>, d: Decision)
    requires ws != []
  {
    var now := |ws| - 1;
    && d.sequence == now
    && (d.triggered <==> Triggers(c, ws, now))
    && (d.active <==> Active(c, ws))
    && IsFloor(c, ws, d.floor)
    && OverloadedFor(c, ws, d.overloadWindows)
    && HoldLeft(c, ws, d.active, d.holdRemainingSecs)
    && (d.event == Started <==> !Active(c, Front(ws)) && d.active)
    && (d.event == Released <==> Active(c, Front(ws)) && Ends(c, ws, now))
    && forall floor :: IsFloor(c, Front(ws), floor) ==> (d.event == Raised <==> Active(c, Front(ws)) && d.floor > floor)
  }

  /** A state described by samples is described by their windows. */
  ghost predicate Depicts(c: Config, ws: seq<Window>, s: State) {
    && (s.active <==> Active(c, ws))
    && IsFloor(c, ws, s.floor)
    && OverloadedFor(c, ws, s.overloadWindows)
    && HoldLeft(c, ws, s.active, s.holdWindows * c.intervalSecs)
  }

  lemma SameActive(c: Config, p: Params, ws: seq<Window>, h: seq<Sample>, active: bool)
    requires Counted(c, p) && Says(c, ws, h) && (active <==> exists j :: Live(p, h, j))
    ensures active <==> Active(c, ws)
  {
    forall j: int
      ensures Live(p, h, j) <==> InForce(c, ws, j)
    {
      SameInForce(c, p, ws, h, j);
    }
  }

  /** Windows need one count only. */
  lemma NeedsOne(c: Config, demand: Option<real>, n: int, n': int)
    requires Needs(c, demand, n) && Needs(c, demand, n')
    ensures n == n'
  {
  }

  lemma SameFloor(c: Config, p: Params, ws: seq<Window>, h: seq<Sample>, floor: int)
    requires Counted(c, p) && Says(c, ws, h) && FloorIsMaximum(p, h, floor)
    ensures IsFloor(c, ws, floor)
  {
    forall j: int
      ensures Live(p, h, j) <==> InForce(c, ws, j)
    {
      SameInForce(c, p, ws, h, j);
    }
    forall j, n | InForce(c, ws, j) && Needs(c, ws[j].demand, n)
      ensures n <= floor
    {
      NeedsOne(c, ws[j].demand, n, h[j].required);
    }
  }

  lemma SameHold(c: Config, p: Params, ws: seq<Window>, h: seq<Sample>, s: State, calm: nat)
    requires Counted(c, p) && Says(c, ws, h) && HoldCounts(p, h, s, calm)
    ensures HoldLeft(c, ws, true, s.holdWindows * c.intervalSecs)
  {
    forall k: int
      ensures Quiet(p, h, k) <==> Calm(c, ws, k)
    {
      SameCalm(c, p, ws, h, k);
    }
    assert !Calm(c, ws, |ws| - 1 - calm) && CalmFrom(c, ws, |ws| - calm, |ws| - 1);
    assert (p.hold - calm) * c.intervalSecs == c.holdSecs - calm * c.intervalSecs;
  }

  lemma HoldMeaning(c: Config, p: Params, ws: seq<Window>, h: seq<Sample>, s: State)
    requires Counted(c, p) && Says(c, ws, h) && Describes(p, h, s)
    ensures HoldLeft(c, ws, s.active, s.holdWindows * c.intervalSecs)
  {
    if s.active {
      var calm: nat :| HoldCounts(p, h, s, calm);
      SameHold(c, p, ws, h, s, calm);
    } else {
      assert s.holdWindows * c.intervalSecs == 0;
    }
  }

  lemma SameRun(c: Config, ws: seq<Window>, h: seq<Sample>, n: nat)
    requires Says(c, ws, h) && OverloadRun(h, n)
    ensures OverloadedFor(c, ws, n)
  {
  }

  /** The engine's state after any windows, in their own words. */
  lemma StateMeaning(c: Config, p: Params, ws: seq<Window>, h: seq<Sample>) returns (s: State)
    requires Counted(c, p) && Says(c, ws, h)
    ensures s == After(p, h) && Depicts(c, ws, s)
  {
    s := After(p, h);
    Meaning(p, h);
    OverloadCounter(p, h);
    SameActive(c, p, ws, h, s.active);
    SameFloor(c, p, ws, h, s.floor);
    SameRun(c, ws, h, s.overloadWindows);
    HoldMeaning(c, p, ws, h, s);
  }

  lemma FloorIsUnique(c: Config, ws: seq<Window>, floor: int, floor': int)
    requires IsFloor(c, ws, floor) && IsFloor(c, ws, floor')
    ensures floor == floor'
  {
  }

  lemma FrontSays(c: Config, ws: seq<Window>, h: seq<Sample>)
    requires ws != [] && Says(c, ws, h)
    ensures h != [] && Says(c, Front(ws), Front(h))
  {
    forall k | 0 <= k < |ws| - 1
      ensures Overloaded(c, Front(ws), k) <==> Overloaded(c, ws, k)
    {
    }
  }

  /** The decision on the last of any accepted windows says exactly what the windows say: about its own
      window, when it triggers, how long an intervention is in force, its floor, its events and the hold
      that remains. */
  lemma DecisionMeaning(c: Config, ws: seq<Window>)
    requires ValidConfig(c) && Accepted(c, ws) && ws != []
    ensures var w := Last(ws); Reported(c, w.demand, w.ready, w.predictive, Decided(c, ws))
    ensures Explained(c, ws, Decided(c, ws))
  {
    WindowMeaning(c, Last(ws).demand, Last(ws).ready, Last(ws).predictive);
    var p := ParamsCount(c);
    var h := SamplesSay(c, ws);
    FrontSays(c, ws, h);
    var before := StateMeaning(c, p, Front(ws), Front(h));
    var after := StateMeaning(c, p, ws, h);
    SameTriggers(c, p, ws, h, |ws| - 1);
    SameEnds(c, p, ws, h, |ws| - 1);
    assert Front(h) + [Last(h)] == h;
    StepTriggers(p, Front(h), Last(h));
    EventMeaning(p, Front(h), Last(h));
    forall floor | IsFloor(c, Front(ws), floor)
      ensures floor == before.floor
    {
      FloorIsUnique(c, Front(ws), floor, before.floor);
    }
    assert Decided(c, ws) == DecisionOf(c, p, Front(h), Last(ws).demand, Last(ws).ready, Last(ws).predictive);
  }
}

/** The safety state machine and its meaning: counters and flags on one side, what the history of
    observed windows says on the other. */
module SafetyHistory {
  import opened Basics

  /** What one accepted window tells the machine. */
  datatype Sample = Sample(overload: bool, required: int, protection: bool)

  /** Persistence and hold in windows; `minimum` is the lowest floor. */
  datatype Params = Params(persistence: nat, hold: nat, minimum: int)

  datatype State = State(overloadWindows: nat, holdWindows: nat, floor: int, active: bool)

  datatype Event = NoEvent | Started | Raised | Released

  function Initial(p: Params): State {
    State(0, 0, p.minimum, false)
  }

  /** One evaluation: the new state, whether the window triggered, and the reported event. */
  function Step(p: Params, s: State, x: Sample): (State, bool, Event) {
    var overloads := if x.overload then s.overloadWindows + 1 else 0;
    var triggered := x.overload && overloads >= p.persistence;
    if triggered then
      var floor := Max(s.floor, x.required);
      (State(overloads, p.hold, floor, true), true,
       if !s.active then Started else if floor > s.floor then Raised else NoEvent)
    else if s.active then
      var hold := if x.protection then p.hold else if s.holdWindows > 0 then s.holdWindows - 1 else 0;
      if !x.protection && hold == 0 then (State(overloads, 0, p.minimum, false), false, Released)
      else (State(overloads, hold, s.floor, true), false, NoEvent)
    else
      (State(overloads, s.holdWindows, s.floor, false), false, NoEvent)
  }

  function After(p: Params, h: seq<Sample>): State {
    if h == [] then Initial(p) else Step(p, After(p, Front(h)), Last(h)).0
  }

  /** The floor in force: the minimum while no intervention is active. */
  function EffectiveFloor(p: Params, s: State): int {
    if s.active then s.floor else p.minimum
  }

  // ---------------------------------------------------------------- the history's own words

  /** Window `j` completes a run of at least `persistence` overloaded windows. */
  ghost predicate Triggered(p: Params, h: seq<Sample>, j: int) {
    && 0 <= j < |h| && h[j].overload && p.persistence <= j + 1
    && forall k :: j - p.persistence < k <= j ==> h[k].overload
  }

  /** Window `k` neither triggers nor asks for protection. */
  ghost predicate Quiet(p: Params, h: seq<Sample>, k: int) {
    0 <= k < |h| && !Triggered(p, h, k) && !h[k].protection
  }

  /** How many consecutive quiet windows end an intervention. */
  function ReleaseAfter(p: Params): nat {
    if p.hold == 0 then 1 else p.hold
  }

  /** The `ReleaseAfter` windows that end at `m` are all quiet. */
  ghost predicate ReleaseBlock(p: Params, h: seq<Sample>, m: int) {
    ReleaseAfter(p) <= m + 1 && forall k :: m - ReleaseAfter(p) < k <= m ==> Quiet(p, h, k)
  }

  /** A trigger at `j` whose intervention has not been ended since. */
  ghost predicate Live(p: Params, h: seq<Sample>, j: int) {
    && Triggered(p, h, j)
    && forall m :: j < m < |h| && j <= m - ReleaseAfter(p) ==> !ReleaseBlock(p, h, m)
  }

  // ---------------------------------------------------------------- prefixes

  lemma TriggeredPrefix(p: Params, h: seq<Sample>, x: Sample, j: int)
    requires j < |h|
    ensures Triggered(p, h + [x], j) <==> Triggered(p, h, j)
  {
    var h' := h + [x];
    assert forall k :: 0 <= k < |h| ==> h'[k] == h[k];
  }

  lemma QuietPrefix(p: Params, h: seq<Sample>, x: Sample, k: int)
    requires k < |h|
    ensures Quiet(p, h + [x], k) <==> Quiet(p, h, k)
  {
    TriggeredPrefix(p, h, x, k);
  }

  lemma BlockPrefix(p: Params, h: seq<Sample>, x: Sample, m: int)
    requires m < |h|
    ensures ReleaseBlock(p, h + [x], m) <==> ReleaseBlock(p, h, m)
  {
    forall k | m - ReleaseAfter(p) < k <= m
      ensures Quiet(p, h + [x], k) <==> Quiet(p, h, k)
    {
      QuietPrefix(p, h, x, k);
    }
  }

  lemma LivePrefix(p: Params, h: seq<Sample>, x: Sample, j: int)
    requires j < |h|
    ensures Live(p, h + [x], j) <==>
              Live(p, h, j) && !(j <= |h| - ReleaseAfter(p) && ReleaseBlock(p, h + [x], |h|))
  {
    TriggeredPrefix(p, h, x, j);
    forall m | j < m < |h|
      ensures ReleaseBlock(p, h + [x], m) <==> ReleaseBlock(p, h, m)
    {
      BlockPrefix(p, h, x, m);
    }
  }

  // ---------------------------------------------------------------- counters

  /** The last `n` windows are overloaded, and the one before them is not. */
  ghost predicate OverloadRun(h: seq<Sample>, n: nat) {
    && n <= |h|
    && (forall k :: |h| - n <= k < |h| ==> h[k].overload)
    && (n < |h| ==> !h[|h| - n - 1].overload)
  }

  lemma {:induction false} OverloadCounter(p: Params, h: seq<Sample>)
    ensures OverloadRun(h, After(p, h).overloadWindows)
  {
    if h != [] {
      OverloadCounter(p, Front(h));
      var n := After(p, Front(h)).overloadWindows;
      assert forall k :: 0 <= k < |h| - 1 ==> Front(h)[k] == h[k];
    }
  }

  /** The machine triggers on a window exactly when the history says so. */
  lemma StepTriggers(p: Params, h: seq<Sample>, x: Sample)
    ensures Step(p, After(p, h), x).1 <==> Triggered(p, h + [x], |h|)
  {
    OverloadCounter(p, h);
    var n := After(p, h).overloadWindows;
    var h' := h + [x];
    assert forall k :: 0 <= k < |h| ==> h'[k] == h[k];
    assert n < |h| ==> !h'[|h| - n - 1].overload;
  }

  /** While active, the hold counter is the configured hold less the quiet windows just seen. */
  ghost predicate HoldCounts(p: Params, h: seq<Sample>, s: State, quiet: nat) {
    && quiet < ReleaseAfter(p) && quiet < |h|
    && s.holdWindows == p.hold - quiet
    && !Quiet(p, h, |h| - 1 - quiet)
    && forall k :: |h| - quiet <= k < |h| ==> Quiet(p, h, k)
  }

  // ---------------------------------------------------------------- meaning

  /** What the history says about every part of the state. */
  ghost predicate Describes(p: Params, h: seq<Sample>, s: State) {
    && (s.active <==> exists j :: Live(p, h, j))
    && (s.active ==> exists quiet: nat :: HoldCounts(p, h, s, quiet))
    && (!s.active ==> s.holdWindows == 0)
    && FloorIsMaximum(p, h, s.floor)
  }

  /** The floor is the maximum of the minimum and the requirements of the live triggers. */
  ghost predicate FloorIsMaximum(p: Params, h: seq<Sample>, floor: int) {
    && p.minimum <= floor
    && (forall j :: Live(p, h, j) ==> h[j].required <= floor)
    && (floor == p.minimum || exists j :: Live(p, h, j) && h[j].required == floor)
  }

  /** Quiet windows at the end of `h + [x]` when `x` itself is quiet or not. */
  lemma QuietTail(p: Params, h: seq<Sample>, x: Sample, s: State, quiet: nat)
    requires HoldCounts(p, h, s, quiet)
    ensures ReleaseBlock(p, h + [x], |h|) <==>
              Quiet(p, h + [x], |h|) && quiet + 1 == ReleaseAfter(p)
    ensures Quiet(p, h + [x], |h|) ==> forall k :: |h| - quiet <= k <= |h| ==> Quiet(p, h + [x], k)
    ensures !Quiet(p, h + [x], |h| - 1 - quiet)
  {
    forall k | 0 <= k < |h|
      ensures Quiet(p, h + [x], k) <==> Quiet(p, h, k)
    {
      QuietPrefix(p, h, x, k);
    }
    if quiet + 1 < ReleaseAfter(p) {
      assert |h| - ReleaseAfter(p) < |h| - 1 - quiet <= |h|;
    }
  }

  /** Only a release block at the new window can end an intervention; a trigger joins the live ones. */
  lemma LiveStep(p: Params, h: seq<Sample>, x: Sample)
    ensures var h' := h + [x];
            && (Live(p, h', |h|) <==> Triggered(p, h', |h|))
            && (!ReleaseBlock(p, h', |h|) ==> forall j :: j < |h| ==> (Live(p, h', j) <==> Live(p, h, j)))
            && (ReleaseBlock(p, h', |h|) ==> forall j :: !Live(p, h', j))
            && (forall j :: j < |h| && Live(p, h', j) ==> Live(p, h, j))
  {
    var h' := h + [x];
    forall j | j < |h|
      ensures Live(p, h', j) <==> Live(p, h, j) && !(j <= |h| - ReleaseAfter(p) && ReleaseBlock(p, h', |h|))
    {
      LivePrefix(p, h, x, j);
    }
    if ReleaseBlock(p, h', |h|) {
      forall j
        ensures !Live(p, h', j)
      {
        if |h| - ReleaseAfter(p) < j <= |h| {
          assert Quiet(p, h', j);
        }
      }
    }
  }

  lemma ActiveStep(p: Params, h: seq<Sample>, x: Sample)
    requires Describes(p, h, After(p, h)) && After(p, h).active && !Triggered(p, h + [x], |h|)
    ensures Describes(p, h + [x], Step(p, After(p, h), x).0)
    ensures Step(p, After(p, h), x).0.active <==> !ReleaseBlock(p, h + [x], |h|)
  {
    var s, h' := After(p, h), h + [x];
    var s' := Step(p, s, x).0;
    var quiet: nat :| HoldCounts(p, h, s, quiet);
    StepTriggers(p, h, x);
    QuietTail(p, h, x, s, quiet);
    LiveStep(p, h, x);
    assert forall j :: Live(p, h, j) ==> h'[j] == h[j];
    if x.protection {
      assert HoldCounts(p, h', s', 0);
    } else if s'.active {
      assert HoldCounts(p, h', s', quiet + 1);
    }
  }

  lemma TriggerStep(p: Params, h: seq<Sample>, x: Sample)
    requires Describes(p, h, After(p, h)) && Triggered(p, h + [x], |h|)
    ensures Describes(p, h + [x], Step(p, After(p, h), x).0)
  {
    var s, h' := After(p, h), h + [x];
    var s' := Step(p, s, x).0;
    StepTriggers(p, h, x);
    assert !Quiet(p, h', |h|);
    assert !ReleaseBlock(p, h', |h|);
    LiveStep(p, h, x);
    assert forall j :: Live(p, h, j) ==> h'[j] == h[j];
    assert HoldCounts(p, h', s', 0);
    assert Live(p, h', |h|);
    if s'.floor == s.floor && s.floor != p.minimum {
      var j :| Live(p, h, j) && h[j].required == s.floor;
      assert Live(p, h', j) && h'[j].required == s'.floor;
    }
  }

  lemma IdleStep(p: Params, h: seq<Sample>, x: Sample)
    requires Describes(p, h, After(p, h)) && !After(p, h).active && !Triggered(p, h + [x], |h|)
    ensures Describes(p, h + [x], Step(p, After(p, h), x).0)
  {
    StepTriggers(p, h, x);
    LiveStep(p, h, x);
    forall j
      ensures !Live(p, h + [x], j)
    {
      assert !Live(p, h, j);
    }
  }

  /** The state after any history of windows is what that history says. */
  lemma {:induction false} Meaning(p: Params, h: seq<Sample>)
    ensures Describes(p, h, After(p, h))
  {
    if h != [] {
      var f, x := Front(h), Last(h);
      Meaning(p, f);
      assert h == f + [x];
      if Triggered(p, h, |f|) {
        TriggerStep(p, f, x);
      } else if After(p, f).active {
        ActiveStep(p, f, x);
      } else {
        IdleStep(p, f, x);
      }
    } else {
      assert forall j :: !Live(p, h, j);
    }
  }

  /** An intervention is released exactly at the window that completes the quiet block, and every
      event says what happened to the intervention. */
  lemma {:induction false} EventMeaning(p: Params, h: seq<Sample>, x: Sample)
    ensures var (s', triggered, event) := Step(p, After(p, h), x);
            && (event == Released <==> After(p, h).active && ReleaseBlock(p, h + [x], |h|))
            && (event == Started <==> !After(p, h).active && s'.active)
            && (event == Raised <==> After(p, h).active && s'.floor > After(p, h).floor)
            && (event == Started || event == Raised ==> triggered)
  {
    Meaning(p, h);
    StepTriggers(p, h, x);
    if Triggered(p, h + [x], |h|) {
      assert !Quiet(p, h + [x], |h|);
    } else if After(p, h).active {
      ActiveStep(p, h, x);
    }
  }

  lemma FloorFromMinimum(p: Params, h: seq<Sample>)
    ensures p.minimum <= EffectiveFloor(p, After(p, h))
  {
    Meaning(p, h);
  }

  /** Floors stay between the minimum and any bound on the requirements seen. */
  lemma FloorBounds(p: Params, h: seq<Sample>, maximum: int)
    requires p.minimum <= maximum && forall i :: 0 <= i < |h| ==> h[i].required <= maximum
    ensures p.minimum <= EffectiveFloor(p, After(p, h)) <= maximum
  {
    Meaning(p, h);
    var floor := After(p, h).floor;
    if floor != p.minimum {
      var j :| Live(p, h, j) && h[j].required == floor;
    }
  }
}

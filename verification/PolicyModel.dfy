/** The replica policy as mathematics: what the command is after a history of bounded
    requirements, independently of how any implementation stores that history. */
module PolicyModel {
  import opened Basics

  /** `window` is the number of stabilization samples; `up == None` means unlimited scale-up. */
  datatype Params = Params(initial: int, window: nat, down: nat, up: Option<nat>)

  /** The current requirement always counts, so a window of 0 samples behaves like 1. */
  function Span(p: Params): (n: nat)
    ensures n >= 1
  {
    if p.window == 0 then 1 else p.window
  }

  /** The last `n` elements, or all of them when there are fewer. */
  function Suffix(b: seq<int>, n: nat): seq<int> {
    if |b| <= n then b else b[|b| - n..]
  }

  function Stabilized(p: Params, b: seq<int>): int
    requires b != []
  {
    MaxOf(Suffix(b, Span(p)))
  }

  function Next(p: Params, prior: int, stabilized: int): int {
    if stabilized > prior then
      if p.up.Some? && stabilized > prior + p.up.value then prior + p.up.value else stabilized
    else if stabilized < prior then Max(stabilized, prior - p.down)
    else prior
  }

  /** The command in force after the decisions on all of `b`. */
  function Command(p: Params, b: seq<int>): int {
    if b == [] then p.initial else Next(p, Command(p, Front(b)), Stabilized(p, b))
  }

  // ---------------------------------------------------------------- window facts

  lemma StabilizedCovers(p: Params, b: seq<int>, i: nat)
    requires i < |b| && |b| - i <= Span(p)
    ensures b[i] <= Stabilized(p, b)
  {
    var s := Suffix(b, Span(p));
    assert s[i - (|b| - |s|)] == b[i];
  }

  lemma StabilizedAttained(p: Params, b: seq<int>) returns (i: nat)
    requires b != []
    ensures i < |b| && |b| - i <= Span(p) && b[i] == Stabilized(p, b)
  {
    var s := Suffix(b, Span(p));
    var k := MaxOfAttained(s);
    i := k + (|b| - |s|);
  }

  /** Only the last `Span - 1` earlier samples matter besides the newest one. */
  lemma StabilizedSplit(p: Params, b: seq<int>)
    requires b != []
    ensures Last(b) <= Stabilized(p, b)
    ensures Stabilized(p, b) == Last(b) || (Front(b) != [] && Stabilized(p, b) <= Stabilized(p, Front(b)))
  {
    StabilizedCovers(p, b, |b| - 1);
    var i := StabilizedAttained(p, b);
    if i < |b| - 1 {
      StabilizedCovers(p, Front(b), i);
    }
  }

  // ---------------------------------------------------------------- unlimited scale-up

  /** The command never drops below the window maximum. */
  lemma {:induction false} NeverBelowWindow(p: Params, b: seq<int>)
    requires p.up.None? && b != []
    ensures Command(p, b) >= Stabilized(p, b)
    ensures Command(p, b) == Max(Stabilized(p, b), Command(p, Front(b)) - p.down)
  {
  }

  /** Hold guarantee: a requirement stays covered for a whole window of decisions. */
  lemma HeldForWindow(p: Params, b: seq<int>, i: nat)
    requires p.up.None?
    requires i < |b| && |b| - i <= Span(p)
    ensures Command(p, b) >= b[i]
  {
    StabilizedCovers(p, b, i);
    NeverBelowWindow(p, b);
  }

  /** Decisions made since requirement `i` left the stabilization window. */
  function Overdue(p: Params, b: seq<int>, i: nat): nat
    requires i < |b|
  {
    if |b| - i <= Span(p) then 0 else |b| - i - Span(p)
  }

  /** The total of `n` scale-down steps. */
  function Steps(down: nat, n: nat): nat {
    if n == 0 then 0 else Steps(down, n - 1) + down
  }

  lemma {:induction false} StepsIsProduct(down: nat, n: nat)
    ensures Steps(down, n) == down * n
  {
    if n > 0 {
      StepsIsProduct(down, n - 1);
      assert down * (n - 1) + down == down * n;
    }
  }

  /** What requirement `i` still contributes to the command. */
  function Contribution(p: Params, b: seq<int>, i: nat): int
    requires i < |b|
  {
    b[i] - Steps(p.down, Overdue(p, b, i))
  }

  function InitialContribution(p: Params, b: seq<int>): int {
    p.initial - Steps(p.down, |b|)
  }

  lemma ContributionDecays(p: Params, b: seq<int>, i: nat)
    requires i < |b| - 1
    ensures |b| - i <= Span(p) ==> Contribution(p, b, i) == b[i]
    ensures |b| - i > Span(p) ==> Contribution(p, b, i) == Contribution(p, Front(b), i) - p.down
  {
  }

  lemma {:induction false} ContributionsBelow(p: Params, b: seq<int>, i: nat)
    requires p.up.None? && i < |b|
    ensures Command(p, b) >= Contribution(p, b, i)
  {
    if |b| - i <= Span(p) {
      HeldForWindow(p, b, i);
    } else {
      ContributionsBelow(p, Front(b), i);
      ContributionDecays(p, b, i);
      NeverBelowWindow(p, b);
    }
  }

  lemma {:induction false} InitialBelow(p: Params, b: seq<int>)
    requires p.up.None?
    ensures Command(p, b) >= InitialContribution(p, b)
  {
    if b != [] {
      InitialBelow(p, Front(b));
      NeverBelowWindow(p, b);
    }
  }

  /** Some contribution is attained; `None` stands for the initial command. */
  lemma {:induction false} ContributionAttained(p: Params, b: seq<int>) returns (at: Option<nat>)
    requires p.up.None?
    ensures at.None? ==> Command(p, b) == InitialContribution(p, b)
    ensures at.Some? ==> at.value < |b| && Command(p, b) == Contribution(p, b, at.value)
  {
    if b == [] {
      return None;
    }
    NeverBelowWindow(p, b);
    if Command(p, b) == Stabilized(p, b) {
      var i := StabilizedAttained(p, b);
      return Some(i);
    }
    at := ContributionAttained(p, Front(b));
    if at.Some? {
      OutsideWindow(p, b, at.value);
    }
  }

  /** A command above the window maximum is owed to a requirement outside the window. */
  lemma OutsideWindow(p: Params, b: seq<int>, i: nat)
    requires p.up.None? && b != [] && i < |Front(b)|
    requires Command(p, b) != Stabilized(p, b)
    requires Command(p, Front(b)) == Contribution(p, Front(b), i)
    ensures Command(p, b) == Contribution(p, b, i)
  {
    NeverBelowWindow(p, b);
    ContributionDecays(p, b, i);
    if |b| - i <= Span(p) {
      StabilizedCovers(p, b, i);
    }
  }

  /** Closed form: the command is exactly the largest of the decayed contributions. */
  lemma {:induction false} ClosedForm(p: Params, b: seq<int>)
    requires p.up.None?
    ensures Command(p, b) >= p.initial - p.down * |b|
    ensures forall i :: 0 <= i < |b| ==> Command(p, b) >= b[i] - p.down * Overdue(p, b, i)
    ensures Command(p, b) == p.initial - p.down * |b|
         || exists i :: 0 <= i < |b| && Command(p, b) == b[i] - p.down * Overdue(p, b, i)
  {
    InitialBelow(p, b);
    StepsIsProduct(p.down, |b|);
    forall i | 0 <= i < |b|
      ensures Command(p, b) >= b[i] - p.down * Overdue(p, b, i)
    {
      ContributionsBelow(p, b, i);
      StepsIsProduct(p.down, Overdue(p, b, i));
    }
    var at := ContributionAttained(p, b);
    if at.Some? {
      StepsIsProduct(p.down, Overdue(p, b, at.value));
    }
  }

  /** The hold is no longer than the window: once it has passed, the command starts to fall. */
  lemma {:induction false} HoldExpires(p: Params, low: int, high: int, n: nat)
    requires p.up.None? && p.down >= 1 && p.initial <= low < high
    ensures var b := [high] + seq(n, _ => low);
            Command(p, b) == high <==> n < Span(p)
  {
    var b := [high] + seq(n, _ => low);
    ClosedForm(p, b);
    if n < Span(p) {
      assert b[0] == high;
    } else {
      Positive(p.down, |b|);
      forall i | 0 <= i < |b|
        ensures b[i] - p.down * Overdue(p, b, i) < high
      {
        Positive(p.down, Overdue(p, b, i));
        if i > 0 {
          assert b[i] == low;
        }
      }
    }
  }

  lemma Positive(down: nat, n: nat)
    requires down >= 1
    ensures down * n >= n
  {
  }

  // ---------------------------------------------------------------- any step limits

  lemma StabilizedWithSlack(p: Params, low: seq<int>, high: seq<int>, slack: int)
    requires |low| == |high| > 0
    requires forall i :: 0 <= i < |low| ==> low[i] <= high[i] + slack
    ensures Stabilized(p, low) <= Stabilized(p, high) + slack
  {
    var i := StabilizedAttained(p, low);
    StabilizedCovers(p, high, i);
  }

  /** Order preservation up to a constant: the policy commutes with adding replicas. */
  lemma {:induction false} OrderPreserving(p: Params, low: seq<int>, high: seq<int>, slack: nat)
    requires |low| == |high|
    requires forall i :: 0 <= i < |low| ==> low[i] <= high[i] + slack
    ensures Command(p, low) <= Command(p, high) + slack
  {
    if low != [] {
      OrderPreserving(p, Front(low), Front(high), slack);
      StabilizedWithSlack(p, low, high, slack);
    }
  }

  /** Non-expansiveness: commands never differ by more than the requirements ever did. */
  lemma {:induction false} NonExpansive(p: Params, b: seq<int>, b': seq<int>, bound: nat)
    requires |b| == |b'|
    requires forall i :: 0 <= i < |b| ==> Abs(b[i] - b'[i]) <= bound
    ensures Abs(Command(p, b) - Command(p, b')) <= bound
  {
    OrderPreserving(p, b, b', bound);
    OrderPreserving(p, b', b, bound);
  }

  /** The step limits choose the allowed command nearest to the window maximum. */
  lemma {:induction false} NearestAllowed(p: Params, b: seq<int>, x: int)
    requires b != []
    ensures var prior, command := Command(p, Front(b)), Command(p, b);
            && Allowed(p, prior, command)
            && (Allowed(p, prior, x) ==> Abs(command - Stabilized(p, b)) <= Abs(x - Stabilized(p, b)))
  {
  }

  /** At most one scale-down step below the prior command and one scale-up step above it. */
  predicate Allowed(p: Params, prior: int, command: int) {
    prior - p.down <= command && (p.up.Some? ==> command <= prior + p.up.value)
  }

  /** A scale-down is held exactly when an earlier requirement at the level of the command is still
      in the window. */
  lemma {:induction false} HeldBecause(p: Params, b: seq<int>)
    requires p.up.None? && p.down >= 1 && b != []
    ensures var prior := Command(p, Front(b));
            (Last(b) < prior && Command(p, b) >= prior) <==>
            (Last(b) < prior && exists i :: 0 <= i < |b| - 1 && |b| - i <= Span(p) && b[i] == prior)
  {
    var prior := Command(p, Front(b));
    StabilizedSplit(p, b);
    NeverBelowWindow(p, b);
    if Front(b) != [] {
      NeverBelowWindow(p, Front(b));
    }
    var at := StabilizedAttained(p, b);
    if i :| 0 <= i < |b| - 1 && |b| - i <= Span(p) && b[i] == prior {
      StabilizedCovers(p, b, i);
    }
  }

  lemma {:induction false} CommandInBounds(p: Params, b: seq<int>, minimum: int, maximum: int)
    requires minimum <= p.initial <= maximum
    requires forall i :: 0 <= i < |b| ==> minimum <= b[i] <= maximum
    ensures minimum <= Command(p, b) <= maximum
  {
    if b != [] {
      CommandInBounds(p, Front(b), minimum, maximum);
      var i := StabilizedAttained(p, b);
    }
  }

  /** An up-step of 0 freezes scale-up: the reading of 0 as "unlimited" is the opposite policy. */
  lemma {:induction false} ZeroStepNeverRises(p: Params, b: seq<int>)
    requires p.up == Some(0)
    ensures Command(p, b) <= p.initial
  {
    if b != [] {
      ZeroStepNeverRises(p, Front(b));
    }
  }

  // ---------------------------------------------------------------- when the up-step matters

  ghost predicate Within(b: seq<int>, lo: int, hi: int) {
    forall i :: 0 <= i < |b| ==> lo <= b[i] <= hi
  }

  /** One scale-up step climbs from the lower bound to the upper one. */
  predicate Spans(p: Params, lo: int, hi: int) {
    p.up.None? || p.up.value >= hi - lo
  }

  function Unlimited(p: Params): Params {
    p.(up := None)
  }

  /** A limit that spans the bounds never takes effect between them. */
  lemma {:induction false} WideStepIsUnlimited(p: Params, b: seq<int>, lo: int, hi: int)
    requires lo <= p.initial <= hi && Within(b, lo, hi) && Spans(p, lo, hi)
    ensures Command(p, b) == Command(Unlimited(p), b)
    ensures b != [] ==> Command(p, b) >= Stabilized(p, b)
  {
    if b != [] {
      WideStepIsUnlimited(p, Front(b), lo, hi);
      CommandInBounds(p, Front(b), lo, hi);
      var i := StabilizedAttained(p, b);
    }
  }

  /** `n` requirements at one level. */
  function Level(x: int, n: nat): (b: seq<int>)
    ensures |b| == n && forall i :: 0 <= i < n ==> b[i] == x
  {
    if n == 0 then [] else Level(x, n - 1) + [x]
  }

  /** At the lowest level the command comes down by at least one replica per decision. */
  lemma {:induction false} Descends(p: Params, lo: int, n: nat)
    requires lo <= p.initial && p.down >= 1
    ensures lo <= Command(p, Level(lo, n)) <= Max(lo, p.initial - n)
  {
    if n > 0 {
      Descends(p, lo, n - 1);
      assert Front(Level(lo, n)) == Level(lo, n - 1);
      var i := StabilizedAttained(p, Level(lo, n));
    }
  }

  /** A step narrower than a jump falls short of it. */
  lemma JumpFallsShort(p: Params, b: seq<int>, x: int)
    requires p.up.Some? && Command(p, b) + p.up.value < x
    ensures Command(p, b + [x]) < x <= Stabilized(p, b + [x])
    ensures Command(Unlimited(p), b + [x]) >= x
  {
    assert Front(b + [x]) == b;
    StabilizedCovers(p, b + [x], |b|);
    HeldForWindow(Unlimited(p), b + [x], |b|);
  }

  lemma NarrowStepLags(p: Params, lo: int, hi: int) returns (b: seq<int>)
    requires lo <= p.initial <= hi && p.down >= 1 && !Spans(p, lo, hi)
    ensures b != [] && Within(b, lo, hi)
    ensures Command(p, b) < Stabilized(p, b) && Command(p, b) < Command(Unlimited(p), b)
  {
    var low := Level(lo, p.initial - lo);
    Descends(p, lo, p.initial - lo);
    JumpFallsShort(p, low, hi);
    b := low + [hi];
  }

  /** Between two bounds the window invariant, and everything that holds for unlimited scale-up,
      holds over all histories exactly when one step spans the bounds. */
  lemma StepLimitMatters(p: Params, lo: int, hi: int)
    requires lo <= p.initial <= hi && p.down >= 1
    ensures (forall b :: b != [] && Within(b, lo, hi) ==> Command(p, b) >= Stabilized(p, b)) <==> Spans(p, lo, hi)
    ensures (forall b :: Within(b, lo, hi) ==> Command(p, b) == Command(Unlimited(p), b)) <==> Spans(p, lo, hi)
  {
    if Spans(p, lo, hi) {
      forall b | Within(b, lo, hi)
        ensures Command(p, b) == Command(Unlimited(p), b)
        ensures b != [] ==> Command(p, b) >= Stabilized(p, b)
      {
        WideStepIsUnlimited(p, b, lo, hi);
      }
    } else {
      var b := NarrowStepLags(p, lo, hi);
    }
  }

  /** The smallest instance: one replica per step, and a jump of three. */
  lemma LimitedStepLagsWindow()
    ensures var p := Params(1, 30, 1, Some(1)); Command(p, [4]) < Stabilized(p, [4])
  {
    var p := Params(1, 30, 1, Some(1));
    assert Front([4]) == [];
    assert Suffix([4], 30) == [4];
  }
}

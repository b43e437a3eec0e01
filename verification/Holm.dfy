/** Holm's adjustment: the loop with its running maximum, the step-down procedure it stands for,
    and the familywise guarantee. */
module Holm {
  import opened Basics

  /** A p-value is missing when its test was undefined. */
  type PValues = seq<Option<real>>

  ghost predicate Probabilities(p: PValues) {
    forall i :: 0 <= i < |p| && p[i].Some? ==> 0.0 <= p[i].value <= 1.0
  }

  /** `order` lists the indices of the present p-values from smallest to largest, ties in any order. */
  ghost predicate Argsort(p: PValues, order: seq<nat>) {
    && (forall j :: 0 <= j < |order| ==> order[j] < |p| && p[order[j]].Some?)
    && Distinct(order)
    && (forall k :: 0 <= k < |p| && p[k].Some? ==> k in order)
    && (forall i, j :: 0 <= i < j < |order| ==> p[order[i]].value <= p[order[j]].value)
  }

  /** The p-value multiplied by the number of hypotheses still in play. */
  function Times(n: nat, x: real): real {
    if n == 0 then 0.0 else Times(n - 1, x) + x
  }

  lemma {:induction false} TimesIsProduct(n: nat, x: real)
    ensures Times(n, x) == n as real * x
  {
    if n > 0 {
      TimesIsProduct(n - 1, x);
    }
  }

  lemma {:induction false} TimesMonotone(n: nat, n': nat, x: real, x': real)
    requires n <= n' && 0.0 <= x <= x'
    ensures 0.0 <= Times(n, x) <= Times(n', x')
    ensures n >= 1 ==> x <= Times(n, x)
  {
    if n > 0 {
      TimesMonotone(n - 1, n' - 1, x, x');
    } else if n' > 0 {
      TimesMonotone(0, n' - 1, x, x');
    }
  }

  function RealMax(a: real, b: real): real { if a < b then b else a }

  /** The multiplied p-value at position `j` of the order. */
  function Step(p: PValues, order: seq<nat>, j: nat): real
    requires j < |order| && order[j] < |p| && p[order[j]].Some?
  {
    Times(|order| - j, p[order[j]].value)
  }

  lemma StepIsProduct(p: PValues, order: seq<nat>, j: nat)
    requires j < |order| && order[j] < |p| && p[order[j]].Some?
    ensures Step(p, order, j) == (|order| - j) as real * p[order[j]].value
  {
    TimesIsProduct(|order| - j, p[order[j]].value);
  }

  method Multiply(n: nat, x: real) returns (r: real)
    ensures r == Times(n, x)
  {
    TimesIsProduct(n, x);
    r := n as real * x;
  }

  ghost function Running(p: PValues, order: seq<nat>, j: nat): real
    requires Argsort(p, order) && j <= |order|
  {
    if j == 0 then 0.0 else RealMax(Running(p, order, j - 1), Step(p, order, j - 1))
  }

  /** The adjusted value of the hypothesis at position `j`. */
  ghost function Adjusted(p: PValues, order: seq<nat>, j: nat): real
    requires Argsort(p, order) && j < |order|
  {
    var r := Running(p, order, j + 1);
    if r < 1.0 then r else 1.0
  }

  method Adjust(p: PValues, order: seq<nat>) returns (out: seq<Option<real>>)
    requires Argsort(p, order)
    ensures |out| == |p|
    ensures forall j :: 0 <= j < |order| ==> out[order[j]] == Some(Adjusted(p, order, j))
    ensures forall k :: 0 <= k < |p| && p[k].None? ==> out[k].None?
  {
    out := seq(|p|, _ => None);
    var m := |order|;
    var running := 0.0;
    for j := 0 to m
      invariant |out| == |p|
      invariant running == Running(p, order, j)
      invariant forall i :: 0 <= i < j ==> out[order[i]] == Some(Adjusted(p, order, i))
      invariant forall k :: 0 <= k < |p| && p[k].None? ==> out[k].None?
    {
      var k := order[j];
      var step := Multiply(m - j, p[k].value);
      running := RealMax(running, step);
      out := out[k := Some(if running < 1.0 then running else 1.0)];
    }
  }

  // ---------------------------------------------------------------- running maximum

  lemma {:induction false} RunningBounds(p: PValues, order: seq<nat>, j: nat, bound: real)
    requires Argsort(p, order) && j <= |order|
    ensures Running(p, order, j) <= bound <==>
              0.0 <= bound && forall i :: 0 <= i < j ==> Step(p, order, i) <= bound
  {
    if j > 0 {
      RunningBounds(p, order, j - 1, bound);
    }
  }

  /** Where the running maximum comes from. */
  lemma {:induction false} RunningAttained(p: PValues, order: seq<nat>, j: nat) returns (at: Option<nat>)
    requires Argsort(p, order) && j <= |order|
    ensures at.None? ==> Running(p, order, j) == 0.0
    ensures at.Some? ==> at.value < j && Running(p, order, j) == Step(p, order, at.value)
  {
    if j == 0 {
      return None;
    }
    at := RunningAttained(p, order, j - 1);
    if Running(p, order, j - 1) < Step(p, order, j - 1) {
      return Some(j - 1);
    }
  }

  ghost predicate Distinct(a: seq<nat>) {
    forall i, j :: 0 <= i < j < |a| ==> a[i] != a[j]
  }

  ghost predicate Inside(a: seq<nat>, b: seq<nat>) {
    forall i :: 0 <= i < |a| ==> a[i] in b
  }

  /** Distinct elements of one sequence that all occur in another are no more than its length. */
  lemma {:induction false} Pigeonhole(a: seq<nat>, b: seq<nat>)
    requires Distinct(a) && Inside(a, b)
    ensures |a| <= |b|
  {
    if a != [] {
      var x, f := Last(a), Front(a);
      var k :| 0 <= k < |b| && b[k] == x;
      var rest := b[..k] + b[k + 1..];
      forall i | 0 <= i < |f|
        ensures f[i] in rest
      {
        var m :| 0 <= m < |b| && b[m] == a[i];
        assert rest[if m < k then m else m - 1] == a[i];
      }
      assert Inside(f, rest);
      Pigeonhole(f, rest);
    }
  }

  /** The first position whose p-value is at least `u`. */
  ghost function FirstFrom(p: PValues, order: seq<nat>, u: real, j: nat): (k: nat)
    requires Argsort(p, order) && j < |order| && u <= p[order[j]].value
    ensures k <= j && u <= p[order[k]].value
    ensures forall i :: 0 <= i < k ==> p[order[i]].value < u
  {
    if j > 0 && u <= p[order[j - 1]].value then FirstFrom(p, order, u, j - 1) else j
  }

  lemma SameLength(p: PValues, order: seq<nat>, order': seq<nat>)
    requires Argsort(p, order) && Argsort(p, order')
    ensures |order| == |order'|
  {
    Pigeonhole(order, order');
    Pigeonhole(order', order);
  }

  /** A hypothesis with a smaller p-value than position `i` comes before position `i`. */
  lemma ComesBefore(p: PValues, order: seq<nat>, h: nat, i: nat)
    requires Argsort(p, order) && i < |order| && h in order && p[h].value < p[order[i]].value
    ensures h in order[..i]
  {
    var y :| 0 <= y < |order| && order[y] == h;
    assert y < i;
    assert order[..i][y] == h;
  }

  lemma HeadDistinct(p: PValues, order: seq<nat>, k: nat)
    requires Argsort(p, order) && k <= |order|
    ensures Distinct(order[..k])
  {
  }

  /** Hypotheses with smaller p-values than position `i` all come before it. */
  lemma HeadInside(p: PValues, order: seq<nat>, order': seq<nat>, k: nat, i: nat)
    requires Argsort(p, order) && Argsort(p, order') && k <= |order'| && i < |order|
    requires forall x :: 0 <= x < k ==> p[order'[x]].value < p[order[i]].value
    ensures Inside(order'[..k], order[..i])
  {
    forall x | 0 <= x < k
      ensures order'[..k][x] in order[..i]
    {
      ComesBefore(p, order, order'[x], i);
    }
  }

  /** No other ordering of the ties puts more hypotheses before the value at position `i`. */
  lemma FirstIsEarliest(p: PValues, order: seq<nat>, order': seq<nat>, i: nat, j': nat)
    requires Argsort(p, order) && Argsort(p, order')
    requires i < |order| && j' < |order'| && p[order[i]].value <= p[order'[j']].value
    ensures FirstFrom(p, order', p[order[i]].value, j') <= i
  {
    var k := FirstFrom(p, order', p[order[i]].value, j');
    HeadDistinct(p, order', k);
    HeadInside(p, order, order', k, i);
    Pigeonhole(order'[..k], order[..i]);
  }

  /** Every term of one running maximum is below the running maximum at a larger p-value. */
  lemma TermBelow(p: PValues, order: seq<nat>, order': seq<nat>, i: nat, j': nat)
    requires Argsort(p, order) && Argsort(p, order') && Probabilities(p)
    requires i < |order| && j' < |order'| && p[order[i]].value <= p[order'[j']].value
    ensures Step(p, order, i) <= Running(p, order', j' + 1)
  {
    FirstIsEarliest(p, order, order', i, j');
    SameLength(p, order, order');
    var k := FirstFrom(p, order', p[order[i]].value, j');
    TimesMonotone(|order| - i, |order'| - k, p[order[i]].value, p[order'[k]].value);
    RunningBounds(p, order', j' + 1, Running(p, order', j' + 1));
  }

  /** The adjustment follows the order of the p-values and depends on nothing else: ties, and the
      way they were sorted, make no difference. */
  lemma OrderPreserved(p: PValues, order: seq<nat>, order': seq<nat>, j: nat, j': nat)
    requires Argsort(p, order) && Argsort(p, order') && Probabilities(p)
    requires j < |order| && j' < |order'| && p[order[j]].value <= p[order'[j']].value
    ensures Adjusted(p, order, j) <= Adjusted(p, order', j')
  {
    var at := RunningAttained(p, order, j + 1);
    RunningBounds(p, order', j' + 1, Running(p, order', j' + 1));
    if at.Some? {
      assert p[order[at.value]].value <= p[order[j]].value;
      TermBelow(p, order, order', at.value, j');
    }
  }

  /** Adjusted values are at least the raw ones and at most 1. */
  lemma AtLeastRaw(p: PValues, order: seq<nat>, j: nat)
    requires Argsort(p, order) && Probabilities(p) && j < |order|
    ensures p[order[j]].value <= Adjusted(p, order, j) <= 1.0
  {
    TimesMonotone(|order| - j, |order| - j, p[order[j]].value, p[order[j]].value);
  }

  // ---------------------------------------------------------------- the step-down procedure

  /** How many hypotheses the step-down procedure rejects: it compares from the smallest p-value on
      and stops at the first that is too large. */
  ghost function StepDown(p: PValues, order: seq<nat>, alpha: real, j: nat): (n: nat)
    requires Argsort(p, order) && j <= |order|
    ensures j <= n <= |order|
    ensures forall i :: j <= i < n ==> Step(p, order, i) <= alpha
    ensures n < |order| ==> Step(p, order, n) > alpha
    decreases |order| - j
  {
    if j == |order| || Step(p, order, j) > alpha then j else StepDown(p, order, alpha, j + 1)
  }

  /** At every level below 1 the adjusted values reject exactly what the procedure rejects. */
  lemma RejectsLikeStepDown(p: PValues, order: seq<nat>, alpha: real, j: nat)
    requires Argsort(p, order) && Probabilities(p) && j < |order| && alpha < 1.0
    ensures Adjusted(p, order, j) <= alpha <==> j < StepDown(p, order, alpha, 0)
  {
    RunningBounds(p, order, j + 1, alpha);
    TimesMonotone(|order|, |order|, p[order[0]].value, p[order[0]].value);
    assert Step(p, order, 0) >= 0.0;
  }

  lemma NoTrueTimes(p: PValues, order: seq<nat>, truths: seq<nat>, alpha: real, j: nat)
    requires Argsort(p, order) && Probabilities(p) && j < |order| && alpha < 1.0
    requires Distinct(truths)
    requires forall a :: 0 <= a < |truths| ==>
               truths[a] in order && Times(|truths|, p[truths[a]].value) > alpha
    requires order[j] in truths
    ensures Adjusted(p, order, j) > alpha
  {
    var first := FirstTrue(order, truths, j);
    TrueOnesFollow(order, truths, first);
    Pigeonhole(truths, order[first..]);
    var a :| 0 <= a < |truths| && truths[a] == order[first];
    TimesMonotone(|truths|, |order| - first, p[order[first]].value, p[order[first]].value);
    RunningBounds(p, order, j + 1, alpha);
    assert Step(p, order, first) > alpha;
  }

  /** Familywise control: when no p-value of the true hypotheses is small enough for a Bonferroni
      test among themselves, none of them is rejected. */
  lemma NoTrueRejection(p: PValues, order: seq<nat>, truths: seq<nat>, alpha: real, j: nat)
    requires Argsort(p, order) && Probabilities(p) && j < |order| && alpha < 1.0
    requires Distinct(truths)
    requires forall a :: 0 <= a < |truths| ==>
               truths[a] in order && |truths| as real * p[truths[a]].value > alpha
    requires order[j] in truths
    ensures Adjusted(p, order, j) > alpha
  {
    forall a | 0 <= a < |truths|
      ensures truths[a] in order && Times(|truths|, p[truths[a]].value) > alpha
    {
      TimesIsProduct(|truths|, p[truths[a]].value);
    }
    NoTrueTimes(p, order, truths, alpha, j);
  }

  lemma TrueOnesFollow(order: seq<nat>, truths: seq<nat>, first: nat)
    requires first <= |order| && Inside(truths, order)
    requires forall i :: 0 <= i < first ==> order[i] !in truths
    ensures Inside(truths, order[first..])
  {
    forall a | 0 <= a < |truths|
      ensures truths[a] in order[first..]
    {
      var k :| 0 <= k < |order| && order[k] == truths[a];
      assert order[k] in truths;
      assert order[first..][k - first] == truths[a];
    }
  }

  /** The earliest position of a true hypothesis. */
  ghost function FirstTrue(order: seq<nat>, truths: seq<nat>, j: nat): (k: nat)
    requires j < |order| && order[j] in truths
    ensures k <= j && order[k] in truths
    ensures forall i :: 0 <= i < k ==> order[i] !in truths
  {
    if exists i :: 0 <= i < j && order[i] in truths then
      var i :| 0 <= i < j && order[i] in truths;
      FirstTrue(order, truths, i)
    else j
  }
}

/** The exact sign-flip test: its loop over sign masks, its resolution, and why it is exact. */
module SignFlip {
  import opened Basics
  import opened Ranks

  datatype Statistic = Mean | SignedRank

  const SLACK: real := 0.000000000001

  function RealSum(z: seq<real>): real {
    if z == [] then 0.0 else z[0] + RealSum(z[1..])
  }

  function Statistics(kind: Statistic, z: seq<real>): real {
    match kind
    case Mean => if z == [] then 0.0 else RealSum(z) / |z| as real
    case SignedRank => SignedRanks(AbsAll(z), z)
  }

  function Magnitude(kind: Statistic, z: seq<real>): real {
    RealAbs(Statistics(kind, z))
  }

  // ---------------------------------------------------------------- signs

  /** Bit `i` of the mask is the sign of element `i`; `true` keeps it. */
  function Signs(mask: nat, n: nat): (s: seq<bool>)
    ensures |s| == n
  {
    if n == 0 then [] else [mask % 2 == 1] + Signs(mask / 2, n - 1)
  }

  function Flip(d: seq<real>, s: seq<bool>): seq<real> {
    if d == [] || s == [] then [] else [if s[0] then d[0] else -d[0]] + Flip(d[1..], s[1..])
  }

  function Negate(d: seq<real>): seq<real> {
    if d == [] then [] else [-d[0]] + Negate(d[1..])
  }

  /** The product of two sign vectors. */
  function Compose(e: seq<bool>, s: seq<bool>): seq<bool> {
    if e == [] || s == [] then [] else [e[0] == s[0]] + Compose(e[1..], s[1..])
  }

  function Keep(n: nat): (s: seq<bool>)
    ensures |s| == n
  {
    if n == 0 then [] else [true] + Keep(n - 1)
  }

  function Reverse(n: nat): (s: seq<bool>)
    ensures |s| == n
  {
    if n == 0 then [] else [false] + Reverse(n - 1)
  }

  function Power(n: nat): nat {
    if n == 0 then 1 else 2 * Power(n - 1)
  }

  // ---------------------------------------------------------------- counting sign vectors

  /** How many of the sign vectors of length `n` satisfy `keep`. */
  function Tally(n: nat, keep: seq<bool> -> bool): nat {
    if n == 0 then (if keep([]) then 1 else 0)
    else Tally(n - 1, Behind(true, keep)) + Tally(n - 1, Behind(false, keep))
  }

  function Behind(first: bool, keep: seq<bool> -> bool): seq<bool> -> bool {
    (s: seq<bool>) => keep([first] + s)
  }

  /** How many of the first `m` masks satisfy `keep`. */
  function MaskTally(n: nat, keep: seq<bool> -> bool, m: nat): nat {
    if m == 0 then 0 else MaskTally(n, keep, m - 1) + (if keep(Signs(m - 1, n)) then 1 else 0)
  }

  lemma {:induction false} MasksByFirst(n: nat, keep: seq<bool> -> bool, m: nat)
    requires n > 0
    ensures MaskTally(n, keep, 2 * m)
         == MaskTally(n - 1, Behind(true, keep), m) + MaskTally(n - 1, Behind(false, keep), m)
  {
    if m > 0 {
      MasksByFirst(n, keep, m - 1);
      assert Signs(2 * m - 1, n) == [true] + Signs(m - 1, n - 1);
      assert Signs(2 * m - 2, n) == [false] + Signs(m - 1, n - 1);
      assert MaskTally(n, keep, 2 * m) == MaskTally(n, keep, 2 * m - 2)
        + (if keep(Signs(2 * m - 2, n)) then 1 else 0) + (if keep(Signs(2 * m - 1, n)) then 1 else 0);
    }
  }

  /** The masks from 0 to 2^n - 1 enumerate the sign vectors. */
  lemma {:induction false} MasksAreSigns(n: nat, keep: seq<bool> -> bool)
    ensures MaskTally(n, keep, Power(n)) == Tally(n, keep)
  {
    if n == 0 {
      assert MaskTally(0, keep, 1) == MaskTally(0, keep, 0) + (if keep(Signs(0, 0)) then 1 else 0);
    } else {
      MasksByFirst(n, keep, Power(n - 1));
      MasksAreSigns(n - 1, Behind(true, keep));
      MasksAreSigns(n - 1, Behind(false, keep));
    }
  }

  lemma {:induction false} TallyMonotone(n: nat, keep: seq<bool> -> bool, more: seq<bool> -> bool)
    requires forall s :: |s| == n && keep(s) ==> more(s)
    ensures Tally(n, keep) <= Tally(n, more)
  {
    if n > 0 {
      TallyMonotone(n - 1, Behind(true, keep), Behind(true, more));
      TallyMonotone(n - 1, Behind(false, keep), Behind(false, more));
    }
  }

  lemma TallySame(n: nat, keep: seq<bool> -> bool, same: seq<bool> -> bool)
    requires forall s :: |s| == n ==> keep(s) == same(s)
    ensures Tally(n, keep) == Tally(n, same)
  {
    TallyMonotone(n, keep, same);
    TallyMonotone(n, same, keep);
  }

  /** Multiplying every sign vector by a fixed one does not change how many satisfy a condition. */
  lemma {:induction false} TallyShift(n: nat, e: seq<bool>, keep: seq<bool> -> bool)
    requires |e| == n
    ensures Tally(n, s => keep(Compose(e, s))) == Tally(n, keep)
  {
    var shifted := (s: seq<bool>) => keep(Compose(e, s));
    if n == 0 {
      assert Compose(e, []) == [];
    } else {
      forall first: bool
        ensures Tally(n - 1, Behind(first, shifted)) == Tally(n - 1, Behind(e[0] == first, keep))
      {
        var inner := (s: seq<bool>) => Behind(e[0] == first, keep)(Compose(e[1..], s));
        forall s: seq<bool> | |s| == n - 1
          ensures Behind(first, shifted)(s) == inner(s)
        {
          var t := [first] + s;
          assert t[1..] == s;
          assert Compose(e, t) == [e[0] == first] + Compose(e[1..], s);
          assert Behind(first, shifted)(s) == keep(Compose(e, t));
          var rest := Compose(e[1..], s);
          assert inner(s) == Behind(e[0] == first, keep)(rest) == keep([e[0] == first] + rest);
        }
        TallySame(n - 1, Behind(first, shifted), inner);
        TallyShift(n - 1, e[1..], Behind(e[0] == first, keep));
      }
    }
  }

  lemma {:induction false} TallyPositive(n: nat, keep: seq<bool> -> bool, s: seq<bool>)
    requires |s| == n && keep(s)
    ensures Tally(n, keep) >= 1
  {
    if n > 0 {
      assert [s[0]] + s[1..] == s;
      TallyPositive(n - 1, Behind(s[0], keep), s[1..]);
    } else {
      assert s == [];
    }
  }

  /** A condition that does not see the overall sign holds for an even number of vectors. */
  lemma {:induction false} TallyEven(n: nat, keep: seq<bool> -> bool) returns (half: nat)
    requires n >= 1
    requires forall s :: |s| == n ==> keep(s) == keep(Compose(Reverse(n), s))
    ensures Tally(n, keep) == 2 * half
  {
    half := Tally(n - 1, Behind(true, keep));
    var turned := (s: seq<bool>) => Behind(true, keep)(Compose(Reverse(n - 1), s));
    forall s: seq<bool> | |s| == n - 1
      ensures Behind(false, keep)(s) == turned(s)
    {
      var t := [false] + s;
      assert t[1..] == s && Reverse(n)[1..] == Reverse(n - 1);
      assert Compose(Reverse(n), t) == [true] + Compose(Reverse(n - 1), s);
      var rest := Compose(Reverse(n - 1), s);
      assert Behind(false, keep)(s) == keep(Compose(Reverse(n), t));
      assert turned(s) == Behind(true, keep)(rest) == keep([true] + rest);
    }
    TallySame(n - 1, Behind(false, keep), turned);
    TallyShift(n - 1, Reverse(n - 1), Behind(true, keep));
  }

  // ---------------------------------------------------------------- the statistics and signs

  lemma {:induction false} NegateFacts(z: seq<real>)
    ensures |Negate(z)| == |z|
    ensures RealSum(Negate(z)) == -RealSum(z)
    ensures AbsAll(Negate(z)) == AbsAll(z)
  {
    if z != [] {
      NegateFacts(z[1..]);
      assert Negate(z)[1..] == Negate(z[1..]);
    }
  }

  lemma {:induction false} SignedRanksNegate(all: seq<real>, z: seq<real>)
    ensures SignedRanks(all, Negate(z)) == -SignedRanks(all, z)
  {
    if z != [] {
      SignedRanksNegate(all, z[1..]);
      assert Negate(z)[1..] == Negate(z[1..]);
    }
  }

  lemma QuotientNegates(x: real, n: real)
    requires n > 0.0
    ensures (-x) / n == -(x / n)
  {
  }

  /** Both statistics change only their sign when every difference does. */
  lemma MagnitudeNegates(kind: Statistic, z: seq<real>)
    ensures Magnitude(kind, Negate(z)) == Magnitude(kind, z)
  {
    NegateFacts(z);
    match kind
    case Mean =>
      if z != [] {
        QuotientNegates(RealSum(z), |z| as real);
      }
    case SignedRank => SignedRanksNegate(AbsAll(z), z);
  }

  lemma {:induction false} FlipFacts(d: seq<real>, s: seq<bool>)
    requires |s| == |d|
    ensures |Flip(d, s)| == |d|
    ensures Flip(d, Keep(|d|)) == d
    ensures Flip(d, Compose(Reverse(|d|), s)) == Negate(Flip(d, s))
    ensures Flip(Negate(d), s) == Negate(Flip(d, s))
  {
    if d != [] {
      FlipFacts(d[1..], s[1..]);
      assert Keep(|d|)[1..] == Keep(|d| - 1) && Reverse(|d|)[1..] == Reverse(|d| - 1);
      assert Compose(Reverse(|d|), s)[1..] == Compose(Reverse(|d| - 1), s[1..]);
    }
  }

  lemma {:induction false} FlipTwice(d: seq<real>, e: seq<bool>, s: seq<bool>)
    requires |e| == |s| == |d|
    ensures Flip(Flip(d, e), s) == Flip(d, Compose(e, s))
  {
    if d != [] {
      FlipTwice(d[1..], e[1..], s[1..]);
      assert Compose(e, s)[1..] == Compose(e[1..], s[1..]);
    }
  }

  // ---------------------------------------------------------------- the test

  /** The sign vectors at least as extreme as an observed magnitude, up to the comparison slack. */
  function AtLeast(kind: Statistic, d: seq<real>, observed: real): seq<bool> -> bool {
    (s: seq<bool>) => Magnitude(kind, Flip(d, s)) >= observed - SLACK
  }

  function ExtremeCount(kind: Statistic, d: seq<real>): nat {
    Tally(|d|, AtLeast(kind, d, Magnitude(kind, d)))
  }

  /** The loop over all masks; without any difference there is no p-value. */
  method ExactSignflip(d: seq<real>, kind: Statistic) returns (p: Option<(nat, nat)>)
    ensures p.None? <==> d == []
    ensures p.Some? ==> p.value == (ExtremeCount(kind, d), Power(|d|))
  {
    var n := |d|;
    if n == 0 {
      return None;
    }
    var observed := Magnitude(kind, d);
    var total := Power(n);
    var extreme := 0;
    for mask := 0 to total
      invariant extreme == MaskTally(n, AtLeast(kind, d, observed), mask)
    {
      var signs := Signs(mask, n);
      if Magnitude(kind, Flip(d, signs)) >= observed - SLACK {
        extreme := extreme + 1;
      }
    }
    MasksAreSigns(n, AtLeast(kind, d, observed));
    return Some((extreme, total));
  }

  lemma ReverseKeeps(kind: Statistic, d: seq<real>, observed: real)
    ensures var keep := AtLeast(kind, d, observed);
            forall s: seq<bool> :: |s| == |d| ==> keep(s) == keep(Compose(Reverse(|d|), s))
  {
    forall s: seq<bool> | |s| == |d|
      ensures Magnitude(kind, Flip(d, Compose(Reverse(|d|), s))) == Magnitude(kind, Flip(d, s))
    {
      FlipFacts(d, s);
      MagnitudeNegates(kind, Flip(d, s));
    }
  }

  lemma Twice(n: nat, half: nat)
    requires n == 2 * half
    ensures n % 2 == 0
  {
  }

  /** Resolution: the extreme count is even and at least 2, so no p-value is below 2 / 2^n. */
  lemma Resolution(kind: Statistic, d: seq<real>)
    requires d != []
    ensures ExtremeCount(kind, d) % 2 == 0 && 2 <= ExtremeCount(kind, d)
  {
    var n, keep := |d|, AtLeast(kind, d, Magnitude(kind, d));
    ReverseKeeps(kind, d, Magnitude(kind, d));
    var half := TallyEven(n, keep);
    Twice(Tally(n, keep), half);
    FlipFacts(d, Keep(n));
    TallyPositive(n, keep, Keep(n));
  }

  /** Negating every difference leaves the p-value as it is. */
  lemma NegationInvariant(kind: Statistic, d: seq<real>)
    ensures ExtremeCount(kind, Negate(d)) == ExtremeCount(kind, d)
  {
    NegateFacts(d);
    MagnitudeNegates(kind, d);
    var m := Magnitude(kind, d);
    forall s: seq<bool> | |s| == |d|
      ensures AtLeast(kind, Negate(d), m)(s) == AtLeast(kind, d, m)(s)
    {
      FlipFacts(d, s);
      MagnitudeNegates(kind, Flip(d, s));
    }
    TallySame(|d|, AtLeast(kind, Negate(d), m), AtLeast(kind, d, m));
  }

  /** The reference set is the same from wherever in it the data lie. */
  lemma SameReferenceSet(kind: Statistic, d: seq<real>, e: seq<bool>)
    requires |e| == |d|
    ensures ExtremeCount(kind, Flip(d, e)) == Tally(|d|, AtLeast(kind, d, Magnitude(kind, Flip(d, e))))
  {
    FlipFacts(d, e);
    var m := Magnitude(kind, Flip(d, e));
    var keep := AtLeast(kind, d, m);
    var shifted := (s: seq<bool>) => keep(Compose(e, s));
    forall s: seq<bool> | |s| == |d|
      ensures AtLeast(kind, Flip(d, e), m)(s) == shifted(s)
    {
      FlipTwice(d, e, s);
    }
    TallySame(|d|, AtLeast(kind, Flip(d, e), m), shifted);
    TallyShift(|d|, e, keep);
  }

  /** Among the vectors that satisfy `keep`, one of least value. */
  lemma {:induction false} Least(n: nat, keep: seq<bool> -> bool, value: seq<bool> -> real)
    returns (least: Option<seq<bool>>)
    ensures least.None? ==> Tally(n, keep) == 0
    ensures least.Some? ==> |least.value| == n && keep(least.value)
                            && forall s :: |s| == n && keep(s) ==> value(least.value) <= value(s)
  {
    if n == 0 {
      least := if keep([]) then Some([]) else None;
      assert forall s: seq<bool> :: |s| == 0 ==> s == [];
    } else {
      var a := Least(n - 1, Behind(true, keep), s => value([true] + s));
      var b := Least(n - 1, Behind(false, keep), s => value([false] + s));
      least := if a.None? && b.None? then None
               else if b.None? || (a.Some? && value([true] + a.value) <= value([false] + b.value))
               then Some([true] + a.value) else Some([false] + b.value);
      if least.Some? {
        forall s: seq<bool> | |s| == n && keep(s)
          ensures value(least.value) <= value(s)
        {
          assert s == [s[0]] + s[1..];
          assert Behind(s[0], keep)(s[1..]);
          if (s[0] && a.None?) || (!s[0] && b.None?) {
            TallyPositive(n - 1, Behind(s[0], keep), s[1..]);
          }
        }
      }
    }
  }

  /** The sign vectors whose own test, run on the differences they produce, counts at most `bound`. */
  function Rejecting(kind: Statistic, d: seq<real>, bound: real): seq<bool> -> bool {
    (e: seq<bool>) => ExtremeCount(kind, Flip(d, e)) as real <= bound
  }

  /** Exactness: of the 2^n equally likely sign assignments, at most `bound` have an extreme count
      of at most `bound`; with `bound` = alpha * 2^n, a true null is rejected at level alpha with
      probability at most alpha. */
  lemma Exact(kind: Statistic, d: seq<real>, bound: real)
    requires bound >= 0.0
    ensures Tally(|d|, Rejecting(kind, d, bound)) as real <= bound
  {
    var keep := Rejecting(kind, d, bound);
    var value := (s: seq<bool>) => Magnitude(kind, Flip(d, s));
    var least := Least(|d|, keep, value);
    if least.Some? {
      var e := least.value;
      SameReferenceSet(kind, d, e);
      TallyMonotone(|d|, keep, AtLeast(kind, d, value(e)));
    }
  }

  lemma {:induction false} HalfSteps(all: seq<real>, z: seq<real>) returns (k: int)
    ensures 2.0 * SignedRanks(all, z) == k as real
  {
    if z == [] {
      k := 0;
    } else {
      k := HalfSteps(all, z[1..]);
      var twice := 2 * Below(all, RealAbs(z[0])) + Ties(all, RealAbs(z[0])) + 1;
      assert 2.0 * Rank(all, RealAbs(z[0])) == twice as real;
      k := if z[0] > 0.0 then k + twice else if z[0] < 0.0 then k - twice else k;
    }
  }

  /** Signed ranks move in half steps, so the comparison slack never counts a less extreme assignment. */
  lemma SlackIsHarmless(d: seq<real>, s: seq<bool>)
    requires |s| == |d|
    ensures var observed := Magnitude(SignedRank, d);
            AtLeast(SignedRank, d, observed)(s) <==> Magnitude(SignedRank, Flip(d, s)) >= observed
  {
    var k := HalfSteps(AbsAll(d), d);
    var k' := HalfSteps(AbsAll(Flip(d, s)), Flip(d, s));
    HalvesApart(k, k', Magnitude(SignedRank, d), Magnitude(SignedRank, Flip(d, s)));
  }

  lemma HalvesApart(k: int, k': int, x: real, x': real)
    requires 2.0 * x == Abs(k) as real && 2.0 * x' == Abs(k') as real
    ensures x' >= x - SLACK <==> x' >= x
  {
  }

  /** The mean statistic times the number of differences is their sum. */
  lemma MeanIsAverage(d: seq<real>)
    requires d != []
    ensures Statistics(Mean, d) * |d| as real == RealSum(d)
  {
    Undo(RealSum(d), |d| as real);
  }

  lemma Undo(x: real, n: real)
    requires n > 0.0
    ensures x / n * n == x
  {
  }

  /** Without ties the signed-rank statistic adds the places of the differences by magnitude, each with the
      sign of its difference. */
  lemma SignedRankByPlace(d: seq<real>, e: seq<real>)
    requires multiset(d) == multiset(e) && ByMagnitude(e)
    ensures Statistics(SignedRank, d) == SignedPlaces(e, 1) as real
  {
    SignedRanksByPlace(d, e);
  }
}

/** Average ranks, as the signed-rank statistic uses them: a rank is the mean of the places that a value
    takes when all values are put in ascending order. */
module Ranks {
  import opened Basics

  function AbsAll(z: seq<real>): seq<real> {
    if z == [] then [] else [RealAbs(z[0])] + AbsAll(z[1..])
  }

  function Below(a: seq<real>, x: real): nat {
    if a == [] then 0 else (if a[0] < x then 1 else 0) + Below(a[1..], x)
  }

  function Ties(a: seq<real>, x: real): nat {
    if a == [] then 0 else (if a[0] == x then 1 else 0) + Ties(a[1..], x)
  }

  /** The average rank of `x` among `a`. */
  function Rank(a: seq<real>, x: real): real {
    Below(a, x) as real + (Ties(a, x) as real + 1.0) / 2.0
  }

  /** The sum of the ranks, within `all`, of the magnitudes of `z`, each with the sign of its element. */
  function SignedRanks(all: seq<real>, z: seq<real>): real {
    if z == [] then 0.0
    else (if z[0] > 0.0 then Rank(all, RealAbs(z[0])) else if z[0] < 0.0 then -Rank(all, RealAbs(z[0])) else 0.0)
         + SignedRanks(all, z[1..])
  }

  // ---------------------------------------------------------------- arrangements

  ghost predicate Ascending(b: seq<real>) {
    forall i, j :: 0 <= i < j < |b| ==> b[i] <= b[j]
  }

  /** The sum of the places at which `x` stands, where the first place is `first`. */
  function Places(b: seq<real>, x: real, first: nat): nat {
    if b == [] then 0 else (if b[0] == x then first else 0) + Places(b[1..], x, first + 1)
  }

  /** An element of one arrangement stands somewhere in the other, and the rest are arranged alike. */
  lemma Without<T>(a: seq<T>, b: seq<T>) returns (before: seq<T>, behind: seq<T>)
    requires a != [] && multiset(a) == multiset(b)
    ensures b == before + [a[0]] + behind && multiset(before + behind) == multiset(a[1..])
  {
    assert a[0] in multiset(a);
    var k :| 0 <= k < |b| && b[k] == a[0];
    before, behind := b[..k], b[k + 1..];
    assert a == [a[0]] + a[1..];
    assert multiset(a) == multiset{a[0]} + multiset(a[1..]);
    assert b == before + [a[0]] + behind;
    assert multiset(b) == multiset(before) + multiset{a[0]} + multiset(behind);
    assert multiset(before + behind) == multiset(before) + multiset(behind);
    assert multiset(before + behind) == multiset(b) - multiset{a[0]};
    assert multiset(a[1..]) == multiset(a) - multiset{a[0]};
  }

  lemma {:induction false} CountsSplit(before: seq<real>, y: real, behind: seq<real>, x: real)
    ensures Below(before + [y] + behind, x) == Below(before + behind, x) + if y < x then 1 else 0
    ensures Ties(before + [y] + behind, x) == Ties(before + behind, x) + if y == x then 1 else 0
  {
    if before == [] {
      assert before + [y] + behind == [y] + behind && before + behind == behind;
    } else {
      CountsSplit(before[1..], y, behind, x);
      assert (before + [y] + behind)[1..] == before[1..] + [y] + behind;
      assert (before + behind)[1..] == before[1..] + behind;
    }
  }

  /** How many values are below `x`, and how many tie with it, does not depend on their arrangement. */
  lemma {:induction false} CountsArranged(a: seq<real>, b: seq<real>, x: real)
    requires multiset(a) == multiset(b)
    ensures Below(a, x) == Below(b, x) && Ties(a, x) == Ties(b, x) && |a| == |b|
  {
    assert |multiset(a)| == |a| && |multiset(b)| == |b|;
    if a != [] {
      var before, behind := Without(a, b);
      CountsSplit(before, a[0], behind, x);
      CountsArranged(a[1..], before + behind, x);
    }
  }

  lemma {:induction false} NoneFrom(b: seq<real>, x: real)
    requires forall i :: 0 <= i < |b| ==> b[i] > x
    ensures Below(b, x) == 0 && Ties(b, x) == 0
  {
    if b != [] {
      NoneFrom(b[1..], x);
    }
  }

  lemma {:induction false} NoneBelow(b: seq<real>, x: real)
    requires forall i :: 0 <= i < |b| ==> b[i] >= x
    ensures Below(b, x) == 0
  {
    if b != [] {
      NoneBelow(b[1..], x);
    }
  }

  lemma {:induction false} NoPlace(b: seq<real>, x: real, first: nat)
    requires Ties(b, x) == 0
    ensures Places(b, x, first) == 0
  {
    if b != [] {
      NoPlace(b[1..], x, first + 1);
    }
  }

  lemma OneMoreTie(first: int, ties: int, places: int)
    requires 2 * places == ties * (2 * first + ties + 1)
    ensures 2 * (first + places) == (ties + 1) * (2 * first - 2 + ties + 2)
  {
  }

  lemma {:induction false} PlacesInOrder(b: seq<real>, x: real, first: nat)
    requires Ascending(b)
    ensures 2 * Places(b, x, first) == Ties(b, x) * (2 * first - 2 + 2 * Below(b, x) + Ties(b, x) + 1)
  {
    if b != [] {
      assert Ascending(b[1..]);
      PlacesInOrder(b[1..], x, first + 1);
      if b[0] > x {
        NoneFrom(b, x);
        NoPlace(b, x, first);
      } else if b[0] == x {
        NoneBelow(b, x);
        NoneBelow(b[1..], x);
        OneMoreTie(first, Ties(b[1..], x), Places(b[1..], x, first + 1));
      }
    }
  }

  lemma HalfOf(below: nat, ties: nat, places: nat, rank: real)
    requires 2 * places == ties * (2 * 1 - 2 + 2 * below + ties + 1)
    requires rank == below as real + (ties as real + 1.0) / 2.0
    ensures ties as real * rank == places as real
  {
    var twice := ties * (2 * below + ties + 1);
    assert twice as real == ties as real * (2.0 * below as real + ties as real + 1.0);
  }

  /** In every ascending arrangement the rank of a value is the average of the places it takes. */
  lemma RankIsAverage(a: seq<real>, b: seq<real>, x: real) returns (ties: nat, places: nat, rank: real)
    requires multiset(b) == multiset(a) && Ascending(b)
    ensures ties == Ties(a, x) && places == Places(b, x, 1) && rank == Rank(a, x)
    ensures ties as real * rank == places as real
  {
    CountsArranged(a, b, x);
    PlacesInOrder(b, x, 1);
    ties, places, rank := Ties(a, x), Places(b, x, 1), Rank(a, x);
    HalfOf(Below(a, x), ties, places, rank);
  }

  // ---------------------------------------------------------------- order and total

  lemma {:induction false} BelowGrows(a: seq<real>, x: real, y: real)
    requires x < y
    ensures Below(a, y) >= Below(a, x) + Ties(a, x)
  {
    if a != [] {
      BelowGrows(a[1..], x, y);
    }
  }

  lemma {:induction false} PresentTies(a: seq<real>, x: real)
    requires x in a
    ensures Ties(a, x) >= 1
  {
    if a[0] != x {
      PresentTies(a[1..], x);
    }
  }

  /** A larger value has a larger rank. */
  lemma RankIncreases(a: seq<real>, x: real, y: real)
    requires x in a && y in a && x < y
    ensures Rank(a, x) < Rank(a, y)
  {
    BelowGrows(a, x, y);
    PresentTies(a, x);
  }

  function RankSum(all: seq<real>, a: seq<real>): real {
    if a == [] then 0.0 else Rank(all, a[0]) + RankSum(all, a[1..])
  }

  lemma {:induction false} RankSumExtends(z: real, all: seq<real>, a: seq<real>)
    ensures 2.0 * RankSum([z] + all, a) == 2.0 * RankSum(all, a) + (2 * Above(a, z) + Ties(a, z)) as real
  {
    assert ([z] + all)[1..] == all;
    if a != [] {
      RankSumExtends(z, all, a[1..]);
    }
  }

  function Above(a: seq<real>, x: real): nat {
    if a == [] then 0 else (if a[0] > x then 1 else 0) + Above(a[1..], x)
  }

  lemma {:induction false} Everywhere(a: seq<real>, x: real)
    ensures Below(a, x) + Ties(a, x) + Above(a, x) == |a|
  {
    if a != [] {
      Everywhere(a[1..], x);
    }
  }

  /** The ranks of `n` values sum to 1 + 2 + ... + n, with and without ties. */
  lemma {:induction false} RanksTotal(a: seq<real>)
    ensures 2.0 * RankSum(a, a) == (|a| * (|a| + 1)) as real
  {
    if a != [] {
      var z, rest := a[0], a[1..];
      assert a == [z] + rest;
      RanksTotal(rest);
      RankSumExtends(z, rest, rest);
      Everywhere(rest, z);
      assert |a| * (|a| + 1) == |rest| * (|rest| + 1) + 2 * |rest| + 2;
    }
  }

  // ---------------------------------------------------------------- the signed sum

  /** The places of an arrangement, each with the sign of the value standing there. */
  function SignedPlaces(e: seq<real>, first: nat): int {
    if e == [] then 0
    else (if e[0] > 0.0 then first else if e[0] < 0.0 then -(first as int) else 0) + SignedPlaces(e[1..], first + 1)
  }

  ghost predicate ByMagnitude(e: seq<real>) {
    forall i, j :: 0 <= i < j < |e| ==> RealAbs(e[i]) < RealAbs(e[j])
  }

  lemma {:induction false} AbsAllAt(z: seq<real>)
    ensures |AbsAll(z)| == |z| && forall i :: 0 <= i < |z| ==> AbsAll(z)[i] == RealAbs(z[i])
  {
    if z != [] {
      AbsAllAt(z[1..]);
    }
  }

  lemma {:induction false} AbsAllArranged(a: seq<real>, b: seq<real>)
    requires multiset(a) == multiset(b)
    ensures multiset(AbsAll(a)) == multiset(AbsAll(b))
  {
    if a == [] {
      assert |multiset(b)| == 0;
    } else {
      var before, behind := Without(a, b);
      AbsAllArranged(a[1..], before + behind);
      AbsAllWithout(before, a[0], behind);
      assert AbsAll(a) == [RealAbs(a[0])] + AbsAll(a[1..]);
    }
  }

  lemma AbsAllWithout(before: seq<real>, y: real, behind: seq<real>)
    ensures multiset(AbsAll(before + [y] + behind)) == multiset{RealAbs(y)} + multiset(AbsAll(before + behind))
  {
    AbsAllSplit(before, [y] + behind);
    AbsAllSplit(before, behind);
    assert before + [y] + behind == before + ([y] + behind) && ([y] + behind)[1..] == behind;
    Insert(AbsAll(before), RealAbs(y), AbsAll(behind));
  }

  lemma Insert(before: seq<real>, y: real, behind: seq<real>)
    ensures multiset(before + ([y] + behind)) == multiset{y} + multiset(before + behind)
  {
  }

  lemma AbsAllSplit(before: seq<real>, behind: seq<real>)
    ensures AbsAll(before + behind) == AbsAll(before) + AbsAll(behind)
  {
    AbsAllAt(before);
    AbsAllAt(behind);
    AbsAllAt(before + behind);
  }

  lemma {:induction false} SignedRanksSplit(all: seq<real>, before: seq<real>, y: real, behind: seq<real>)
    ensures SignedRanks(all, before + [y] + behind) == SignedRanks(all, [y]) + SignedRanks(all, before + behind)
  {
    if before == [] {
      assert before + [y] + behind == [y] + behind && before + behind == behind;
      assert SignedRanks(all, []) == 0.0;
    } else {
      SignedRanksSplit(all, before[1..], y, behind);
      assert (before + [y] + behind)[1..] == before[1..] + [y] + behind;
      assert (before + behind)[1..] == before[1..] + behind;
    }
  }

  /** The signed sum does not depend on the arrangement of the values. */
  lemma {:induction false} SignedRanksArranged(all: seq<real>, all': seq<real>, a: seq<real>, b: seq<real>)
    requires multiset(all) == multiset(all') && multiset(a) == multiset(b)
    ensures SignedRanks(all, a) == SignedRanks(all', b)
  {
    if a == [] {
      assert |multiset(b)| == 0;
    } else {
      var before, behind := Without(a, b);
      SignedRanksArranged(all, all', a[1..], before + behind);
      SignedRanksSplit(all', before, a[0], behind);
      CountsArranged(all, all', RealAbs(a[0]));
      assert SignedRanks(all', []) == 0.0;
    }
  }

  lemma {:induction false} StrictRank(b: seq<real>, k: nat)
    requires k < |b| && forall i, j :: 0 <= i < j < |b| ==> b[i] < b[j]
    ensures Below(b, b[k]) == k && Ties(b, b[k]) == 1
  {
    if k == 0 {
      NoneFrom(b[1..], b[0]);
    } else {
      StrictRank(b[1..], k - 1);
    }
  }

  lemma {:induction false} SignedSuffix(e: seq<real>, k: nat)
    requires ByMagnitude(e) && k <= |e|
    ensures SignedRanks(AbsAll(e), e[k..]) == SignedPlaces(e[k..], k + 1) as real
    decreases |e| - k
  {
    if k < |e| {
      SignedSuffix(e, k + 1);
      AbsAllAt(e);
      StrictRank(AbsAll(e), k);
      assert e[k..][1..] == e[k + 1..];
    }
  }

  /** Without ties the signed sum is that of the places by magnitude, each with the sign of its value. */
  lemma SignedRanksByPlace(d: seq<real>, e: seq<real>)
    requires multiset(d) == multiset(e) && ByMagnitude(e)
    ensures SignedRanks(AbsAll(d), d) == SignedPlaces(e, 1) as real
  {
    AbsAllArranged(d, e);
    SignedRanksArranged(AbsAll(d), AbsAll(e), d, e);
    SignedSuffix(e, 0);
    assert e[0..] == e;
  }
}

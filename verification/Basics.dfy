/** Small shared vocabulary: optional values, results, extrema, sums and exact rounding. */
module Basics {

  datatype Option<+T> = None | Some(value: T)

  datatype Result<+T, +E> = Success(value: T) | Failure(error: E)

  function Max(a: int, b: int): int { if a < b then b else a }

  function Min(a: int, b: int): int { if a < b then a else b }

  function Abs(x: int): nat { if x < 0 then -x else x }

  function RealAbs(x: real): real { if x < 0.0 then -x else x }

  /** The largest element of a non-empty sequence. */
  function MaxOf(s: seq<int>): (m: int)
    requires s != []
    ensures forall i :: 0 <= i < |s| ==> s[i] <= m
  {
    if |s| == 1 then s[0] else Max(s[0], MaxOf(s[1..]))
  }

  lemma {:induction false} MaxOfAttained(s: seq<int>) returns (i: nat)
    requires s != []
    ensures i < |s| && s[i] == MaxOf(s)
  {
    i := 0;
    if |s| > 1 && s[0] < MaxOf(s[1..]) {
      i := MaxOfAttained(s[1..]);
      i := i + 1;
    }
  }

  function Last<T>(s: seq<T>): T
    requires s != []
  {
    s[|s| - 1]
  }

  function Front<T>(s: seq<T>): seq<T>
    requires s != []
  {
    s[..|s| - 1]
  }

  function Sum(s: seq<int>): int {
    if s == [] then 0 else Sum(Front(s)) + Last(s)
  }

  lemma {:induction false} SumConcat(a: seq<int>, b: seq<int>)
    ensures Sum(a + b) == Sum(a) + Sum(b)
  {
    if b == [] {
      assert a + b == a;
    } else {
      assert Front(a + b) == a + Front(b);
      SumConcat(a, Front(b));
    }
  }

  /** `num / den` rounded to the nearest integer, ties to the even neighbour. */
  function RoundHalfEven(num: int, den: nat): (r: int)
    requires den > 0
    ensures -(den as int) <= 2 * (num - r * den) <= den
    ensures 2 * Abs(num - r * den) == den ==> r % 2 == 0
  {
    var q := num / den;
    var rem := num % den;
    assert num == q * den + rem;
    assert (q + 1) * den == q * den + den;
    if 2 * rem < den || (2 * rem == den && q % 2 == 0) then q else q + 1
  }
}

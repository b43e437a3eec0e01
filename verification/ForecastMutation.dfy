/** Controlled forecast errors in exact micro-RPS: the mutations of a base forecast, and why the
    paired candidates have exactly equal accuracy. */
module ForecastMutation {
  import opened Basics

  /** `Scale` multiplies the distance from the baseline by `num / den`. */
  datatype Mutation =
    | AddBias(start: int, end: int, bias: int)
    | Scale(start: int, end: int, baseline: int, num: int, den: nat)
    | Replace(start: int, end: int, value: int)
    | Shorten(eventEnd: int, amount: int, baseline: int)
    | Extend(eventEnd: int, amount: int, peak: int)
    | ShiftEvent(start: int, end: int, shift: int)
    | GlobalShift(shift: int)
    | MovingAverage(start: int, end: int, radius: nat)

  datatype MutationError = EmptySupport | MissingSecond | OutOfRange

  /** A value before it is rounded to whole micro-RPS. */
  datatype Fraction = Fraction(num: int, den: nat)

  predicate WellFormed(m: Mutation) {
    m.Scale? ==> m.den > 0
  }

  /** Forecast values by target second, from the first second `lo` to the last one `hi`. */
  datatype Base = Base(lo: int, hi: int, at: map<int, int>)

  ghost predicate Framing(b: Base) {
    b.lo in b.at && b.hi in b.at && forall t :: t in b.at ==> b.lo <= t <= b.hi
  }

  /** No second is missing in between. */
  ghost predicate Contiguous(b: Base) {
    b.lo <= b.hi && forall t :: t in b.at <==> b.lo <= t <= b.hi
  }

  function Clamp(b: Base, t: int): int {
    Min(b.hi, Max(b.lo, t))
  }

  function Least(b: Base, hi: int): (m: int)
    requires Framing(b) && b.lo <= hi <= b.hi
    ensures forall t :: t in b.at && t <= hi ==> m <= b.at[t]
    decreases hi - b.lo
  {
    if hi == b.lo then b.at[hi]
    else if hi in b.at then Min(Least(b, hi - 1), b.at[hi])
    else Least(b, hi - 1)
  }

  /** The values in order of their seconds, up to second `hi`. */
  function InOrder(b: Base, hi: int): (v: seq<int>)
    requires Framing(b) && hi <= b.hi
    ensures hi >= b.lo ==> v != []
    decreases hi - b.lo
  {
    if hi < b.lo then []
    else if hi in b.at then InOrder(b, hi - 1) + [b.at[hi]]
    else InOrder(b, hi - 1)
  }

  function SumOver(b: Base, lo: int, hi: int): int
    decreases hi - lo
  {
    if hi < lo then 0 else SumOver(b, lo, hi - 1) + if Clamp(b, hi) in b.at then b.at[Clamp(b, hi)] else 0
  }

  /** The first and last second a mutation declares it may change. */
  function Support(b: Base, m: Mutation): (int, int) {
    match m
    case AddBias(start, end, _) => (start, end)
    case Scale(start, end, _, _, _) => (start, end)
    case Replace(start, end, _) => (start, end)
    case Shorten(end, amount, _) => (end - amount + 1, end)
    case Extend(end, amount, _) => (end + 1, end + amount)
    case ShiftEvent(start, end, shift) => (start + Min(0, shift), end + Max(0, shift))
    case GlobalShift(_) => (b.lo, b.hi)
    case MovingAverage(start, end, radius) => (start - radius, end + radius)
  }

  predicate InSupport(b: Base, m: Mutation, t: int) {
    Support(b, m).0 <= t <= Support(b, m).1
  }

  /** Only a moving average reads seconds other than its own without a default. */
  predicate Defined(b: Base, m: Mutation, t: int) {
    m.MovingAverage? ==> forall x :: t - m.radius <= x <= t + m.radius ==> Clamp(b, x) in b.at
  }

  /** The new value of a second inside the support. */
  function NewValue(b: Base, m: Mutation, t: int): (f: Fraction)
    requires Framing(b) && WellFormed(m) && t in b.at
    ensures f.den > 0
  {
    match m
    case AddBias(_, _, bias) => Fraction(b.at[t] + bias, 1)
    case Scale(_, _, baseline, num, den) => Fraction(baseline * den + num * (b.at[t] - baseline), den)
    case Replace(_, _, value) => Fraction(value, 1)
    case Shorten(_, _, baseline) => Fraction(baseline, 1)
    case Extend(_, _, peak) => Fraction(peak, 1)
    case ShiftEvent(start, end, shift) =>
      var baseline := Least(b, b.hi);
      var source := t - shift;
      Fraction(if start <= source <= end && source in b.at then b.at[source] else baseline, 1)
    case GlobalShift(shift) =>
      var values := InOrder(b, b.hi);
      Fraction(values[Min(Max(t - shift - b.lo, 0), |values| - 1)], 1)
    case MovingAverage(_, _, radius) => Fraction(SumOver(b, t - radius, t + radius), 2 * radius + 1)
  }

  function Unrounded(b: Base, m: Mutation, t: int): (f: Fraction)
    requires Framing(b) && WellFormed(m) && t in b.at
    ensures f.den > 0
  {
    if InSupport(b, m, t) then NewValue(b, m, t) else Fraction(b.at[t], 1)
  }

  /** Within the valid range up to a thousandth of a micro-RPS. */
  predicate InRange(f: Fraction, low: int, high: int) {
    (1000 * low - 1) * f.den <= 1000 * f.num <= (1000 * high + 1) * f.den
  }

  function Mutated(b: Base, m: Mutation, t: int): int
    requires Framing(b) && WellFormed(m) && t in b.at
  {
    var f := Unrounded(b, m, t);
    RoundHalfEven(f.num, f.den)
  }

  /** `v` is the base forecast under the mutation. */
  ghost predicate Produces(b: Base, m: Mutation, v: map<int, int>)
    requires Framing(b) && WellFormed(m)
  {
    v.Keys == b.at.Keys && forall t {:trigger v[t]} :: t in b.at ==> v[t] == Mutated(b, m, t)
  }

  /** Every second of the support can be computed. */
  ghost predicate AllDefined(b: Base, m: Mutation) {
    forall t :: t in b.at && InSupport(b, m, t) ==> Defined(b, m, t)
  }

  /** The dictionary of values is updated over the support; a missing second stops it. */
  method Update(b: Base, m: Mutation) returns (r: Option<map<int, Fraction>>)
    requires Framing(b) && WellFormed(m)
    ensures r.Some? <==> AllDefined(b, m)
    ensures r.Some? ==> r.value.Keys == b.at.Keys
    ensures r.Some? ==> forall t {:trigger r.value[t]} :: t in b.at ==> r.value[t] == Unrounded(b, m, t)
  {
    var (first, last) := Support(b, m);
    var output := map t | t in b.at :: Fraction(b.at[t], 1);
    var k := Max(first, b.lo);
    while k <= Min(last, b.hi)
      invariant Max(first, b.lo) <= k
      invariant output.Keys == b.at.Keys
      invariant forall t :: t in b.at && first <= t < k && t <= last ==> Defined(b, m, t)
      invariant forall t :: t in b.at ==>
                  output[t] == if first <= t < k && t <= last then NewValue(b, m, t) else Fraction(b.at[t], 1)
      decreases b.hi - k
    {
      if k in b.at {
        if !Defined(b, m, k) {
          return None;
        }
        output := output[k := NewValue(b, m, k)];
      }
      k := k + 1;
    }
    return Some(output);
  }

  /** Every value is checked against the valid range and rounded. */
  method CheckAndRound(b: Base, output: map<int, Fraction>, low: int, high: int)
    returns (r: Option<map<int, int>>)
    requires Framing(b) && output.Keys == b.at.Keys
    requires forall t {:trigger output[t]} :: t in b.at ==> output[t].den > 0
    ensures r.Some? <==> forall t :: t in b.at ==> InRange(output[t], low, high)
    ensures r.Some? ==> r.value.Keys == b.at.Keys
    ensures r.Some? ==> forall t {:trigger r.value[t]} :: t in b.at ==>
              r.value[t] == RoundHalfEven(output[t].num, output[t].den)
  {
    var rounded: map<int, int> := map[];
    for i := b.lo to b.hi + 1
      invariant forall t :: t in rounded <==> t in b.at && t < i
      invariant forall t :: t in b.at && t < i ==> InRange(output[t], low, high)
      invariant forall t {:trigger rounded[t]} :: t in b.at && t < i ==>
                  rounded[t] == RoundHalfEven(output[t].num, output[t].den)
    {
      if i in b.at {
        if !InRange(output[i], low, high) {
          return None;
        }
        rounded := rounded[i := RoundHalfEven(output[i].num, output[i].den)];
      }
    }
    assert forall t :: t in rounded <==> t in b.at;
    return Some(rounded);
  }

  method Mutate(b: Base, m: Mutation, low: int, high: int) returns (r: Result<map<int, int>, MutationError>)
    requires Framing(b) && WellFormed(m)
    ensures r.Success? <==> Support(b, m).0 <= Support(b, m).1 && AllDefined(b, m)
                            && forall t :: t in b.at ==> InRange(Unrounded(b, m, t), low, high)
    ensures r.Success? ==> Produces(b, m, r.value)
  {
    var (first, last) := Support(b, m);
    if first > last {
      return Failure(EmptySupport);
    }
    var output := Update(b, m);
    if output.None? {
      return Failure(MissingSecond);
    }
    var rounded := CheckAndRound(b, output.value, low, high);
    if rounded.None? {
      return Failure(OutOfRange);
    }
    return Success(rounded.value);
  }

  /** On a forecast without gaps no second is missing. */
  lemma ContiguousIsDefined(b: Base, m: Mutation)
    requires Contiguous(b)
    ensures Framing(b) && AllDefined(b, m)
  {
  }

  /** No mutation changes a second outside its declared support. */
  lemma ChangesOnlySupport(b: Base, m: Mutation, t: int)
    requires Framing(b) && WellFormed(m) && t in b.at
    ensures Mutated(b, m, t) != b.at[t] ==> InSupport(b, m, t)
  {
    WholeRounds(b.at[t]);
  }

  lemma WholeRounds(x: int)
    ensures RoundHalfEven(x, 1) == x
  {
  }

  // ---------------------------------------------------------------- accuracy of a forecast

  datatype Measure = Absolute | Squared

  function Error(m: Measure, x: int): int {
    match m
    case Absolute => Abs(x)
    case Squared => x * x
  }

  /** The total error of a residual list; over `n` values, MAE is the absolute total divided by `n`
      and RMSE the root of the squared total divided by `n`. */
  function Total(m: Measure, r: seq<int>): int {
    if r == [] then 0 else Total(m, Front(r)) + Error(m, Last(r))
  }

  function Residual(values: seq<int>, base: seq<int>): (r: seq<int>)
    requires |values| == |base|
    ensures |r| == |base|
  {
    seq(|base|, i requires 0 <= i < |base| => values[i] - base[i])
  }

  function Negated(r: seq<int>): (n: seq<int>)
    ensures |n| == |r|
  {
    seq(|r|, i requires 0 <= i < |r| => -r[i])
  }

  /** The values of a forecast from second `lo` to second `hi`. */
  function Stretch(b: Base, v: map<int, int>, lo: int, hi: int): (l: seq<int>)
    requires Contiguous(b) && v.Keys == b.at.Keys && b.lo <= lo <= hi + 1 && hi <= b.hi
    ensures |l| == hi + 1 - lo
    decreases hi - lo
  {
    if hi < lo then [] else Stretch(b, v, lo, hi - 1) + [v[hi]]
  }

  lemma {:induction false} StretchPoint(b: Base, v: map<int, int>, lo: int, hi: int, i: nat)
    requires Contiguous(b) && v.Keys == b.at.Keys && b.lo <= lo <= hi + 1 && hi <= b.hi && i < hi + 1 - lo
    ensures lo + i in v && Stretch(b, v, lo, hi)[i] == v[lo + i]
    decreases hi - lo
  {
    if i < hi - lo {
      StretchPoint(b, v, lo, hi - 1, i);
    }
  }

  /** The values of a forecast in order of their target seconds. */
  function ListOf(b: Base, v: map<int, int>): (l: seq<int>)
    requires Contiguous(b) && v.Keys == b.at.Keys
    ensures |l| == b.hi - b.lo + 1
  {
    Stretch(b, v, b.lo, b.hi)
  }

  lemma ListPoint(b: Base, v: map<int, int>, i: nat)
    requires Contiguous(b) && v.Keys == b.at.Keys && i <= b.hi - b.lo
    ensures b.lo + i in b.at && b.lo + i in v
    ensures ListOf(b, v)[i] == v[b.lo + i]
  {
    StretchPoint(b, v, b.lo, b.hi, i);
  }

  function ResidualOf(b: Base, v: map<int, int>): seq<int>
    requires Contiguous(b) && v.Keys == b.at.Keys
  {
    Residual(ListOf(b, v), ListOf(b, b.at))
  }

  /** Equal absolute and squared totals, so equal MAE and RMSE. */
  ghost predicate Matched(r: seq<int>, r': seq<int>) {
    |r| == |r'| && forall m :: Total(m, r) == Total(m, r')
  }

  lemma ErrorUnsigned(m: Measure, x: int)
    ensures Error(m, -x) == Error(m, x)
  {
  }

  /** Opposite residuals are accuracy-matched and have opposite bias. */
  lemma {:induction false} OppositeResiduals(r: seq<int>)
    ensures Matched(r, Negated(r)) && Sum(Negated(r)) == -Sum(r)
  {
    if r != [] {
      OppositeResiduals(Front(r));
      assert Front(Negated(r)) == Negated(Front(r));
      forall m
        ensures Total(m, r) == Total(m, Negated(r))
      {
        ErrorUnsigned(m, Last(r));
      }
    }
  }

  /** The relative difference that the matching tolerances bound. */
  function RelativeDifference(a: real, b: real): real {
    var denominator := RealAbs(a) + RealAbs(b);
    if denominator == 0.0 then 0.0 else 2.0 * RealAbs(a - b) / denominator
  }

  /** Equal accuracies are at distance 0, and only they; no distance exceeds 2. */
  lemma RelativeDifferenceFacts(a: real, b: real)
    requires a >= 0.0 && b >= 0.0
    ensures RelativeDifference(a, b) == RelativeDifference(b, a)
    ensures 0.0 <= RelativeDifference(a, b) <= 2.0
    ensures RelativeDifference(a, b) == 0.0 <==> a == b
    ensures RelativeDifference(a, b) * (a + b) == 2.0 * RealAbs(a - b)
  {
    if a + b > 0.0 {
      Quotient(2.0 * RealAbs(a - b), a + b);
    }
  }

  lemma Quotient(n: real, d: real)
    requires d > 0.0 && 0.0 <= n <= 2.0 * d
    ensures 0.0 <= n / d <= 2.0 && n / d * d == n
    ensures n / d == 0.0 <==> n == 0.0
  {
    var q := n / d;
    assert q * d == n;
    SignOfProduct(q, d);
    SignOfProduct(q - 2.0, d);
  }

  lemma SignOfProduct(x: real, d: real)
    requires d > 0.0
    ensures x > 0.0 <==> x * d > 0.0
    ensures x < 0.0 <==> x * d < 0.0
  {
  }

  // ---------------------------------------------------------------- bias and shape pairs

  /** A bias is added on the seconds of its interval, and on no other. */
  lemma BiasedValue(b: Base, start: int, end: int, bias: int, t: int)
    requires Framing(b) && t in b.at
    ensures Mutated(b, AddBias(start, end, bias), t) == b.at[t] + if start <= t <= end then bias else 0
  {
    WholeRounds(b.at[t]);
    WholeRounds(b.at[t] + bias);
  }

  lemma Opposites(b: Base, v: map<int, int>, v': map<int, int>)
    requires Contiguous(b) && v.Keys == v'.Keys == b.at.Keys
    requires forall t :: t in b.at ==> v'[t] - b.at[t] == b.at[t] - v[t]
    ensures Matched(ResidualOf(b, v), ResidualOf(b, v'))
    ensures Sum(ResidualOf(b, v')) == -Sum(ResidualOf(b, v))
  {
    forall i | 0 <= i <= b.hi - b.lo
      ensures ResidualOf(b, v')[i] == -ResidualOf(b, v)[i]
    {
      ListPoint(b, v, i);
      ListPoint(b, v', i);
      ListPoint(b, b.at, i);
    }
    assert ResidualOf(b, v') == Negated(ResidualOf(b, v));
    OppositeResiduals(ResidualOf(b, v));
  }

  /** Positive and negative bias of one size on one interval are accuracy-matched. */
  lemma BiasPairMatches(b: Base, start: int, end: int, bias: int, up: map<int, int>, down: map<int, int>)
    requires Contiguous(b)
    requires Produces(b, AddBias(start, end, bias), up) && Produces(b, AddBias(start, end, -bias), down)
    ensures Matched(ResidualOf(b, up), ResidualOf(b, down))
    ensures Sum(ResidualOf(b, down)) == -Sum(ResidualOf(b, up))
  {
    forall t | t in b.at
      ensures down[t] - b.at[t] == b.at[t] - up[t]
    {
      BiasedValue(b, start, end, bias, t);
      BiasedValue(b, start, end, -bias, t);
    }
    Opposites(b, up, down);
  }

  /** A sharpened forecast mirrors a smoothed one at the base. */
  function Sharpened(b: Base, smooth: map<int, int>): (s: map<int, int>)
    requires smooth.Keys == b.at.Keys
    ensures s.Keys == b.at.Keys
  {
    map t | t in b.at :: 2 * b.at[t] - smooth[t]
  }

  /** A smoothed forecast, whatever the rounding of its averages, and its sharpened mirror image
      are accuracy-matched. */
  lemma ShapePairMatches(b: Base, smooth: map<int, int>)
    requires Contiguous(b) && smooth.Keys == b.at.Keys
    ensures Matched(ResidualOf(b, smooth), ResidualOf(b, Sharpened(b, smooth)))
    ensures Sum(ResidualOf(b, Sharpened(b, smooth))) == -Sum(ResidualOf(b, smooth))
  {
    Opposites(b, smooth, Sharpened(b, smooth));
  }

  // ---------------------------------------------------------------- timing pairs

  function Repeat(level: int, n: nat): (s: seq<int>)
    ensures |s| == n
  {
    seq(n, _ => level)
  }

  lemma ResidualConcat(v: seq<int>, v': seq<int>, b: seq<int>, b': seq<int>)
    requires |v| == |b| && |v'| == |b'|
    ensures Residual(v + v', b + b') == Residual(v, b) + Residual(v', b')
  {
  }

  lemma {:induction false} TotalConcat(m: Measure, r: seq<int>, r': seq<int>)
    ensures Total(m, r + r') == Total(m, r) + Total(m, r')
  {
    if r' == [] {
      assert r + r' == r;
    } else {
      assert Front(r + r') == r + Front(r');
      TotalConcat(m, r, Front(r'));
    }
  }

  lemma {:induction false} NothingTotals(m: Measure, n: nat)
    ensures Total(m, Repeat(0, n)) == 0 && Sum(Repeat(0, n)) == 0
  {
    if n > 0 {
      assert Front(Repeat(0, n)) == Repeat(0, n - 1);
      NothingTotals(m, n - 1);
    }
  }

  lemma PaddedTotals(m: Measure, a: nat, r: seq<int>, z: nat)
    ensures Total(m, Repeat(0, a) + r + Repeat(0, z)) == Total(m, r)
    ensures Sum(Repeat(0, a) + r + Repeat(0, z)) == Sum(r)
  {
    TotalConcat(m, Repeat(0, a) + r, Repeat(0, z));
    TotalConcat(m, Repeat(0, a), r);
    SumConcat(Repeat(0, a) + r, Repeat(0, z));
    SumConcat(Repeat(0, a), r);
    NothingTotals(m, a);
    NothingTotals(m, z);
  }

  lemma {:induction false} ResidualSum(v: seq<int>, b: seq<int>)
    requires |v| == |b|
    ensures Sum(Residual(v, b)) == Sum(v) - Sum(b)
  {
    if v != [] {
      ResidualSum(Front(v), Front(b));
      assert Front(Residual(v, b)) == Residual(Front(v), Front(b));
    }
  }

  /** An event `e` on a level, with `a` and `z` more values of the level around it. */
  function Track(level: int, a: nat, e: seq<int>, z: nat): seq<int> {
    Repeat(level, a) + e + Repeat(level, z)
  }

  /** Where a framed event trades places with `d` values of the level, the residual is the local
      one, padded with zeros. */
  lemma FramedResidual(level: int, a: nat, x: seq<int>, y: seq<int>, z: nat)
    requires |x| == |y|
    ensures Residual(Track(level, a, x, z), Track(level, a, y, z)) == Repeat(0, a) + Residual(x, y) + Repeat(0, z)
  {
    ResidualConcat(Repeat(level, a) + x, Repeat(level, z), Repeat(level, a) + y, Repeat(level, z));
    ResidualConcat(Repeat(level, a), x, Repeat(level, a), y);
    assert Residual(Repeat(level, a), Repeat(level, a)) == Repeat(0, a);
    assert Residual(Repeat(level, z), Repeat(level, z)) == Repeat(0, z);
  }

  lemma TrackPadding(level: int, a: nat, e: seq<int>, z: nat, d: nat)
    ensures Track(level, a + d, e, z) == Track(level, a, Repeat(level, d) + e, z)
    ensures Track(level, a, e, z + d) == Track(level, a, e + Repeat(level, d), z)
  {
    assert Repeat(level, a + d) == Repeat(level, a) + Repeat(level, d);
    assert Repeat(level, z + d) == Repeat(level, d) + Repeat(level, z);
  }

  lemma SwapUnbiased(e: seq<int>, lead: seq<int>)
    ensures Sum(Residual(e + lead, lead + e)) == 0
    ensures Residual(lead + e, e + lead) == Negated(Residual(e + lead, lead + e))
  {
    ResidualSum(e + lead, lead + e);
    SumConcat(e, lead);
    SumConcat(lead, e);
  }

  lemma EarlyResidual(level: int, a: nat, e: seq<int>, z: nat, d: nat)
    requires d <= a
    ensures |Track(level, a - d, e, z + d)| == |Track(level, a, e, z)|
    ensures var lead := Repeat(level, d);
            Residual(Track(level, a - d, e, z + d), Track(level, a, e, z))
            == Repeat(0, a - d) + Residual(e + lead, lead + e) + Repeat(0, z)
  {
    var lead := Repeat(level, d);
    TrackPadding(level, a - d, e, z, d);
    FramedResidual(level, a - d, e + lead, lead + e, z);
  }

  lemma LateResidual(level: int, a: nat, e: seq<int>, z: nat, d: nat)
    requires d <= z
    ensures |Track(level, a + d, e, z - d)| == |Track(level, a, e, z)|
    ensures var lead := Repeat(level, d);
            Residual(Track(level, a + d, e, z - d), Track(level, a, e, z))
            == Repeat(0, a) + Residual(lead + e, e + lead) + Repeat(0, z - d)
  {
    var lead := Repeat(level, d);
    TrackPadding(level, a, e, z - d, d);
    FramedResidual(level, a, lead + e, e + lead, z - d);
  }

  /** What an event that trades places with `d` values of the level errs by. */
  function Swap(level: int, e: seq<int>, d: nat): seq<int> {
    Residual(e + Repeat(level, d), Repeat(level, d) + e)
  }

  /** The residual has the error totals of the swap and no bias. */
  ghost predicate ErrsBySwap(level: int, e: seq<int>, d: nat, r: seq<int>) {
    Sum(r) == 0 && forall m :: Total(m, r) == Total(m, Swap(level, e, d))
  }

  lemma SwapTotals(level: int, e: seq<int>, d: nat, a: nat, z: nat)
    ensures ErrsBySwap(level, e, d, Repeat(0, a) + Swap(level, e, d) + Repeat(0, z))
    ensures ErrsBySwap(level, e, d, Repeat(0, a) + Negated(Swap(level, e, d)) + Repeat(0, z))
  {
    var r := Swap(level, e, d);
    SwapUnbiased(e, Repeat(level, d));
    OppositeResiduals(r);
    forall m: Measure
      ensures Total(m, Repeat(0, a) + r + Repeat(0, z)) == Total(m, r)
      ensures Total(m, Repeat(0, a) + Negated(r) + Repeat(0, z)) == Total(m, r)
    {
      PaddedTotals(m, a, r, z);
      PaddedTotals(m, a, Negated(r), z);
    }
    PaddedTotals(Absolute, a, r, z);
    PaddedTotals(Absolute, a, Negated(r), z);
  }

  /** Moved `d` earlier, the event errs by the swap. */
  lemma EarlyErrs(level: int, a: nat, e: seq<int>, z: nat, d: nat, base: seq<int>, early: seq<int>)
    requires d <= a && base == Track(level, a, e, z) && early == Track(level, a - d, e, z + d)
    ensures |early| == |base| && ErrsBySwap(level, e, d, Residual(early, base))
  {
    EarlyResidual(level, a, e, z, d);
    SwapTotals(level, e, d, a - d, z);
  }

  /** Moved `d` later, it errs by the opposite of the swap. */
  lemma LateErrs(level: int, a: nat, e: seq<int>, z: nat, d: nat, base: seq<int>, late: seq<int>)
    requires d <= z && base == Track(level, a, e, z) && late == Track(level, a + d, e, z - d)
    ensures |late| == |base| && ErrsBySwap(level, e, d, Residual(late, base))
  {
    LateResidual(level, a, e, z, d);
    SwapUnbiased(e, Repeat(level, d));
    SwapTotals(level, e, d, a, z - d);
  }

  /** The event lies inside the trace with room for the shift, and the rest is at one level. */
  ghost predicate Framed(b: Base, start: int, end: int, d: int, level: int) {
    && Contiguous(b) && d >= 0
    && b.lo <= start - d <= start <= end <= end + d <= b.hi
    && forall t {:trigger b.at[t]} :: b.lo <= t <= b.hi && !(start <= t <= end) ==> b.at[t] == level
  }

  /** The trace is at its least value outside the event, which keeps its distance to the ends. */
  ghost predicate Isolated(b: Base, start: int, end: int, d: int) {
    Contiguous(b) && Framed(b, start, end, d, Least(b, b.hi))
  }

  /** The event moved by `shift`, read off at one second. */
  function EventAt(b: Base, start: int, end: int, level: int, shift: int, t: int): int {
    if start <= t - shift <= end && t - shift in b.at then b.at[t - shift] else level
  }

  lemma ShiftedValue(b: Base, start: int, end: int, d: int, shift: int, t: int)
    requires Contiguous(b) && Framed(b, start, end, d, Least(b, b.hi)) && Abs(shift) == d && t in b.at
    ensures Mutated(b, ShiftEvent(start, end, shift), t) == EventAt(b, start, end, Least(b, b.hi), shift, t)
  {
    WholeRounds(Unrounded(b, ShiftEvent(start, end, shift), t).num);
  }

  lemma TrackAt(level: int, a: nat, e: seq<int>, z: nat, i: nat)
    requires i < a + |e| + z
    ensures |Track(level, a, e, z)| == a + |e| + z
    ensures Track(level, a, e, z)[i] == if a <= i < a + |e| then e[i - a] else level
  {
  }

  function EventOf(b: Base, start: int, end: int): (e: seq<int>)
    requires Contiguous(b) && b.lo <= start <= end <= b.hi
    ensures |e| == end + 1 - start
  {
    Stretch(b, b.at, start, end)
  }

  lemma TrackPoint(b: Base, start: int, end: int, d: int, level: int, shift: int, i: nat)
    requires Framed(b, start, end, d, level) && -d <= shift <= d && i <= b.hi - b.lo
    ensures var track := Track(level, start - b.lo + shift, EventOf(b, start, end), b.hi - end - shift);
            |track| == b.hi - b.lo + 1 && track[i] == EventAt(b, start, end, level, shift, b.lo + i)
  {
    TrackAt(level, start - b.lo + shift, EventOf(b, start, end), b.hi - end - shift, i);
    if start <= b.lo + i - shift <= end {
      StretchPoint(b, b.at, start, end, b.lo + i - shift - start);
    }
  }

  /** `v` is the forecast with the event moved by `shift` on its level. */
  ghost predicate EventMoved(b: Base, start: int, end: int, level: int, shift: int, v: map<int, int>) {
    v.Keys == b.at.Keys && forall t {:trigger v[t]} :: t in b.at ==> v[t] == EventAt(b, start, end, level, shift, t)
  }

  lemma ShiftedForecast(b: Base, start: int, end: int, d: int, shift: int, v: map<int, int>)
    requires Isolated(b, start, end, d) && Abs(shift) == d
    requires Produces(b, ShiftEvent(start, end, shift), v)
    ensures EventMoved(b, start, end, Least(b, b.hi), shift, v)
  {
    forall t | t in b.at
      ensures v[t] == EventAt(b, start, end, Least(b, b.hi), shift, t)
    {
      ShiftedValue(b, start, end, d, shift, t);
    }
  }

  lemma MovedPoint(b: Base, start: int, end: int, level: int, shift: int, v: map<int, int>, i: nat)
    requires Contiguous(b) && EventMoved(b, start, end, level, shift, v) && i <= b.hi - b.lo
    ensures ListOf(b, v)[i] == EventAt(b, start, end, level, shift, b.lo + i)
  {
    ListPoint(b, v, i);
  }

  /** A forecast with the event moved by `shift` is the track with the event at its new place. */
  lemma EventTrack(b: Base, start: int, end: int, d: int, level: int, shift: int, v: map<int, int>, a: nat, z: nat)
    returns (l: seq<int>)
    requires Framed(b, start, end, d, level) && -d <= shift <= d
    requires EventMoved(b, start, end, level, shift, v)
    requires a == start - b.lo + shift && z == b.hi - end - shift
    ensures l == ListOf(b, v) && l == Track(level, a, EventOf(b, start, end), z)
  {
    l := ListOf(b, v);
    var track := Track(level, a, EventOf(b, start, end), z);
    TrackPoint(b, start, end, d, level, shift, 0);
    forall i | 0 <= i < |l|
      ensures l[i] == track[i]
    {
      TrackPoint(b, start, end, d, level, shift, i);
      MovedPoint(b, start, end, level, shift, v, i);
    }
  }

  lemma BaseTrack(b: Base, start: int, end: int, d: int, level: int)
    requires Framed(b, start, end, d, level)
    ensures ListOf(b, b.at) == Track(level, start - b.lo, EventOf(b, start, end), b.hi - end)
  {
    assert EventMoved(b, start, end, level, 0, b.at);
    var l := EventTrack(b, start, end, d, level, 0, b.at, start - b.lo, b.hi - end);
  }

  lemma EarlyForecastErrs(b: Base, start: int, end: int, d: int, level: int, shift: int, early: map<int, int>)
    requires shift + d == 0 && Framed(b, start, end, d, level) && EventMoved(b, start, end, level, shift, early)
    ensures ErrsBySwap(level, EventOf(b, start, end), d, ResidualOf(b, early))
  {
    var a, z := start - b.lo, b.hi - end;
    BaseTrack(b, start, end, d, level);
    var sooner := EventTrack(b, start, end, d, level, shift, early, a - d, z + d);
    EarlyErrs(level, a, EventOf(b, start, end), z, d, ListOf(b, b.at), sooner);
  }

  lemma LateForecastErrs(b: Base, start: int, end: int, d: int, level: int, late: map<int, int>)
    requires Framed(b, start, end, d, level) && EventMoved(b, start, end, level, d, late)
    ensures ErrsBySwap(level, EventOf(b, start, end), d, ResidualOf(b, late))
  {
    var a, z := start - b.lo, b.hi - end;
    BaseTrack(b, start, end, d, level);
    var later := EventTrack(b, start, end, d, level, d, late, a + d, z - d);
    LateErrs(level, a, EventOf(b, start, end), z, d, ListOf(b, b.at), later);
  }

  /** An early and an equally late event, of any shape, are accuracy-matched and unbiased. */
  lemma TimingPairMatches(b: Base, start: int, end: int, d: int, early: map<int, int>, late: map<int, int>)
    requires Isolated(b, start, end, d)
    requires Produces(b, ShiftEvent(start, end, -d), early) && Produces(b, ShiftEvent(start, end, d), late)
    ensures Matched(ResidualOf(b, early), ResidualOf(b, late))
    ensures Sum(ResidualOf(b, early)) == 0 && Sum(ResidualOf(b, late)) == 0
  {
    ShiftedForecast(b, start, end, d, -d, early);
    ShiftedForecast(b, start, end, d, d, late);
    EarlyForecastErrs(b, start, end, d, Least(b, b.hi), -d, early);
    LateForecastErrs(b, start, end, d, Least(b, b.hi), late);
  }

  // ---------------------------------------------------------------- whole-trace shifts

  /** Changes over `d` places, away from the ends. */
  function Middle(l: seq<int>, d: nat): (r: seq<int>)
    requires d <= |l|
    ensures |r| == |l| - d
  {
    seq(|l| - d, i requires 0 <= i < |l| - d => l[i + d] - l[i])
  }

  /** How far the last `d` values are from the last one. */
  function Tail(l: seq<int>, d: nat): (r: seq<int>)
    requires d <= |l|
    ensures |r| == d
  {
    seq(d, i requires 0 <= i < d => Last(l) - l[|l| - d + i])
  }

  /** How far the first `d` values are from the first one. */
  function Head(l: seq<int>, d: nat): (r: seq<int>)
    requires d <= |l|
    ensures |r| == d
  {
    seq(d, i requires 0 <= i < d => l[0] - l[i])
  }

  /** The forecast moved by `shift` as a whole, with its ends repeated. */
  function TraceMoved(b: Base, shift: int): (v: map<int, int>)
    requires Contiguous(b)
    ensures v.Keys == b.at.Keys
  {
    map t | t in b.at :: b.at[Clamp(b, t - shift)]
  }

  /** Without gaps the values in order are those of consecutive seconds. */
  lemma {:induction false} InOrderPoint(b: Base, hi: int, i: nat)
    requires Contiguous(b) && b.lo <= hi <= b.hi && i <= hi - b.lo
    ensures |InOrder(b, hi)| == hi - b.lo + 1 && InOrder(b, hi)[i] == b.at[b.lo + i]
    decreases hi - b.lo
  {
    assert hi in b.at;
    if hi > b.lo {
      InOrderPoint(b, hi - 1, if i < hi - b.lo then i else 0);
    } else {
      assert InOrder(b, hi - 1) == [];
    }
  }

  lemma ShiftedValueAt(b: Base, shift: int, t: int)
    requires Contiguous(b) && t in b.at
    ensures Clamp(b, t - shift) in b.at && Mutated(b, GlobalShift(shift), t) == b.at[Clamp(b, t - shift)]
  {
    InOrderPoint(b, b.hi, Clamp(b, t - shift) - b.lo);
    WholeRounds(b.at[Clamp(b, t - shift)]);
  }

  lemma ShiftedTrace(b: Base, shift: int, v: map<int, int>)
    requires Contiguous(b) && Produces(b, GlobalShift(shift), v)
    ensures v == TraceMoved(b, shift)
  {
    forall t | t in b.at
      ensures Clamp(b, t - shift) in b.at && v[t] == b.at[Clamp(b, t - shift)]
    {
      ShiftedValueAt(b, shift, t);
    }
  }

  /** Position `i` of the list whose values moved by `shift`, with the ends repeated. */
  ghost predicate Moved(l: seq<int>, shift: int, v: seq<int>) {
    |v| == |l| && forall i :: 0 <= i < |v| ==> v[i] == l[Min(|l| - 1, Max(0, i - shift))]
  }

  lemma ShiftMoves(b: Base, shift: int, v: map<int, int>)
    requires Contiguous(b) && v == TraceMoved(b, shift)
    ensures Moved(ListOf(b, b.at), shift, ListOf(b, v))
  {
    var l, r := ListOf(b, b.at), ListOf(b, v);
    forall i | 0 <= i < |r|
      ensures r[i] == l[Min(|l| - 1, Max(0, i - shift))]
    {
      ListPoint(b, v, i);
      ListPoint(b, b.at, Min(|l| - 1, Max(0, i - shift)));
    }
  }

  lemma ProducedMoves(b: Base, shift: int, v: map<int, int>)
    requires Contiguous(b) && Produces(b, GlobalShift(shift), v)
    ensures Moved(ListOf(b, b.at), shift, ListOf(b, v))
  {
    ShiftedTrace(b, shift, v);
    ShiftMoves(b, shift, v);
  }

  lemma EarlyEnds(l: seq<int>, d: int, v: seq<int>)
    requires l != [] && d >= 0 && Moved(l, -d, v)
    ensures Residual(v, l) == Middle(l, Min(d, |l|)) + Tail(l, Min(d, |l|))
  {
    var e := Min(d, |l|);
    forall i | 0 <= i < |l|
      ensures Residual(v, l)[i] == (Middle(l, e) + Tail(l, e))[i]
    {
      if i >= |l| - e {
        assert Tail(l, e)[i - (|l| - e)] == Last(l) - l[|l| - e + (i - (|l| - e))];
      }
    }
  }

  lemma LateEnds(l: seq<int>, d: int, v: seq<int>)
    requires l != [] && d >= 0 && Moved(l, d, v)
    ensures Residual(v, l) == Head(l, Min(d, |l|)) + Negated(Middle(l, Min(d, |l|)))
  {
  }

  /** Equal totals beside opposite residuals decide whether the whole is matched. */
  lemma MatchedBeside(middle: seq<int>, tail: seq<int>, head: seq<int>)
    requires |tail| == |head|
    ensures Matched(middle + tail, head + Negated(middle)) <==> Matched(tail, head)
    ensures Sum(middle + tail) + Sum(head + Negated(middle)) == Sum(tail) + Sum(head)
  {
    OppositeResiduals(middle);
    SumConcat(middle, tail);
    SumConcat(head, Negated(middle));
    forall m: Measure
      ensures Total(m, middle + tail) == Total(m, head + Negated(middle)) <==> Total(m, tail) == Total(m, head)
    {
      TotalConcat(m, middle, tail);
      TotalConcat(m, head, Negated(middle));
    }
  }

  lemma MovedPair(l: seq<int>, d: int, early: seq<int>, late: seq<int>)
    requires l != [] && d >= 0 && Moved(l, -d, early) && Moved(l, d, late)
    ensures var tail, head := Tail(l, Min(d, |l|)), Head(l, Min(d, |l|));
            && (Matched(Residual(early, l), Residual(late, l)) <==> Matched(tail, head))
            && Sum(Residual(early, l)) + Sum(Residual(late, l)) == Sum(tail) + Sum(head)
  {
    var e := Min(d, |l|);
    var middle, tail, head := Middle(l, e), Tail(l, e), Head(l, e);
    EarlyEnds(l, d, early);
    LateEnds(l, d, late);
    MatchedBeside(middle, tail, head);
  }

  /** A whole trace shifted early and late errs by opposite amounts away from its ends, so the pair
      is accuracy-matched exactly when the clamped ends err by the same totals. */
  lemma GlobalShiftMatches(b: Base, d: int, early: map<int, int>, late: map<int, int>)
    requires Contiguous(b) && d >= 0
    requires Produces(b, GlobalShift(-d), early) && Produces(b, GlobalShift(d), late)
    ensures var l := ListOf(b, b.at); var tail, head := Tail(l, Min(d, |l|)), Head(l, Min(d, |l|));
            && (Matched(ResidualOf(b, early), ResidualOf(b, late)) <==> Matched(tail, head))
            && Sum(ResidualOf(b, early)) + Sum(ResidualOf(b, late)) == Sum(tail) + Sum(head)
  {
    ProducedMoves(b, -d, early);
    ProducedMoves(b, d, late);
    MovedPair(ListOf(b, b.at), d, ListOf(b, early), ListOf(b, late));
  }

  /** A constant error over `n` values has the totals of `n` such errors. */
  lemma {:induction false} ConstantTotals(x: int, n: nat)
    ensures Total(Absolute, Repeat(x, n)) == n * Abs(x) && Total(Squared, Repeat(x, n)) == n * (x * x)
  {
    if n > 0 {
      ConstantTotals(x, n - 1);
      assert Front(Repeat(x, n)) == Repeat(x, n - 1);
      assert n * (x * x) == (n - 1) * (x * x) + x * x;
      assert n * Abs(x) == (n - 1) * Abs(x) + Abs(x);
    }
  }
}

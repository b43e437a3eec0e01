/** What the mutations of a forecast do to its values, law by law. */
module MutationLaws {
  import opened Basics
  import opened ForecastMutation

  /** `v` is within half of `num / den`. */
  predicate Rounds(num: int, den: nat, v: int) {
    2 * Abs(num - v * den) <= den
  }

  // ---------------------------------------------------------------- scaling

  lemma RoundsShifted(baseline: int, num: int, den: nat)
    requires den > 0
    ensures Rounds(num, den, RoundHalfEven(baseline * den + num, den) - baseline)
  {
    var r := RoundHalfEven(baseline * den + num, den);
    assert (r - baseline) * den == r * den - baseline * den;
  }

  lemma Multiple(k: int, den: nat)
    ensures k >= 1 ==> k * den >= den
    ensures k <= -1 ==> k * den <= -(den as int)
  {
  }

  lemma RoundsWhole(x: int, den: nat, v: int)
    requires den > 0
    ensures Rounds(x * den, den, v) ==> v == x
  {
    Multiple(x - v, den);
    Distribute(x, v, den);
  }

  lemma Distribute(x: int, v: int, den: int)
    ensures (x - v) * den == x * den - v * den
  {
  }

  /** Scaling multiplies the distance from the baseline: a value on the baseline stays, and the factor 1
      changes nothing. */
  lemma ScaledDistance(b: Base, start: int, end: int, baseline: int, num: int, den: nat, t: int)
    requires Framing(b) && den > 0 && t in b.at && start <= t <= end
    ensures var y := Mutated(b, Scale(start, end, baseline, num, den), t);
            && Rounds(num * (b.at[t] - baseline), den, y - baseline)
            && (b.at[t] == baseline || num == den ==> y == b.at[t])
  {
    var f := ValueIn(b, Scale(start, end, baseline, num, den), t);
    ScaledBy(b.at[t], baseline, num, den, f.num, RoundHalfEven(f.num, den));
  }

  /** Inside the support a value is rounded once. */
  lemma ValueIn(b: Base, m: Mutation, t: int) returns (f: Fraction)
    requires Framing(b) && WellFormed(m) && t in b.at && InSupport(b, m, t)
    ensures f.den > 0 && f == NewValue(b, m, t) && Mutated(b, m, t) == RoundHalfEven(f.num, f.den)
  {
    f := NewValue(b, m, t);
  }

  /** The distance 0 and the factor 1 leave a value where it is. */
  lemma Neutral(distance: int, num: int, den: nat, y: int)
    requires den > 0 && (distance == 0 || num == den)
    ensures Rounds(num * distance, den, y) ==> y == distance
  {
    if distance == 0 {
      assert num * distance == 0 * den;
      RoundsWhole(0, den, y);
    } else {
      assert num * distance == distance * den;
      RoundsWhole(distance, den, y);
    }
  }

  lemma ScaledBy(x: int, baseline: int, num: int, den: nat, num': int, y: int)
    requires den > 0 && num' == baseline * den + num * (x - baseline) && y == RoundHalfEven(num', den)
    ensures Rounds(num * (x - baseline), den, y - baseline)
    ensures x == baseline || num == den ==> y == x
  {
    var product := num * (x - baseline);
    RoundsShifted(baseline, product, den);
    assert Rounds(product, den, y - baseline);
    if x == baseline || num == den {
      Neutral(x - baseline, num, den, y - baseline);
    }
  }

  lemma Product(a: int, b: int)
    ensures Abs(a * b) == Abs(a) * Abs(b)
  {
  }

  lemma Grows(a: nat, b: int, c: int)
    requires b <= c
    ensures a * b <= a * c
  {
  }

  lemma Composed(x: int, num: int, den: int, y: int, num': int, den': int, z: int)
    ensures num * num' * x - z * (den * den') == num' * (num * x - y * den) + den * (num' * y - z * den')
  {
  }

  lemma WeightedErrors(first: int, second: int, num': int, den: nat, den': nat)
    requires 2 * Abs(first) <= den && 2 * Abs(second) <= den'
    ensures 2 * Abs(num' * first + den * second) <= den * (Abs(num') + den')
  {
    Product(num', first);
    Product(den, second);
    Grows(Abs(num'), 2 * Abs(first), den);
    Grows(den, 2 * Abs(second), den');
  }

  lemma ComposedError(x: int, num: int, den: nat, y: int, num': int, den': nat, z: int)
    requires Rounds(num * x, den, y) && Rounds(num' * y, den', z)
    ensures 2 * Abs(num * num' * x - z * (den * den')) <= den * (Abs(num') + den')
  {
    Composed(x, num, den, y, num', den', z);
    WeightedErrors(num * x - y * den, num' * y - z * den', num', den, den');
  }

  /** Scaling an already scaled value from the same baseline scales by the product of the factors, up to the
      two roundings. */
  lemma ScalesCompose(b: Base, b': Base, start: int, end: int, baseline: int, num: int, den: nat,
                      num': int, den': nat, t: int)
    requires Framing(b) && Framing(b') && den > 0 && den' > 0
    requires t in b.at && t in b'.at && start <= t <= end
    requires b'.at[t] == Mutated(b, Scale(start, end, baseline, num, den), t)
    ensures var z := Mutated(b', Scale(start, end, baseline, num', den'), t);
            2 * Abs(num * num' * (b.at[t] - baseline) - (z - baseline) * (den * den')) <= den * (Abs(num') + den')
  {
    ScaledDistance(b, start, end, baseline, num, den, t);
    ScaledDistance(b', start, end, baseline, num', den', t);
    var z := Mutated(b', Scale(start, end, baseline, num', den'), t);
    ComposedError(b.at[t] - baseline, num, den, b'.at[t] - baseline, num', den', z - baseline);
  }

  // ---------------------------------------------------------------- averages

  /** The values around second `t`, where seconds past an end count as that end. */
  ghost predicate Around(b: Base, t: int, radius: nat, samples: seq<int>) {
    && |samples| == 2 * radius + 1
    && forall i :: 0 <= i < |samples| ==> IsValue(b, t - radius + i, samples[i])
  }

  predicate IsValue(b: Base, t: int, x: int) {
    var near := if t < b.lo then b.lo else if t > b.hi then b.hi else t;
    near in b.at && b.at[near] == x
  }

  lemma {:induction false} SumAround(b: Base, lo: int, samples: seq<int>)
    requires b.lo <= b.hi && forall i :: 0 <= i < |samples| ==> IsValue(b, lo + i, samples[i])
    ensures SumOver(b, lo, lo + |samples| - 1) == Sum(samples)
  {
    if samples != [] {
      assert IsValue(b, lo + |samples| - 1, Last(samples));
      SumAround(b, lo, Front(samples));
    }
  }

  lemma {:induction false} SumBetween(s: seq<int>, low: int, high: int)
    requires forall i :: 0 <= i < |s| ==> low <= s[i] <= high
    ensures low * |s| <= Sum(s) <= high * |s|
  {
    if s != [] {
      SumBetween(Front(s), low, high);
      assert low * |s| == low * (|s| - 1) + low && high * |s| == high * (|s| - 1) + high;
    }
  }

  lemma RoundedBetween(num: int, den: nat, low: int, high: int)
    requires den > 0 && low * den <= num <= high * den
    ensures low <= RoundHalfEven(num, den) <= high
  {
    var r := RoundHalfEven(num, den);
    Distribute(r, low, den);
    Distribute(high, r, den);
    Multiple(r - low, den);
    Multiple(high - r, den);
  }

  lemma AveragedSum(b: Base, start: int, end: int, radius: nat, t: int, samples: seq<int>) returns (sum: int)
    requires Framing(b) && t in b.at && start - radius <= t <= end + radius && Around(b, t, radius, samples)
    ensures sum == Sum(samples)
    ensures Mutated(b, MovingAverage(start, end, radius), t) == RoundHalfEven(sum, 2 * radius + 1)
  {
    SumAround(b, t - radius, samples);
    var f := ValueIn(b, MovingAverage(start, end, radius), t);
    sum := f.num;
  }

  /** A moving average is the mean of the values around its second, up to the rounding, and lies between
      the least and the greatest of them. */
  lemma Averaged(b: Base, start: int, end: int, radius: nat, t: int, samples: seq<int>, low: int, high: int)
    requires Framing(b) && t in b.at && start - radius <= t <= end + radius && Around(b, t, radius, samples)
    requires forall i :: 0 <= i < |samples| ==> low <= samples[i] <= high
    ensures var y := Mutated(b, MovingAverage(start, end, radius), t);
            Rounds(Sum(samples), 2 * radius + 1, y) && low <= y <= high
  {
    var sum := AveragedSum(b, start, end, radius, t, samples);
    SumBetween(samples, low, high);
    RoundedBetween(sum, 2 * radius + 1, low, high);
  }

  // ---------------------------------------------------------------- the valid range

  lemma Inside(x: int, den: nat)
    requires den > 0 && 1000 * (x * den) <= 501 * den
    ensures x <= 0
  {
    Multiple(x, den);
  }

  /** What passes the range check is rounded into the range, and a whole value passes exactly inside it. */
  lemma RangeMeaning(f: Fraction, low: int, high: int)
    requires f.den > 0
    ensures InRange(f, low, high) ==> low <= RoundHalfEven(f.num, f.den) <= high
    ensures f.den == 1 ==> (InRange(f, low, high) <==> low <= f.num <= high)
  {
    if InRange(f, low, high) {
      var r := RoundHalfEven(f.num, f.den);
      Distribute(r, high, f.den);
      Distribute(low, r, f.den);
      assert (1000 * high + 1) * f.den == 1000 * (high * f.den) + f.den;
      assert (1000 * low - 1) * f.den == 1000 * (low * f.den) - f.den;
      Inside(r - high, f.den);
      Inside(low - r, f.den);
    }
  }

  /** The values of a mutation that succeeds lie in the valid range. */
  lemma MutatedInRange(b: Base, m: Mutation, low: int, high: int, t: int)
    requires Framing(b) && WellFormed(m) && t in b.at && InRange(Unrounded(b, m, t), low, high)
    ensures low <= Mutated(b, m, t) <= high
  {
    RangeMeaning(Unrounded(b, m, t), low, high);
  }

  // ---------------------------------------------------------------- shifts

  lemma {:induction false} LeastAttained(b: Base, hi: int) returns (t: int)
    requires Framing(b) && b.lo <= hi <= b.hi
    ensures t in b.at && t <= hi && b.at[t] == Least(b, hi)
    decreases hi - b.lo
  {
    if hi == b.lo || (hi in b.at && b.at[hi] <= Least(b, hi - 1)) {
      t := hi;
    } else {
      t := LeastAttained(b, hi - 1);
    }
  }

  /** The least value of a forecast. */
  ghost predicate IsLeast(b: Base, level: int) {
    (exists t :: t in b.at && b.at[t] == level) && forall t :: t in b.at ==> level <= b.at[t]
  }

  /** A shifted event: from the start of the earlier place to the end of the later one, a second has the value
      `shift` seconds before it if that lies in the event and is present, and the least value otherwise. */
  lemma EventShifted(b: Base, start: int, end: int, shift: int, t: int) returns (level: int)
    requires Framing(b) && t in b.at && start + Min(0, shift) <= t <= end + Max(0, shift)
    ensures IsLeast(b, level)
    ensures Mutated(b, ShiftEvent(start, end, shift), t)
         == if start <= t - shift <= end && t - shift in b.at then b.at[t - shift] else level
  {
    level := Least(b, b.hi);
    var at := LeastAttained(b, b.hi);
    var f := ValueIn(b, ShiftEvent(start, end, shift), t);
    WholeRounds(f.num);
  }

  /** A shifted trace without gaps: every second has the value `shift` seconds before it, and past an end the
      value of that end. */
  lemma TraceShifted(b: Base, shift: int, t: int, x: int)
    requires Contiguous(b) && t in b.at
    ensures IsValue(b, t - shift, x) <==> Mutated(b, GlobalShift(shift), t) == x
  {
    ShiftedValueAt(b, shift, t);
  }

  // ---------------------------------------------------------------- levels

  /** From second `first` to second `last` the mutation puts the forecast at a level, and keeps it elsewhere. */
  ghost predicate AtLevel(b: Base, m: Mutation, first: int, last: int, level: int)
    requires Framing(b) && WellFormed(m)
  {
    forall t :: t in b.at ==> Mutated(b, m, t) == if first <= t <= last then level else b.at[t]
  }

  /** Replacing puts every second of the interval at the given value, shortening the last `amount` seconds of
      the event at the baseline, and extending the `amount` seconds after the event at the peak. */
  lemma Levels(b: Base, start: int, end: int, amount: int, level: int)
    requires Framing(b)
    ensures AtLevel(b, Replace(start, end, level), start, end, level)
    ensures AtLevel(b, Shorten(end, amount, level), end - amount + 1, end, level)
    ensures AtLevel(b, Extend(end, amount, level), end + 1, end + amount, level)
  {
    WholeRounds(level);
    forall t | t in b.at
      ensures RoundHalfEven(b.at[t], 1) == b.at[t]
    {
      WholeRounds(b.at[t]);
    }
  }
}

/** Expansion of a rate trace into individually scheduled requests: a remainder is carried from
    second to second, and the requests of a second are spread evenly over it. */
module RequestSchedule {
  import opened Basics
  import opened Capacity

  const MICROS: nat := 1_000_000

  datatype Request = Request(number: nat, offsetUs: int, second: nat, targetRps: real, inSecond: nat)

  /** Conversion to an integer drops the fraction, towards zero. */
  function Truncate(x: real): int {
    if x >= 0.0 then x.Floor else -((-x).Floor)
  }

  function Cumulative(values: seq<real>): real {
    if values == [] then 0.0 else Cumulative(Front(values)) + Last(values)
  }

  ghost predicate NonNegative(values: seq<real>) {
    forall i :: 0 <= i < |values| ==> values[i] >= 0.0
  }

  /** Requests due by the end of a trace. */
  function Due(values: seq<real>): int {
    (Cumulative(values) + TOLERANCE).Floor
  }

  lemma {:induction false} DueGrows(values: seq<real>)
    requires NonNegative(values)
    ensures Due(values) >= 0 && Cumulative(values) >= 0.0
    ensures values != [] ==> Due(Front(values)) <= Due(values)
  {
    if values != [] {
      DueGrows(Front(values));
    }
  }

  /** The offset inside its second of request `w` of `count`, in microseconds: the middle of the
      `w`-th of `count` equal slots, rounded half to even. */
  function Slot(w: nat, count: nat): int
    requires count > 0
  {
    RoundHalfEven((2 * w + 1) * MICROS, 2 * count)
  }

  function SecondRows(first: nat, second: nat, target: real, count: nat, n: nat): (rows: seq<Request>)
    requires n <= count
    ensures |rows| == n
  {
    if n == 0 then []
    else SecondRows(first, second, target, count, n - 1)
         + [Request(first + n, second * MICROS + Slot(n - 1, count), second, target, count)]
  }

  /** What is carried over when the seconds of a trace have been scheduled. */
  function Carry(values: seq<real>): real {
    if values == [] then 0.0
    else
      var carry := Carry(Front(values)) + Last(values);
      carry - Truncate(carry + TOLERANCE) as real
  }

  /** How many requests the last second of a trace takes off the carried remainder. */
  function Count(values: seq<real>): int
    requires values != []
  {
    Truncate(Carry(Front(values)) + Last(values) + TOLERANCE)
  }

  /** The whole schedule; a negative count schedules nothing. */
  function Schedule(values: seq<real>): seq<Request> {
    if values == [] then []
    else
      var before := Schedule(Front(values));
      var count := Max(0, Count(values));
      before + SecondRows(|before|, |values| - 1, Last(values), count, count)
  }

  method Expand(values: seq<real>) returns (rows: seq<Request>)
    ensures rows == Schedule(values)
  {
    rows := [];
    var carry := 0.0;
    var requestNumber := 0;
    for second := 0 to |values|
      invariant rows == Schedule(values[..second]) && requestNumber == |rows|
      invariant carry == Carry(values[..second])
    {
      ghost var done := values[..second + 1];
      assert Front(done) == values[..second];
      carry := carry + values[second];
      var count := Truncate(carry + TOLERANCE);
      assert count == Count(done);
      carry := carry - count as real;
      ghost var before := rows;
      var rest := Max(0, count);
      for w := 0 to rest
        invariant rows == before + SecondRows(|before|, second, values[second], rest, w)
        invariant requestNumber == |before| + w
      {
        requestNumber := requestNumber + 1;
        var offset := second * MICROS + RoundHalfEven((2 * w + 1) * MICROS, 2 * count);
        rows := rows + [Request(requestNumber, offset, second, values[second], count)];
      }
    }
    assert values[..|values|] == values;
  }

  lemma TruncateShifted(x: real, n: int)
    requires x >= n as real
    ensures Truncate(x - n as real) == x.Floor - n >= 0
  {
  }

  /** On non-negative rates each second contributes what has become due in it, and the carried
      remainder is what is not yet due. */
  lemma {:induction false} CarryIsNotYetDue(values: seq<real>)
    requires NonNegative(values)
    ensures Carry(values) == Cumulative(values) - Due(values) as real
    ensures values != [] ==> Count(values) == Due(values) - Due(Front(values)) >= 0
  {
    if values != [] {
      var f := Front(values);
      CarryIsNotYetDue(f);
      DueGrows(f);
      var x := Cumulative(values) + TOLERANCE;
      assert Carry(f) + Last(values) + TOLERANCE == x - Due(f) as real;
      TruncateShifted(x, Due(f));
    }
  }

  /** On any rates the remainder stays below one request, on the side from which it was truncated. */
  lemma CarryBelowOne(values: seq<real>)
    requires values != []
    ensures var due := Carry(Front(values)) + Last(values) + TOLERANCE;
            && -1.0 < Carry(values) + TOLERANCE < 1.0
            && (due >= 0.0 ==> Carry(values) + TOLERANCE >= 0.0)
            && (due <= 0.0 ==> Carry(values) + TOLERANCE <= 0.0)
  {
  }

  // ---------------------------------------------------------------- totals

  /** After every second the scheduled total is the floor of the cumulative target, so it is never
      a whole request behind and never ahead by more than the tolerance. */
  lemma {:induction false} ScheduledTotal(values: seq<real>)
    requires NonNegative(values)
    ensures |Schedule(values)| == Due(values)
    ensures Cumulative(values) - 1.0 < |Schedule(values)| as real <= Cumulative(values) + TOLERANCE
  {
    DueGrows(values);
    CarryIsNotYetDue(values);
    if values != [] {
      ScheduledTotal(Front(values));
    }
  }

  // ---------------------------------------------------------------- offsets

  lemma SlotBounds(w: nat, count: nat)
    requires count > 0
    ensures -(count as int) <= (2 * w + 1) * MICROS - 2 * (Slot(w, count) * count) <= count
  {
    var r := Slot(w, count);
    assert r * (2 * count) == 2 * (r * count);
  }

  lemma SignOfProduct(x: int, c: nat)
    requires c > 0
    ensures x * c > 0 <==> x > 0
    ensures x * c >= c <==> x >= 1
  {
    if x >= 1 {
      assert (x - 1) * c >= 0;
    } else {
      assert (-x) * c >= 0;
    }
  }

  /** Two slot middles more than one microsecond apart are rounded apart. */
  lemma RoundedApart(middle: int, r: int, r': int, count: nat)
    requires 0 < count < MICROS
    requires middle - 2 * (r * count) >= -(count as int)
    requires middle + 2 * MICROS - 2 * (r' * count) <= count
    ensures r < r'
  {
    assert (r' - r) * count == r' * count - r * count;
    SignOfProduct(r' - r, count);
  }

  lemma SlotsIncrease(w: nat, count: nat)
    requires 0 < count < MICROS
    ensures Slot(w, count) < Slot(w + 1, count)
  {
    SlotBounds(w, count);
    SlotBounds(w + 1, count);
    RoundedApart((2 * w + 1) * MICROS, Slot(w, count), Slot(w + 1, count), count);
  }

  lemma RoundedInside(middle: int, r: int, count: nat)
    requires 0 < count < MICROS && MICROS <= middle <= 2 * (MICROS * count) - MICROS
    requires -(count as int) <= middle - 2 * (r * count) <= count
    ensures 0 <= r < MICROS
  {
    SignOfProduct(r, count);
    SignOfProduct(MICROS - r, count);
    assert (MICROS - r) * count == MICROS * count - r * count;
  }

  lemma SlotInside(w: nat, count: nat)
    requires w < count < MICROS
    ensures 0 <= Slot(w, count) < MICROS
  {
    SlotBounds(w, count);
    RoundedInside((2 * w + 1) * MICROS, Slot(w, count), count);
  }

  lemma LastSlotOutside(count: nat)
    requires count >= MICROS
    ensures Slot(count - 1, count) >= MICROS
  {
    if count == MICROS {
      assert 1_999_999 * MICROS / (2 * MICROS) == 999_999;
    } else {
      var r := Slot(count - 1, count);
      SlotBounds(count - 1, count);
      SignOfProduct(r - (MICROS - 1), count);
      assert (r - (MICROS - 1)) * count == r * count - (MICROS - 1) * count;
    }
  }

  /** The offsets of a second stay inside it exactly when it has fewer than a million requests. */
  lemma SlotsFit(count: nat)
    requires count > 0
    ensures (forall w :: 0 <= w < count ==> 0 <= Slot(w, count) < MICROS) <==> count < MICROS
  {
    if count < MICROS {
      forall w | 0 <= w < count
        ensures 0 <= Slot(w, count) < MICROS
      {
        SlotInside(w, count);
      }
    } else {
      LastSlotOutside(count);
    }
  }

  /** Numbers run from 1, offsets increase strictly, and every request lies in its own second. */
  ghost predicate WellSpread(rows: seq<Request>, seconds: nat) {
    && (forall i :: 0 <= i < |rows| ==> rows[i].number == i + 1)
    && (forall i :: 0 <= i < |rows| ==> InSecond(rows[i]) && rows[i].second < seconds)
    && (forall i, j :: 0 <= i < j < |rows| ==> rows[i].offsetUs < rows[j].offsetUs)
  }

  predicate InSecond(r: Request) {
    r.second * MICROS <= r.offsetUs < (r.second + 1) * MICROS
  }

  /** Every second of the trace has fewer than a million requests. */
  ghost predicate Sparse(values: seq<real>) {
    values == [] || (Sparse(Front(values)) && Count(values) < MICROS)
  }

  lemma {:induction false} SecondSpread(first: nat, second: nat, target: real, count: nat, n: nat)
    requires n <= count < MICROS
    ensures var rows := SecondRows(first, second, target, count, n);
            && (forall i :: 0 <= i < n ==> rows[i].number == first + i + 1 && rows[i].second == second
                                           && rows[i].offsetUs == second * MICROS + Slot(i, count) && InSecond(rows[i]))
            && (forall i, j :: 0 <= i < j < n ==> rows[i].offsetUs < rows[j].offsetUs)
  {
    if n > 0 {
      SecondSpread(first, second, target, count, n - 1);
      SlotInside(n - 1, count);
      if n > 1 {
        SlotsIncrease(n - 2, count);
      }
    }
  }

  /** A sparse trace expands to strictly increasing offsets, each inside its own second. */
  lemma {:induction false} ScheduleSpread(values: seq<real>)
    requires Sparse(values)
    ensures WellSpread(Schedule(values), |values|)
  {
    if values != [] {
      ScheduleSpread(Front(values));
      var before := Schedule(Front(values));
      var count := Max(0, Count(values));
      SecondSpread(|before|, |values| - 1, Last(values), count, count);
      Append(before, SecondRows(|before|, |values| - 1, Last(values), count, count), |values| - 1);
    }
  }

  lemma Append(before: seq<Request>, rows: seq<Request>, second: nat)
    requires WellSpread(before, second)
    requires forall i :: 0 <= i < |rows| ==>
               rows[i].number == |before| + i + 1 && rows[i].second == second && InSecond(rows[i])
    requires forall i, j :: 0 <= i < j < |rows| ==> rows[i].offsetUs < rows[j].offsetUs
    ensures WellSpread(before + rows, second + 1)
  {
    var all := before + rows;
    forall i, j | 0 <= i < j < |all|
      ensures all[i].offsetUs < all[j].offsetUs
    {
      if i < |before| <= j {
        assert InSecond(before[i]) && InSecond(rows[j - |before|]);
      }
    }
  }

  // ---------------------------------------------------------------- the written rows

  /** The requests of a second. */
  function CountIn(rows: seq<Request>, second: nat): nat {
    if rows == [] then 0 else CountIn(Front(rows), second) + (if Last(rows).second == second then 1 else 0)
  }

  lemma {:induction false} CountConcat(a: seq<Request>, b: seq<Request>, second: nat)
    ensures CountIn(a + b, second) == CountIn(a, second) + CountIn(b, second)
  {
    if b == [] {
      assert a + b == a;
    } else {
      assert Front(a + b) == a + Front(b);
      CountConcat(a, Front(b), second);
    }
  }

  lemma {:induction false} CountNone(rows: seq<Request>, second: nat)
    requires forall i :: 0 <= i < |rows| ==> rows[i].second != second
    ensures CountIn(rows, second) == 0
  {
    if rows != [] {
      CountNone(Front(rows), second);
    }
  }

  lemma {:induction false} CountAll(rows: seq<Request>, second: nat)
    requires forall i :: 0 <= i < |rows| ==> rows[i].second == second
    ensures CountIn(rows, second) == |rows|
  {
    if rows != [] {
      CountAll(Front(rows), second);
    }
  }

  /** Request `w` of the `count` of a second, at the middle of its slot up to the rounding. */
  ghost predicate AtSlot(r: Request, w: nat, count: nat) {
    && w < count && r.inSecond == count
    && -(count as int) <= (2 * w + 1) * MICROS - 2 * ((r.offsetUs - r.second * MICROS) * count) <= count
  }

  /** Row `i` belongs to a second of the trace, carries its rate and the number of its requests, and lies in
      the slot of its place among them. */
  ghost predicate Placed(values: seq<real>, rows: seq<Request>, i: nat)
    requires i < |rows|
  {
    var r := rows[i];
    && r.second < |values| && r.targetRps == values[r.second]
    && AtSlot(r, CountIn(rows[..i], r.second), CountIn(rows, r.second))
  }

  lemma {:induction false} SecondRow(first: nat, second: nat, target: real, count: nat, n: nat, w: nat)
    requires w < n <= count
    ensures var rows := SecondRows(first, second, target, count, n);
            && rows[w].second == second && rows[w].targetRps == target && AtSlot(rows[w], w, count)
  {
    if w < n - 1 {
      SecondRow(first, second, target, count, n - 1, w);
    } else {
      SlotBounds(w, count);
    }
  }

  lemma PlacedBefore(values: seq<real>, before: seq<Request>, rest: seq<Request>, last: real, i: nat)
    requires i < |before| && Placed(values, before, i)
    requires forall k :: 0 <= k < |rest| ==> rest[k].second == |values|
    ensures Placed(values + [last], before + rest, i)
  {
    var second := before[i].second;
    CountConcat(before, rest, second);
    CountNone(rest, second);
    assert (before + rest)[..i] == before[..i];
  }

  lemma PlacedBehind(values: seq<real>, before: seq<Request>, rest: seq<Request>, last: real, w: nat)
    requires w < |rest| && forall k :: 0 <= k < |before| ==> before[k].second < |values|
    requires forall k :: 0 <= k < |rest| ==> rest[k].second == |values|
    requires rest[w].targetRps == last && AtSlot(rest[w], w, |rest|)
    ensures Placed(values + [last], before + rest, |before| + w)
  {
    var all := before + rest;
    CountNone(before, |values|);
    CountConcat(before, rest, |values|);
    CountAll(rest, |values|);
    CountConcat(before, rest[..w], |values|);
    CountAll(rest[..w], |values|);
    assert all[..|before| + w] == before + rest[..w];
  }

  ghost predicate AllPlaced(values: seq<real>, rows: seq<Request>) {
    forall i :: 0 <= i < |rows| ==> Placed(values, rows, i)
  }

  lemma PlacedExtends(values: seq<real>, before: seq<Request>, rest: seq<Request>, last: real)
    requires AllPlaced(values, before)
    requires forall w :: 0 <= w < |rest| ==>
               rest[w].second == |values| && rest[w].targetRps == last && AtSlot(rest[w], w, |rest|)
    ensures AllPlaced(values + [last], before + rest)
  {
    forall k | 0 <= k < |before|
      ensures before[k].second < |values|
    {
      assert Placed(values, before, k);
    }
    forall i | 0 <= i < |before + rest|
      ensures Placed(values + [last], before + rest, i)
    {
      if i < |before| {
        PlacedBefore(values, before, rest, last, i);
      } else {
        PlacedBehind(values, before, rest, last, i - |before|);
      }
    }
  }

  lemma SecondRowsAt(first: nat, second: nat, target: real, count: nat) returns (rest: seq<Request>)
    ensures rest == SecondRows(first, second, target, count, count)
    ensures forall w :: 0 <= w < |rest| ==>
              rest[w].second == second && rest[w].targetRps == target && AtSlot(rest[w], w, |rest|)
  {
    rest := SecondRows(first, second, target, count, count);
    forall w | 0 <= w < |rest|
      ensures rest[w].second == second && rest[w].targetRps == target && AtSlot(rest[w], w, |rest|)
    {
      SecondRow(first, second, target, count, count, w);
    }
  }

  /** Every row of the schedule of any trace is placed. */
  lemma {:induction false} ScheduledRows(values: seq<real>)
    ensures AllPlaced(values, Schedule(values))
  {
    if values != [] {
      var f, before := Front(values), Schedule(Front(values));
      ScheduledRows(f);
      var rest := SecondRowsAt(|before|, |f|, Last(values), Max(0, Count(values)));
      PlacedExtends(f, before, rest, Last(values));
      assert values == f + [Last(values)];
    }
  }
}

/** The forecast contract: which parsed rows make a trace, and the index the controller looks up. */
module Forecast {
  import opened Basics
  import opened Capacity

  datatype Row = Row(
    traceId: string, condition: string, issuedMs: int, targetMs: int, horizonMs: int,
    predictedRps: real, mutationId: string, pairManifestId: string)

  datatype Trace = Trace(rows: seq<Row>, byIssued: map<int, Row>)

  datatype Requirements = Requirements(
    intervalMs: int, horizonMs: int, maximumRps: real, traceId: string, condition: string)

  datatype ParseError =
    | InvalidRequirements | NegativePrediction | EmptyIdentity | UnexpectedTrace
    | InvalidTimes | ExceedsCapacity | DuplicateOffset | UnorderedOffset | NoRows

  predicate ValidRequirements(q: Requirements) {
    q.intervalMs > 0 && q.horizonMs > 0 && q.maximumRps > 0.0
  }

  /** The decision offset of row `i`. */
  function Offset(q: Requirements, i: nat): int {
    i * q.intervalMs
  }

  /** The contract of the row at position `i`. */
  predicate RowOk(q: Requirements, row: Row, i: nat) {
    && row.predictedRps >= 0.0
    && row.traceId != "" && row.condition != "" && row.mutationId != "" && row.pairManifestId != ""
    && row.traceId == q.traceId && row.condition == q.condition
    && row.issuedMs == Offset(q, i)
    && row.horizonMs == q.horizonMs && row.targetMs == row.issuedMs + row.horizonMs
    && row.predictedRps <= q.maximumRps + TOLERANCE
  }

  ghost predicate Contract(q: Requirements, rows: seq<Row>) {
    forall i :: 0 <= i < |rows| ==> RowOk(q, rows[i], i)
  }

  /** `byIssued` is exactly the index of the rows by decision offset. */
  ghost predicate Indexed(q: Requirements, t: Trace) {
    && (forall i :: 0 <= i < |t.rows| ==> Offset(q, i) in t.byIssued && t.byIssued[Offset(q, i)] == t.rows[i])
    && (forall ms :: ms in t.byIssued ==> exists i :: 0 <= i < |t.rows| && ms == Offset(q, i))
  }

  lemma OffsetsIncrease(q: Requirements, i: nat, j: nat)
    requires ValidRequirements(q)
    ensures i < j ==> Offset(q, i) < Offset(q, j)
  {
    if i < j {
      Product(j - i, q.intervalMs);
      assert j * q.intervalMs == i * q.intervalMs + (j - i) * q.intervalMs;
    }
  }

  lemma Product(k: int, m: int)
    requires m > 0
    ensures k >= 1 ==> k * m >= m
    ensures k <= -1 ==> k * m <= -m
  {
    if k >= 1 {
      assert (k - 1) * m >= 0;
    } else if k <= -1 {
      assert (-k - 1) * m >= 0;
    }
  }

  lemma MultipleIsAligned(k: nat, m: int)
    requires m > 0
    ensures k * m >= 0 && (k * m) % m == 0
  {
    var x := k * m;
    var quotient, rest := x / m, x % m;
    Product(k - quotient, m);
    assert x == quotient * m + rest;
    assert (k - quotient) * m == rest;
  }

  /** The row checks in source order; the row is appended and indexed when all pass. */
  method CheckRow(q: Requirements, t: Trace, row: Row) returns (r: Result<Trace, ParseError>)
    requires ValidRequirements(q) && Indexed(q, t)
    ensures r.Success? <==> RowOk(q, row, |t.rows|)
    ensures r.Success? ==> r.value.rows == t.rows + [row] && Indexed(q, r.value)
  {
    MultipleIsAligned(|t.rows|, q.intervalMs);
    forall i | 0 <= i < |t.rows|
      ensures Offset(q, i) != Offset(q, |t.rows|)
    {
      OffsetsIncrease(q, i, |t.rows|);
    }
    if row.predictedRps < 0.0 { return Failure(NegativePrediction); }
    if row.traceId == "" || row.condition == "" || row.mutationId == "" || row.pairManifestId == "" {
      return Failure(EmptyIdentity);
    }
    if row.traceId != q.traceId || row.condition != q.condition { return Failure(UnexpectedTrace); }
    if row.issuedMs < 0 || row.issuedMs % q.intervalMs != 0 || row.horizonMs != q.horizonMs
       || row.targetMs != row.issuedMs + row.horizonMs {
      return Failure(InvalidTimes);
    }
    if row.predictedRps > q.maximumRps + TOLERANCE { return Failure(ExceedsCapacity); }
    if row.issuedMs in t.byIssued { return Failure(DuplicateOffset); }
    var expectedIssued := Offset(q, |t.rows|);
    if row.issuedMs != expectedIssued { return Failure(UnorderedOffset); }
    var t' := Trace(t.rows + [row], t.byIssued[row.issuedMs := row]);
    forall ms | ms in t'.byIssued
      ensures exists i :: 0 <= i < |t'.rows| && ms == Offset(q, i)
    {
      if ms != row.issuedMs {
        var i :| 0 <= i < |t.rows| && ms == Offset(q, i);
      } else {
        assert ms == Offset(q, |t.rows|);
      }
    }
    return Success(t');
  }

  /** A forecast is accepted exactly when it is non-empty and every row meets its contract, and the
      accepted trace is the rows with their exact index. */
  method Parse(records: seq<Row>, q: Requirements) returns (r: Result<Trace, ParseError>)
    ensures r.Success? <==> ValidRequirements(q) && records != [] && Contract(q, records)
    ensures r.Success? ==> r.value.rows == records && Indexed(q, r.value)
    ensures r.Success? ==> forall i {:trigger records[i]} :: 0 <= i < |records| ==>
              && records[i].issuedMs == i * q.intervalMs && records[i].targetMs == i * q.intervalMs + q.horizonMs
              && 0.0 <= records[i].predictedRps <= q.maximumRps + TOLERANCE
              && records[i].traceId == q.traceId && records[i].condition == q.condition
  {
    if !(q.intervalMs > 0 && q.horizonMs > 0 && q.maximumRps > 0.0) {
      return Failure(InvalidRequirements);
    }
    var t := Trace([], map[]);
    for k := 0 to |records|
      invariant t.rows == records[..k] && Indexed(q, t)
      invariant forall i :: 0 <= i < k ==> RowOk(q, records[i], i)
    {
      var next := CheckRow(q, t, records[k]);
      if next.Failure? {
        return Failure(next.error);
      }
      t := next.value;
    }
    if |t.rows| == 0 {
      return Failure(NoRows);
    }
    return Success(t);
  }
}

/** Selection of one accuracy-matched pair per contrast group: every left candidate is compared
    with every right one, and the eligible pair with the least key is taken. */
module PairSelection {
  import opened Basics
  import opened ForecastMutation

  /** A candidate by its accuracy; `id` is its place in the order of identifiers and `size` the
      length of its written parameters. */
  datatype Candidate = Candidate(id: nat, trace: string, mae: real, rmse: real, size: nat)

  datatype Protocol = Protocol(minimumMae: real, minimumRmse: real, maeTolerance: real, rmseTolerance: real)

  /** The gates of a group on the meaning of a pair, and its distance from the preferred parameters. */
  datatype Group = Group(gate: (Candidate, Candidate) -> bool, distance: (Candidate, Candidate) -> real)

  type Pair = (Candidate, Candidate)

  ghost predicate ValidProtocol(q: Protocol) {
    q.maeTolerance > 0.0 && q.rmseTolerance > 0.0
  }

  function MaeDifference(p: Pair): real {
    RelativeDifference(p.0.mae, p.1.mae)
  }

  function RmseDifference(p: Pair): real {
    RelativeDifference(p.0.rmse, p.1.rmse)
  }

  predicate Eligible(q: Protocol, g: Group, p: Pair) {
    && p.0.trace == p.1.trace
    && p.0.mae >= q.minimumMae && p.1.mae >= q.minimumMae
    && p.0.rmse >= q.minimumRmse && p.1.rmse >= q.minimumRmse
    && MaeDifference(p) <= q.maeTolerance && RmseDifference(p) <= q.rmseTolerance
    && g.gate(p.0, p.1)
  }

  function Loss(q: Protocol, p: Pair): real
    requires q.maeTolerance != 0.0 && q.rmseTolerance != 0.0
  {
    MaeDifference(p) / q.maeTolerance + RmseDifference(p) / q.rmseTolerance
  }

  /** Pairs are ordered by loss, then distance, then written size, then identifiers. */
  datatype Key = Key(loss: real, distance: real, size: nat, first: nat, second: nat)

  function KeyOf(q: Protocol, g: Group, p: Pair): Key
    requires q.maeTolerance != 0.0 && q.rmseTolerance != 0.0
  {
    Key(Loss(q, p), g.distance(p.0, p.1), p.0.size + p.1.size, p.0.id, p.1.id)
  }

  predicate Before(a: Key, b: Key) {
    if a.loss != b.loss then a.loss < b.loss
    else if a.distance != b.distance then a.distance < b.distance
    else if a.size != b.size then a.size < b.size
    else if a.first != b.first then a.first < b.first
    else a.second < b.second
  }

  /** The first element of the sorted list: one that nothing in the list comes before. */
  function LeastPair(q: Protocol, g: Group, pairs: seq<Pair>): (p: Pair)
    requires q.maeTolerance != 0.0 && q.rmseTolerance != 0.0 && pairs != []
    ensures exists i :: 0 <= i < |pairs| && pairs[i] == p
    ensures forall i :: 0 <= i < |pairs| ==> !Before(KeyOf(q, g, pairs[i]), KeyOf(q, g, p))
  {
    if |pairs| == 1 then pairs[0]
    else
      var best := LeastPair(q, g, Front(pairs));
      assert forall i :: 0 <= i < |pairs| - 1 ==> Front(pairs)[i] == pairs[i];
      if Before(KeyOf(q, g, Last(pairs)), KeyOf(q, g, best)) then Last(pairs) else best
  }

  /** The pair is made of a left and a right candidate. */
  ghost predicate Offered(left: seq<Candidate>, right: seq<Candidate>, p: Pair) {
    exists i, j :: 0 <= i < |left| && 0 <= j < |right| && p == (left[i], right[j])
  }

  /** A group fails exactly when no pair is eligible; otherwise an eligible pair of least key is taken. */
  method Match(left: seq<Candidate>, right: seq<Candidate>, q: Protocol, g: Group) returns (r: Option<Pair>)
    requires ValidProtocol(q)
    ensures r.None? ==> forall p :: Offered(left, right, p) ==> !Eligible(q, g, p)
    ensures r.Some? ==> Offered(left, right, r.value) && Eligible(q, g, r.value)
    ensures r.Some? ==> forall p :: Offered(left, right, p) && Eligible(q, g, p) ==>
                          !Before(KeyOf(q, g, p), KeyOf(q, g, r.value))
  {
    var eligible: seq<Pair> := [];
    for i := 0 to |left|
      invariant forall k :: 0 <= k < |eligible| ==> Offered(left, right, eligible[k]) && Eligible(q, g, eligible[k])
      invariant forall a, b :: 0 <= a < i && 0 <= b < |right| && Eligible(q, g, (left[a], right[b])) ==>
                  exists k :: 0 <= k < |eligible| && eligible[k] == (left[a], right[b])
    {
      for j := 0 to |right|
        invariant forall k :: 0 <= k < |eligible| ==> Offered(left, right, eligible[k]) && Eligible(q, g, eligible[k])
        invariant forall a, b :: (0 <= a < i && 0 <= b < |right|) || (a == i && 0 <= b < j) ==>
                    Eligible(q, g, (left[a], right[b])) ==>
                    exists k :: 0 <= k < |eligible| && eligible[k] == (left[a], right[b])
      {
        var p := (left[i], right[j]);
        if Eligible(q, g, p) {
          ghost var before := eligible;
          eligible := eligible + [p];
          assert eligible[|before|] == p;
          assert forall k :: 0 <= k < |before| ==> eligible[k] == before[k];
        }
      }
    }
    if eligible == [] {
      return None;
    }
    return Some(LeastPair(q, g, eligible));
  }

  lemma LossZero(q: Protocol, p: Pair)
    requires ValidProtocol(q) && p.0.mae >= 0.0 && p.1.mae >= 0.0 && p.0.rmse >= 0.0 && p.1.rmse >= 0.0
    ensures Loss(q, p) >= 0.0
    ensures Loss(q, p) == 0.0 <==> p.0.mae == p.1.mae && p.0.rmse == p.1.rmse
  {
    RelativeDifferenceFacts(p.0.mae, p.1.mae);
    RelativeDifferenceFacts(p.0.rmse, p.1.rmse);
    Scaled(MaeDifference(p), q.maeTolerance);
    Scaled(RmseDifference(p), q.rmseTolerance);
  }

  lemma Scaled(n: real, d: real)
    requires n >= 0.0 && d > 0.0
    ensures n / d >= 0.0 && (n / d == 0.0 <==> n == 0.0)
  {
    var x := n / d;
    assert x * d == n;
    SignOfProduct(x, d);
  }

  /** When an exactly matched pair is eligible, the selected pair is exactly matched too. */
  lemma ExactPairWins(q: Protocol, g: Group, exact: Pair, chosen: Pair)
    requires ValidProtocol(q) && q.minimumMae >= 0.0 && q.minimumRmse >= 0.0
    requires Eligible(q, g, exact) && Eligible(q, g, chosen)
    requires exact.0.mae == exact.1.mae && exact.0.rmse == exact.1.rmse
    requires !Before(KeyOf(q, g, exact), KeyOf(q, g, chosen))
    ensures chosen.0.mae == chosen.1.mae && chosen.0.rmse == chosen.1.rmse
  {
    LossZero(q, exact);
    LossZero(q, chosen);
  }

  lemma Weighed(n: real, d: real) returns (x: real)
    requires d > 0.0
    ensures x == n / d && x * d == n && (n <= d ==> x <= 1.0)
  {
    x := n / d;
    assert x * d == n;
    SignOfProduct(x - 1.0, d);
  }

  lemma Weighted(x: real, y: real, a: real, b: real)
    ensures (x + y) * (a * b) == (x * a) * b + (y * b) * a
  {
  }

  /** The loss weighs each difference by its own tolerance, so no eligible pair loses more than 2. */
  lemma LossWeighs(q: Protocol, g: Group, p: Pair)
    requires ValidProtocol(q)
    ensures Loss(q, p) * (q.maeTolerance * q.rmseTolerance)
         == MaeDifference(p) * q.rmseTolerance + RmseDifference(p) * q.maeTolerance
    ensures Eligible(q, g, p) ==> Loss(q, p) <= 2.0
  {
    var x := Weighed(MaeDifference(p), q.maeTolerance);
    var y := Weighed(RmseDifference(p), q.rmseTolerance);
    Weighted(x, y, q.maeTolerance, q.rmseTolerance);
  }

  /** What the chosen pair has over every other eligible one: less loss; or as much and nearer to the
      preferred parameters; or as near and shorter; or as short and earlier. */
  lemma ChosenPrecedes(q: Protocol, g: Group, p: Pair, chosen: Pair)
    requires ValidProtocol(q) && !Before(KeyOf(q, g, p), KeyOf(q, g, chosen))
    ensures Loss(q, chosen) <= Loss(q, p)
    ensures var near, far := g.distance(chosen.0, chosen.1), g.distance(p.0, p.1);
            Loss(q, chosen) == Loss(q, p) ==>
              && near <= far
              && (near == far ==>
                    && chosen.0.size + chosen.1.size <= p.0.size + p.1.size
                    && (chosen.0.size + chosen.1.size == p.0.size + p.1.size ==>
                          chosen.0.id <= p.0.id && (chosen.0.id == p.0.id ==> chosen.1.id <= p.1.id)))
  {
  }

  lemma DifferenceWithin(a: real, b: real, tolerance: real)
    requires a >= 0.0 && b >= 0.0 && tolerance >= 0.0
    ensures RelativeDifference(a, b) <= tolerance <==> 2.0 * RealAbs(a - b) <= tolerance * (a + b)
  {
    RelativeDifferenceFacts(a, b);
    if a + b > 0.0 {
      SignOfProduct(RelativeDifference(a, b) - tolerance, a + b);
      assert (RelativeDifference(a, b) - tolerance) * (a + b)
          == RelativeDifference(a, b) * (a + b) - tolerance * (a + b);
    }
  }

  /** A pair is eligible exactly when its candidates share a trace, err by at least the minima, differ by at
      most the tolerated part of their average, and pass the gate of the group. */
  lemma EligibleMeaning(q: Protocol, g: Group, p: Pair)
    requires ValidProtocol(q) && p.0.mae >= 0.0 && p.1.mae >= 0.0 && p.0.rmse >= 0.0 && p.1.rmse >= 0.0
    ensures Eligible(q, g, p)
       <==> && p.0.trace == p.1.trace && g.gate(p.0, p.1)
            && q.minimumMae <= p.0.mae && q.minimumMae <= p.1.mae
            && q.minimumRmse <= p.0.rmse && q.minimumRmse <= p.1.rmse
            && 2.0 * RealAbs(p.0.mae - p.1.mae) <= q.maeTolerance * (p.0.mae + p.1.mae)
            && 2.0 * RealAbs(p.0.rmse - p.1.rmse) <= q.rmseTolerance * (p.0.rmse + p.1.rmse)
  {
    DifferenceWithin(p.0.mae, p.1.mae, q.maeTolerance);
    DifferenceWithin(p.0.rmse, p.1.rmse, q.rmseTolerance);
  }
}

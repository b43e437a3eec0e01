/** The capacity lookup shared by the replica policy and the safety engine:
    how many replicas a demand needs, and how much a replica count can serve. */
module Capacity {
  import opened Basics

  datatype Point = Point(replicas: int, rps: real)

  type Lookup = seq<Point>

  const TOLERANCE: real := 0.000000001

  ghost predicate Increasing(lookup: Lookup) {
    forall i, j :: 0 <= i < j < |lookup| ==>
      lookup[i].replicas < lookup[j].replicas && lookup[i].rps < lookup[j].rps
  }

  ghost predicate ValidLookup(lookup: Lookup, minimum: int, maximum: int) {
    && |lookup| > 0
    && lookup[0].replicas > 0 && lookup[0].rps > -1.0
    && Increasing(lookup)
    && lookup[0].replicas <= minimum && maximum <= Last(lookup).replicas
  }

  /** The lookup part of configuration validation: one pass comparing each point with the one before. */
  method CheckLookup(lookup: Lookup, minimum: int, maximum: int) returns (ok: bool)
    ensures ok <==> ValidLookup(lookup, minimum, maximum)
  {
    if |lookup| == 0 {
      return false;
    }
    var previous := Point(0, -1.0);
    for k := 0 to |lookup|
      invariant k > 0 ==> previous == lookup[k - 1]
      invariant k == 0 ==> previous == Point(0, -1.0)
      invariant k > 0 ==> lookup[0].replicas > 0 && lookup[0].rps > -1.0
      invariant Increasing(lookup[..k])
    {
      var point := lookup[k];
      if point.replicas <= previous.replicas || point.rps <= previous.rps {
        return false;
      }
      assert lookup[..k + 1] == lookup[..k] + [point];
      assert k > 0 ==> lookup[..k][k - 1] == previous;
      previous := point;
    }
    assert lookup[..|lookup|] == lookup;
    return lookup[0].replicas <= minimum && Last(lookup).replicas >= maximum;
  }

  predicate Serves(point: Point, demand: real) {
    demand <= point.rps + TOLERANCE
  }

  /** Index of the first point that serves the demand, or the length when none does. */
  function FirstServing(lookup: Lookup, demand: real): (k: nat)
    ensures k <= |lookup|
    ensures forall i :: 0 <= i < k ==> !Serves(lookup[i], demand)
    ensures k < |lookup| ==> Serves(lookup[k], demand)
  {
    if lookup == [] || Serves(lookup[0], demand) then 0 else 1 + FirstServing(lookup[1..], demand)
  }

  function Required(lookup: Lookup, demand: real): Option<int> {
    var k := FirstServing(lookup, demand);
    if k < |lookup| then Some(lookup[k].replicas) else None
  }

  /** The scan written in every component: the first point whose capacity covers the demand. */
  method ScanRequired(lookup: Lookup, demand: real) returns (r: Option<int>)
    ensures r == Required(lookup, demand)
  {
    for k := 0 to |lookup|
      invariant forall i :: 0 <= i < k ==> !Serves(lookup[i], demand)
    {
      if demand <= lookup[k].rps + TOLERANCE {
        return Some(lookup[k].replicas);
      }
    }
    return None;
  }

  function CapacityOf(lookup: Lookup, replicas: int): (r: Option<real>)
    ensures r.Some? ==> Point(replicas, r.value) in lookup
    ensures r.None? ==> forall p :: p in lookup ==> p.replicas != replicas
  {
    if lookup == [] then None
    else if lookup[0].replicas == replicas then Some(lookup[0].rps)
    else CapacityOf(lookup[1..], replicas)
  }

  method ScanCapacity(lookup: Lookup, replicas: int) returns (r: Option<real>)
    ensures r == CapacityOf(lookup, replicas)
  {
    for k := 0 to |lookup|
      invariant CapacityOf(lookup, replicas) == CapacityOf(lookup[k..], replicas)
    {
      if lookup[k].replicas == replicas {
        return Some(lookup[k].rps);
      }
    }
    return None;
  }

  /** A demand is servable exactly when the last point covers it. */
  lemma RequiredDefined(lookup: Lookup, demand: real)
    requires Increasing(lookup) && |lookup| > 0
    ensures Required(lookup, demand).Some? <==> Serves(Last(lookup), demand)
    ensures Required(lookup, demand).Some? ==>
              lookup[0].replicas <= Required(lookup, demand).value <= Last(lookup).replicas
  {
    var k := FirstServing(lookup, demand);
    if k < |lookup| - 1 {
      assert lookup[k].rps < Last(lookup).rps;
    }
  }

  lemma RequiredMonotone(lookup: Lookup, low: real, high: real)
    requires Increasing(lookup)
    requires low <= high && Required(lookup, high).Some?
    ensures Required(lookup, low).Some?
    ensures Required(lookup, low).value <= Required(lookup, high).value
  {
    var i, j := FirstServing(lookup, low), FirstServing(lookup, high);
    assert Serves(lookup[j], low);
    assert i <= j;
  }

  /** Demand exceeds the Ready capacity exactly when it needs strictly more replicas than are Ready. */
  lemma OverloadNeedsMore(lookup: Lookup, demand: real, ready: int)
    requires Increasing(lookup)
    requires CapacityOf(lookup, ready).Some? && Required(lookup, demand).Some?
    ensures demand > CapacityOf(lookup, ready).value + TOLERANCE
       <==> Required(lookup, demand).value > ready
  {
    var cap := CapacityOf(lookup, ready).value;
    var i :| 0 <= i < |lookup| && lookup[i] == Point(ready, cap);
    var k := FirstServing(lookup, demand);
    if !Serves(lookup[i], demand) && k < i {
      assert false;
    }
  }

  // ---------------------------------------------------------------- what the scans find

  /** The counts never fall along the lookup. */
  ghost predicate Ordered(lookup: Lookup) {
    forall i, j :: 0 <= i < j < |lookup| ==> lookup[i].replicas <= lookup[j].replicas
  }

  /** The demand is more than every listed point of at most `replicas` can serve. */
  ghost predicate Exceeds(lookup: Lookup, demand: real, replicas: int) {
    forall p :: p in lookup && p.replicas <= replicas ==> demand > p.rps + TOLERANCE
  }

  /** The fewest listed replicas that can serve the demand. */
  ghost predicate Fewest(lookup: Lookup, demand: real, replicas: int) {
    && (exists p :: p in lookup && p.replicas == replicas && demand <= p.rps + TOLERANCE)
    && (forall p :: p in lookup && p.replicas < replicas ==> demand > p.rps + TOLERANCE)
  }

  /** The requirement is the fewest listed replicas, and exists iff some point serves the demand. */
  lemma RequiredIsFewest(lookup: Lookup, demand: real)
    requires Ordered(lookup)
    ensures Required(lookup, demand).Some? <==> exists p :: p in lookup && demand <= p.rps + TOLERANCE
    ensures forall n :: Required(lookup, demand) == Some(n) <==> Fewest(lookup, demand, n)
  {
    var k := FirstServing(lookup, demand);
    if k < |lookup| {
      assert lookup[k] in lookup && Serves(lookup[k], demand);
      forall p | p in lookup && p.replicas < lookup[k].replicas
        ensures demand > p.rps + TOLERANCE
      {
        var i :| 0 <= i < |lookup| && lookup[i] == p;
        assert i < k;
      }
    } else {
      forall p | p in lookup
        ensures demand > p.rps + TOLERANCE
      {
        assert !Serves(p, demand);
      }
    }
  }

  /** More than `replicas` are required exactly when the demand exceeds what they can serve. */
  lemma RequiredExceeds(lookup: Lookup, demand: real, replicas: int)
    requires Ordered(lookup) && Required(lookup, demand).Some?
    ensures Required(lookup, demand).value > replicas <==> Exceeds(lookup, demand, replicas)
  {
    RequiredIsFewest(lookup, demand);
    var n := Required(lookup, demand).value;
    assert Fewest(lookup, demand, n);
  }

  /** For a listed count that is the comparison with the capacity listed for it. */
  lemma ListedExceeds(lookup: Lookup, demand: real, point: Point)
    requires Increasing(lookup) && point in lookup
    ensures Exceeds(lookup, demand, point.replicas) <==> demand > point.rps + TOLERANCE
  {
    forall p | p in lookup && p.replicas <= point.replicas
      ensures p.rps <= point.rps
    {
      var i :| 0 <= i < |lookup| && lookup[i] == p;
      var j :| 0 <= j < |lookup| && lookup[j] == point;
      if i > j {
        assert lookup[j].replicas < lookup[i].replicas;
      }
    }
  }
}

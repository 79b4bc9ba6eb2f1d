/** The route table and the fitness of a route identifier. */
module Routes {
  import opened Outcomes

  type RouteId = string

  /** One row of the route table. */
  datatype Route = Route(
    id: RouteId,
    distanceKm: real,
    avgSpeedKmh: real,
    trafficVolume: real,
    weatherImpact: real,
    startLat: real, startLon: real,
    endLat: real, endLon: real)

  /** Every distance is positive, so every fitness quotient is defined. */
  predicate ValidRows(rows: seq<Route>) {
    forall r :: r in rows ==> r.distanceKm > 0.0
  }

  /** The table, row by row; an identifier may in principle occur on several rows. */
  type Catalog = rows: seq<Route> | ValidRows(rows)

  /** The identifiers that occur in the table. */
  function Ids(cat: Catalog): set<RouteId> {
    set r | r in cat :: r.id
  }

  /** No identifier occurs twice: the first is not repeated later, and the rest has no repeats. */
  predicate Distinct(s: seq<RouteId>) {
    |s| <= 1 || (s[0] !in s[1..] && Distinct(s[1..]))
  }

  /** Distinct, position by position: no two positions hold the same identifier. */
  lemma {:induction false} DistinctPairwise(s: seq<RouteId>)
    ensures Distinct(s) <==> forall i, j :: 0 <= i < j < |s| ==> s[i] != s[j]
  {
    if |s| > 1 {
      var t := s[1..];
      DistinctPairwise(t);
      if Distinct(s) {
        forall i, j | 0 <= i < j < |s| ensures s[i] != s[j] {
          assert s[j] == t[j - 1];
          if i > 0 {
            assert s[i] == t[i - 1];
          }
        }
      } else if s[0] in t {
        var k :| 0 <= k < |t| && t[k] == s[0];
        assert s[k + 1] == s[0];
      } else {
        var i, j :| 0 <= i < j < |t| && t[i] == t[j];
        assert s[i + 1] == s[j + 1];
      }
    }
  }

  /** Appending an identifier that is not yet present keeps a list without repeats. */
  lemma DistinctAppend(s: seq<RouteId>, x: RouteId)
    requires Distinct(s) && x !in s
    ensures Distinct(s + [x])
  {
    DistinctPairwise(s);
    DistinctPairwise(s + [x]);
  }

  /** Row k is the first row carrying identifier id. */
  predicate FirstMatch(cat: Catalog, id: RouteId, k: int) {
    0 <= k < |cat| && cat[k].id == id && forall j :: 0 <= j < k ==> cat[j].id != id
  }

  /** The first row whose identifier is id, if there is one. */
  function Lookup(cat: Catalog, id: RouteId): (r: Option<Route>)
    ensures r.None? <==> id !in Ids(cat)
    ensures r.Some? ==> r.value in cat && r.value.id == id
  {
    if cat == [] then None
    else if cat[0].id == id then Some(cat[0])
    else
      assert Ids(cat) == {cat[0].id} + Ids(cat[1..]) by {
        assert cat == [cat[0]] + cat[1..];
      }
      Lookup(cat[1..], id)
  }

  /** Of several rows carrying the same identifier, the lookup returns the first. */
  lemma {:induction false} LookupFindsFirst(cat: Catalog, id: RouteId, k: int)
    requires FirstMatch(cat, id, k)
    ensures Lookup(cat, id) == Some(cat[k])
  {
    if k > 0 {
      assert cat[0].id != id;
      LookupFindsFirst(cat[1..], id, k - 1);
    }
  }

  /** The desirability of one row: speed times traffic times weather, per kilometre. */
  function Rating(r: Route): real
    requires r.distanceKm > 0.0
  {
    r.avgSpeedKmh * r.trafficVolume * r.weatherImpact / r.distanceKm
  }

  /** Fitness of an identifier: 0 when no row carries it, else the rating of its first row. */
  function Fitness(cat: Catalog, id: RouteId): (f: real)
    ensures id !in Ids(cat) ==> f == 0.0
    ensures forall k {:trigger FirstMatch(cat, id, k)} :: FirstMatch(cat, id, k) ==> f == Rating(cat[k])
  {
    assert forall k | FirstMatch(cat, id, k) :: Lookup(cat, id) == Some(cat[k]) by {
      forall k | FirstMatch(cat, id, k) {
        LookupFindsFirst(cat, id, k);
      }
    }
    match Lookup(cat, id)
    case None => 0.0
    case Some(row) => Rating(row)
  }

  /** Distinct identifiers of the table, in order of first appearance. */
  function UniqueIds(cat: Catalog): (ids: seq<RouteId>)
    ensures Distinct(ids)
    ensures forall x {:trigger x in ids} :: x in ids <==> x in Ids(cat)
    ensures |ids| == |Ids(cat)|
  {
    if cat == [] then []
    else
      var last := cat[|cat| - 1];
      var rest := UniqueIds(cat[..|cat| - 1]);
      assert Ids(cat) == Ids(cat[..|cat| - 1]) + {last.id} by {
        assert cat == cat[..|cat| - 1] + [last];
      }
      if last.id in rest then
        assert Ids(cat) == Ids(cat[..|cat| - 1]);
        rest
      else
        assert Ids(cat) - {last.id} == Ids(cat[..|cat| - 1]);
        DistinctAppend(rest, last.id);
        rest + [last.id]
  }
}

/** Crossover and mutation of route identifiers, driven by explicit random draws. */
module Reproduction {
  import opened Outcomes
  import opened Routes

  /** The mutation rate the generation loop uses. */
  const MutationRate: real := 0.3

  /**
   * Returns one of the two parents unchanged: the first when the uniform draw
   * exceeds one half, the second otherwise.
   */
  function Crossover(a: RouteId, b: RouteId, draw: real): (child: RouteId)
    ensures child == a || child == b
    ensures a != b ==> (child == a <==> draw > 0.5)
  {
    if draw > 0.5 then a else b
  }

  /**
   * Keeps the child unless the uniform draw falls below the rate; then replaces
   * it with the identifier at position pick (modulo their number) among the
   * catalog's distinct identifiers, which fails when there are none.
   */
  function Mutate(cat: Catalog, child: RouteId, rate: real, draw: real, pick: nat): (r: Result<RouteId>)
    ensures r.Err? <==> draw < rate && Ids(cat) == {}
    ensures r.Err? ==> r.error == EmptyPool
    ensures draw >= rate ==> r == Ok(child)
    ensures r.Ok? && draw < rate ==> r.value in Ids(cat)
    ensures 0.0 <= draw && rate <= 0.0 ==> r == Ok(child)
    ensures draw < 1.0 && rate >= 1.0 && Ids(cat) != {} ==> r.Ok? && r.value in Ids(cat)
  {
    if draw < rate then
      var ids := UniqueIds(cat);
      if |ids| == 0 then Err(EmptyPool)
      else
        assert ids[pick % |ids|] in ids;
        Ok(ids[pick % |ids|])
    else Ok(child)
  }

  /** A mutation that fires can produce every identifier of the catalog. */
  lemma MutateReachesEveryId(cat: Catalog, child: RouteId, rate: real, draw: real, id: RouteId)
    requires draw < rate && id in Ids(cat)
    ensures exists pick: nat :: Mutate(cat, child, rate, draw, pick) == Ok(id)
  {
    var ids := UniqueIds(cat);
    assert id in ids;
    var k :| 0 <= k < |ids| && ids[k] == id;
    SmallRemainder(k, |ids|);
    assert Mutate(cat, child, rate, draw, k) == Ok(id);
  }

  /** Proof aid for MutateReachesEveryId, modelling nothing of its own: a pick already below the number of identifiers selects itself. */
  lemma SmallRemainder(k: nat, m: nat)
    requires k < m
    ensures k % m == k
  {
  }
}

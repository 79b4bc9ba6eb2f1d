/** Seeding the first generation: distinct identifiers drawn without replacement. */
module Population {
  import opened Outcomes
  import opened Routes

  /** s without its element at position i. */
  function RemoveAt(s: seq<RouteId>, i: nat): (t: seq<RouteId>)
    requires i < |s|
    ensures |t| == |s| - 1
    ensures forall k :: 0 <= k < i ==> t[k] == s[k]
    ensures forall k :: i <= k < |t| ==> t[k] == s[k + 1]
  {
    s[..i] + s[i + 1..]
  }

  /** Removing one element of a list without repeats leaves a list without repeats that lacks it. */
  lemma RemoveAtDistinct(pool: seq<RouteId>, i: nat)
    requires i < |pool| && Distinct(pool)
    ensures Distinct(RemoveAt(pool, i))
    ensures forall x :: x in RemoveAt(pool, i) ==> x in pool && x != pool[i]
  {
    var rest := RemoveAt(pool, i);
    DistinctPairwise(pool);
    DistinctPairwise(rest);
    forall x | x in rest ensures x in pool && x != pool[i] {
      var k :| 0 <= k < |rest| && rest[k] == x;
      if k < i { assert pool[k] == x; } else { assert pool[k + 1] == x; }
    }
    forall a, b | 0 <= a < b < |rest| ensures rest[a] != rest[b] {
      var a' := if a < i then a else a + 1;
      var b' := if b < i then b else b + 1;
      assert rest[a] == pool[a'] && rest[b] == pool[b'];
    }
  }

  /**
   * Draws n elements of pool without replacement. The k-th draw picks position
   * picks(k) modulo the size of what is left of the pool.
   */
  function Sample(pool: seq<RouteId>, picks: nat -> nat, n: nat): (r: seq<RouteId>)
    requires n <= |pool|
    requires Distinct(pool)
    ensures |r| == n
    ensures Distinct(r)
    ensures forall x :: x in r ==> x in pool
    decreases n
  {
    if n == 0 then []
    else
      var i := picks(0) % |pool|;
      var rest := RemoveAt(pool, i);
      RemoveAtDistinct(pool, i);
      var tail := Sample(rest, k => picks(k + 1), n - 1);
      assert pool[i] !in tail;
      assert ([pool[i]] + tail)[1..] == tail;
      [pool[i]] + tail
  }

  /**
   * Draws size distinct identifiers of the catalog, failing as a sample without
   * replacement does: on an empty id list (unless nothing is asked for), on a
   * sample larger than the list, and on a negative size.
   */
  function InitializePopulation(cat: Catalog, size: int, picks: nat -> nat): (r: Result<seq<RouteId>>)
    ensures r.Ok? <==> 0 <= size <= |Ids(cat)|
    ensures r.Ok? ==> |r.value| == size && Distinct(r.value)
    ensures r.Ok? ==> forall x :: x in r.value ==> x in Ids(cat)
    ensures Ids(cat) == {} && size != 0 ==> r == Err(EmptyPool)
    ensures Ids(cat) != {} && size > |Ids(cat)| ==> r == Err(SampleLargerThanPool)
    ensures Ids(cat) != {} && size < 0 ==> r == Err(NegativeSampleSize)
  {
    var ids := UniqueIds(cat);
    if |ids| == 0 && size != 0 then Err(EmptyPool)
    else if size > |ids| then Err(SampleLargerThanPool)
    else if size < 0 then Err(NegativeSampleSize)
    else Ok(Sample(ids, picks, size))
  }
}

/** Ranking a population by fitness: the best member, and the two best as parents. */
module Selection {
  import opened Outcomes
  import opened Routes

  /** The fitness of each member, position by position. */
  function Scores(cat: Catalog, pop: seq<RouteId>): (s: seq<real>)
    ensures |s| == |pop|
    ensures forall i {:trigger s[i]} :: 0 <= i < |pop| ==> s[i] == Fitness(cat, pop[i])
  {
    if pop == [] then [] else [Fitness(cat, pop[0])] + Scores(cat, pop[1..])
  }

  /** Position k holds a largest score, and every earlier position a smaller one. */
  ghost predicate IsFirstMax(s: seq<real>, k: int) {
    && 0 <= k < |s|
    && (forall i :: 0 <= i < |s| ==> s[i] <= s[k])
    && (forall i :: 0 <= i < k ==> s[i] < s[k])
  }

  /** The position of the first largest score (an arg-max that keeps the first of equals). */
  function FirstMax(s: seq<real>): (k: nat)
    requires |s| > 0
    ensures k < |s|
  {
    if |s| == 1 then 0
    else
      var m := FirstMax(s[..|s| - 1]);
      if s[|s| - 1] > s[m] then |s| - 1 else m
  }

  /** FirstMax finds the first of the largest scores. */
  lemma {:induction false} FirstMaxIsFirst(s: seq<real>)
    requires |s| > 0
    ensures IsFirstMax(s, FirstMax(s))
  {
    if |s| > 1 {
      var init := s[..|s| - 1];
      FirstMaxIsFirst(init);
      var m := FirstMax(init);
      forall i | 0 <= i < |init| ensures s[i] == init[i] { }
    }
  }

  /**
   * i0 and i1 are the first two positions of a descending ranking that keeps
   * equal scores in their original order.
   */
  ghost predicate IsTopTwo(s: seq<real>, i0: int, i1: int) {
    && IsFirstMax(s, i0)
    && 0 <= i1 < |s| && i1 != i0
    && (forall k :: 0 <= k < |s| && k != i0 ==> s[k] <= s[i1])
    && (forall k :: 0 <= k < i1 && k != i0 ==> s[k] < s[i1])
  }

  /**
   * The positions of the best and second-best scores, found by one scan that
   * lets a later score displace an earlier one only when strictly larger.
   */
  function TopTwo(s: seq<real>): (p: (nat, nat))
    requires |s| >= 2
    ensures p.0 < |s| && p.1 < |s| && p.0 != p.1
  {
    if |s| == 2 then
      if s[1] > s[0] then (1, 0) else (0, 1)
    else
      var last := |s| - 1;
      var q := TopTwo(s[..last]);
      if s[last] > s[q.0] then (last, q.0)
      else if s[last] > s[q.1] then (q.0, last)
      else q
  }

  /** TopTwo finds the first two positions of the stable descending ranking. */
  lemma {:induction false} TopTwoRanks(s: seq<real>)
    requires |s| >= 2
    ensures IsTopTwo(s, TopTwo(s).0, TopTwo(s).1)
  {
    if |s| > 2 {
      var init := s[..|s| - 1];
      TopTwoRanks(init);
      forall i | 0 <= i < |init| ensures s[i] == init[i] { }
    }
  }

  /**
   * The two members of highest fitness, best first. A population of one
   * yields that one member; an empty population has no scores to rank.
   */
  function SelectParents(cat: Catalog, pop: seq<RouteId>): (r: Result<seq<RouteId>>)
    ensures r.Err? <==> pop == []
    ensures r.Err? ==> r.error == EmptyPopulation
    ensures |pop| == 1 ==> r == Ok(pop)
    ensures |pop| >= 2 ==> r.Ok? && |r.value| == 2 && r.value[0] in pop && r.value[1] in pop
  {
    if pop == [] then Err(EmptyPopulation)
    else if |pop| == 1 then Ok(pop)
    else
      var p := TopTwo(Scores(cat, pop));
      Ok([pop[p.0], pop[p.1]])
  }

  /** The parents of a population of two or more sit at the top two positions of the fitness ranking. */
  lemma ParentsAreTopTwo(cat: Catalog, pop: seq<RouteId>)
    requires |pop| >= 2
    ensures exists i0, i1 :: IsTopTwo(Scores(cat, pop), i0, i1) && SelectParents(cat, pop) == Ok([pop[i0], pop[i1]])
  {
    TopTwoRanks(Scores(cat, pop));
  }

  /** The parents outrank every other member, and the first outranks the second. */
  lemma {:induction false} ParentsOutrankTheRest(cat: Catalog, pop: seq<RouteId>, k: nat)
    requires |pop| >= 2 && k < |pop|
    ensures SelectParents(cat, pop).Ok?
    ensures var parents := SelectParents(cat, pop).value;
      && |parents| == 2 && parents[0] in pop && parents[1] in pop
      && Fitness(cat, parents[1]) <= Fitness(cat, parents[0])
      && Fitness(cat, pop[k]) <= Fitness(cat, parents[0])
      && (pop[k] == parents[0] || Fitness(cat, pop[k]) <= Fitness(cat, parents[1]))
  {
    var parents := SelectParents(cat, pop).value;
    var s := Scores(cat, pop);
    ParentsAreTopTwo(cat, pop);
    var i0, i1 :| IsTopTwo(s, i0, i1) && SelectParents(cat, pop) == Ok([pop[i0], pop[i1]]);
    if k != i0 {
      assert s[k] <= s[i1];
    }
  }
}

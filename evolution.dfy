/** The generation loop and the best route seen across generations. */
module Evolution {
  import opened Outcomes
  import opened Routes
  import opened Population
  import opened Selection
  import opened Reproduction

  /** Every member of pop is an identifier of the catalog. */
  predicate InCatalog(cat: Catalog, pop: seq<RouteId>) {
    forall x {:trigger x in pop} :: x in pop ==> x in Ids(cat)
  }

  /** The random draws one generation consumes, child by child. */
  datatype Draws = Draws(cross1: real, mutate1: real, pick1: nat, cross2: real, mutate2: real, pick2: nat)

  /**
   * One generation: the two best members become parents, each parent order
   * gives one child by crossover then mutation at MutationRate, and the next
   * population is the parents followed by the two children.
   */
  function NextGeneration(cat: Catalog, pop: seq<RouteId>, d: Draws): (r: Result<seq<RouteId>>)
    ensures pop == [] ==> r == Err(EmptyPopulation)
    ensures |pop| == 1 ==> r == Err(MissingSecondParent)
    ensures |pop| >= 2 && (Ids(cat) != {} || (d.mutate1 >= MutationRate && d.mutate2 >= MutationRate)) ==> r.Ok?
    ensures |pop| >= 2 && Ids(cat) == {} && (d.mutate1 < MutationRate || d.mutate2 < MutationRate) ==> r == Err(EmptyPool)
    ensures r.Ok? ==> |r.value| == 4 && r.value[..2] == SelectParents(cat, pop).value
    ensures r.Ok? && d.mutate1 >= MutationRate ==> r.value[2] == (if d.cross1 > 0.5 then r.value[0] else r.value[1])
    ensures r.Ok? && d.mutate2 >= MutationRate ==> r.value[3] == (if d.cross2 > 0.5 then r.value[1] else r.value[0])
    ensures r.Ok? && d.mutate1 < MutationRate ==> r.value[2] in Ids(cat)
    ensures r.Ok? && d.mutate2 < MutationRate ==> r.value[3] in Ids(cat)
  {
    match SelectParents(cat, pop)
    case Err(e) => Err(e)
    case Ok(parents) =>
      if |parents| < 2 then Err(MissingSecondParent)
      else
        var c1 := Mutate(cat, Crossover(parents[0], parents[1], d.cross1), MutationRate, d.mutate1, d.pick1);
        var c2 := Mutate(cat, Crossover(parents[1], parents[0], d.cross2), MutationRate, d.mutate2, d.pick2);
        if c1.Err? then Err(c1.error)
        else if c2.Err? then Err(c2.error)
        else
          var next := [parents[0], parents[1], c1.value, c2.value];
          assert next[..2] == parents;
          Ok(next)
  }

  /** A generation bred from catalog identifiers holds only catalog identifiers. */
  lemma NextGenerationInCatalog(cat: Catalog, pop: seq<RouteId>, d: Draws)
    requires InCatalog(cat, pop)
    ensures NextGeneration(cat, pop, d).Ok? ==> InCatalog(cat, NextGeneration(cat, pop, d).value)
  {
    var r := NextGeneration(cat, pop, d);
    if r.Ok? {
      var parents := SelectParents(cat, pop).value;
      assert r.value[0] == parents[0] && r.value[1] == parents[1];
    }
  }

  /** The populations formed by the generations of a run, and the failure that ended it early, if any. */
  datatype Run = Run(trace: seq<seq<RouteId>>, failure: Option<Error>)

  /** How one generation turns a population and its draws into the next population. */
  type Step = (seq<RouteId>, Draws) -> Result<seq<RouteId>>

  /** The generation step of the optimizer over a catalog. */
  function Breed(cat: Catalog): Step {
    (pop, d) => NextGeneration(cat, pop, d)
  }

  /** The population a run continues from. */
  function Last(init: seq<RouteId>, trace: seq<seq<RouteId>>): seq<RouteId> {
    if trace == [] then init else trace[|trace| - 1]
  }

  /**
   * Up to n generations of step from init, with draws(g) used by generation g;
   * the first failure stops the run.
   */
  function Generations(step: Step, init: seq<RouteId>, draws: nat -> Draws, n: nat): (run: Run)
    ensures |run.trace| <= n
    ensures run.failure.None? <==> |run.trace| == n
  {
    if n == 0 then Run([], None)
    else
      var prev := Generations(step, init, draws, n - 1);
      if prev.failure.Some? then prev
      else
        match step(Last(init, prev.trace), draws(n - 1))
        case Err(e) => Run(prev.trace, Some(e))
        case Ok(next) => Run(prev.trace + [next], None)
  }

  /**
   * Proof aid, modelling nothing of its own: a run that has not failed after g
   * generations grows by the outcome of one more step.
   */
  lemma GenerationsExtend(step: Step, init: seq<RouteId>, draws: nat -> Draws, g: nat)
    requires Generations(step, init, draws, g).failure.None?
    ensures var trace := Generations(step, init, draws, g).trace;
      Generations(step, init, draws, g + 1) ==
        match step(Last(init, trace), draws(g))
        case Err(e) => Run(trace, Some(e))
        case Ok(next) => Run(trace + [next], None)
  {
  }

  /** A run of the optimizer that has not failed after g generations grows by a successful NextGeneration. */
  lemma BreedGrows(cat: Catalog, init: seq<RouteId>, draws: nat -> Draws, g: nat, trace: seq<seq<RouteId>>, next: seq<RouteId>)
    requires Generations(Breed(cat), init, draws, g) == Run(trace, None)
    requires NextGeneration(cat, Last(init, trace), draws(g)) == Ok(next)
    ensures Generations(Breed(cat), init, draws, g + 1) == Run(trace + [next], None)
  {
    GenerationsExtend(Breed(cat), init, draws, g);
    assert Breed(cat)(Last(init, trace), draws(g)) == Ok(next);
  }

  /**
   * Generation g of a run of n generations starts from the population formed by
   * the generations before it: it forms the next entry of the trace, or, when the
   * trace ends there, its failure is the failure of the run.
   */
  lemma {:induction false} GenerationsAt(step: Step, init: seq<RouteId>, draws: nat -> Draws, g: nat, n: nat)
    requires g < n && g <= |Generations(step, init, draws, n).trace|
    ensures var run := Generations(step, init, draws, n);
      var outcome := step(Last(init, run.trace[..g]), draws(g));
      if g < |run.trace| then outcome == Ok(run.trace[g])
      else outcome.Err? && run.failure == Some(outcome.error)
    decreases n
  {
    var run := Generations(step, init, draws, n);
    var prev := Generations(step, init, draws, n - 1);
    if g == n - 1 {
      assert prev.failure.None? && run.trace[..g] == prev.trace;
    } else {
      GenerationsAt(step, init, draws, g, n - 1);
      if g < |prev.trace| {
        assert run.trace[..g] == prev.trace[..g] && run.trace[g] == prev.trace[g];
      }
    }
  }

  /** Proof aid for the generations loop: one more population extends the prefix of a trace. */
  lemma TakeOneMore(trace: seq<seq<RouteId>>, g: nat)
    requires g < |trace|
    ensures trace[..g + 1] == trace[..g] + [trace[g]]
  {
  }

  /** Proof aid for the generations loop: appending a trace and then one more population is appending the grown trace. */
  lemma AppendGrown(h: seq<seq<RouteId>>, trace: seq<seq<RouteId>>, p: seq<RouteId>)
    ensures (h + trace) + [p] == h + (trace + [p])
  {
  }

  /**
   * Seeded with at least two catalog identifiers, a run of the optimizer never
   * fails, and every population it forms has four catalog identifiers.
   */
  lemma {:induction false} GenerationsSucceed(cat: Catalog, init: seq<RouteId>, draws: nat -> Draws, n: nat)
    requires |init| >= 2 && InCatalog(cat, init)
    ensures Generations(Breed(cat), init, draws, n).failure.None?
    ensures var trace := Generations(Breed(cat), init, draws, n).trace;
      forall g :: 0 <= g < |trace| ==> |trace[g]| == 4 && InCatalog(cat, trace[g])
  {
    if n > 0 {
      GenerationsSucceed(cat, init, draws, n - 1);
      var prev := Generations(Breed(cat), init, draws, n - 1);
      var last := Last(init, prev.trace);
      assert |last| >= 2 && InCatalog(cat, last) by {
        if prev.trace != [] {
          assert last == prev.trace[|prev.trace| - 1];
        }
      }
      assert init[0] in init;
      var next := NextGeneration(cat, last, draws(n - 1));
      NextGenerationInCatalog(cat, last, draws(n - 1));
      BreedGrows(cat, init, draws, n - 1, prev.trace, next.value);
      var trace := prev.trace + [next.value];
      forall g | 0 <= g < |trace| ensures |trace[g]| == 4 && InCatalog(cat, trace[g]) {
        if g < |prev.trace| {
          assert trace[g] == prev.trace[g];
        }
      }
    }
  }

  /** A best score, where NegInf is the starting value of minus infinity. */
  datatype Score = NegInf | Finite(value: real)

  /** A fitness x is strictly better than the score b. */
  predicate Exceeds(x: real, b: Score) {
    b.NegInf? || x > b.value
  }

  /** The score b is finite and no lower than the fitness x. */
  predicate Covers(b: Score, x: real) {
    b.Finite? && x <= b.value
  }

  /** The score b is no lower than the score a. */
  predicate NoLower(b: Score, a: Score) {
    a.NegInf? || Covers(b, a.value)
  }

  /** The best route and the best score the optimizer holds between generations. */
  datatype Best = Best(route: Option<RouteId>, score: Score)

  /** The member a population proposes as best: the first of highest fitness. */
  function Candidate(cat: Catalog, pop: seq<RouteId>): (c: RouteId)
    requires |pop| > 0
    ensures c in pop
  {
    pop[FirstMax(Scores(cat, pop))]
  }

  /** The candidate is at least as fit as every member, and strictly fitter than every member before it. */
  lemma CandidateIsFirstBest(cat: Catalog, pop: seq<RouteId>)
    requires |pop| > 0
    ensures exists k :: (
      && 0 <= k < |pop| && pop[k] == Candidate(cat, pop)
      && (forall i :: 0 <= i < |pop| ==> Fitness(cat, pop[i]) <= Fitness(cat, pop[k]))
      && (forall i :: 0 <= i < k ==> Fitness(cat, pop[i]) < Fitness(cat, pop[k])))
  {
    var s := Scores(cat, pop);
    FirstMaxIsFirst(s);
    var k := FirstMax(s);
    assert forall i :: 0 <= i < |pop| ==> s[i] == Fitness(cat, pop[i]);
  }

  /**
   * The best after one more generation: the population's candidate replaces the
   * best only when its fitness is strictly better. An empty population, which no
   * generation forms, changes nothing.
   */
  function Update(cat: Catalog, b: Best, pop: seq<RouteId>): Best {
    if pop == [] then b
    else
      var c := Candidate(cat, pop);
      if Exceeds(Fitness(cat, c), b.score) then Best(Some(c), Finite(Fitness(cat, c))) else b
  }

  /** The best after the populations of trace, generation by generation, starting from b. */
  function BestAfter(cat: Catalog, b: Best, trace: seq<seq<RouteId>>): (r: Best)
    ensures NoLower(r.score, b.score)
    ensures r.route != b.route ==> r.score.Finite? && Exceeds(r.score.value, b.score)
  {
    if trace == [] then b
    else Update(cat, BestAfter(cat, b, trace[..|trace| - 1]), trace[|trace| - 1])
  }

  /**
   * After an update by a non-empty population, the best score covers the
   * fitness of every member and is no lower than before. Either nothing
   * changed, or the new best route is a member that is strictly better than
   * the old score and scores its own fitness.
   */
  lemma UpdateCoversPopulation(cat: Catalog, b: Best, pop: seq<RouteId>)
    requires |pop| > 0
    ensures NoLower(Update(cat, b, pop).score, b.score)
    ensures forall x :: x in pop ==> Covers(Update(cat, b, pop).score, Fitness(cat, x))
    ensures var r := Update(cat, b, pop);
      || r == b
      || (&& r.route.Some? && r.route.value in pop
          && r.score == Finite(Fitness(cat, r.route.value))
          && Exceeds(r.score.value, b.score))
  {
    CandidateIsFirstBest(cat, pop);
  }

  /**
   * Proof aid for the generations loop, modelling nothing of its own: folding
   * in one more population is one more Update.
   */
  lemma BestAfterAppend(cat: Catalog, b: Best, trace: seq<seq<RouteId>>, pop: seq<RouteId>)
    ensures BestAfter(cat, b, trace + [pop]) == Update(cat, BestAfter(cat, b, trace), pop)
  {
    assert (trace + [pop])[..|trace|] == trace;
  }

  /** The optimizer: its configuration, and the best route found over all generations it has run. */
  class GeneticAlgorithm {
    const catalog: Catalog
    const popSize: int
    const generations: int
    var bestRoute: Option<RouteId>
    var bestScore: Score
    /** The populations formed by every generation run so far. */
    ghost var history: seq<seq<RouteId>>

    ghost predicate Valid()
      reads this
    {
      && (bestRoute.None? <==> bestScore.NegInf?)
      && (bestRoute.Some? ==>
            && bestScore == Finite(Fitness(catalog, bestRoute.value))
            && exists i :: 0 <= i < |history| && bestRoute.value in history[i])
      && (forall i :: 0 <= i < |history| ==> |history[i]| == 4 && InCatalog(catalog, history[i]))
      && (forall i, x :: 0 <= i < |history| && x in history[i] ==> Covers(bestScore, Fitness(catalog, x)))
    }

    constructor (catalog: Catalog, popSize: int, generations: int)
      ensures Valid()
      ensures this.catalog == catalog && this.popSize == popSize && this.generations == generations
      ensures bestRoute == None && bestScore == NegInf && history == []
    {
      this.catalog := catalog;
      this.popSize := popSize;
      this.generations := generations;
      bestRoute := None;
      bestScore := NegInf;
      history := [];
    }

    /**
     * Takes the first member of highest fitness in a generation's population as
     * its candidate, and makes it the best route when it is strictly better.
     */
    method Record(population: seq<RouteId>)
      requires Valid() && |population| == 4 && InCatalog(catalog, population)
      modifies this
      ensures Valid()
      ensures history == old(history) + [population]
      ensures var c := Candidate(catalog, population);
        if Exceeds(Fitness(catalog, c), old(bestScore))
        then bestRoute == Some(c) && bestScore == Finite(Fitness(catalog, c))
        else bestRoute == old(bestRoute) && bestScore == old(bestScore)
      ensures NoLower(bestScore, old(bestScore))
      ensures bestRoute != old(bestRoute) ==> bestScore.Finite? && Exceeds(bestScore.value, old(bestScore))
    {
      var best := Candidate(catalog, population);
      var bestFitness := Fitness(catalog, best);
      CandidateIsFirstBest(catalog, population);
      forall x | x in population ensures Fitness(catalog, x) <= bestFitness {
        var i :| 0 <= i < |population| && population[i] == x;
      }
      ghost var was := bestScore;
      if Exceeds(bestFitness, bestScore) {
        bestScore := Finite(bestFitness);
        bestRoute := Some(best);
      }
      assert NoLower(bestScore, was) && Covers(bestScore, bestFitness);
      history := history + [population];
      forall i | 0 <= i < |history|
        ensures |history[i]| == 4 && InCatalog(catalog, history[i])
        ensures forall x :: x in history[i] ==> Covers(bestScore, Fitness(catalog, x))
      {
        if i < |history| - 1 {
          assert history[i] == old(history)[i];
        }
      }
      if bestRoute == old(bestRoute) && bestRoute.Some? {
        var i :| 0 <= i < |old(history)| && bestRoute.value in old(history)[i];
        assert history[i] == old(history)[i];
      } else if bestRoute.Some? {
        assert bestRoute.value in history[|history| - 1];
      }
    }

    /**
     * One pass of the generations loop: breeds the next population from the
     * current one and records its best member.
     */
    method Generation(population: seq<RouteId>, d: Draws) returns (next: Result<seq<RouteId>>)
      requires Valid() && InCatalog(catalog, population)
      modifies this
      ensures Valid()
      ensures next == NextGeneration(catalog, population, d)
      ensures next.Err? ==> bestRoute == old(bestRoute) && bestScore == old(bestScore) && history == old(history)
      ensures next.Ok? ==> history == old(history) + [next.value] && InCatalog(catalog, next.value) && bestRoute.Some?
      ensures next.Ok? ==> Best(bestRoute, bestScore) == Update(catalog, Best(old(bestRoute), old(bestScore)), next.value)
      ensures NoLower(bestScore, old(bestScore))
      ensures bestRoute != old(bestRoute) ==> bestScore.Finite? && Exceeds(bestScore.value, old(bestScore))
    {
      next := NextGeneration(catalog, population, d);
      if next.Ok? {
        NextGenerationInCatalog(catalog, population, d);
        Record(next.value);
      }
    }

    /**
     * Seeds a population of popSize, runs the configured number of generations
     * and returns the best route found so far.
     */
    method Construct(seedPicks: nat -> nat, draws: nat -> Draws) returns (r: Result<Option<RouteId>>)
      requires Valid()
      modifies this
      ensures Valid()
      ensures NoLower(bestScore, old(bestScore))
      ensures bestRoute != old(bestRoute) ==> bestScore.Finite? && Exceeds(bestScore.value, old(bestScore))
      ensures var init := InitializePopulation(catalog, popSize, seedPicks);
        init.Err? ==>
          && r == Err(init.error) && history == old(history)
          && bestRoute == old(bestRoute) && bestScore == old(bestScore)
      ensures var init := InitializePopulation(catalog, popSize, seedPicks);
        init.Ok? ==>
          var run := Generations(Breed(catalog), init.value, draws, if generations < 0 then 0 else generations);
          && history == old(history) + run.trace
          && Best(bestRoute, bestScore) == BestAfter(catalog, Best(old(bestRoute), old(bestScore)), run.trace)
          && r == if run.failure.Some? then Err(run.failure.value) else Ok(bestRoute)
      ensures 2 <= popSize <= |Ids(catalog)| ==> r.Ok?
      ensures r.Ok? && generations >= 1 ==> bestRoute.Some?
    {
      var init := InitializePopulation(catalog, popSize, seedPicks);
      if init.Err? {
        r := Err(init.error);
      } else {
        r := Evolve(init.value, draws);
        if |init.value| >= 2 {
          GenerationsSucceed(catalog, init.value, draws, if generations < 0 then 0 else generations);
        }
      }
    }

    /**
     * The generations loop: breeds the next population from the current one,
     * and keeps the best route seen, for the configured number of generations.
     */
    method Evolve(init: seq<RouteId>, draws: nat -> Draws) returns (r: Result<Option<RouteId>>)
      requires Valid() && InCatalog(catalog, init)
      modifies this
      ensures Valid()
      ensures NoLower(bestScore, old(bestScore))
      ensures bestRoute != old(bestRoute) ==> bestScore.Finite? && Exceeds(bestScore.value, old(bestScore))
      ensures var run := Generations(Breed(catalog), init, draws, if generations < 0 then 0 else generations);
        && history == old(history) + run.trace
        && Best(bestRoute, bestScore) == BestAfter(catalog, Best(old(bestRoute), old(bestScore)), run.trace)
        && r == if run.failure.Some? then Err(run.failure.value) else Ok(bestRoute)
      ensures r.Ok? && generations >= 1 ==> bestRoute.Some?
    {
      var n: nat := if generations < 0 then 0 else generations;
      ghost var run := Generations(Breed(catalog), init, draws, n);
      var population := init;
      ghost var trace: seq<seq<RouteId>> := [];
      var failure: Option<Error> := None;
      var g: nat := 0;
      while g < n && failure.None?
        invariant g <= n
        invariant Valid()
        invariant history == old(history) + trace
        invariant Best(bestRoute, bestScore) == BestAfter(catalog, Best(old(bestRoute), old(bestScore)), trace)
        invariant failure.None? ==> g <= |run.trace| && trace == run.trace[..g]
        invariant failure.Some? ==> trace == run.trace && failure == run.failure
        invariant population == Last(init, trace)
        invariant InCatalog(catalog, population)
        invariant g > 0 && failure.None? ==> bestRoute.Some?
      {
        GenerationsAt(Breed(catalog), init, draws, g, n);
        var next := Generation(population, draws(g));
        assert Breed(catalog)(population, draws(g)) == next;
        if next.Err? {
          failure := Some(next.error);
        } else {
          assert g < |run.trace| && next.value == run.trace[g];
          population := next.value;
          TakeOneMore(run.trace, g);
          AppendGrown(old(history), trace, population);
          BestAfterAppend(catalog, Best(old(bestRoute), old(bestScore)), trace, population);
          trace := trace + [population];
        }
        g := g + 1;
      }
      assert trace == run.trace by {
        if failure.None? {
          assert run.trace[..|run.trace|] == run.trace;
        }
      }
      r := if failure.Some? then Err(failure.value) else Ok(bestRoute);
    }
  }
}

# Genetic route optimizer

A Dafny model of the genetic-algorithm core of the route optimizer in
`GA/GA.py`. The optimizer has a fixed table of candidate routes. The
fitness of a route is speed times traffic times weather impact, divided by
distance. The search seeds a population of distinct route identifiers.
Each generation it keeps the two fittest members as parents. It breeds two
children by crossover and mutation. The next population is the two parents
followed by the two children. Across generations it keeps the best route
seen and its score.

The model has six modules:

- `Routes` (`routes.dfy`): the route table as a sequence of rows, the
  first-match lookup, the fitness of an identifier, and the table's
  distinct identifiers in order of first appearance.
- `Population` (`population.dfy`): the seeding draw without replacement,
  with the failures of a sample without replacement.
- `Selection` (`selection.dfy`): the scores of a population, the first
  arg-max, and the two best members under a stable descending ranking.
- `Reproduction` (`reproduction.dfy`): crossover and mutation.
- `Evolution` (`evolution.dfy`): one generation, a run of generations as a
  function of the draws, and the class `GeneticAlgorithm`. The class keeps
  `bestRoute` and `bestScore` as fields updated in place. Its `Construct`
  method runs the generations loop.
- `Outcomes` (`outcomes.dfy`): `Option`, `Result` and the failures a run
  can raise.

Randomness is a parameter. Each `random.random()` call becomes a `real`
draw. Each pick of `np.random.choice` becomes a `nat` taken modulo the size
of the pool. Seeding reads its picks from a stream `nat -> nat`.
Generation `g` reads its six draws from `draws(g)`. Every contract holds
for every possible draw.

Three facts about the code shape the model:

- The code has no guard for a row with a non-positive distance: it divides
  by that distance. The model asks for positive distances (the `Catalog`
  type).
- The code has no "no viable route" outcome. The starting best score is
  minus infinity. So the first generation always sets a best route, even when
  its fitness is 0 (`Record`, `Construct`).
- The code validates no configuration up front. A negative number of
  generations runs no generation. A population of fewer than two fails
  only when the first generation selects parents: `EmptyPopulation` when
  there are no scores to stack, `MissingSecondParent` when the second
  parent is read.

## Model

| member | source | states |
|---|---|---|
| Routes.Lookup | GA/GA.py:15-17 | The lookup finds no row exactly when the identifier is not in the table. When it finds one, that row is in the table and carries the identifier. |
| Routes.LookupFindsFirst | GA/GA.py:15-20 | When several rows carry the identifier, the lookup returns the first of them. |
| Routes.Fitness | GA/GA.py:14-25 | An identifier with no row scores exactly 0. Otherwise it scores speed × traffic × weather / distance of its first row. |
| Routes.UniqueIds | GA/GA.py:28 | The table's identifiers without repeats: exactly the identifiers of the table, each once. |
| Routes.DistinctPairwise | GA/GA.py:28 | A list has no repeats exactly when no two positions hold the same identifier (both directions). |
| Population.Sample | GA/GA.py:28 | A draw of n from a pool without repeats gives n pairwise-distinct members of the pool, whatever the picks. |
| Population.InitializePopulation | GA/GA.py:27-28 | Seeding succeeds exactly when 0 <= size <= the number of distinct identifiers. It then gives size distinct catalog identifiers. It fails on an empty pool with a non-zero size, on a size above the pool, and on a negative size, in that order. |
| Selection.Scores | GA/GA.py:31 | One score per member, in order: position i holds the fitness of member i. |
| Selection.FirstMax | GA/GA.py:62 | The arg-max is a position of the scores. |
| Selection.FirstMaxIsFirst | GA/GA.py:62 | The arg-max holds a largest score, and every earlier position holds a strictly smaller one: the first of equal maxima wins. |
| Selection.TopTwo | GA/GA.py:32-33 | The first two positions of the descending ranking are two different positions of the scores. |
| Selection.TopTwoRanks | GA/GA.py:32-33 | The first position is the first maximum. The second holds the largest score among the others, and is the first such among the others. |
| Selection.SelectParents | GA/GA.py:30-33 | Selection fails exactly on an empty population. One member gives that one member. Two or more give two members of the population. |
| Selection.ParentsAreTopTwo | GA/GA.py:30-33 | For two or more members, the parents are the members at the top two positions of the stable fitness ranking. |
| Selection.ParentsOutrankTheRest | GA/GA.py:30-33 | The first parent is at least as fit as the second. The first parent is at least as fit as every member. Every member other than the first parent is no fitter than the second. |
| Reproduction.Crossover | GA/GA.py:35-36 | The child is one of the two parents. For different parents, it is the first exactly when the draw exceeds 0.5. |
| Reproduction.Mutate | GA/GA.py:38-41 | A draw at or above the rate keeps the child; a rate of 0 never replaces it. A replacement is a catalog identifier. Mutation fails, with EmptyPool, exactly when it fires on a table with no identifiers. |
| Reproduction.MutateReachesEveryId | GA/GA.py:38-41 | A mutation that fires can yield every identifier of the table for some pick. |
| Evolution.NextGeneration | GA/GA.py:55-60 | A generation fails on an empty population and on a single member. On two or more members it fails, with EmptyPool, exactly when a mutation fires on a table with no identifiers. The next population has 4 members: the two parents in order, then two children. The first child is the first parent when its crossover draw exceeds 0.5 and the second parent otherwise; the second child takes the parents in swapped order. A child whose mutation draw is at or above 0.3 is that crossover result; below 0.3 it is a catalog identifier. |
| Evolution.NextGenerationInCatalog | GA/GA.py:55-60 | A generation bred from catalog identifiers holds only catalog identifiers. |
| Evolution.Generations | GA/GA.py:54-60 | A run of n generations forms at most n populations. It stops short of n exactly when a generation fails. |
| Evolution.GenerationsAt | GA/GA.py:54-60 | Generation g continues from the population that the generations before it formed. Either it forms the g-th population of the run, or its failure is the run's failure. |
| Evolution.GenerationsSucceed | GA/GA.py:52-60 | Seeded with at least two catalog identifiers, a run never fails. Every population it forms holds 4 catalog identifiers. |
| Evolution.Candidate | GA/GA.py:62-63 | The candidate of a population is one of its members. |
| Evolution.CandidateIsFirstBest | GA/GA.py:62-63 | The candidate is at least as fit as every member and strictly fitter than every member before it: the first member of highest fitness. |
| Evolution.BestAfter | GA/GA.py:62-68 | Folding the best-so-far update over the populations of a run never lowers the best score. A changed best route comes with a strictly better finite score. |
| Evolution.UpdateCoversPopulation | GA/GA.py:62-68 | After one generation's update, the best score is no lower than before and at least the fitness of every member. Either the best is unchanged, or the new best route is a member, strictly better than the old score, and scored by its own fitness. |
| Evolution.GeneticAlgorithm.constructor | GA/GA.py:44-49 | The configuration is stored. There is no best route yet, and the best score is minus infinity. |
| Evolution.GeneticAlgorithm.Record | GA/GA.py:62-68 | The candidate is the first member of highest fitness. It becomes the best route, with its fitness as the score, exactly when it is strictly better than the old best score. The best score never decreases, and the class invariant is kept. |
| Evolution.GeneticAlgorithm.Generation | GA/GA.py:55-68 | One pass of the loop yields NextGeneration of the population. On success it records the new population, the best becomes Update of the old best by that population, and a best route exists afterwards. On failure nothing changes. |
| Evolution.GeneticAlgorithm.Evolve | GA/GA.py:54-70 | The loop forms exactly the populations of Generations, and fails with its failure. The best route and score are BestAfter the old ones over those populations. Otherwise it returns the best route. The best score never decreases, and the class invariant is kept. |
| Evolution.GeneticAlgorithm.Construct | GA/GA.py:51-70 | Seeding failures end the call with nothing changed. Otherwise the run is Generations from the seeded population, and the best route and score are BestAfter the old ones over its populations. A population size between 2 and the number of identifiers never fails. A run of one or more generations that succeeds leaves a best route. The best score never decreases. |

The class invariant `Valid` of `GeneticAlgorithm` says four things:

- A best route exists exactly when the best score is finite.
- The best score is the fitness of the best route.
- The best route belongs to some population formed so far.
- Every population formed so far has 4 catalog identifiers, none fitter
  than the best score.

## Left out

- Loading the route table from a CSV file is file I/O. The table is a value
  passed to the class constructor.
- MindSpore `Tensor` and `float32` arithmetic are modelled as exact `real`
  arithmetic. Rounding, infinities and NaN are not modelled.
- Routes.Fitness: rows with a distance of 0 or less are excluded by the
  `Catalog` type. In the code such a row divides by zero or flips the sign
  of the score.
- The random generators are not modelled. The model uses explicit draws
  instead. `Population.Sample` draws by position modulo the size of the
  remaining pool. That is one concrete way to sample without replacement,
  not numpy's own permutation algorithm. The contracts state only what
  holds for every draw.
- Selection.TopTwo: the model breaks ties in the descending argsort in
  favour of the earlier position. The tie order of MindSpore's `argsort` is
  not part of this model.
- The `nn.Cell` base class of `GeneticAlgorithm` is not part of this model.
- The driver at the end of the module and its printing are not part of this
  model. Neither are the road-network path and the map written to HTML.
- Route identifiers are strings. Any comparable identifier type would do.

# Dominating-set genetic algorithm, modelled in Dafny

This project models the core of a genetic algorithm for the minimum dominating
set problem. It covers:

- **The data.** A chromosome (`Individual`) is a sequence of 0/1 genes, one per
  vertex. A `Population` is a bounded list of individuals with a "sorted" flag.
  An undirected `Graph` is a sequence of adjacency sets.
- **The operators.**
  - The fitness evaluator: minus the set size, minus a penalty for each
    undominated vertex.
  - Single-point, random-point, two-point and uniform crossover.
  - Bit-flip, all-genes and swap mutation.
  - Elite, random-parent, two-parent and tournament selection.
- **The engine.** The generation loop keeps the elite and breeds the rest. It
  sorts the population and records the best-ever individual, the fitness
  history and the convergence generation.
- **The graph generators.** Complete, path, cycle, star, grid, the fixed
  10-vertex sample, and a graph built from an adjacency matrix.

The Java objects are mutable. In the model they are immutable values, and every
mutating method returns the updated value. An exception the Java code throws
becomes an `Err` of the `Result` type in `Wrappers`, with one `Error`
constructor per distinct condition. A random draw is an explicit parameter:

- an index `nextInt(bound)` is a natural number reduced modulo the bound (`Draws.Pick`);
- a trial `nextDouble() < p` is a boolean;
- a do-while "redraw until different" loop reads a sequence of draws (`Draws.Redraw`).

Every property therefore holds for every outcome of the generator.

Fitness is `NegInf` (the `Double.NEGATIVE_INFINITY` of an unevaluated
individual) or a finite integer. The comparisons are `Better` (Java `>`) and
`AtLeast` (not worse). Sorting is `Collections.sort` with a best-first
comparator, which is a stable sort. It is modelled as stable insertion sort.
Its contract says the result is non-increasing, is a permutation, and keeps the
relative order of equal-fitness members. `Populations.StableSortUnique` shows
that these three facts determine the result completely.

Each generator is a fold of `addEdge` over its edge list, in the source's loop
order (`Generators.BuildFrom`). Its contract gives the exact adjacency of every
vertex and the exact edge count.

## Model

| member | source | states |
|---|---|---|
| Individuals.RandomIndividual | src/com/genetic/dominatingset/model/Individual.java:38-48 | a random chromosome has the requested length and only 0/1 genes; gene i is 1 exactly when coin i came up; it starts unevaluated with fitness -infinity |
| Individuals.SetGene | src/com/genetic/dominatingset/model/Individual.java:75-84 | a value other than 0 or 1 is rejected; otherwise only gene i changes, and the cached evaluation is dropped exactly when the gene really changed |
| Individuals.FlipGene | src/com/genetic/dominatingset/model/Individual.java:91-94 | flipping changes gene i to its complement, leaves every other gene alone, keeps genes binary and marks the individual for re-evaluation |
| Individuals.FlipTwice | src/com/genetic/dominatingset/model/Individual.java:91-94 | flipping the same gene twice restores the chromosome |
| Individuals.HammingOfFlip | src/com/genetic/dominatingset/model/Individual.java:91-94 | a flip moves the chromosome by exactly one position |
| Individuals.DominatingSet | src/com/genetic/dominatingset/model/Individual.java:169-179 | the selected set holds exactly the vertices whose gene is 1 |
| Individuals.DominatingSetSize | src/com/genetic/dominatingset/model/Individual.java:156-162 | for a binary chromosome, counting 1-genes gives the size of the selected set, which lies between 0 and the vertex count |
| Individuals.SumCountsSet | src/com/genetic/dominatingset/model/Individual.java:156-162 | the sum of a binary chromosome equals the cardinality of the vertex set it encodes |
| Individuals.Copy | src/com/genetic/dominatingset/model/Individual.java:186-192 | a copy carries the same genes, fitness and evaluation flags as the original |
| Individuals.CompareTo | src/com/genetic/dominatingset/model/Individual.java:202-205 | the comparison returns -1, 0 or 1; it is negative exactly when the first is fitter, positive exactly when the second is fitter, and zero exactly when the fitnesses are equal |
| Individuals.CompareAntisymmetric | src/com/genetic/dominatingset/model/Individual.java:202-205 | swapping the arguments negates the comparison, as `Comparable` requires |
| Individuals.Equals | src/com/genetic/dominatingset/model/Individual.java:234-240 | two individuals are equal exactly when their chromosomes agree position by position |
| Individuals.EqualsIgnoresFitness | src/com/genetic/dominatingset/model/Individual.java:234-240 | equality does not depend on fitness or the evaluation flags, and a copy equals its original |
| Draws.Redraw | src/com/genetic/dominatingset/algorithm/SelectionOperator.java:83-100 | the redraw loop ends on the first draw that differs from the excluded index, and the result is in range and differs from it |
| Draws.CyclingSupplies | src/com/genetic/dominatingset/algorithm/SelectionOperator.java:83-100 | with two or more indices, some sequence of draws always lets the redraw loop end |
| Populations.New | src/com/genetic/dominatingset/model/Population.java:24-32 | a non-positive capacity is rejected; otherwise the population is empty, unsorted and has that capacity |
| Populations.RandomPopulation | src/com/genetic/dominatingset/model/Population.java:41-47 | the population is full, and member i is the random individual built from coin row i |
| Populations.Add | src/com/genetic/dominatingset/model/Population.java:55-62 | adding to a full population fails; otherwise the individual is appended after the unchanged members and the sorted flag is cleared |
| Populations.SetMember | src/com/genetic/dominatingset/model/Population.java:80-83 | only position i is replaced, the size is kept and the sorted flag is cleared |
| Populations.Clear | src/com/genetic/dominatingset/model/Population.java:231-234 | clearing empties the population, keeps its capacity and leaves it able to accept members |
| Populations.FullIffAddFails | src/com/genetic/dominatingset/model/Population.java:250-252 | a population is full exactly when it holds capacity members, which is exactly when adding fails |
| Populations.SortMembers | src/com/genetic/dominatingset/model/Population.java:115-118 | the sort yields a best-first permutation of the members that keeps the relative order of equal-fitness members |
| Populations.SortByFitness | src/com/genetic/dominatingset/model/Population.java:115-118 | sorting produces a best-first, stable permutation of the members and sets the sorted flag |
| Populations.StableSortUnique | src/com/genetic/dominatingset/model/Population.java:115-118 | any two best-first sequences with the same members in each fitness group are equal, so a stable sort's result is determined by its input |
| Populations.SortKeepsLeader | src/com/genetic/dominatingset/model/Population.java:115-118 | a first member at least as fit as all others stays first after sorting |
| Populations.GetBest | src/com/genetic/dominatingset/model/Population.java:134-144 | an empty population is rejected; otherwise the result is a member at least as fit as every member, and it heads the population, which is sorted if needed with a stable sort that keeps equally fit members in their old order |
| Populations.GetWorst | src/com/genetic/dominatingset/model/Population.java:151-161 | an empty population is rejected; otherwise the result is the last member of the population, sorted stably if needed, and no fitter than any member |
| Populations.CopyPopulation | src/com/genetic/dominatingset/model/Population.java:270-279 | re-adding every member into a fresh population of the same capacity yields an equal population, flag included |
| Graphs.New | src/com/genetic/dominatingset/model/Graph.java:26-39 | a non-positive vertex count is rejected; otherwise the graph has that many isolated vertices and no edges |
| Graphs.ValidateVertex | src/com/genetic/dominatingset/model/Graph.java:124-130 | a vertex is accepted exactly when it lies in range, and the error names the vertex |
| Graphs.AddEdge | src/com/genetic/dominatingset/model/Graph.java:48-62 | out-of-range endpoints (first u, then v) and self-loops are rejected; otherwise both endpoints see each other, nothing else changes, and the edge count grows by one exactly when the edge was new |
| Graphs.Neighbors | src/com/genetic/dominatingset/model/Graph.java:71-74 | the neighbours of an in-range vertex are in-range vertices other than itself, and each of them lists it back |
| Graphs.Degree | src/com/genetic/dominatingset/model/Graph.java:82-85 | the degree is the neighbour count and lies between 0 and n-1 |
| Graphs.DegreeBound | src/com/genetic/dominatingset/model/Graph.java:82-85 | no vertex has more than n-1 neighbours |
| Graphs.HasEdge | src/com/genetic/dominatingset/model/Graph.java:94-98 | both endpoints are range-checked, and the answer is whether v is among u's neighbours |
| Graphs.HasEdgeSymmetric | src/com/genetic/dominatingset/model/Graph.java:94-98 | edge queries are symmetric in their endpoints, both in failure and in answer |
| Graphs.CopyGraph | src/com/genetic/dominatingset/model/Graph.java:154-166 | re-adding every edge u<v into a fresh graph reproduces the original exactly, edge count included |
| Graphs.DegreeStatistics | src/com/genetic/dominatingset/model/Graph.java:183-193 | the minimum and maximum degree are degrees of actual vertices and bound every vertex's degree |
| FitnessEvaluation.NewEvaluator | src/com/genetic/dominatingset/algorithm/FitnessEvaluator.java:27-29 | the one-argument constructor uses a penalty of 1000 |
| FitnessEvaluation.CountViolations | src/com/genetic/dominatingset/algorithm/FitnessEvaluator.java:90-116 | the loop counts exactly the vertices that are neither selected nor adjacent to a selected vertex |
| FitnessEvaluation.ViolationsMeanUndominated | src/com/genetic/dominatingset/algorithm/FitnessEvaluator.java:90-116 | there are no violations exactly when the selected set dominates the graph |
| FitnessEvaluation.Evaluate | src/com/genetic/dominatingset/algorithm/FitnessEvaluator.java:51-77 | evaluation keeps the genes, marks the individual evaluated, and marks it valid exactly when its set dominates the graph |
| FitnessEvaluation.IsValidDominatingSet | src/com/genetic/dominatingset/algorithm/FitnessEvaluator.java:124-126 | the check holds exactly when the set dominates the graph, and agrees with the flag evaluation sets |
| FitnessEvaluation.GetViolations | src/com/genetic/dominatingset/algorithm/FitnessEvaluator.java:134-136 | the result is the number of vertices that are outside the set and have no neighbour in it, which is at most n, zero exactly for valid individuals, and otherwise the count that the penalised fitness uses |
| FitnessEvaluation.AllOnesValid | src/com/genetic/dominatingset/algorithm/FitnessEvaluator.java:51-77 | selecting every vertex always gives a valid dominating set |
| FitnessEvaluation.SmallerValidScoresHigher | src/com/genetic/dominatingset/algorithm/FitnessEvaluator.java:62-77 | of two valid dominating sets, the smaller one is strictly fitter |
| FitnessEvaluation.PenaltyRanksInvalidLower | src/com/genetic/dominatingset/algorithm/FitnessEvaluator.java:62-77 | when the penalty exceeds the vertex count, every valid individual is strictly fitter than every invalid one |
| Crossover.SinglePoint | src/com/genetic/dominatingset/algorithm/CrossoverOperator.java:45-75 | parents of different lengths are rejected; otherwise each offspring keeps its own parent's genes before the midpoint and takes the other's from it on, and both start unevaluated: no fitness computed, fitness negative infinity, not valid |
| Crossover.RandomCut | src/com/genetic/dominatingset/algorithm/CrossoverOperator.java:84-113 | the random cut point lies strictly inside the chromosome |
| Crossover.SinglePointRandom | src/com/genetic/dominatingset/algorithm/CrossoverOperator.java:84-113 | a length mismatch or a chromosome shorter than 2 is rejected; otherwise the offspring split the parents at the drawn cut |
| Crossover.TwoPoint | src/com/genetic/dominatingset/algorithm/CrossoverOperator.java:125-164 | a length mismatch or a chromosome shorter than 2 is rejected; otherwise the offspring exchange exactly the segment between the two ordered cut points |
| Crossover.Uniform | src/com/genetic/dominatingset/algorithm/CrossoverOperator.java:175-201 | a length mismatch is rejected; otherwise each position keeps the own parent's gene exactly when its coin says so |
| Crossover.Cross | src/com/genetic/dominatingset/algorithm/CrossoverOperator.java:211-213 | the engine's crossover recombines exactly the equal-length parents, cutting at the midpoint |
| Crossover.CrossoverConservesGenes | src/com/genetic/dominatingset/algorithm/CrossoverOperator.java:45-75 | between them, the offspring of any variant select as many vertices as the parents, and twin parents give two copies of themselves |
| Crossover.MixKeepsBinary | src/com/genetic/dominatingset/algorithm/CrossoverOperator.java:175-201 | offspring of binary parents are binary |
| Mutation.NewMutationOperator | src/com/genetic/dominatingset/algorithm/MutationOperator.java:32-54 | a rate outside [0, 1] is rejected; otherwise the operator keeps the rate |
| Mutation.DefaultRateAccepted | src/com/genetic/dominatingset/algorithm/MutationOperator.java:23-25 | the no-argument constructor yields a valid operator with rate 0.1 |
| Mutation.Mutate | src/com/genetic/dominatingset/algorithm/MutationOperator.java:65-73 | a failed trial leaves the individual untouched and reports no mutation; a successful one sets the drawn gene g to 1 - g and leaves every other gene, the fitness and the validity flag as they were, marks the fitness stale, and reports the mutation; an empty chromosome fails when a trial succeeds |
| Mutation.MutateAllGenes | src/com/genetic/dominatingset/algorithm/MutationOperator.java:84-95 | gene i is flipped exactly when trial i succeeds, the count is the number of changed positions, and the individual needs re-evaluation exactly when something changed |
| Mutation.UniformMutation | src/com/genetic/dominatingset/algorithm/MutationOperator.java:105-108 | an empty chromosome is rejected; otherwise the drawn gene g becomes 1 - g, every other gene, the fitness and the validity flag are kept, the fitness is marked stale, and a binary chromosome stays binary |
| Mutation.SwapMutation | src/com/genetic/dominatingset/algorithm/MutationOperator.java:118-134 | a chromosome shorter than 2 is left alone; otherwise the genes at two distinct drawn positions are exchanged, so the chromosome is permuted; the swap fails exactly when either of those two genes is not 0 or 1 |
| Mutation.SwapKeepsSize | src/com/genetic/dominatingset/algorithm/MutationOperator.java:118-134 | a swap never changes how many vertices are selected |
| Selection.SelectElite | src/com/genetic/dominatingset/algorithm/SelectionOperator.java:46-64 | a non-positive or too large elite is rejected; otherwise the elite is the best-first prefix of the population, sorted stably if needed, each member at least as fit as every member left out |
| Selection.SelectRandomParent | src/com/genetic/dominatingset/algorithm/SelectionOperator.java:72-75 | the parent is the member at the drawn index, and an empty population is rejected |
| Selection.SelectTwoParents | src/com/genetic/dominatingset/algorithm/SelectionOperator.java:83-100 | fewer than two members is rejected; otherwise the parents come from two distinct positions: the first at the drawn index, the second at the first redraw that differs from it |
| Selection.TournamentSelection | src/com/genetic/dominatingset/algorithm/SelectionOperator.java:109-126 | the winner is at least as fit as every sampled member and is the first sampled member of that fitness; no rounds give no winner |
| Engine.NewAlgorithm | src/com/genetic/dominatingset/algorithm/GeneticAlgorithm.java:51-72 | the elite size and offspring count add up to the population size, and an invalid mutation rate is rejected |
| Engine.Breed | src/com/genetic/dominatingset/algorithm/GeneticAlgorithm.java:131-143 | from an elite of at least two, breeding yields two evaluated offspring, each within one flipped gene of a crossover child of two distinct elite members |
| Engine.EliteOf | src/com/genetic/dominatingset/algorithm/GeneticAlgorithm.java:120 | the elite of a generation has the elite size and consists of evaluated individuals |
| Engine.BroodAt | src/com/genetic/dominatingset/algorithm/GeneticAlgorithm.java:129-154 | offspring i of a generation is child i mod 2 of the (i div 2)-th breeding, so the offspring come pair by pair in breeding order |
| Engine.BroodEvaluated | src/com/genetic/dominatingset/algorithm/GeneticAlgorithm.java:129-154 | when a generation can breed (at least two elite parents, redraws that end), every one of its offspring has its fitness computed |
| Engine.PairChildren | src/com/genetic/dominatingset/algorithm/GeneticAlgorithm.java:145-152 | offspring 2k and 2k+1 are the two children of the k-th breeding |
| Engine.Seed | src/com/genetic/dominatingset/algorithm/GeneticAlgorithm.java:123-126 | the new population has the full population capacity and starts with copies of the elite, in order |
| Engine.AddOffspring | src/com/genetic/dominatingset/algorithm/GeneticAlgorithm.java:129-154 | the offspring loop appends exactly the generation's offspring after the elite, and fails exactly when parents are needed but the elite has fewer than two members |
| Engine.NextGeneration | src/com/genetic/dominatingset/algorithm/GeneticAlgorithm.java:120-158 | a generation fails exactly when the elite is empty, or has one member while offspring are needed; otherwise the new sorted population is elite plus offspring, and its leader is at least as fit as before and is the old leader if not strictly fitter |
| Engine.LeaderSurvives | src/com/genetic/dominatingset/algorithm/GeneticAlgorithm.java:157-158 | when the new leader is not strictly fitter, the stable sort leaves the old leader in front |
| Engine.UpdateBest | src/com/genetic/dominatingset/algorithm/GeneticAlgorithm.java:161-164 | the best-ever individual never gets worse, and is replaced exactly by a strictly fitter leader |
| Engine.UpdateConvergence | src/com/genetic/dominatingset/algorithm/GeneticAlgorithm.java:170-174 | once set, the convergence generation never changes; until then it is set to the current generation exactly when the best fitness is finite and unchanged from the previous generation; two negative-infinity fitnesses never count as unchanged, matching the NaN difference in Java |
| Engine.Initialize | src/com/genetic/dominatingset/algorithm/GeneticAlgorithm.java:77-89 | the initial population is the evaluated random population, sorted best-first by a stable sort, and the initial best is its front member, which is as fit as any |
| Engine.Solve | src/com/genetic/dominatingset/algorithm/GeneticAlgorithm.java:96-189 | a run fails exactly when a generation would; otherwise the history has one entry per generation plus the initial one and never decreases, ends at the returned best, which is evaluated and leads the final population, and the convergence generation is the first one whose finite best is unchanged from the previous one |
| Generators.BuildFrom | src/com/genetic/dominatingset/model/Graph.java:48-62 | adding a list of edges succeeds exactly when every endpoint is an in-range, non-loop pair; the result's adjacency is the old one plus both directions of every listed pair, and distinct new edges add one each to the edge count |
| Generators.Complete | src/com/genetic/dominatingset/util/GraphGenerator.java:100-110 | a non-positive size is rejected; otherwise every two distinct vertices are adjacent and there are n(n-1)/2 edges |
| Generators.UpperAllCount | src/com/genetic/dominatingset/util/GraphGenerator.java:100-110 | the double loop over pairs u<v visits (n-from)(n-from-1)/2 pairs |
| Generators.CompleteDominatedByOne | src/com/genetic/dominatingset/util/GraphGenerator.java:95 | any single vertex dominates a complete graph |
| Generators.Path | src/com/genetic/dominatingset/util/GraphGenerator.java:121-129 | a non-positive size is rejected; otherwise vertices are adjacent exactly when they are consecutive, and there are n-1 edges |
| Generators.Cycle | src/com/genetic/dominatingset/util/GraphGenerator.java:140-155 | fewer than 3 vertices is rejected; otherwise each vertex has exactly its two distinct ring neighbours, and there are n edges |
| Generators.Star | src/com/genetic/dominatingset/util/GraphGenerator.java:166-179 | fewer than 2 vertices is rejected; otherwise exactly the pairs joining the centre 0 to another vertex are edges, n-1 of them |
| Generators.StarDominatedByCentre | src/com/genetic/dominatingset/util/GraphGenerator.java:161 | the centre alone dominates a star |
| Generators.CellInjective | src/com/genetic/dominatingset/util/GraphGenerator.java:203-217 | distinct grid positions get distinct vertex numbers |
| Generators.Grid | src/com/genetic/dominatingset/util/GraphGenerator.java:195-220 | a non-positive dimension is rejected; otherwise cell (i, j) is vertex i*cols+j, its neighbours are exactly the cells beside or above or below it, and there are rows(cols-1)+(rows-1)cols edges |
| Generators.SampleEdgesMembers | src/com/genetic/dominatingset/util/GraphGenerator.java:274-297 | the sample's edge list holds exactly the pairs of vertices at distance 1 or 2 along 0..9 |
| Generators.Sample10 | src/com/genetic/dominatingset/util/GraphGenerator.java:274-297 | the sample graph has 10 vertices and 17 edges, and two vertices are adjacent exactly when their numbers differ by 1 or 2 |
| Generators.SampleDominatedByTwo | src/com/genetic/dominatingset/util/GraphGenerator.java:274-297 | vertices 2 and 7 dominate the sample graph |
| Generators.SampleNeedsTwo | src/com/genetic/dominatingset/util/GraphGenerator.java:274-297 | no single vertex dominates the sample graph, so its minimum dominating set has size 2 |
| Generators.FromAdjacencyMatrix | src/com/genetic/dominatingset/util/GraphGenerator.java:329-342 | an empty matrix is rejected; otherwise i<j are adjacent exactly when the upper-triangle entry m[i][j] is 1, and the edge count is the number of such entries |
| Generators.MatrixEdgesCount | src/com/genetic/dominatingset/util/GraphGenerator.java:329-342 | the matrix scan lists each marked upper-triangle pair exactly once |

## Left out

- Random number generation (`java.util.Random`, seeds): every draw, trial and coin is a parameter, so properties hold for every outcome.
- Floating point:
  - fitness is an integer or -infinity rather than a `double`;
  - the penalty coefficient is a natural number;
  - the mutation rate is a `real` used only for the range check, while each trial is a boolean parameter;
  - the 1e-6 convergence tolerance becomes equality of two finite fitnesses (`Engine.Unchanged`). This is exact for integer fitnesses. It is also exact when either side is negative infinity, because the Java difference is then infinite or NaN and the test fails.
- Engine.NewAlgorithm: takes the offspring count `numCrossover` as given. It does not model its computation `(int)(populationSize * crossoverRate)`, nor a negative count.
- Engine.Solve: does not model the timing, the progress printing or the statistics. It records the best-ever fitness history and the convergence generation.
- Fitness statistics: `adaptiveMutate`, `rouletteWheelSelection`, the average and statistics helpers of `Population` and `Graph`, density and average degree. These are floating-point reporting, not the search.
- Output: `toString`, `printDominationInfo`, the result logger and the command-line entry point do I/O only.
- Random graph builders (uniform random, by density, connected random, bipartite): outside the modelled core; their output depends only on draws.
- Graphs.DegreeStatistics: returns only the minimum and maximum degree of the statistics map, and requires the vertex count to fit in a Java `int`.
- Java `int` overflow: `rows * cols` in the grid builder, the edge count and the iteration counter are unbounded integers.
- Aliasing: the Java code shares mutable individuals between populations. The values here cannot alias, so each copy is simply the value.
- Index preconditions: an index that the Java code would use out of range (an `ArrayIndexOutOfBoundsException`) becomes a `requires`. This covers `Individuals.SetGene`, `Individuals.FlipGene`, `Populations.SetMember`, and a matrix row shorter than the matrix in `Generators.FromAdjacencyMatrix`.
- FitnessEvaluation.CountViolations: requires the chromosome length to equal the vertex count. So do `Evaluate`, `IsValidDominatingSet` and `GetViolations`, which call it. The Java loop runs over the chromosome's length instead:
  - A shorter chromosome throws only when a scanned neighbour lies past its end. The empty chromosome, for instance, is judged valid with fitness 0.
  - A longer chromosome makes `getNeighbors` throw `IllegalArgumentException` at the first extra vertex whose gene is not 1.
  - Every chromosome the algorithm builds has the graph's length, so these cases are not modelled.
- Individuals.RandomIndividual: takes the size as a `nat`. It does not model the `NegativeArraySizeException` that `new int[size]` throws for a negative size. The only caller in the core passes the vertex count, which the graph keeps positive.
- Populations.RandomPopulation: takes the chromosome length as a `nat`. A negative length would make Java throw `NegativeArraySizeException` from the first individual's constructor, whenever the size is positive; that error is not modelled, for the same reason.
- Partial effects of failed operations: an `Err` result leaves its inputs as they were, but the Java code sometimes mutates before it throws:
  - `swapMutation` may write the first gene and clear `fitnessCalculated` before the second `setGene` rejects a non-binary value.
  - `selectElite` sorts the caller's population before the elite population's constructor rejects a non-positive size.
  - These half-finished states are not modelled.
- Redraw loops: in `selectTwoParents` and `swapMutation` they terminate only with probability 1. Their draw sequences are required to contain a distinct index (`Draws.Supplies`), and `Draws.CyclingSupplies` shows such a sequence always exists.
- `null` arguments (a null matrix, graph or individual) cannot occur in the model.

/** The generation loop of the genetic algorithm.  Each generation keeps the
    `eliteSize` fittest members, fills the rest of a population of
    `populationSize` with mutated, evaluated offspring of elite parents, sorts
    it, and updates the best-ever individual, the history of best-ever
    fitnesses and the convergence generation.  Every random draw comes from
    the `coins` and `draw` parameters. */
module Engine {
  import opened Wrappers
  import opened Individuals
  import opened Populations
  import Graphs
  import opened FitnessEvaluation
  import opened Crossover
  import opened Mutation
  import opened Selection
  import opened Draws

  /** The algorithm's parameters.  `numCrossover` is the number of offspring
      per generation, taken as given rather than computed from a rate. */
  datatype Algorithm = Algorithm(
    evaluator: Evaluator,
    populationSize: int,
    numCrossover: nat,
    eliteSize: int,
    mutation: MutationOperator,
    maxIterations: int)

  /** The constructor: the elite is whatever the offspring leave of the
      population, and the mutation operator's rate guard applies. */
  function NewAlgorithm(graph: Graphs.Graph, populationSize: int, numCrossover: nat,
                        mutationRate: real, maxIterations: int): (r: Result<Algorithm>)
    ensures r.Ok? <==> 0.0 <= mutationRate <= 1.0
    ensures r.Err? ==> r.error == InvalidRate
    ensures r.Ok? ==> r.value.eliteSize + r.value.numCrossover == populationSize
    ensures r.Ok? ==> r.value.numCrossover == numCrossover && r.value.populationSize == populationSize
    ensures r.Ok? ==> r.value.evaluator == NewEvaluator(graph) && r.value.mutation.rate == mutationRate
    ensures r.Ok? ==> r.value.maxIterations == maxIterations
  {
    var m :- NewMutationOperator(mutationRate);
    Ok(Algorithm(NewEvaluator(graph), populationSize, numCrossover, populationSize - numCrossover, m, maxIterations))
  }

  /** The draws one offspring pair consumes: the two parent indices (the
      second redrawn until distinct) and one mutation trial and gene index
      per child. */
  datatype PairDraw = PairDraw(first: nat, redraws: seq<nat>, trial1: bool, pick1: nat, trial2: bool, pick2: nat)

  predicate AllEvaluated(e: Evaluator, s: seq<Individual>)
    requires Graphs.Valid(e.graph)
  {
    forall x :: x in s ==> Evaluated(e, x)
  }

  /** Two chromosomes of the same length that differ at exactly `d` positions. */
  predicate Differ(a: seq<int>, b: seq<int>, d: nat) {
    |a| == |b| && Hamming(a, b) == d
  }

  /** One pass of the offspring loop: two distinct elite parents, midpoint
      crossover, one mutation trial per child, then evaluation. */
  function Breed(e: Evaluator, elite: Population, d: PairDraw): (r: Result<(Individual, Individual)>)
    requires Graphs.Valid(e.graph) && AllEvaluated(e, elite.members)
    requires |elite.members| >= 2 ==> Supplies(d.redraws, |elite.members|, Pick(d.first, |elite.members|))
    ensures r.Ok? <==> |elite.members| >= 2
    ensures r.Err? ==> r.error == TooFewParents
    ensures r.Ok? ==> Evaluated(e, r.value.0) && Evaluated(e, r.value.1)
    ensures r.Ok? ==>
              exists i, j :: 0 <= i < |elite.members| && 0 <= j < |elite.members| && i != j
                && var kids := Cross(elite.members[i], elite.members[j]);
                && kids.Ok?
                && Differ(kids.value.0.genes, r.value.0.genes, if d.trial1 then 1 else 0)
                && Differ(kids.value.1.genes, r.value.1.genes, if d.trial2 then 1 else 0)
  {
    var parents :- SelectTwoParents(elite, d.first, d.redraws);
    assert parents.0 in elite.members && parents.1 in elite.members;
    var kids := Cross(parents.0, parents.1).value;
    var m1 := Mutate(kids.0, d.trial1, d.pick1).value;
    var m2 := Mutate(kids.1, d.trial2, d.pick2).value;
    HammingZero(kids.0.genes, kids.0.genes);
    HammingZero(kids.1.genes, kids.1.genes);
    Ok((Evaluate(e, m1.0), Evaluate(e, m2.0)))
  }

  /** What every generation starts and ends with: a sorted population filled
      to `populationSize` with evaluated individuals. */
  predicate Ready(a: Algorithm, p: Population)
    requires Graphs.Valid(a.evaluator.graph)
  {
    && Valid(p) && p.sorted
    && p.capacity == a.populationSize && |p.members| == a.populationSize
    && AllEvaluated(a.evaluator, p.members)
  }

  /** Every redraw loop the run may enter has a way out. */
  ghost predicate DrawsSuffice(a: Algorithm, draw: (nat, nat) -> PairDraw) {
    a.eliteSize >= 2 ==>
      forall gen: nat, k: nat :: Supplies(draw(gen, k).redraws, a.eliteSize, Pick(draw(gen, k).first, a.eliteSize))
  }

  /** The elite of a sorted population, as `selectElite` builds it. */
  function EliteOf(a: Algorithm, p: Population): (r: Population)
    requires Graphs.Valid(a.evaluator.graph) && Ready(a, p) && 0 < a.eliteSize <= |p.members|
    ensures AllEvaluated(a.evaluator, r.members) && |r.members| == a.eliteSize
  {
    assert forall x :: x in p.members[..a.eliteSize] ==> x in p.members;
    Population(a.eliteSize, p.members[..a.eliteSize], false)
  }

  /** What breeding a generation from `p` needs: an evaluated, ready
      population, redraw loops that end, and at least two elite parents. */
  ghost predicate Breeding(a: Algorithm, p: Population, draw: (nat, nat) -> PairDraw) {
    && Graphs.Valid(a.evaluator.graph) && Ready(a, p) && DrawsSuffice(a, draw)
    && 2 <= a.eliteSize <= |p.members|
  }

  /** Offspring i of generation `gen`: child i % 2 of pair i / 2.  Outside
      `Breeding` no offspring is bred; the empty individual stands in. */
  ghost function Child(a: Algorithm, p: Population, draw: (nat, nat) -> PairDraw, gen: nat, i: nat): Individual
  {
    if Breeding(a, p, draw) then
      var kids := Breed(a.evaluator, EliteOf(a, p), draw(gen, i / 2)).value;
      if i % 2 == 0 then kids.0 else kids.1
    else
      Individuals.FromGenes([])
  }

  /** The first n values of `child`, in order. */
  function Offspring(child: nat -> Individual, n: nat): (r: seq<Individual>)
    ensures |r| == n
  {
    if n == 0 then [] else Offspring(child, n - 1) + [child(n - 1)]
  }

  lemma {:induction false} OffspringAt(child: nat -> Individual, n: nat, i: nat)
    requires i < n
    ensures Offspring(child, n)[i] == child(i)
  {
    if i < n - 1 {
      OffspringAt(child, n - 1, i);
    }
  }

  /** The first n offspring of generation `gen`, in the order they are added. */
  ghost function Brood(a: Algorithm, p: Population, draw: (nat, nat) -> PairDraw, gen: nat, n: nat): (r: seq<Individual>)
    ensures |r| == n
  {
    Offspring((i: nat) => Child(a, p, draw, gen, i), n)
  }

  /** Offspring i of the brood is `Child` i, whatever the brood's length. */
  lemma BroodAt(a: Algorithm, p: Population, draw: (nat, nat) -> PairDraw, gen: nat, n: nat, i: nat)
    requires i < n
    ensures Brood(a, p, draw, gen, n)[i] == Child(a, p, draw, gen, i)
  {
    OffspringAt((i: nat) => Child(a, p, draw, gen, i), n, i);
  }

  /** Every offspring of a generation that can breed is evaluated. */
  lemma {:induction false} BroodEvaluated(a: Algorithm, p: Population, draw: (nat, nat) -> PairDraw, gen: nat, n: nat)
    requires Graphs.Valid(a.evaluator.graph)
    requires n > 0 ==> Breeding(a, p, draw)
    ensures AllEvaluated(a.evaluator, Brood(a, p, draw, gen, n))
  {
    if n > 0 {
      BroodEvaluated(a, p, draw, gen, n - 1);
      ChildEvaluated(a, p, draw, gen, n - 1);
      AppendEvaluated(a.evaluator, Brood(a, p, draw, gen, n - 1), Child(a, p, draw, gen, n - 1));
    }
  }

  /** Appending an evaluated individual keeps a sequence evaluated. */
  lemma AppendEvaluated(e: Evaluator, s: seq<Individual>, x: Individual)
    requires Graphs.Valid(e.graph) && AllEvaluated(e, s) && Evaluated(e, x)
    ensures AllEvaluated(e, s + [x])
  {
    forall y | y in s + [x] ensures Evaluated(e, y) {
      assert y in s || y == x;
    }
  }

  /** Every offspring is evaluated. */
  lemma ChildEvaluated(a: Algorithm, p: Population, draw: (nat, nat) -> PairDraw, gen: nat, i: nat)
    requires Breeding(a, p, draw)
    ensures Evaluated(a.evaluator, Child(a, p, draw, gen, i))
  {
  }

  /** Offspring 2k and 2k + 1 are the two children of pair k. */
  lemma PairChildren(a: Algorithm, p: Population, draw: (nat, nat) -> PairDraw, gen: nat, k: nat)
    requires Breeding(a, p, draw)
    ensures Child(a, p, draw, gen, 2 * k) == Breed(a.evaluator, EliteOf(a, p), draw(gen, k)).value.0
    ensures Child(a, p, draw, gen, 2 * k + 1) == Breed(a.evaluator, EliteOf(a, p), draw(gen, k)).value.1
  {
    assert (2 * k) / 2 == k && (2 * k) % 2 == 0;
    assert (2 * k + 1) / 2 == k && (2 * k + 1) % 2 == 1;
  }

  /** One generation of `solve`: the elite copies, then offspring added two
      at a time until exactly `numCrossover` are in (the second child of the
      last pair is dropped when `numCrossover` is odd), then the sort.  Fails
      when the elite is empty (the elite population's constructor) or when
      offspring are wanted from fewer than two elite parents. */
  method NextGeneration(a: Algorithm, pop: Population, gen: nat, draw: (nat, nat) -> PairDraw)
    returns (r: Result<(Population, seq<Individual>)>)
    requires Graphs.Valid(a.evaluator.graph) && a.populationSize > 0
    requires a.eliteSize + a.numCrossover == a.populationSize
    requires Ready(a, pop) && DrawsSuffice(a, draw)
    ensures r.Ok? <==> a.eliteSize >= 1 && (a.numCrossover == 0 || a.eliteSize >= 2)
    ensures a.eliteSize < 1 ==> r == Err(NonPositiveCapacity)
    ensures a.eliteSize == 1 && a.numCrossover > 0 ==> r == Err(TooFewParents)
    ensures r.Ok? ==> Ready(a, r.value.0)
    ensures r.Ok? ==> r.value.1 == Brood(a, pop, draw, gen, a.numCrossover)
    ensures r.Ok? ==> multiset(r.value.0.members) == multiset(pop.members[..a.eliteSize]) + multiset(r.value.1)
    ensures r.Ok? ==> forall f :: WithFitness(r.value.0.members, f) == WithFitness(pop.members[..a.eliteSize] + r.value.1, f)
    ensures r.Ok? ==> AtLeast(r.value.0.members[0].fitness, pop.members[0].fitness)
    ensures r.Ok? && !Better(r.value.0.members[0].fitness, pop.members[0].fitness) ==>
              r.value.0.members[0] == pop.members[0]
  {
    var selected := SelectElite(pop, a.eliteSize);
    if selected.Err? {
      return Err(selected.error);
    }
    var elite := selected.value.1;
    assert selected.value.0 == pop;
    assert elite == EliteOf(a, pop);
    var seeded := Seed(a.populationSize, elite.members);
    var filled := AddOffspring(a, pop, seeded, gen, draw);
    if filled.Err? {
      return Err(filled.error);
    }
    var (unsorted, offspring) := filled.value;
    var next := SortByFitness(unsorted);
    BroodEvaluated(a, pop, draw, gen, a.numCrossover);
    Settle(a, pop, unsorted, offspring, next);
    return Ok((next, offspring));
  }

  /** The new population of `solve` before the offspring: copies of `xs`
      added one by one to an empty population of the given capacity. */
  method Seed(capacity: int, xs: seq<Individual>) returns (p: Population)
    requires 0 < capacity && |xs| <= capacity
    ensures Valid(p) && p.capacity == capacity && p.members == xs
  {
    p := Populations.New(capacity).value;
    var i := 0;
    while i < |xs|
      invariant 0 <= i <= |xs|
      invariant Valid(p) && p.capacity == capacity && p.members == xs[..i]
    {
      p := Add(p, Copy(xs[i])).value;
      i := i + 1;
    }
  }

  /** The offspring loop of `solve`: pairs are bred and added until exactly
      `numCrossover` offspring are in. */
  method AddOffspring(a: Algorithm, pop: Population, seeded: Population, gen: nat, draw: (nat, nat) -> PairDraw)
    returns (r: Result<(Population, seq<Individual>)>)
    requires Graphs.Valid(a.evaluator.graph) && Ready(a, pop) && DrawsSuffice(a, draw)
    requires a.eliteSize + a.numCrossover == a.populationSize && 0 < a.eliteSize
    requires Valid(seeded) && seeded.capacity == a.populationSize
    requires seeded.members == pop.members[..a.eliteSize]
    ensures r.Ok? <==> a.numCrossover == 0 || a.eliteSize >= 2
    ensures r.Err? ==> r.error == TooFewParents
    ensures r.Ok? ==> Valid(r.value.0) && r.value.0.capacity == a.populationSize
    ensures r.Ok? ==> r.value.0.members == seeded.members + r.value.1
    ensures r.Ok? ==> r.value.1 == Brood(a, pop, draw, gen, a.numCrossover)
  {
    var elite := EliteOf(a, pop);
    var next := seeded;
    var offspring: seq<Individual> := [];
    var k: nat := 0;
    while |offspring| < a.numCrossover
      invariant |offspring| == if 2 * k < a.numCrossover then 2 * k else a.numCrossover
      invariant |offspring| > 0 ==> a.eliteSize >= 2
      invariant offspring == Brood(a, pop, draw, gen, |offspring|)
      invariant Valid(next) && next.capacity == a.populationSize
      invariant next.members == seeded.members + offspring
      decreases a.numCrossover - |offspring|
    {
      var kids := Breed(a.evaluator, elite, draw(gen, k));
      if kids.Err? {
        return Err(kids.error);
      }
      next, offspring := AddPair(a, pop, seeded, gen, draw, k, next, offspring, kids.value);
      k := k + 1;
    }
    return Ok((next, offspring));
  }

  /** One pass of the offspring loop after breeding pair k: the first child
      is added, and the second too unless that would exceed `numCrossover`. */
  method AddPair(a: Algorithm, pop: Population, seeded: Population, gen: nat, draw: (nat, nat) -> PairDraw,
                 k: nat, next: Population, offspring: seq<Individual>, pair: (Individual, Individual))
    returns (next': Population, offspring': seq<Individual>)
    requires Graphs.Valid(a.evaluator.graph) && Ready(a, pop) && DrawsSuffice(a, draw)
    requires a.eliteSize + a.numCrossover == a.populationSize && 2 <= a.eliteSize
    requires |offspring| == 2 * k < a.numCrossover
    requires offspring == Brood(a, pop, draw, gen, |offspring|)
    requires Valid(next) && next.capacity == a.populationSize
    requires next.members == seeded.members + offspring && |seeded.members| == a.eliteSize
    requires pair == Breed(a.evaluator, EliteOf(a, pop), draw(gen, k)).value
    ensures |offspring'| == if 2 * (k + 1) < a.numCrossover then 2 * (k + 1) else a.numCrossover
    ensures offspring' == Brood(a, pop, draw, gen, |offspring'|)
    ensures Valid(next') && next'.capacity == a.populationSize
    ensures next'.members == seeded.members + offspring'
  {
    PairChildren(a, pop, draw, gen, k);
    next', offspring' := AddChild(a, pop, seeded, gen, draw, next, offspring, pair.0);
    if |offspring'| < a.numCrossover {
      next', offspring' := AddChild(a, pop, seeded, gen, draw, next', offspring', pair.1);
    }
  }

  /** Adds the next offspring to the new population. */
  method AddChild(a: Algorithm, pop: Population, seeded: Population, gen: nat, draw: (nat, nat) -> PairDraw,
                  next: Population, offspring: seq<Individual>, child: Individual)
    returns (next': Population, offspring': seq<Individual>)
    requires Graphs.Valid(a.evaluator.graph) && Ready(a, pop) && DrawsSuffice(a, draw)
    requires a.eliteSize + a.numCrossover == a.populationSize && 2 <= a.eliteSize
    requires |offspring| < a.numCrossover
    requires offspring == Brood(a, pop, draw, gen, |offspring|)
    requires child == Child(a, pop, draw, gen, |offspring|)
    requires Valid(next) && next.capacity == a.populationSize
    requires next.members == seeded.members + offspring && |seeded.members| == a.eliteSize
    ensures offspring' == offspring + [child] == Brood(a, pop, draw, gen, |offspring| + 1)
    ensures Valid(next') && next'.capacity == a.populationSize
    ensures next'.members == seeded.members + offspring'
  {
    AppendAssociates(seeded.members, offspring, child);
    next' := Add(next, child).value;
    offspring' := offspring + [child];
  }

  lemma AppendAssociates<T>(a: seq<T>, b: seq<T>, x: T)
    ensures (a + b) + [x] == a + (b + [x])
  {
  }

  /** The facts `NextGeneration` promises about the sorted population. */
  lemma Settle(a: Algorithm, pop: Population, unsorted: Population, offspring: seq<Individual>, next: Population)
    requires Graphs.Valid(a.evaluator.graph) && Ready(a, pop) && 0 < a.eliteSize <= |pop.members|
    requires a.eliteSize + a.numCrossover == a.populationSize && |offspring| == a.numCrossover
    requires Valid(unsorted) && unsorted.capacity == a.populationSize
    requires unsorted.members == pop.members[..a.eliteSize] + offspring
    requires AllEvaluated(a.evaluator, offspring)
    requires next == SortByFitness(unsorted)
    ensures Ready(a, next)
    ensures AtLeast(next.members[0].fitness, pop.members[0].fitness)
    ensures !Better(next.members[0].fitness, pop.members[0].fitness) ==> next.members[0] == pop.members[0]
  {
    var u := unsorted.members;
    assert u[0] == pop.members[0];
    assert u[0] in multiset(next.members);
    assert AllEvaluated(a.evaluator, next.members) by {
      forall x | x in next.members ensures Evaluated(a.evaluator, x) {
        assert x in multiset(u);
        assert x in pop.members[..a.eliteSize] || x in offspring;
      }
    }
    if !Better(next.members[0].fitness, pop.members[0].fitness) {
      LeaderSurvives(a, pop, unsorted, next);
    }
  }

  /** When the sorted generation's front is no fitter than the previous
      front, nothing beat the elite leader, and the stable sort keeps it
      first. */
  lemma LeaderSurvives(a: Algorithm, pop: Population, unsorted: Population, next: Population)
    requires Graphs.Valid(a.evaluator.graph) && Ready(a, pop) && 0 < a.eliteSize <= |pop.members|
    requires Valid(unsorted) && a.eliteSize <= |unsorted.members|
    requires unsorted.members[..a.eliteSize] == pop.members[..a.eliteSize]
    requires next == SortByFitness(unsorted)
    requires !Better(next.members[0].fitness, pop.members[0].fitness)
    ensures next.members[0] == pop.members[0]
  {
    var u := unsorted.members;
    forall x | x in u ensures AtLeast(u[0].fitness, x.fitness) {
      assert x in multiset(next.members);
      var k :| 0 <= k < |next.members| && next.members[k] == x;
      if k > 0 {
        assert AtLeast(next.members[0].fitness, next.members[k].fitness);
      }
      assert u[0] == pop.members[0];
    }
    SortKeepsLeader(unsorted);
  }

  /** `bestSolution` moves to the new front only on strict improvement. */
  function UpdateBest(best: Individual, top: Individual): (r: Individual)
    ensures r == best || r == top
    ensures AtLeast(r.fitness, best.fitness)
    ensures r != best ==> Better(r.fitness, best.fitness)
    ensures Better(top.fitness, best.fitness) ==> r == top
  {
    if Better(top.fitness, best.fitness) then Copy(top) else best
  }

  /** `Math.abs(current - previous) < 1e-6` on the doubles the fitnesses
      stand for: equality of two finite (integer) fitnesses.  With negative
      infinity on either side the difference is infinite or NaN, and the
      test fails. */
  predicate Unchanged(current: Fitness, previous: Fitness) {
    current.Finite? && previous.Finite? && current.value == previous.value
  }

  /** The convergence generation: set once, at the first generation whose
      best-ever fitness is unchanged from the previous one, then never moved. */
  function UpdateConvergence(convergence: int, iteration: nat, current: Fitness, previous: Fitness): (c: int)
    requires iteration >= 1
    ensures convergence != -1 ==> c == convergence
    ensures convergence == -1 ==> (c == iteration <==> Unchanged(current, previous)) && (c == -1 || c == iteration)
    ensures current == previous == NegInf ==> c == convergence
  {
    if convergence == -1 && Unchanged(current, previous) then iteration else convergence
  }

  /** The number of generations `solve` runs. */
  function Iterations(a: Algorithm): nat {
    if a.maxIterations > 0 then a.maxIterations else 0
  }

  /** `c` is -1 when no entry of `h` is unchanged from its predecessor, and
      otherwise the first index that is. */
  predicate ConvergedAt(h: seq<Fitness>, c: int) {
    if c == -1 then forall k :: 1 <= k < |h| ==> !Unchanged(h[k], h[k - 1])
    else 1 <= c < |h| && Unchanged(h[c], h[c - 1]) && forall k :: 1 <= k < c ==> !Unchanged(h[k], h[k - 1])
  }

  /** The random individuals of the initial population, once evaluated. */
  function EvaluatedRandom(a: Algorithm, coins: seq<seq<bool>>): seq<Individual>
    requires Graphs.Valid(a.evaluator.graph) && |coins| >= a.populationSize >= 0
    requires forall i :: 0 <= i < |coins| ==> |coins[i]| >= a.evaluator.graph.n
  {
    seq(a.populationSize, i requires 0 <= i < a.populationSize =>
      Evaluate(a.evaluator, RandomIndividual(a.evaluator.graph.n, coins[i])))
  }

  /** `initializePopulation`: a random population, every member evaluated,
      sorted; the best-ever starts as a copy of the front. */
  function Initialize(a: Algorithm, coins: seq<seq<bool>>): (r: Result<(Population, Individual)>)
    requires Graphs.Valid(a.evaluator.graph)
    requires a.populationSize > 0 ==> |coins| >= a.populationSize
    requires forall i :: 0 <= i < |coins| ==> |coins[i]| >= a.evaluator.graph.n
    ensures r.Ok? <==> a.populationSize > 0
    ensures r.Err? ==> r.error == NonPositiveCapacity
    ensures r.Ok? ==> Ready(a, r.value.0)
    ensures r.Ok? ==> multiset(r.value.0.members) == multiset(EvaluatedRandom(a, coins))
    ensures r.Ok? ==> forall f :: WithFitness(r.value.0.members, f) == WithFitness(EvaluatedRandom(a, coins), f)
    ensures r.Ok? ==> r.value.1 == r.value.0.members[0]
    ensures r.Ok? ==> forall x :: x in r.value.0.members ==> AtLeast(r.value.1.fitness, x.fitness)
  {
    var p :- RandomPopulation(a.populationSize, a.evaluator.graph.n, coins);
    var evaluated := p.(members := EvaluatedRandom(a, coins));
    var sorted := SortByFitness(evaluated);
    assert AllEvaluated(a.evaluator, sorted.members) by {
      forall x | x in sorted.members ensures Evaluated(a.evaluator, x) {
        assert x in multiset(evaluated.members);
      }
    }
    var best := GetBest(sorted).value;
    Ok((best.0, Copy(best.1)))
  }

  /** What `solve` leaves behind: the best-ever individual, the fitness
      history, the convergence generation and the final population. */
  datatype Outcome = Outcome(best: Individual, history: seq<Fitness>, convergence: int, population: Population)

  /** `solve`: initialise, then run `maxIterations` generations, recording the
      best-ever fitness after each. */
  method Solve(a: Algorithm, coins: seq<seq<bool>>, draw: (nat, nat) -> PairDraw) returns (r: Result<Outcome>)
    requires Graphs.Valid(a.evaluator.graph)
    requires a.eliteSize + a.numCrossover == a.populationSize
    requires a.populationSize > 0 ==> |coins| >= a.populationSize
    requires forall i :: 0 <= i < |coins| ==> |coins[i]| >= a.evaluator.graph.n
    requires DrawsSuffice(a, draw)
    ensures r.Ok? <==> a.populationSize > 0 &&
                       (Iterations(a) == 0 || (a.eliteSize >= 1 && (a.numCrossover == 0 || a.eliteSize >= 2)))
    ensures r.Ok? ==> Ready(a, r.value.population)
    ensures r.Ok? ==> |r.value.history| == Iterations(a) + 1
    ensures r.Ok? ==> r.value.history[0] == Initialize(a, coins).value.1.fitness
    ensures r.Ok? ==> forall i, j :: 0 <= i <= j < |r.value.history| ==>
                        AtLeast(r.value.history[j], r.value.history[i])
    ensures r.Ok? ==> r.value.history[|r.value.history| - 1] == r.value.best.fitness
    ensures r.Ok? ==> Evaluated(a.evaluator, r.value.best)
    ensures r.Ok? ==> r.value.best == r.value.population.members[0]
    ensures r.Ok? ==> forall x :: x in r.value.population.members ==> AtLeast(r.value.best.fitness, x.fitness)
    ensures r.Ok? ==> ConvergedAt(r.value.history, r.value.convergence)
  {
    var init := Initialize(a, coins);
    if init.Err? {
      return Err(init.error);
    }
    var pop := init.value.0;
    var best := init.value.1;
    var history := [best.fitness];
    var convergence := -1;
    var iteration := 1;
    while iteration <= a.maxIterations
      invariant 1 <= iteration <= Iterations(a) + 1
      invariant iteration > 1 ==> a.eliteSize >= 1 && (a.numCrossover == 0 || a.eliteSize >= 2)
      invariant Ready(a, pop)
      invariant best == pop.members[0]
      invariant |history| == iteration && history[0] == init.value.1.fitness
      invariant history[|history| - 1] == best.fitness
      invariant forall i, j :: 0 <= i <= j < |history| ==> AtLeast(history[j], history[i])
      invariant ConvergedAt(history, convergence)
    {
      var next := NextGeneration(a, pop, iteration, draw);
      if next.Err? {
        return Err(next.error);
      }
      var previous := best;
      pop := next.value.0;
      best := UpdateBest(best, pop.members[0]);
      history := history + [best.fitness];
      convergence := UpdateConvergence(convergence, iteration, best.fitness, previous.fitness);
      iteration := iteration + 1;
    }
    assert best in pop.members;
    return Ok(Outcome(best, history, convergence, pop));
  }
}

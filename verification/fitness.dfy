/** Scores an individual against a graph.  A vertex is a violation when it is
    neither in the set nor adjacent to a member of it; a valid individual has
    no violations and scores minus its set size, an invalid one is further
    penalised by `penalty` per violation. */
module FitnessEvaluation {
  import opened Individuals
  import opened Graphs

  /** The penalty per violation the evaluator uses unless told otherwise. */
  const DefaultPenalty: nat := 1000

  datatype Evaluator = Evaluator(graph: Graph, penalty: nat)

  /** The one-argument constructor. */
  function NewEvaluator(g: Graph): (e: Evaluator)
    ensures e.graph == g && e.penalty == 1000
  {
    Evaluator(g, DefaultPenalty)
  }

  /** Vertex v is a violation: its gene is not 1 and no neighbour's gene is 1. */
  predicate Undominated(g: Graph, genes: seq<int>, v: int)
    requires Valid(g) && |genes| == g.n && 0 <= v < g.n
  {
    genes[v] != 1 && forall w :: w in g.adj[v] ==> genes[w] != 1
  }

  /** The violating vertices. */
  function ViolationSet(g: Graph, genes: seq<int>): set<int>
    requires Valid(g) && |genes| == g.n
  {
    set v | 0 <= v < g.n && Undominated(g, genes, v)
  }

  /** The number of violations. */
  function Violations(g: Graph, genes: seq<int>): nat
    requires Valid(g) && |genes| == g.n
  {
    |ViolationSet(g, genes)|
  }

  /** `countViolations`: a vertex whose gene is 1 is skipped; otherwise its
      neighbours are scanned until one with gene 1 is found, and the vertex
      counts when none is. */
  method CountViolations(g: Graph, genes: seq<int>) returns (count: nat)
    requires Valid(g) && |genes| == g.n
    ensures count == Violations(g, genes)
  {
    count := 0;
    var v := 0;
    while v < g.n
      invariant 0 <= v <= g.n
      invariant count == |set x | 0 <= x < v && Undominated(g, genes, x)|
    {
      var before := set x | 0 <= x < v && Undominated(g, genes, x);
      if genes[v] == 1 {
        assert (set x | 0 <= x < v + 1 && Undominated(g, genes, x)) == before;
      } else {
        var dominated := false;
        var w := 0;
        while w < g.n && !dominated
          invariant 0 <= w <= g.n
          invariant dominated ==> exists y :: y in g.adj[v] && genes[y] == 1
          invariant !dominated ==> forall y :: 0 <= y < w && y in g.adj[v] ==> genes[y] != 1
        {
          if w in g.adj[v] && genes[w] == 1 {
            dominated := true;
          }
          w := w + 1;
        }
        if !dominated {
          assert Undominated(g, genes, v);
          assert (set x | 0 <= x < v + 1 && Undominated(g, genes, x)) == before + {v};
          count := count + 1;
        } else {
          assert (set x | 0 <= x < v + 1 && Undominated(g, genes, x)) == before;
        }
      }
      v := v + 1;
    }
    assert (set x | 0 <= x < g.n && Undominated(g, genes, x)) == ViolationSet(g, genes);
  }

  /** The score of a chromosome: minus the gene sum, less the penalty per
      violation when there is any. */
  function Score(e: Evaluator, genes: seq<int>): int
    requires Valid(e.graph) && |genes| == e.graph.n
  {
    var size := GeneSum(genes);
    var violations := Violations(e.graph, genes);
    if violations == 0 then -size else -size - e.penalty * violations
  }

  /** `evaluate`: sets the fitness (which marks it calculated) and the
      validity flag; the genes are untouched. */
  function Evaluate(e: Evaluator, ind: Individual): (r: Individual)
    requires Valid(e.graph) && |ind.genes| == e.graph.n
    ensures r.genes == ind.genes && r.calculated
    ensures r.valid <==> Dominates(e.graph, DominatingSet(ind.genes))
    ensures r.fitness == Finite(Score(e, ind.genes))
  {
    ViolationsMeanUndominated(e.graph, ind.genes);
    Individual(ind.genes, Finite(Score(e, ind.genes)), true, Violations(e.graph, ind.genes) == 0)
  }

  /** An individual whose cached fitness and validity are those `Evaluate`
      would compute now. */
  predicate Evaluated(e: Evaluator, ind: Individual)
    requires Valid(e.graph)
  {
    |ind.genes| == e.graph.n && ind == Evaluate(e, ind)
  }

  /** Zero violations is exactly domination by the set of 1-genes. */
  lemma ViolationsMeanUndominated(g: Graph, genes: seq<int>)
    requires Valid(g) && |genes| == g.n
    ensures Violations(g, genes) == 0 <==> Dominates(g, DominatingSet(genes))
  {
    var d := DominatingSet(genes);
    if Violations(g, genes) == 0 {
      forall v | 0 <= v < g.n ensures v in d || exists w :: w in d && w in g.adj[v] {
        assert v !in ViolationSet(g, genes);
        if v !in d {
          var w :| w in g.adj[v] && genes[w] == 1;
          assert 0 <= w < g.n;
          assert w in d;
        }
      }
    } else {
      assert ViolationSet(g, genes) != {};
      var v :| v in ViolationSet(g, genes);
      assert v !in d;
      forall w | w in d ensures w !in g.adj[v] {
      }
    }
  }

  /** `isValidDominatingSet`: reads the genes only. */
  function IsValidDominatingSet(e: Evaluator, ind: Individual): (ok: bool)
    requires Valid(e.graph) && |ind.genes| == e.graph.n
    ensures ok <==> Dominates(e.graph, DominatingSet(ind.genes))
    ensures ok == Evaluate(e, ind).valid
  {
    ViolationsMeanUndominated(e.graph, ind.genes);
    Violations(e.graph, ind.genes) == 0
  }

  /** `getViolations`: reads the genes only. */
  function GetViolations(e: Evaluator, ind: Individual): (n: nat)
    requires Valid(e.graph) && |ind.genes| == e.graph.n
    ensures n == |set v | 0 <= v < e.graph.n && ind.genes[v] != 1 && (forall w :: w in e.graph.adj[v] ==> ind.genes[w] != 1)|
    ensures n <= e.graph.n
    ensures n == 0 <==> Evaluate(e, ind).valid
    ensures n > 0 ==> Evaluate(e, ind).fitness == Finite(-GeneSum(ind.genes) - e.penalty * n)
  {
    SubsetCard(ViolationSet(e.graph, ind.genes), Vertices(e.graph.n));
    assert ViolationSet(e.graph, ind.genes) ==
      set v | 0 <= v < e.graph.n && ind.genes[v] != 1 && (forall w :: w in e.graph.adj[v] ==> ind.genes[w] != 1);
    Violations(e.graph, ind.genes)
  }

  /** The all-ones chromosome has no violations: every vertex is in the set. */
  lemma AllOnesValid(e: Evaluator)
    requires Valid(e.graph)
    ensures Violations(e.graph, seq(e.graph.n, _ => 1)) == 0
    ensures Evaluate(e, FromGenes(seq(e.graph.n, _ => 1))).valid
  {
    var ones := seq(e.graph.n, _ => 1);
    assert ViolationSet(e.graph, ones) == {};
  }

  /** Between two valid individuals the smaller set scores strictly higher. */
  lemma SmallerValidScoresHigher(e: Evaluator, a: Individual, b: Individual)
    requires Valid(e.graph) && |a.genes| == e.graph.n && |b.genes| == e.graph.n
    requires Binary(a.genes) && Binary(b.genes)
    requires Evaluate(e, a).valid && Evaluate(e, b).valid
    requires DominatingSetSize(a) < DominatingSetSize(b)
    ensures Better(Evaluate(e, a).fitness, Evaluate(e, b).fitness)
  {
  }

  /** A penalty above the vertex count ranks every invalid individual below
      every valid one, whatever their sizes. */
  lemma PenaltyRanksInvalidLower(e: Evaluator, a: Individual, b: Individual)
    requires Valid(e.graph) && |a.genes| == e.graph.n && |b.genes| == e.graph.n
    requires Binary(a.genes) && Binary(b.genes)
    requires e.penalty > e.graph.n
    requires Evaluate(e, a).valid && !Evaluate(e, b).valid
    ensures Better(Evaluate(e, a).fitness, Evaluate(e, b).fitness)
  {
    SumCountsSet(a.genes);
    SumCountsSet(b.genes);
    var k := Violations(e.graph, b.genes);
    assert k >= 1;
    assert e.penalty * k >= e.penalty;
  }
}

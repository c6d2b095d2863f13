/** One candidate solution: a binary chromosome where gene i = 1 puts vertex i
    into the dominating set, plus the cached fitness, the validity flag and the
    "fitness calculated" flag.  The Java class mutates its gene array in place;
    here every update returns a new value, so a copy can never alias another. */
module Individuals {
  import opened Wrappers

  /** A cached fitness.  Fresh individuals start at negative infinity; every
      evaluated fitness is an integer. */
  datatype Fitness = NegInf | Finite(value: int)

  /** `a > b` on the Java doubles the fitnesses stand for. */
  predicate Better(a: Fitness, b: Fitness) {
    a.Finite? && (b.NegInf? || a.value > b.value)
  }

  /** `a >= b` on the Java doubles the fitnesses stand for. */
  predicate AtLeast(a: Fitness, b: Fitness) {
    !Better(b, a)
  }

  datatype Individual = Individual(genes: seq<int>, fitness: Fitness, calculated: bool, valid: bool)

  predicate Binary(genes: seq<int>) {
    forall i :: 0 <= i < |genes| ==> genes[i] == 0 || genes[i] == 1
  }

  /** The array constructor: genes copied, fitness negative infinity, not
      calculated, not valid. */
  function FromGenes(genes: seq<int>): Individual {
    Individual(genes, NegInf, false, false)
  }

  /** The random constructor; `coins[i]` is the draw `nextInt(2) == 1` for gene i. */
  function RandomIndividual(size: nat, coins: seq<bool>): (r: Individual)
    requires |coins| >= size
    ensures |r.genes| == size && Binary(r.genes)
    ensures forall i :: 0 <= i < size ==> (r.genes[i] == 1 <==> coins[i])
    ensures r.fitness == NegInf && !r.calculated && !r.valid
  {
    FromGenes(seq(size, i requires 0 <= i < size => if coins[i] then 1 else 0))
  }

  /** `setGene`: rejects values outside {0, 1}; marks the fitness stale only
      when the gene actually changes. */
  function SetGene(ind: Individual, i: int, v: int): (r: Result<Individual>)
    requires 0 <= i < |ind.genes|
    ensures r.Ok? <==> (v == 0 || v == 1)
    ensures r.Ok? ==> r.value.genes == ind.genes[i := v]
    ensures r.Ok? ==> r.value.fitness == ind.fitness && r.value.valid == ind.valid
    ensures r.Ok? ==> (r.value.calculated <==> ind.calculated && ind.genes[i] == v)
    ensures r.Ok? && ind.genes[i] == v ==> r.value == ind
  {
    if v != 0 && v != 1 then Err(InvalidGeneValue)
    else if ind.genes[i] != v then Ok(ind.(genes := ind.genes[i := v], calculated := false))
    else Ok(ind)
  }

  /** `flipGene`: gene i becomes 1 - gene i and the fitness is marked stale. */
  function FlipGene(ind: Individual, i: int): (r: Individual)
    requires 0 <= i < |ind.genes|
    ensures |r.genes| == |ind.genes|
    ensures r.genes[i] != ind.genes[i] && r.genes[i] + ind.genes[i] == 1
    ensures forall j :: 0 <= j < |ind.genes| && j != i ==> r.genes[j] == ind.genes[j]
    ensures !r.calculated && r.fitness == ind.fitness && r.valid == ind.valid
    ensures Binary(ind.genes) ==> Binary(r.genes)
  {
    ind.(genes := ind.genes[i := 1 - ind.genes[i]], calculated := false)
  }

  /** Flipping the same gene twice restores the chromosome. */
  lemma FlipTwice(ind: Individual, i: int)
    requires 0 <= i < |ind.genes|
    ensures FlipGene(FlipGene(ind, i), i).genes == ind.genes
  {
    assert FlipGene(FlipGene(ind, i), i).genes[i] == ind.genes[i];
  }

  /** The sum the Java code computes for `getDominatingSetSize`. */
  function GeneSum(genes: seq<int>): int {
    if |genes| == 0 then 0 else GeneSum(genes[..|genes| - 1]) + genes[|genes| - 1]
  }

  /** `getDominatingSet`: the vertices whose gene is 1. */
  function DominatingSet(genes: seq<int>): (d: set<int>)
    ensures forall v :: v in d <==> 0 <= v < |genes| && genes[v] == 1
  {
    set v | 0 <= v < |genes| && genes[v] == 1
  }

  /** `getDominatingSetSize`. */
  function DominatingSetSize(ind: Individual): (n: int)
    ensures Binary(ind.genes) ==> n == |DominatingSet(ind.genes)|
    ensures Binary(ind.genes) ==> 0 <= n <= |ind.genes|
  {
    SumCountsSet(ind.genes);
    GeneSum(ind.genes)
  }

  /** On a binary chromosome the gene sum is the size of the dominating set
      and lies between 0 and the chromosome length. */
  lemma {:induction false} SumCountsSet(genes: seq<int>)
    ensures Binary(genes) ==> GeneSum(genes) == |DominatingSet(genes)|
    ensures Binary(genes) ==> 0 <= GeneSum(genes) <= |genes|
  {
    if |genes| > 0 && Binary(genes) {
      var n := |genes| - 1;
      var init := genes[..n];
      assert Binary(init) by {
        forall i | 0 <= i < |init| ensures init[i] == 0 || init[i] == 1 {
          assert init[i] == genes[i];
        }
      }
      SumCountsSet(init);
      var rest := DominatingSet(init);
      assert n !in rest;
      if genes[n] == 1 {
        assert DominatingSet(genes) == rest + {n};
      } else {
        assert DominatingSet(genes) == rest;
      }
    }
  }

  /** `copy`: a deep copy with the same genes, fitness and both flags. */
  function Copy(ind: Individual): (r: Individual)
    ensures r.genes == ind.genes && r.fitness == ind.fitness
    ensures r.calculated == ind.calculated && r.valid == ind.valid
  {
    Individual(ind.genes, ind.fitness, ind.calculated, ind.valid)
  }

  /** `compareTo`: `Double.compare(other.fitness, this.fitness)`, so a better
      individual compares as smaller (descending order). */
  function CompareTo(a: Individual, b: Individual): (r: int)
    ensures r == -1 || r == 0 || r == 1
    ensures r < 0 <==> Better(a.fitness, b.fitness)
    ensures r > 0 <==> Better(b.fitness, a.fitness)
    ensures r == 0 <==> a.fitness == b.fitness
  {
    if Better(a.fitness, b.fitness) then -1
    else if Better(b.fitness, a.fitness) then 1
    else 0
  }

  /** The ordering is antisymmetric, as `Comparable` requires. */
  lemma CompareAntisymmetric(a: Individual, b: Individual)
    ensures CompareTo(a, b) == -CompareTo(b, a)
  {
  }

  /** `equals`: identity is the gene sequence alone. */
  function Equals(a: Individual, b: Individual): (r: bool)
    ensures r <==> |a.genes| == |b.genes| && forall i :: 0 <= i < |a.genes| ==> a.genes[i] == b.genes[i]
  {
    a.genes == b.genes
  }

  /** Fitness, validity and freshness play no part in equality. */
  lemma EqualsIgnoresFitness(a: Individual, f: Fitness, isCalculated: bool, isValid: bool)
    ensures Equals(a, a.(fitness := f, calculated := isCalculated, valid := isValid))
    ensures Equals(a, Copy(a))
  {
  }

  /** The number of positions at which two equal-length chromosomes differ. */
  function Hamming(a: seq<int>, b: seq<int>): (d: nat)
    requires |a| == |b|
    ensures d <= |a|
  {
    if |a| == 0 then 0
    else Hamming(a[..|a| - 1], b[..|b| - 1]) + (if a[|a| - 1] != b[|b| - 1] then 1 else 0)
  }

  /** Chromosomes at Hamming distance 0 are equal. */
  lemma {:induction false} HammingZero(a: seq<int>, b: seq<int>)
    requires |a| == |b|
    ensures Hamming(a, b) == 0 <==> a == b
  {
    if |a| > 0 {
      HammingZero(a[..|a| - 1], b[..|b| - 1]);
      if Hamming(a, b) == 0 {
        assert a == a[..|a| - 1] + [a[|a| - 1]];
        assert b == b[..|b| - 1] + [b[|b| - 1]];
      }
    }
  }

  /** A single flip moves the chromosome by exactly Hamming distance 1. */
  lemma {:induction false} HammingOfFlip(ind: Individual, i: int)
    requires 0 <= i < |ind.genes|
    ensures Hamming(ind.genes, FlipGene(ind, i).genes) == 1
  {
    HammingUpdate(ind.genes, ind.genes, i, 1 - ind.genes[i]);
    HammingZero(ind.genes, ind.genes);
  }

  /** Setting position i of `b` to `v` changes its distance from `a` by the
      change in that position's own contribution. */
  lemma {:induction false} HammingUpdate(a: seq<int>, b: seq<int>, i: int, v: int)
    requires |a| == |b| && 0 <= i < |a|
    ensures Hamming(a, b[i := v]) ==
            Hamming(a, b) - (if a[i] != b[i] then 1 else 0) + (if a[i] != v then 1 else 0)
  {
    var n := |a| - 1;
    var c := b[i := v];
    if i == n {
      assert c[..n] == b[..n];
    } else {
      assert c[..n] == b[..n][i := v];
      HammingUpdate(a[..n], b[..n], i, v);
    }
  }
}

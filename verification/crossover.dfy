/** Crossover: two parents of equal length make two fresh offspring.  Every
    variant decides, position by position, whether the offspring keep their
    own parent's gene or take the other parent's; so at every position the
    two offspring hold the two parents' genes between them. */
module Crossover {
  import opened Wrappers
  import opened Individuals

  /** At every position, `o1`/`o2` hold `p1`/`p2`'s genes, straight or swapped. */
  predicate Mixes(p1: seq<int>, p2: seq<int>, o1: seq<int>, o2: seq<int>) {
    && |p1| == |p2| == |o1| == |o2|
    && forall i :: 0 <= i < |p1| ==>
         (o1[i] == p1[i] && o2[i] == p2[i]) || (o1[i] == p2[i] && o2[i] == p1[i])
  }

  /** The offspring pair of `a` and `b` where `swap[i]` says position i is taken
      from the other parent.  Offspring start unevaluated. */
  function Recombine(a: Individual, b: Individual, swap: seq<bool>): (r: (Individual, Individual))
    requires |a.genes| == |b.genes| == |swap|
    ensures |r.0.genes| == |r.1.genes| == |a.genes|
    ensures forall i :: 0 <= i < |swap| ==>
              if swap[i] then r.0.genes[i] == b.genes[i] && r.1.genes[i] == a.genes[i]
              else r.0.genes[i] == a.genes[i] && r.1.genes[i] == b.genes[i]
    ensures Mixes(a.genes, b.genes, r.0.genes, r.1.genes)
    ensures r.0 == FromGenes(r.0.genes) && r.1 == FromGenes(r.1.genes)
  {
    var n := |swap|;
    (FromGenes(seq(n, i requires 0 <= i < n => if swap[i] then b.genes[i] else a.genes[i])),
     FromGenes(seq(n, i requires 0 <= i < n => if swap[i] then a.genes[i] else b.genes[i])))
  }

  /** The two offspring together carry exactly the parents' 1-genes. */
  lemma {:induction false} MixConservesGenes(p1: seq<int>, p2: seq<int>, o1: seq<int>, o2: seq<int>)
    requires Mixes(p1, p2, o1, o2)
    ensures GeneSum(o1) + GeneSum(o2) == GeneSum(p1) + GeneSum(p2)
  {
    var n := |p1|;
    if n > 0 {
      assert Mixes(p1[..n - 1], p2[..n - 1], o1[..n - 1], o2[..n - 1]);
      MixConservesGenes(p1[..n - 1], p2[..n - 1], o1[..n - 1], o2[..n - 1]);
    }
  }

  /** Identical parents give two copies of that parent's genes. */
  lemma MixOfTwins(p: seq<int>, o1: seq<int>, o2: seq<int>)
    requires Mixes(p, p, o1, o2)
    ensures o1 == p && o2 == p
  {
  }

  /** Positions below `cut` come from the own parent, the rest from the other. */
  ghost predicate SplitAt(a: Individual, b: Individual, r: (Individual, Individual), cut: int)
    requires |a.genes| == |b.genes| == |r.0.genes| == |r.1.genes|
  {
    && (forall i :: 0 <= i < |a.genes| && i < cut ==> r.0.genes[i] == a.genes[i] && r.1.genes[i] == b.genes[i])
    && (forall i :: 0 <= i < |a.genes| && cut <= i ==> r.0.genes[i] == b.genes[i] && r.1.genes[i] == a.genes[i])
  }

  /** `singlePointCrossover`: the cut is at the midpoint `size / 2`. */
  function SinglePoint(a: Individual, b: Individual): (r: Result<(Individual, Individual)>)
    ensures r.Ok? <==> |a.genes| == |b.genes|
    ensures r.Err? ==> r.error == LengthMismatch
    ensures r.Ok? ==> |r.value.0.genes| == |r.value.1.genes| == |a.genes|
    ensures r.Ok? ==> SplitAt(a, b, r.value, |a.genes| / 2)
    ensures r.Ok? ==> Mixes(a.genes, b.genes, r.value.0.genes, r.value.1.genes)
    ensures r.Ok? ==> !r.value.0.calculated && !r.value.1.calculated
    ensures r.Ok? ==> r.value.0.fitness == NegInf && !r.value.0.valid && r.value.1.fitness == NegInf && !r.value.1.valid
  {
    if |a.genes| != |b.genes| then Err(LengthMismatch)
    else
      var n := |a.genes|;
      Ok(Recombine(a, b, seq(n, i => i >= n / 2)))
  }

  /** The cut drawn by `nextInt(size - 1) + 1`, from an arbitrary draw. */
  function RandomCut(size: int, draw: nat): (cut: int)
    requires size >= 2
    ensures 1 <= cut <= size - 1
  {
    draw % (size - 1) + 1
  }

  /** `singlePointCrossoverRandom`: the cut is drawn from [1, size - 1]; a
      chromosome shorter than 2 leaves no range to draw from. */
  function SinglePointRandom(a: Individual, b: Individual, draw: nat): (r: Result<(Individual, Individual)>)
    ensures r.Ok? <==> |a.genes| == |b.genes| && |a.genes| >= 2
    ensures |a.genes| != |b.genes| ==> r == Err(LengthMismatch)
    ensures |a.genes| == |b.genes| < 2 ==> r == Err(EmptyBound)
    ensures r.Ok? ==> |r.value.0.genes| == |r.value.1.genes| == |a.genes|
    ensures r.Ok? ==> SplitAt(a, b, r.value, RandomCut(|a.genes|, draw))
    ensures r.Ok? ==> Mixes(a.genes, b.genes, r.value.0.genes, r.value.1.genes)
    ensures r.Ok? ==> !r.value.0.calculated && !r.value.1.calculated
    ensures r.Ok? ==> r.value.0.fitness == NegInf && !r.value.0.valid && r.value.1.fitness == NegInf && !r.value.1.valid
  {
    if |a.genes| != |b.genes| then Err(LengthMismatch)
    else if |a.genes| < 2 then Err(EmptyBound)
    else
      var n := |a.genes|;
      var cut := RandomCut(n, draw);
      Ok(Recombine(a, b, seq(n, i => i >= cut)))
  }

  /** `twoPointCrossover`: two cuts drawn from [1, size - 1], put in order;
      exactly the positions in [lo, hi) are exchanged. */
  function TwoPoint(a: Individual, b: Individual, draw1: nat, draw2: nat): (r: Result<(Individual, Individual)>)
    ensures r.Ok? <==> |a.genes| == |b.genes| && |a.genes| >= 2
    ensures |a.genes| != |b.genes| ==> r == Err(LengthMismatch)
    ensures |a.genes| == |b.genes| < 2 ==> r == Err(EmptyBound)
    ensures r.Ok? ==> |r.value.0.genes| == |r.value.1.genes| == |a.genes|
    ensures r.Ok? ==>
              var p1, p2 := RandomCut(|a.genes|, draw1), RandomCut(|a.genes|, draw2);
              var lo, hi := if p1 <= p2 then p1 else p2, if p1 <= p2 then p2 else p1;
              && 1 <= lo <= hi <= |a.genes| - 1
              && forall i :: 0 <= i < |a.genes| ==>
                   if lo <= i < hi then r.value.0.genes[i] == b.genes[i] && r.value.1.genes[i] == a.genes[i]
                   else r.value.0.genes[i] == a.genes[i] && r.value.1.genes[i] == b.genes[i]
    ensures r.Ok? ==> Mixes(a.genes, b.genes, r.value.0.genes, r.value.1.genes)
    ensures r.Ok? ==> !r.value.0.calculated && !r.value.1.calculated
    ensures r.Ok? ==> r.value.0.fitness == NegInf && !r.value.0.valid && r.value.1.fitness == NegInf && !r.value.1.valid
  {
    if |a.genes| != |b.genes| then Err(LengthMismatch)
    else if |a.genes| < 2 then Err(EmptyBound)
    else
      var n := |a.genes|;
      var p1, p2 := RandomCut(n, draw1), RandomCut(n, draw2);
      var lo, hi := if p1 <= p2 then p1 else p2, if p1 <= p2 then p2 else p1;
      Ok(Recombine(a, b, seq(n, i => lo <= i < hi)))
  }

  /** `uniformCrossover`: `coins[i]` is the `nextBoolean` for position i; true
      keeps the own parent's gene, false takes the other's. */
  function Uniform(a: Individual, b: Individual, coins: seq<bool>): (r: Result<(Individual, Individual)>)
    requires |coins| >= |a.genes|
    ensures r.Ok? <==> |a.genes| == |b.genes|
    ensures r.Err? ==> r.error == LengthMismatch
    ensures r.Ok? ==> |r.value.0.genes| == |r.value.1.genes| == |a.genes|
    ensures r.Ok? ==> forall i :: 0 <= i < |a.genes| ==>
              if coins[i] then r.value.0.genes[i] == a.genes[i] && r.value.1.genes[i] == b.genes[i]
              else r.value.0.genes[i] == b.genes[i] && r.value.1.genes[i] == a.genes[i]
    ensures r.Ok? ==> Mixes(a.genes, b.genes, r.value.0.genes, r.value.1.genes)
    ensures r.Ok? ==> !r.value.0.calculated && !r.value.1.calculated
    ensures r.Ok? ==> r.value.0.fitness == NegInf && !r.value.0.valid && r.value.1.fitness == NegInf && !r.value.1.valid
  {
    if |a.genes| != |b.genes| then Err(LengthMismatch)
    else
      var n := |a.genes|;
      Ok(Recombine(a, b, seq(n, i requires 0 <= i < n => !coins[i])))
  }

  /** `crossover`: the strategy the engine uses is the midpoint single-point
      one, so equal-length parents always recombine and nothing else does. */
  function Cross(a: Individual, b: Individual): (r: Result<(Individual, Individual)>)
    ensures r.Ok? <==> |a.genes| == |b.genes|
    ensures r.Err? ==> r.error == LengthMismatch
    ensures r.Ok? ==> |r.value.0.genes| == |r.value.1.genes| == |a.genes|
    ensures r.Ok? ==> SplitAt(a, b, r.value, |a.genes| / 2)
    ensures r.Ok? ==> Mixes(a.genes, b.genes, r.value.0.genes, r.value.1.genes)
    ensures r.Ok? ==> !r.value.0.calculated && !r.value.1.calculated
    ensures r.Ok? ==> r.value.0.fitness == NegInf && !r.value.0.valid && r.value.1.fitness == NegInf && !r.value.1.valid
  {
    SinglePoint(a, b)
  }

  /** Every successful variant conserves the parents' 1-genes and turns twin
      parents into two copies of their genes. */
  lemma CrossoverConservesGenes(a: Individual, b: Individual, r: (Individual, Individual))
    requires Mixes(a.genes, b.genes, r.0.genes, r.1.genes)
    ensures GeneSum(r.0.genes) + GeneSum(r.1.genes) == GeneSum(a.genes) + GeneSum(b.genes)
    ensures a.genes == b.genes ==> r.0.genes == a.genes && r.1.genes == a.genes
  {
    MixConservesGenes(a.genes, b.genes, r.0.genes, r.1.genes);
    if a.genes == b.genes {
      MixOfTwins(a.genes, r.0.genes, r.1.genes);
    }
  }

  /** Offspring of binary parents are binary. */
  lemma MixKeepsBinary(p1: seq<int>, p2: seq<int>, o1: seq<int>, o2: seq<int>)
    requires Mixes(p1, p2, o1, o2) && Binary(p1) && Binary(p2)
    ensures Binary(o1) && Binary(o2)
  {
  }
}

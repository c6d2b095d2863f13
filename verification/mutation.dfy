/** Mutation: random bit flips and swaps on one individual.  A trial
    `nextDouble() < mutationRate` is a boolean supplied by the caller, an index
    `nextInt(size)` a draw (see `Draws`). */
module Mutation {
  import opened Wrappers
  import opened Individuals
  import opened Draws

  /** The per-trial mutation probability. */
  datatype MutationOperator = MutationOperator(rate: real)

  /** The rate the no-argument constructor uses. */
  const DefaultRate: real := 0.1

  /** The constructors: the rate must lie in [0, 1]. */
  function NewMutationOperator(rate: real): (r: Result<MutationOperator>)
    ensures r.Ok? <==> 0.0 <= rate <= 1.0
    ensures r.Err? ==> r.error == InvalidRate
    ensures r.Ok? ==> r.value.rate == rate
  {
    if rate < 0.0 || rate > 1.0 then Err(InvalidRate) else Ok(MutationOperator(rate))
  }

  /** The default operator is a valid one with rate 0.1. */
  lemma DefaultRateAccepted()
    ensures NewMutationOperator(DefaultRate) == Ok(MutationOperator(0.1))
  {
  }

  /** `mutate`: when the trial succeeds, one drawn gene is flipped and the
      result says so; an empty chromosome leaves nothing to draw. */
  function Mutate(ind: Individual, trial: bool, pick: nat): (r: Result<(Individual, bool)>)
    ensures r.Err? <==> trial && |ind.genes| == 0
    ensures r.Err? ==> r.error == EmptyBound
    ensures !trial ==> r == Ok((ind, false))
    ensures r.Ok? && trial ==> r.value.1 && |r.value.0.genes| == |ind.genes|
    ensures r.Ok? && trial ==> Hamming(ind.genes, r.value.0.genes) == 1
    ensures r.Ok? && trial ==> r.value.0.genes[Pick(pick, |ind.genes|)] != ind.genes[Pick(pick, |ind.genes|)]
    ensures r.Ok? && trial ==> !r.value.0.calculated && r.value.0.fitness == ind.fitness
    ensures r.Ok? && Binary(ind.genes) ==> Binary(r.value.0.genes)
    ensures r.Ok? && trial ==>
              var i := Pick(pick, |ind.genes|);
              r.value.0.genes == ind.genes[i := 1 - ind.genes[i]] && r.value.0.valid == ind.valid
  {
    if !trial then Ok((ind, false))
    else if |ind.genes| == 0 then Err(EmptyBound)
    else
      var i := Pick(pick, |ind.genes|);
      HammingOfFlip(ind, i);
      Ok((FlipGene(ind, i), true))
  }

  /** `mutateAllGenes`: gene i is flipped when `trials[i]` holds; the count of
      flips is the Hamming distance the individual moved. */
  method MutateAllGenes(ind: Individual, trials: seq<bool>) returns (r: Individual, count: nat)
    requires |trials| >= |ind.genes|
    ensures |r.genes| == |ind.genes|
    ensures forall i :: 0 <= i < |ind.genes| ==>
              if trials[i] then r.genes[i] == 1 - ind.genes[i] else r.genes[i] == ind.genes[i]
    ensures count == Hamming(ind.genes, r.genes)
    ensures count == 0 <==> r.genes == ind.genes
    ensures r.calculated <==> ind.calculated && count == 0
    ensures r.fitness == ind.fitness && r.valid == ind.valid
    ensures Binary(ind.genes) ==> Binary(r.genes)
  {
    r := ind;
    count := 0;
    HammingZero(ind.genes, ind.genes);
    var i := 0;
    while i < |ind.genes|
      invariant Progress(ind, trials, r, count, i)
    {
      if trials[i] {
        ProgressFlip(ind, trials, r, count, i);
        r := FlipGene(r, i);
        count := count + 1;
      } else {
        ProgressKeep(ind, trials, r, count, i);
      }
      i := i + 1;
    }
    HammingZero(ind.genes, r.genes);
    FlippedBinary(ind, trials, r);
  }

  /** The loop invariant of `mutateAllGenes` after i positions: those decided
      by their trials, the rest untouched, and the count of flips so far. */
  predicate Progress(ind: Individual, trials: seq<bool>, r: Individual, count: nat, i: int)
    requires |trials| >= |ind.genes|
  {
    && 0 <= i <= |ind.genes| && |r.genes| == |ind.genes|
    && (forall j :: 0 <= j < i ==>
          if trials[j] then r.genes[j] == 1 - ind.genes[j] else r.genes[j] == ind.genes[j])
    && (forall j :: i <= j < |ind.genes| ==> r.genes[j] == ind.genes[j])
    && count == Hamming(ind.genes, r.genes)
    && (r.calculated <==> ind.calculated && count == 0)
    && r.fitness == ind.fitness && r.valid == ind.valid
  }

  /** A pass whose trial succeeds keeps the invariant: one more flip. */
  lemma ProgressFlip(ind: Individual, trials: seq<bool>, r: Individual, count: nat, i: int)
    requires |trials| >= |ind.genes| && Progress(ind, trials, r, count, i) && i < |ind.genes| && trials[i]
    ensures Progress(ind, trials, FlipGene(r, i), count + 1, i + 1)
  {
    HammingUpdate(ind.genes, r.genes, i, 1 - r.genes[i]);
  }

  /** A pass whose trial fails keeps the invariant unchanged. */
  lemma ProgressKeep(ind: Individual, trials: seq<bool>, r: Individual, count: nat, i: int)
    requires |trials| >= |ind.genes| && Progress(ind, trials, r, count, i) && i < |ind.genes| && !trials[i]
    ensures Progress(ind, trials, r, count, i + 1)
  {
  }

  /** Flipping genes of a binary chromosome leaves it binary. */
  lemma FlippedBinary(ind: Individual, trials: seq<bool>, r: Individual)
    requires |trials| >= |ind.genes| == |r.genes|
    requires forall i :: 0 <= i < |ind.genes| ==>
               if trials[i] then r.genes[i] == 1 - ind.genes[i] else r.genes[i] == ind.genes[i]
    ensures Binary(ind.genes) ==> Binary(r.genes)
  {
  }

  /** `uniformMutation`: exactly one drawn gene is flipped. */
  function UniformMutation(ind: Individual, pick: nat): (r: Result<Individual>)
    ensures r.Ok? <==> |ind.genes| > 0
    ensures r.Err? ==> r.error == EmptyBound
    ensures r.Ok? ==> |r.value.genes| == |ind.genes| && Hamming(ind.genes, r.value.genes) == 1
    ensures r.Ok? ==> r.value.genes[Pick(pick, |ind.genes|)] != ind.genes[Pick(pick, |ind.genes|)]
    ensures r.Ok? ==> !r.value.calculated
    ensures r.Ok? ==>
              var i := Pick(pick, |ind.genes|);
              r.value.genes == ind.genes[i := 1 - ind.genes[i]]
              && r.value.fitness == ind.fitness && r.value.valid == ind.valid
    ensures r.Ok? && Binary(ind.genes) ==> Binary(r.value.genes)
  {
    if |ind.genes| == 0 then Err(EmptyBound)
    else
      var i := Pick(pick, |ind.genes|);
      HammingOfFlip(ind, i);
      Ok(FlipGene(ind, i))
  }

  /** `swapMutation`: a chromosome shorter than 2 is left alone; otherwise
      two distinct drawn positions exchange their genes through two `setGene`
      calls, which reject a non-binary gene. */
  function SwapMutation(ind: Individual, first: nat, redraws: seq<nat>): (r: Result<Individual>)
    requires |ind.genes| >= 2 ==> Supplies(redraws, |ind.genes|, Pick(first, |ind.genes|))
    ensures |ind.genes| < 2 ==> r == Ok(ind)
    ensures Binary(ind.genes) ==> r.Ok?
    ensures |ind.genes| >= 2 ==>
              var i, j := Pick(first, |ind.genes|), Redraw(redraws, |ind.genes|, Pick(first, |ind.genes|));
              (r.Ok? <==> (ind.genes[i] == 0 || ind.genes[i] == 1) && (ind.genes[j] == 0 || ind.genes[j] == 1))
    ensures r.Err? ==> r.error == InvalidGeneValue
    ensures r.Ok? && |ind.genes| >= 2 ==>
              var i, j := Pick(first, |ind.genes|), Redraw(redraws, |ind.genes|, Pick(first, |ind.genes|));
              && i != j
              && r.value.genes == ind.genes[i := ind.genes[j]][j := ind.genes[i]]
              && (r.value.calculated <==> ind.calculated && ind.genes[i] == ind.genes[j])
    ensures r.Ok? ==> multiset(r.value.genes) == multiset(ind.genes)
    ensures r.Ok? ==> r.value.fitness == ind.fitness && r.value.valid == ind.valid
  {
    if |ind.genes| < 2 then Ok(ind)
    else
      var n := |ind.genes|;
      var i := Pick(first, n);
      var j := Redraw(redraws, n, i);
      var temp := ind.genes[i];
      var once :- SetGene(ind, i, ind.genes[j]);
      var twice :- SetGene(once, j, temp);
      SwapKeepsMultiset(ind.genes, i, j);
      Ok(twice)
  }

  /** Exchanging two positions permutes the chromosome. */
  lemma SwapKeepsMultiset(s: seq<int>, i: int, j: int)
    requires 0 <= i < |s| && 0 <= j < |s| && i != j
    ensures multiset(s[i := s[j]][j := s[i]]) == multiset(s)
  {
    var t := s[i := s[j]];
    assert multiset(t) == multiset(s) - multiset{s[i]} + multiset{s[j]};
    assert t[j] == s[j];
  }

  /** A swap keeps the dominating-set size: the same genes, rearranged. */
  lemma {:induction false} SameMultisetSameSum(a: seq<int>, b: seq<int>)
    requires multiset(a) == multiset(b)
    ensures GeneSum(a) == GeneSum(b)
    decreases |a|
  {
    if |a| > 0 {
      var n := |a| - 1;
      var x := a[n];
      assert a == a[..n] + [x];
      assert x in multiset(b) by {
        assert x in multiset(a);
      }
      var k :| 0 <= k < |b| && b[k] == x;
      RemoveAt(b, k);
      assert multiset(a[..n]) == multiset(a) - multiset{x};
      SameMultisetSameSum(a[..n], b[..k] + b[k + 1..]);
    }
  }

  /** Removing position k takes one copy of its gene out of the multiset and
      its value out of the sum. */
  lemma RemoveAt(b: seq<int>, k: int)
    requires 0 <= k < |b|
    ensures multiset(b[..k] + b[k + 1..]) == multiset(b) - multiset{b[k]}
    ensures GeneSum(b) == GeneSum(b[..k] + b[k + 1..]) + b[k]
  {
    var x := b[k];
    assert b == b[..k] + ([x] + b[k + 1..]);
    assert multiset(b) == multiset(b[..k]) + multiset{x} + multiset(b[k + 1..]);
    RemoveAtSum(b[..k], x, b[k + 1..]);
  }

  /** The sum of `a`, then `x`, then `c`, is the sum without `x` plus `x`. */
  lemma RemoveAtSum(a: seq<int>, x: int, c: seq<int>)
    ensures GeneSum(a + ([x] + c)) == GeneSum(a + c) + x
  {
    GeneSumSplit(a, [x] + c);
    GeneSumSplit([x], c);
    GeneSumSplit(a, c);
    assert GeneSum([x]) == x by {
      assert [x][..0] == [];
    }
  }

  /** The gene sum of a concatenation. */
  lemma {:induction false} GeneSumSplit(a: seq<int>, b: seq<int>)
    ensures GeneSum(a + b) == GeneSum(a) + GeneSum(b)
    decreases |b|
  {
    if |b| > 0 {
      var m := |b| - 1;
      assert (a + b)[..|a + b| - 1] == a + b[..m];
      GeneSumSplit(a, b[..m]);
    } else {
      assert a + b == a;
    }
  }

  /** `swapMutation` never changes how many vertices the individual selects. */
  lemma SwapKeepsSize(ind: Individual, first: nat, redraws: seq<nat>)
    requires |ind.genes| >= 2 ==> Supplies(redraws, |ind.genes|, Pick(first, |ind.genes|))
    requires SwapMutation(ind, first, redraws).Ok?
    ensures GeneSum(SwapMutation(ind, first, redraws).value.genes) == GeneSum(ind.genes)
  {
    SameMultisetSameSum(SwapMutation(ind, first, redraws).value.genes, ind.genes);
  }
}

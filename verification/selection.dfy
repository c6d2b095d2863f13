/** Selection: the elite of a population, and parents drawn from it. */
module Selection {
  import opened Wrappers
  import opened Individuals
  import opened Populations
  import opened Draws

  /** A prefix of a sequence is a sub-multiset of it. */
  lemma PrefixSubMultiset<T>(s: seq<T>, k: int)
    requires 0 <= k <= |s|
    ensures multiset(s[..k]) <= multiset(s)
  {
    assert s == s[..k] + s[k..];
  }

  /** `selectElite`: rejects an elite larger than the population, sorts the
      population if its flag is clear, then fills a new population of capacity
      `eliteSize` (rejected when not positive) with copies of the first
      `eliteSize` members.  Returns the (possibly sorted) source and the elite. */
  method SelectElite(pop: Population, eliteSize: int) returns (r: Result<(Population, Population)>)
    requires Valid(pop)
    ensures r.Ok? <==> 0 < eliteSize <= |pop.members|
    ensures eliteSize > |pop.members| ==> r == Err(EliteTooLarge)
    ensures eliteSize <= 0 ==> r == Err(NonPositiveCapacity)
    ensures r.Ok? ==> Valid(r.value.0) && r.value.0.sorted && r.value.0.capacity == pop.capacity
    ensures r.Ok? ==> multiset(r.value.0.members) == multiset(pop.members) && |r.value.0.members| == |pop.members|
    ensures r.Ok? && pop.sorted ==> r.value.0 == pop
    ensures r.Ok? ==> forall f :: WithFitness(r.value.0.members, f) == WithFitness(pop.members, f)
    ensures r.Ok? ==> Valid(r.value.1) && r.value.1.capacity == eliteSize && IsFull(r.value.1)
    ensures r.Ok? ==> r.value.1.members == r.value.0.members[..eliteSize] && !r.value.1.sorted
    ensures r.Ok? ==> NonIncreasing(r.value.1.members)
    ensures r.Ok? ==> multiset(r.value.1.members) <= multiset(pop.members)
    ensures r.Ok? ==> forall i, j :: 0 <= i < eliteSize <= j < |pop.members| ==>
                        AtLeast(r.value.1.members[i].fitness, r.value.0.members[j].fitness)
  {
    if eliteSize > |pop.members| {
      return Err(EliteTooLarge);
    }
    var source := if pop.sorted then pop else SortByFitness(pop);
    if eliteSize <= 0 {
      return Err(NonPositiveCapacity);
    }
    var elite := CopyPrefix(source, eliteSize);
    PrefixSubMultiset(source.members, eliteSize);
    ElitePrefix(source.members, eliteSize);
    return Ok((source, elite));
  }

  /** The loop of `selectElite`: a new population of capacity `k` holding
      copies of the first `k` members, added one by one. */
  method CopyPrefix(source: Population, k: int) returns (elite: Population)
    requires 0 < k <= |source.members|
    ensures Valid(elite) && elite.capacity == k && !elite.sorted
    ensures elite.members == source.members[..k]
  {
    elite := New(k).value;
    var i := 0;
    while i < k
      invariant 0 <= i <= k
      invariant Valid(elite) && elite.capacity == k && !elite.sorted
      invariant elite.members == source.members[..i]
    {
      elite := Add(elite, Copy(source.members[i])).value;
      i := i + 1;
    }
  }

  /** The first k members of a best-first sequence are in best-first order and
      each is at least as fit as every member after them. */
  lemma ElitePrefix(s: seq<Individual>, k: int)
    requires NonIncreasing(s) && 0 <= k <= |s|
    ensures NonIncreasing(s[..k])
    ensures forall i, j :: 0 <= i < k <= j < |s| ==> AtLeast(s[..k][i].fitness, s[j].fitness)
  {
  }

  /** `selectRandomParent`: a drawn member; an empty population leaves nothing
      to draw. */
  function SelectRandomParent(pop: Population, pick: nat): (r: Result<Individual>)
    ensures r.Ok? <==> |pop.members| > 0
    ensures r.Err? ==> r.error == EmptyBound
    ensures r.Ok? ==> r.value in pop.members
    ensures r.Ok? ==> r.value == pop.members[Pick(pick, |pop.members|)]
  {
    if |pop.members| == 0 then Err(EmptyBound)
    else Ok(pop.members[Pick(pick, |pop.members|)])
  }

  /** `selectTwoParents`: two members at distinct drawn positions; the second
      position is redrawn until it differs from the first. */
  function SelectTwoParents(pop: Population, first: nat, redraws: seq<nat>): (r: Result<(Individual, Individual)>)
    requires |pop.members| >= 2 ==> Supplies(redraws, |pop.members|, Pick(first, |pop.members|))
    ensures r.Ok? <==> |pop.members| >= 2
    ensures r.Err? ==> r.error == TooFewParents
    ensures r.Ok? ==> exists j :: 0 <= j < |pop.members| && j != Pick(first, |pop.members|)
                        && r.value == (pop.members[Pick(first, |pop.members|)], pop.members[j])
    ensures r.Ok? ==> r.value.1 == pop.members[Redraw(redraws, |pop.members|, Pick(first, |pop.members|))]
  {
    if |pop.members| < 2 then Err(TooFewParents)
    else
      var n := |pop.members|;
      var i := Pick(first, n);
      var j := Redraw(redraws, n, i);
      Ok((pop.members[i], pop.members[j]))
  }

  /** The number of rounds a tournament of the requested size runs: the size,
      capped at the population size. */
  function Rounds(tournamentSize: int, count: nat): (t: int)
    ensures t <= count
  {
    if tournamentSize > count then count else tournamentSize
  }

  /** The member drawn in round k of a tournament. */
  function Sampled(pop: Population, picks: seq<nat>, k: int): Individual
    requires 0 <= k < |picks| && |pop.members| > 0
  {
    pop.members[Pick(picks[k], |pop.members|)]
  }

  /** `tournamentSelection`: draws `Rounds` members and keeps the first one
      of the highest fitness seen; no rounds leave no winner (`null`). */
  method TournamentSelection(pop: Population, tournamentSize: int, picks: seq<nat>) returns (r: Option<Individual>)
    requires |picks| >= Rounds(tournamentSize, |pop.members|)
    ensures r.Some? <==> Rounds(tournamentSize, |pop.members|) > 0
    ensures r.Some? ==> r.value in pop.members
    ensures r.Some? ==> forall k :: 0 <= k < Rounds(tournamentSize, |pop.members|) ==>
                          AtLeast(r.value.fitness, Sampled(pop, picks, k).fitness)
    ensures r.Some? ==> exists k :: 0 <= k < Rounds(tournamentSize, |pop.members|)
                          && r.value == Sampled(pop, picks, k)
                          && forall j :: 0 <= j < k ==> Better(r.value.fitness, Sampled(pop, picks, j).fitness)
  {
    var t := Rounds(tournamentSize, |pop.members|);
    r := None;
    var i := 0;
    while i < t
      invariant 0 <= i && (i > 0 ==> i <= t)
      invariant r.Some? <==> i > 0
      invariant r.Some? ==> r.value in pop.members
      invariant r.Some? ==> forall k :: 0 <= k < i ==> AtLeast(r.value.fitness, Sampled(pop, picks, k).fitness)
      invariant r.Some? ==> exists k :: 0 <= k < i && r.value == Sampled(pop, picks, k)
                              && forall j :: 0 <= j < k ==> Better(r.value.fitness, Sampled(pop, picks, j).fitness)
    {
      var candidate := Sampled(pop, picks, i);
      if r.None? || Better(candidate.fitness, r.value.fitness) {
        r := Some(candidate);
      }
      i := i + 1;
    }
  }
}

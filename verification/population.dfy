/** A fixed-capacity, ordered collection of individuals with a "sorted" flag.
    Adding or replacing a member clears the flag; `SortByFitness` sets it.  The
    sort is the stable descending sort that `Collections.sort` performs with
    the individuals' `compareTo`. */
module Populations {
  import opened Wrappers
  import opened Individuals

  datatype Population = Population(capacity: int, members: seq<Individual>, sorted: bool)

  /** Best first: every member is at least as fit as every later one. */
  predicate NonIncreasing(s: seq<Individual>) {
    forall i, j :: 0 <= i < j < |s| ==> AtLeast(s[i].fitness, s[j].fitness)
  }

  /** What every operation keeps: a positive capacity that the count never
      exceeds, and a sorted flag that is only set over a sorted sequence. */
  predicate Valid(p: Population) {
    && 0 < p.capacity
    && |p.members| <= p.capacity
    && (p.sorted ==> NonIncreasing(p.members))
  }

  /** The constructor: rejects a capacity of 0 or less; starts empty and unsorted. */
  function New(capacity: int): (r: Result<Population>)
    ensures r.Ok? <==> capacity > 0
    ensures r.Err? ==> r.error == NonPositiveCapacity
    ensures r.Ok? ==> Valid(r.value) && r.value.capacity == capacity
    ensures r.Ok? ==> r.value.members == [] && !r.value.sorted
  {
    if capacity <= 0 then Err(NonPositiveCapacity) else Ok(Population(capacity, [], false))
  }

  /** The random constructor: `capacity` random individuals of the given
      length, `coins[i]` holding the draws for individual i. */
  function RandomPopulation(capacity: int, length: nat, coins: seq<seq<bool>>): (r: Result<Population>)
    requires capacity > 0 ==> |coins| >= capacity
    requires forall i :: 0 <= i < |coins| ==> |coins[i]| >= length
    ensures r.Ok? <==> capacity > 0
    ensures r.Ok? ==> Valid(r.value) && r.value.capacity == capacity && !r.value.sorted
    ensures r.Ok? ==> |r.value.members| == capacity
    ensures r.Ok? ==> forall i :: 0 <= i < capacity ==>
                        r.value.members[i] == RandomIndividual(length, coins[i])
  {
    if capacity <= 0 then Err(NonPositiveCapacity)
    else Ok(Population(capacity, seq(capacity, i requires 0 <= i < capacity => RandomIndividual(length, coins[i])), false))
  }

  /** `isFull`. */
  function IsFull(p: Population): bool {
    |p.members| >= p.capacity
  }

  /** `addIndividual`: fails when full, otherwise appends and clears the flag. */
  function Add(p: Population, x: Individual): (r: Result<Population>)
    requires Valid(p)
    ensures r.Ok? <==> !IsFull(p)
    ensures r.Err? ==> r.error == PopulationFull
    ensures r.Ok? ==> Valid(r.value) && r.value.capacity == p.capacity && !r.value.sorted
    ensures r.Ok? ==> |r.value.members| == |p.members| + 1 && r.value.members[|p.members|] == x
    ensures r.Ok? ==> r.value.members[..|p.members|] == p.members
  {
    if |p.members| >= p.capacity then Err(PopulationFull)
    else Ok(p.(members := p.members + [x], sorted := false))
  }

  /** `setIndividual`: replaces one slot and clears the flag. */
  function SetMember(p: Population, i: int, x: Individual): (r: Population)
    requires Valid(p) && 0 <= i < |p.members|
    ensures Valid(r) && r.capacity == p.capacity && !r.sorted
    ensures |r.members| == |p.members| && r.members[i] == x
    ensures forall j :: 0 <= j < |p.members| && j != i ==> r.members[j] == p.members[j]
  {
    p.(members := p.members[i := x], sorted := false)
  }

  /** `clear`: empties the population and clears the flag. */
  function Clear(p: Population): (r: Population)
    requires Valid(p)
    ensures Valid(r) && r.capacity == p.capacity
    ensures r.members == [] && !r.sorted && !IsFull(r)
  {
    p.(members := [], sorted := false)
  }

  /** A population is full exactly when adding to it fails. */
  lemma FullIffAddFails(p: Population, x: Individual)
    requires Valid(p)
    ensures IsFull(p) <==> Add(p, x).Err?
    ensures IsFull(p) <==> |p.members| == p.capacity
  {
  }

  /** The members of `s` with fitness `f`, in their order in `s`. */
  function WithFitness(s: seq<Individual>, f: Fitness): seq<Individual> {
    if |s| == 0 then []
    else (if s[0].fitness == f then [s[0]] else []) + WithFitness(s[1..], f)
  }

  /** Inserts `x` before the first member it is at least as fit as, so that it
      lands ahead of the equally fit members that came after it. */
  function Insert(x: Individual, s: seq<Individual>): (r: seq<Individual>)
    requires NonIncreasing(s)
    ensures NonIncreasing(r)
    ensures multiset(r) == multiset(s) + multiset{x}
  {
    if |s| == 0 || AtLeast(x.fitness, s[0].fitness) then
      ConsNonIncreasing(x, s);
      [x] + s
    else
      var t := Insert(x, s[1..]);
      HeadLeads(x, s, t);
      ConsNonIncreasing(s[0], t);
      assert s == [s[0]] + s[1..];
      [s[0]] + t
  }

  /** When `x` goes behind the head, the head is at least as fit as `x` and
      as every later member, so it leads whatever the rest becomes. */
  lemma HeadLeads(x: Individual, s: seq<Individual>, t: seq<Individual>)
    requires NonIncreasing(s) && |s| > 0 && !AtLeast(x.fitness, s[0].fitness)
    requires multiset(t) == multiset(s[1..]) + multiset{x}
    ensures forall y :: y in t ==> AtLeast(s[0].fitness, y.fitness)
  {
    forall y | y in t ensures AtLeast(s[0].fitness, y.fitness) {
      assert y in multiset(t);
      if y != x {
        assert y in s[1..];
        var k :| 0 <= k < |s[1..]| && s[1..][k] == y;
        assert s[k + 1] == y;
      }
    }
  }

  /** Putting a member at the front keeps the order when it is at least as
      fit as the first member, or as every member. */
  lemma ConsNonIncreasing(h: Individual, t: seq<Individual>)
    requires NonIncreasing(t)
    requires (|t| > 0 && AtLeast(h.fitness, t[0].fitness)) || forall y :: y in t ==> AtLeast(h.fitness, y.fitness)
    ensures NonIncreasing([h] + t)
  {
    var r := [h] + t;
    forall i, j | 0 <= i < j < |r| ensures AtLeast(r[i].fitness, r[j].fitness) {
      if i == 0 {
        assert r[j] == t[j - 1];
        if j > 1 && |t| > 0 && AtLeast(h.fitness, t[0].fitness) {
          assert AtLeast(t[0].fitness, t[j - 1].fitness);
        }
      } else {
        assert r[i] == t[i - 1] && r[j] == t[j - 1];
      }
    }
  }

  /** Insertion keeps, for every fitness value, the order of the members that
      have it: `x` goes ahead of the equally fit members of `s`. */
  lemma {:induction false} InsertKeepsGroups(x: Individual, s: seq<Individual>, f: Fitness)
    requires NonIncreasing(s)
    ensures WithFitness(Insert(x, s), f) == WithFitness([x] + s, f)
  {
    if |s| == 0 || AtLeast(x.fitness, s[0].fitness) {
    } else {
      var t := Insert(x, s[1..]);
      InsertKeepsGroups(x, s[1..], f);
      var r := [s[0]] + t;
      assert r[1..] == t;
      assert ([x] + s)[1..] == s;
      assert ([x] + s[1..])[1..] == s[1..];
      assert WithFitness(r, f) == (if s[0].fitness == f then [s[0]] else []) + WithFitness(t, f);
      assert WithFitness(s, f) == (if s[0].fitness == f then [s[0]] else []) + WithFitness(s[1..], f);
    }
  }

  /** Two sequences that hold, for every fitness value, the same members in
      the same order. */
  ghost predicate WithFitnessPreserved(a: seq<Individual>, b: seq<Individual>) {
    forall f :: WithFitness(a, f) == WithFitness(b, f)
  }

  /** Stable descending insertion sort. */
  function SortMembers(s: seq<Individual>): (r: seq<Individual>)
    ensures NonIncreasing(r)
    ensures multiset(r) == multiset(s) && |r| == |s|
    ensures WithFitnessPreserved(r, s)
  {
    if |s| == 0 then []
    else
      var t := SortMembers(s[1..]);
      var r := Insert(s[0], t);
      assert s == [s[0]] + s[1..];
      assert |r| == |multiset(r)|;
      InsertSortedTail(s, t);
      r
  }

  /** Inserting the head into the sorted tail keeps every fitness group of
      the whole sequence in order. */
  lemma InsertSortedTail(s: seq<Individual>, t: seq<Individual>)
    requires |s| > 0 && NonIncreasing(t) && WithFitnessPreserved(t, s[1..])
    ensures WithFitnessPreserved(Insert(s[0], t), s)
  {
    forall f ensures WithFitness(Insert(s[0], t), f) == WithFitness(s, f) {
      InsertKeepsGroups(s[0], t, f);
      assert ([s[0]] + t)[1..] == t;
      assert WithFitness([s[0]] + t, f) == (if s[0].fitness == f then [s[0]] else []) + WithFitness(t, f);
    }
  }

  /** `sortByFitness`: a permutation in non-increasing fitness order that keeps
      equally fit members in their previous order; the flag is set. */
  function SortByFitness(p: Population): (r: Population)
    requires Valid(p)
    ensures Valid(r) && r.sorted && r.capacity == p.capacity
    ensures NonIncreasing(r.members)
    ensures multiset(r.members) == multiset(p.members) && |r.members| == |p.members|
    ensures forall f :: WithFitness(r.members, f) == WithFitness(p.members, f)
  {
    Population(p.capacity, SortMembers(p.members), true)
  }

  /** Every member of `WithFitness(s, f)` is a member of `s` with fitness `f`. */
  lemma {:induction false} WithFitnessMembers(s: seq<Individual>, f: Fitness, x: Individual)
    ensures x in WithFitness(s, f) <==> x in s && x.fitness == f
  {
    if |s| > 0 {
      WithFitnessMembers(s[1..], f, x);
      assert s == [s[0]] + s[1..];
    }
  }

  /** A stable descending order is unique: two best-first sequences that agree
      on the order of every group of equally fit members are equal.  So
      `SortMembers` yields exactly what any stable descending sort yields. */
  lemma {:induction false} StableSortUnique(a: seq<Individual>, b: seq<Individual>)
    requires NonIncreasing(a) && NonIncreasing(b)
    requires forall f :: WithFitness(a, f) == WithFitness(b, f)
    ensures a == b
  {
    if |a| == 0 {
      if |b| > 0 {
        WithFitnessMembers(b, b[0].fitness, b[0]);
        WithFitnessMembers(a, b[0].fitness, b[0]);
      }
    } else if |b| == 0 {
      WithFitnessMembers(a, a[0].fitness, a[0]);
      WithFitnessMembers(b, a[0].fitness, a[0]);
    } else {
      var fa, fb := a[0].fitness, b[0].fitness;
      WithFitnessMembers(a, fa, a[0]);
      WithFitnessMembers(b, fa, a[0]);
      WithFitnessMembers(b, fb, b[0]);
      WithFitnessMembers(a, fb, b[0]);
      assert fa == fb;
      assert a[0] == b[0] by {
        assert WithFitness(a, fa)[0] == a[0];
        assert WithFitness(b, fa)[0] == b[0];
      }
      forall f ensures WithFitness(a[1..], f) == WithFitness(b[1..], f) {
        var head := if a[0].fitness == f then [a[0]] else [];
        assert WithFitness(a, f) == head + WithFitness(a[1..], f);
        assert WithFitness(b, f) == head + WithFitness(b[1..], f);
        assert WithFitness(a, f) == WithFitness(b, f);
        assert WithFitness(a[1..], f) == (head + WithFitness(a[1..], f))[|head|..];
        assert WithFitness(b[1..], f) == (head + WithFitness(b[1..], f))[|head|..];
      }
      StableSortUnique(a[1..], b[1..]);
      assert a == [a[0]] + a[1..];
      assert b == [b[0]] + b[1..];
    }
  }

  /** A front member at least as fit as every other member keeps its place
      through the stable sort. */
  lemma SortKeepsLeader(p: Population)
    requires Valid(p) && |p.members| > 0
    requires forall x :: x in p.members ==> AtLeast(p.members[0].fitness, x.fitness)
    ensures SortByFitness(p).members[0] == p.members[0]
  {
    var s := SortByFitness(p).members;
    var u := p.members;
    assert s[0] in multiset(u);
    assert u[0] in multiset(s);
    var k :| 0 <= k < |s| && s[k] == u[0];
    if k > 0 {
      assert AtLeast(s[0].fitness, s[k].fitness);
    }
    var f := u[0].fitness;
    assert s[0].fitness == f;
    assert WithFitness(s, f) == [s[0]] + WithFitness(s[1..], f);
    assert WithFitness(u, f) == [u[0]] + WithFitness(u[1..], f);
    assert WithFitness(s, f)[0] == WithFitness(u, f)[0];
  }

  /** `getBest`: fails on an empty population; otherwise sorts if the flag is
      clear and returns the first member, which is the fittest.  The result
      pairs the (possibly sorted) population with that member. */
  function GetBest(p: Population): (r: Result<(Population, Individual)>)
    requires Valid(p)
    ensures r.Ok? <==> |p.members| > 0
    ensures r.Err? ==> r.error == EmptyPopulation
    ensures r.Ok? ==> Valid(r.value.0) && r.value.0.sorted && r.value.0.capacity == p.capacity
    ensures r.Ok? ==> multiset(r.value.0.members) == multiset(p.members)
    ensures r.Ok? && p.sorted ==> r.value.0 == p
    ensures r.Ok? ==> forall f :: WithFitness(r.value.0.members, f) == WithFitness(p.members, f)
    ensures r.Ok? ==> r.value.1 in p.members && r.value.1 == r.value.0.members[0]
    ensures r.Ok? ==> forall x :: x in p.members ==> AtLeast(r.value.1.fitness, x.fitness)
  {
    if |p.members| == 0 then Err(EmptyPopulation)
    else
      var q := if p.sorted then p else SortByFitness(p);
      assert q.members[0] in multiset(p.members);
      assert forall x :: x in p.members ==> x in multiset(q.members);
      Ok((q, q.members[0]))
  }

  /** `getWorst`: as `GetBest`, with the last member, which is the least fit. */
  function GetWorst(p: Population): (r: Result<(Population, Individual)>)
    requires Valid(p)
    ensures r.Ok? <==> |p.members| > 0
    ensures r.Err? ==> r.error == EmptyPopulation
    ensures r.Ok? ==> Valid(r.value.0) && r.value.0.sorted && r.value.0.capacity == p.capacity
    ensures r.Ok? ==> multiset(r.value.0.members) == multiset(p.members)
    ensures r.Ok? && p.sorted ==> r.value.0 == p
    ensures r.Ok? ==> forall f :: WithFitness(r.value.0.members, f) == WithFitness(p.members, f)
    ensures r.Ok? ==> r.value.1 in p.members && r.value.1 == r.value.0.members[|r.value.0.members| - 1]
    ensures r.Ok? ==> forall x :: x in p.members ==> AtLeast(x.fitness, r.value.1.fitness)
  {
    if |p.members| == 0 then Err(EmptyPopulation)
    else
      var q := if p.sorted then p else SortByFitness(p);
      var n := |q.members| - 1;
      var last := q.members[n];
      assert last in multiset(p.members);
      assert forall x :: x in p.members ==> AtLeast(x.fitness, last.fitness) by {
        forall x | x in p.members ensures AtLeast(x.fitness, last.fitness) {
          assert x in multiset(q.members);
          var k :| 0 <= k < |q.members| && q.members[k] == x;
          if k < n {
            assert AtLeast(q.members[k].fitness, q.members[n].fitness);
          }
        }
      }
      Ok((q, last))
  }

  /** `copy`: a new population of the same capacity, filled member by member
      with copies through `Add`, then given the original's flag. */
  method CopyPopulation(p: Population) returns (r: Result<Population>)
    requires Valid(p)
    ensures r == Ok(p)
  {
    var c := New(p.capacity).value;
    var i := 0;
    while i < |p.members|
      invariant 0 <= i <= |p.members|
      invariant Valid(c) && c.capacity == p.capacity
      invariant c.members == p.members[..i]
    {
      c := Add(c, Copy(p.members[i])).value;
      i := i + 1;
    }
    assert p.members[..i] == p.members;
    c := c.(sorted := p.sorted);
    return Ok(c);
  }
}

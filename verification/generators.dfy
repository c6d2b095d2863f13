/** The deterministic builders of `GraphGenerator`.  Each one starts from an
    edgeless graph and calls `addEdge` on a fixed list of vertex pairs, in the
    order its loops visit them; the list is data here, and `BuildFrom` adds it. */
module Generators {
  import opened Wrappers
  import opened Graphs

  /** A call `addEdge(u, v)`, as the pair (u, v). */
  type Edge = (int, int)

  /** Every edge joins two distinct vertices below n. */
  predicate Fits(n: int, es: seq<Edge>) {
    forall k :: 0 <= k < |es| ==> 0 <= es[k].0 < n && 0 <= es[k].1 < n && es[k].0 != es[k].1
  }

  /** No unordered pair occurs twice in the list. */
  predicate Simple(es: seq<Edge>) {
    forall k, l :: 0 <= k < l < |es| ==> es[k] != es[l] && es[k] != (es[l].1, es[l].0)
  }

  /** None of the edges is in the graph yet. */
  predicate Fresh(g: Graph, es: seq<Edge>) {
    forall k :: 0 <= k < |es| && 0 <= es[k].0 < |g.adj| ==> es[k].1 !in g.adj[es[k].0]
  }

  /** The lexicographic order on pairs. */
  predicate Before(p: Edge, q: Edge) {
    p.0 < q.0 || (p.0 == q.0 && p.1 < q.1)
  }

  /** The list is strictly increasing in the lexicographic order. */
  predicate Increasing(es: seq<Edge>) {
    forall k, l :: 0 <= k < l < |es| ==> Before(es[k], es[l])
  }

  /** Every edge names its smaller endpoint first. */
  predicate Ascending(es: seq<Edge>) {
    forall k :: 0 <= k < |es| ==> es[k].0 < es[k].1
  }

  /** A strictly increasing list of pairs (smaller endpoint first) names each
      unordered pair at most once. */
  lemma OrderedSimple(es: seq<Edge>)
    requires Increasing(es) && Ascending(es)
    ensures Simple(es)
  {
    forall k, l | 0 <= k < l < |es| ensures es[k] != es[l] && es[k] != (es[l].1, es[l].0) {
      assert Before(es[k], es[l]);
      assert es[l].0 < es[l].1;
    }
  }

  /** Two increasing lists, every element of the first before every element of
      the second, make an increasing list. */
  lemma IncreasingAppend(a: seq<Edge>, b: seq<Edge>)
    requires Increasing(a) && Increasing(b)
    requires forall k, l :: 0 <= k < |a| && 0 <= l < |b| ==> Before(a[k], b[l])
    ensures Increasing(a + b)
  {
    var c := a + b;
    forall k, l | 0 <= k < l < |c| ensures Before(c[k], c[l]) {
      if l < |a| {
        assert c[k] == a[k] && c[l] == a[l];
      } else if k < |a| {
        assert c[k] == a[k] && c[l] == b[l - |a|];
      } else {
        assert c[k] == b[k - |a|] && c[l] == b[l - |a|];
      }
    }
  }

  /** An increasing list has as many distinct elements as entries. */
  lemma {:induction false} IncreasingCard(es: seq<Edge>)
    requires Increasing(es)
    ensures |set e | e in es| == |es|
  {
    if |es| > 0 {
      var rest := es[1..];
      assert Increasing(rest) by {
        forall k, l | 0 <= k < l < |rest| ensures Before(rest[k], rest[l]) {
          assert rest[k] == es[k + 1] && rest[l] == es[l + 1];
        }
      }
      IncreasingCard(rest);
      assert es[0] !in rest by {
        forall l | 0 <= l < |rest| ensures rest[l] != es[0] {
          assert Before(es[0], es[l + 1]);
        }
      }
      assert (set e | e in es) == {es[0]} + (set e | e in rest) by {
        assert es == [es[0]] + rest;
      }
    }
  }

  /** How the facts about a list pass to its tail once the head edge is added. */
  lemma TailFacts(g: Graph, h: Graph, es: seq<Edge>)
    requires Valid(g) && |es| > 0 && 0 <= es[0].0 < g.n && 0 <= es[0].1 < g.n && es[0].0 != es[0].1
    requires h == AddEdge(g, es[0].0, es[0].1).value
    ensures Fits(g.n, es) <==> Fits(h.n, es[1..])
    ensures Simple(es) ==> Simple(es[1..])
    ensures Simple(es) && Fresh(g, es) ==> Fresh(h, es[1..]) && es[0].1 !in g.adj[es[0].0]
    ensures forall x, y :: (x, y) in es <==> (x, y) == es[0] || (x, y) in es[1..]
  {
    var e, rest := es[0], es[1..];
    assert es == [e] + rest;
    if Fits(h.n, rest) {
      forall k | 0 <= k < |es| ensures 0 <= es[k].0 < g.n && 0 <= es[k].1 < g.n && es[k].0 != es[k].1 {
        if k > 0 {
          assert es[k] == rest[k - 1];
        }
      }
    }
    if Fits(g.n, es) {
      forall k | 0 <= k < |rest| ensures 0 <= rest[k].0 < h.n && 0 <= rest[k].1 < h.n && rest[k].0 != rest[k].1 {
        assert rest[k] == es[k + 1];
      }
    }
    if Simple(es) {
      forall k, l | 0 <= k < l < |rest| ensures rest[k] != rest[l] && rest[k] != (rest[l].1, rest[l].0) {
        assert rest[k] == es[k + 1] && rest[l] == es[l + 1];
      }
      if Fresh(g, es) {
        forall k | 0 <= k < |rest| && 0 <= rest[k].0 < |h.adj| ensures rest[k].1 !in h.adj[rest[k].0] {
          assert rest[k] == es[k + 1];
          assert es[0] != es[k + 1] && es[0] != (es[k + 1].1, es[k + 1].0);
        }
      }
    }
  }

  /** The loop bodies of the builders: `addEdge` on each pair in turn.  The
      first pair that is out of range or a self-loop ends the build with the
      exception `addEdge` throws. */
  function BuildFrom(g: Graph, es: seq<Edge>): (r: Result<Graph>)
    requires Valid(g)
    ensures r.Ok? <==> Fits(g.n, es)
    ensures r.Ok? ==> Valid(r.value) && r.value.n == g.n
    ensures r.Ok? ==> forall u, v :: 0 <= u < g.n ==>
              (v in r.value.adj[u] <==> v in g.adj[u] || (u, v) in es || (v, u) in es)
    ensures r.Ok? && Simple(es) && Fresh(g, es) ==> r.value.numEdges == g.numEdges + |es|
    decreases |es|
  {
    if |es| == 0 then Ok(g)
    else
      var h :- AddEdge(g, es[0].0, es[0].1);
      TailFacts(g, h, es);
      BuildFrom(h, es[1..])
  }

  /** The shape every builder shares: `new Graph(n)`, which rejects a count of
      0 or less, then `addEdge` on each pair of the list. */
  function BuildNew(n: int, es: seq<Edge>): (r: Result<Graph>)
    ensures r.Ok? <==> n > 0 && Fits(n, es)
    ensures n <= 0 ==> r == Err(NonPositiveVertexCount)
    ensures r.Ok? ==> Valid(r.value) && r.value.n == n
    ensures r.Ok? ==> forall u, v :: 0 <= u < n ==> (v in r.value.adj[u] <==> (u, v) in es || (v, u) in es)
    ensures r.Ok? && Simple(es) ==> r.value.numEdges == |es|
  {
    var g :- New(n);
    assert Fresh(g, es);
    BuildFrom(g, es)
  }

  /** The inner loop `for (v = from; v < n; v++) if (keep(u, v)) addEdge(u, v)`. */
  function Row(keep: (int, int) -> bool, u: int, from: int, n: int): (r: seq<Edge>)
    ensures forall k :: 0 <= k < |r| ==> r[k].0 == u && from <= r[k].1 < n
    ensures forall x, y :: (x, y) in r <==> x == u && from <= y < n && keep(u, y)
    ensures Increasing(r)
    decreases n - from
  {
    if from >= n then []
    else
      var head := if keep(u, from) then [(u, from)] else [];
      var tail := Row(keep, u, from + 1, n);
      IncreasingAppend(head, tail);
      head + tail
  }

  /** The double loop over the pairs u < v from row `from` on, keeping the pairs
      `keep` accepts. */
  function Upper(keep: (int, int) -> bool, from: int, n: int): (r: seq<Edge>)
    ensures forall k :: 0 <= k < |r| ==> from <= r[k].0 < r[k].1 < n
    ensures forall x, y :: (x, y) in r <==> from <= x < y < n && keep(x, y)
    ensures Increasing(r)
    decreases n - from
  {
    if from >= n then []
    else
      var head := Row(keep, from, from + 1, n);
      var tail := Upper(keep, from + 1, n);
      IncreasingAppend(head, tail);
      head + tail
  }

  /** With every pair kept, the triangle above row `from` holds
      (n - from)(n - from - 1) / 2 pairs. */
  lemma {:induction false} UpperAllCount(keep: (int, int) -> bool, from: int, n: int)
    requires forall x, y :: keep(x, y)
    requires from <= n
    ensures 2 * |Upper(keep, from, n)| == (n - from) * (n - from - 1)
    decreases n - from
  {
    if from < n {
      RowAllCount(keep, from, from + 1, n);
      UpperAllCount(keep, from + 1, n);
      var m := n - from;
      assert m * (m - 1) == 2 * (m - 1) + (m - 1) * (m - 2);
    }
  }

  /** With every pair kept, a row from column `from` holds n - from pairs. */
  lemma {:induction false} RowAllCount(keep: (int, int) -> bool, u: int, from: int, n: int)
    requires forall x, y :: keep(x, y)
    requires from <= n
    ensures |Row(keep, u, from, n)| == n - from
    decreases n - from
  {
    if from < n {
      RowAllCount(keep, u, from + 1, n);
    }
  }

  /** The pairs u < v of vertices below n, row by row. */
  function CompleteEdges(n: int): seq<Edge> {
    Upper((_, _) => true, 0, n)
  }

  /** `generateCompleteGraph`: every two distinct vertices are adjacent, so the
      graph has n(n - 1)/2 edges; a vertex count of 0 or less is rejected by
      the graph constructor. */
  function Complete(n: int): (r: Result<Graph>)
    ensures r.Ok? <==> n > 0
    ensures r.Err? ==> r.error == NonPositiveVertexCount
    ensures r.Ok? ==> Valid(r.value) && r.value.n == n
    ensures r.Ok? ==> forall u, v :: 0 <= u < n && 0 <= v < n ==> (v in r.value.adj[u] <==> u != v)
    ensures r.Ok? ==> 2 * r.value.numEdges == n * (n - 1)
  {
    if n <= 0 then Err(NonPositiveVertexCount)
    else
      var es := CompleteEdges(n);
      OrderedSimple(es);
      UpperAllCount((_, _) => true, 0, n);
      var r := BuildNew(n, es);
      CompleteAdjacency(n, r.value);
      r
  }

  /** The neighbourhoods of the built complete graph. */
  lemma CompleteAdjacency(n: int, h: Graph)
    requires 0 < n && |h.adj| == n
    requires forall u, v :: 0 <= u < n ==> (v in h.adj[u] <==> (u, v) in CompleteEdges(n) || (v, u) in CompleteEdges(n))
    ensures forall u, v :: 0 <= u < n && 0 <= v < n ==> (v in h.adj[u] <==> u != v)
  {
    forall u, v | 0 <= u < n && 0 <= v < n ensures v in h.adj[u] <==> u != v {
      if u < v {
        assert (u, v) in CompleteEdges(n);
      } else if v < u {
        assert (v, u) in CompleteEdges(n);
      }
    }
  }

  /** Any single vertex dominates a complete graph. */
  lemma CompleteDominatedByOne(n: int, v: int)
    requires 0 <= v < n
    ensures Complete(n).Ok? && Dominates(Complete(n).value, {v})
  {
    var g := Complete(n).value;
    forall w | 0 <= w < n && w != v ensures v in g.adj[w] {
    }
  }

  /** Entry (i, j) of the matrix exists and is 1. */
  predicate Marked(m: seq<seq<int>>, i: int, j: int) {
    0 <= i < |m| && 0 <= j < |m[i]| && m[i][j] == 1
  }

  /** The pairs i < j whose matrix entry is 1, row by row. */
  function MatrixEdges(m: seq<seq<int>>): seq<Edge> {
    Upper((i, j) => Marked(m, i, j), 0, |m|)
  }

  /** The set of pairs i < j whose matrix entry is 1. */
  function MarkedPairs(m: seq<seq<int>>): set<Edge> {
    set i, j | 0 <= i < j < |m| && Marked(m, i, j) :: (i, j)
  }

  /** `fromAdjacencyMatrix`: reads only the upper triangle, so vertices i < j
      are adjacent exactly when entry (i, j) is 1 whatever entry (j, i) holds,
      and there is one edge per such entry.  An empty matrix is rejected by the
      graph constructor; every row but the last must reach column n - 1. */
  function FromAdjacencyMatrix(m: seq<seq<int>>): (r: Result<Graph>)
    requires forall i :: 0 <= i < |m| - 1 ==> |m[i]| >= |m|
    ensures r.Ok? <==> |m| > 0
    ensures r.Err? ==> r.error == NonPositiveVertexCount
    ensures r.Ok? ==> Valid(r.value) && r.value.n == |m|
    ensures r.Ok? ==> forall i, j :: 0 <= i < j < |m| ==>
              (j in r.value.adj[i] <==> m[i][j] == 1) && (i in r.value.adj[j] <==> m[i][j] == 1)
    ensures r.Ok? ==> r.value.numEdges == |MarkedPairs(m)|
  {
    OrderedSimple(MatrixEdges(m));
    MatrixEdgesCount(m);
    BuildNew(|m|, MatrixEdges(m))
  }

  /** The matrix's edge list names each marked pair once. */
  lemma MatrixEdgesCount(m: seq<seq<int>>)
    ensures |MatrixEdges(m)| == |MarkedPairs(m)|
  {
    var es := MatrixEdges(m);
    IncreasingCard(es);
    assert (set e | e in es) == MarkedPairs(m);
  }

  /** The pairs (i, i + 1) for i < n - 1. */
  function PathEdges(n: int): (r: seq<Edge>)
    ensures forall x, y :: (x, y) in r <==> 0 <= x && y == x + 1 && y < n
    ensures Increasing(r) && Ascending(r) && |r| == (if n > 1 then n - 1 else 0)
  {
    var r := seq(if n > 1 then n - 1 else 0, i => (i, i + 1));
    assert forall x, y :: (x, y) in r <==> 0 <= x && y == x + 1 && y < n by {
      forall x, y ensures (x, y) in r <==> 0 <= x && y == x + 1 && y < n {
        if 0 <= x && y == x + 1 && y < n {
          assert r[x] == (x, y);
        }
      }
    }
    r
  }

  /** `generatePathGraph`: consecutive vertices are adjacent and no others,
      n - 1 edges; a vertex count of 0 or less is rejected by the graph
      constructor. */
  function Path(n: int): (r: Result<Graph>)
    ensures r.Ok? <==> n > 0
    ensures r.Err? ==> r.error == NonPositiveVertexCount
    ensures r.Ok? ==> Valid(r.value) && r.value.n == n && r.value.numEdges == n - 1
    ensures r.Ok? ==> forall u, v :: 0 <= u < n && 0 <= v < n ==>
              (v in r.value.adj[u] <==> v == u + 1 || u == v + 1)
  {
    OrderedSimple(PathEdges(n));
    BuildNew(n, PathEdges(n))
  }

  /** The next vertex around a ring of n. */
  function Succ(n: int, u: int): int {
    if u == n - 1 then 0 else u + 1
  }

  /** The previous vertex around a ring of n. */
  function Pred(n: int, u: int): int {
    if u == 0 then n - 1 else u - 1
  }

  /** The path's pairs, then the closing pair (n - 1, 0). */
  function CycleEdges(n: int): seq<Edge> {
    PathEdges(n) + [(n - 1, 0)]
  }

  /** With three or more vertices the closing pair is not a path pair. */
  lemma CycleSimple(n: int)
    requires n >= 3
    ensures Simple(CycleEdges(n))
  {
    var p, es := PathEdges(n), CycleEdges(n);
    OrderedSimple(p);
    forall k, l | 0 <= k < l < |es| ensures es[k] != es[l] && es[k] != (es[l].1, es[l].0) {
      assert es[k] == p[k];
      if l < |p| {
        assert es[l] == p[l];
      } else {
        assert p[k] in p;
      }
    }
  }

  /** `generateCycleGraph`: rejects fewer than 3 vertices; each vertex is
      adjacent to exactly its successor and its predecessor around the ring,
      so every degree is 2, and there are n edges. */
  function Cycle(n: int): (r: Result<Graph>)
    ensures r.Ok? <==> n >= 3
    ensures r.Err? ==> r.error == CycleTooSmall
    ensures r.Ok? ==> Valid(r.value) && r.value.n == n && r.value.numEdges == n
    ensures r.Ok? ==> forall u :: 0 <= u < n ==>
              r.value.adj[u] == {Succ(n, u), Pred(n, u)} && Succ(n, u) != Pred(n, u)
  {
    if n < 3 then Err(CycleTooSmall)
    else
      CycleSimple(n);
      CycleFits(n);
      var h := BuildNew(n, CycleEdges(n)).value;
      CycleAdjacency(n, h);
      Ok(h)
  }

  /** The ring's pairs join distinct vertices below n, one pair per vertex. */
  lemma CycleFits(n: int)
    requires n >= 3
    ensures Fits(n, CycleEdges(n)) && |CycleEdges(n)| == n
  {
    var p, es := PathEdges(n), CycleEdges(n);
    forall k | 0 <= k < |es| ensures 0 <= es[k].0 < n && 0 <= es[k].1 < n && es[k].0 != es[k].1 {
      if k < |p| {
        assert es[k] == p[k] && p[k] in p;
      }
    }
  }

  /** The pairs of the ring: consecutive vertices and the closing pair. */
  lemma CycleEdgesMembers(n: int)
    ensures forall x, y :: (x, y) in CycleEdges(n) <==> (0 <= x && y == x + 1 && y < n) || (x, y) == (n - 1, 0)
  {
  }

  /** The neighbourhoods of the built ring. */
  lemma CycleAdjacency(n: int, h: Graph)
    requires n >= 3 && |h.adj| == n
    requires forall u, v :: 0 <= u < n ==> (v in h.adj[u] <==> (u, v) in CycleEdges(n) || (v, u) in CycleEdges(n))
    ensures forall u :: 0 <= u < n ==> h.adj[u] == {Succ(n, u), Pred(n, u)} && Succ(n, u) != Pred(n, u)
  {
    forall u | 0 <= u < n ensures h.adj[u] == {Succ(n, u), Pred(n, u)} {
      forall v ensures v in h.adj[u] <==> v == Succ(n, u) || v == Pred(n, u) {
        CycleNeighbour(n, h, u, v);
      }
    }
  }

  /** One vertex pair of the built ring. */
  lemma CycleNeighbour(n: int, h: Graph, u: int, v: int)
    requires n >= 3 && |h.adj| == n && 0 <= u < n
    requires forall u, v :: 0 <= u < n ==> (v in h.adj[u] <==> (u, v) in CycleEdges(n) || (v, u) in CycleEdges(n))
    ensures v in h.adj[u] <==> v == Succ(n, u) || v == Pred(n, u)
  {
    CycleEdgesMembers(n);
    assert v in h.adj[u] <==> (u, v) in CycleEdges(n) || (v, u) in CycleEdges(n);
  }

  /** The pairs (0, i) for 1 <= i < n. */
  function StarEdges(n: int): (r: seq<Edge>)
    ensures forall x, y :: (x, y) in r <==> x == 0 && 1 <= y < n
    ensures Increasing(r) && Ascending(r) && |r| == (if n > 1 then n - 1 else 0)
  {
    var r := seq(if n > 1 then n - 1 else 0, i => (0, i + 1));
    assert forall y :: 1 <= y < n ==> r[y - 1] == (0, y);
    r
  }

  /** `generateStarGraph`: rejects fewer than 2 vertices; vertex 0 is adjacent
      to every other vertex and no two others are adjacent, n - 1 edges. */
  function Star(n: int): (r: Result<Graph>)
    ensures r.Ok? <==> n >= 2
    ensures r.Err? ==> r.error == StarTooSmall
    ensures r.Ok? ==> Valid(r.value) && r.value.n == n && r.value.numEdges == n - 1
    ensures r.Ok? ==> forall u, v :: 0 <= u < n && 0 <= v < n ==>
              (v in r.value.adj[u] <==> (u == 0) != (v == 0))
  {
    if n < 2 then Err(StarTooSmall)
    else
      OrderedSimple(StarEdges(n));
      BuildNew(n, StarEdges(n))
  }

  /** The centre alone dominates a star. */
  lemma StarDominatedByCentre(n: int)
    requires n >= 2
    ensures Star(n).Ok? && Dominates(Star(n).value, {0})
  {
    var g := Star(n).value;
    forall w | 0 < w < n ensures 0 in g.adj[w] {
    }
  }

  /** The seventeen pairs of `generateSampleGraph10`, in call order. */
  const SampleEdges: seq<Edge> := [
    (0, 1), (0, 2), (1, 2), (1, 3), (2, 3), (2, 4), (3, 4), (3, 5), (4, 5),
    (4, 6), (5, 6), (5, 7), (6, 7), (6, 8), (7, 8), (7, 9), (8, 9)]

  /** The sample list is in increasing order, smaller endpoint first. */
  lemma SampleEdgesOrdered()
    ensures Increasing(SampleEdges) && Ascending(SampleEdges) && Fits(10, SampleEdges) && |SampleEdges| == 17
  {
    var es := SampleEdges;
    assert forall k :: 0 <= k < 17 ==> es[k] == (k / 2, k / 2 + 1 + k % 2);
  }

  /** The sample list pairs every vertex with the next two: the square of the
      path on ten vertices. */
  lemma SampleEdgesMembers()
    ensures forall x, y :: (x, y) in SampleEdges <==> 0 <= x && x < y <= x + 2 && y < 10
  {
    var es := SampleEdges;
    assert forall k :: 0 <= k < 17 ==> es[k] == (k / 2, k / 2 + 1 + k % 2);
    forall x, y | 0 <= x && x < y <= x + 2 && y < 10 ensures (x, y) in es {
      assert es[2 * x + y - x - 1] == (x, y);
    }
  }

  /** The vertices of the square of the ten-vertex path are each adjacent to
      the vertices at distance 1 and 2. */
  predicate SquareOfPath10(g: Graph) {
    && Valid(g) && g.n == 10
    && forall u, v :: 0 <= u < 10 && 0 <= v < 10 ==> (v in g.adj[u] <==> u != v && -2 <= u - v <= 2)
  }

  /** `generateSampleGraph10`: ten vertices, each adjacent to the vertices at
      distance 1 and 2 along the line, 17 edges. */
  function Sample10(): (g: Graph)
    ensures SquareOfPath10(g) && g.numEdges == 17
  {
    SampleEdgesOrdered();
    OrderedSimple(SampleEdges);
    var g := BuildNew(10, SampleEdges).value;
    SampleAdjacency(g);
    g
  }

  /** The neighbourhoods of the built sample graph. */
  lemma SampleAdjacency(g: Graph)
    requires Valid(g) && g.n == 10
    requires forall u, v :: 0 <= u < 10 ==> (v in g.adj[u] <==> (u, v) in SampleEdges || (v, u) in SampleEdges)
    ensures SquareOfPath10(g)
  {
    SampleEdgesMembers();
  }

  /** Vertices 2 and 7 dominate the sample graph. */
  lemma SampleDominatedByTwo()
    ensures Dominates(Sample10(), {2, 7})
  {
    SquareDominatedByTwo(Sample10());
  }

  lemma SquareDominatedByTwo(g: Graph)
    requires SquareOfPath10(g)
    ensures Dominates(g, {2, 7})
  {
    forall v | 0 <= v < 10 ensures v in {2, 7} || exists w :: w in {2, 7} && w in g.adj[v] {
      var w := if v <= 4 then 2 else 7;
      if v != w {
        assert w in g.adj[v];
      }
    }
  }

  /** No single vertex dominates the sample graph, so its smallest dominating
      set has two vertices. */
  lemma SampleNeedsTwo(w: int)
    ensures !Dominates(Sample10(), {w})
  {
    SquareNeedsTwo(Sample10(), w);
  }

  lemma SquareNeedsTwo(g: Graph, w: int)
    requires SquareOfPath10(g)
    ensures !Dominates(g, {w})
  {
    var far := if w <= 4 then 9 else 0;
    assert far !in {w};
    assert w !in g.adj[far];
    assert !(exists x :: x in {w} && x in g.adj[far]);
  }

  /** Products grow with a non-negative factor. */
  lemma MulMonotone(a: int, b: int, c: int)
    requires a <= b && 0 <= c
    ensures a * c <= b * c
  {
    assert b * c - a * c == (b - a) * c;
  }

  /** The product a * b as repeated addition, so that the grid proofs can
      reason about rows one at a time without general multiplication. */
  function Times(a: int, b: int): int
    decreases if a < 0 then -a else a
  {
    if a == 0 then 0
    else if a > 0 then Times(a - 1, b) + b
    else Times(a + 1, b) - b
  }

  /** Repeated addition is multiplication. */
  lemma {:induction false} TimesIsProduct(a: int, b: int)
    ensures Times(a, b) == a * b
    decreases if a < 0 then -a else a
  {
    if a > 0 {
      TimesIsProduct(a - 1, b);
    } else if a < 0 {
      TimesIsProduct(a + 1, b);
    }
  }

  /** One more row adds one more row width. */
  lemma TimesStep(a: int, b: int)
    ensures Times(a + 1, b) == Times(a, b) + b
  {
  }

  /** Rows further down start at larger vertex numbers. */
  lemma TimesMonotone(a: int, a': int, b: int)
    requires a <= a' && 0 <= b
    ensures Times(a, b) <= Times(a', b)
  {
    TimesIsProduct(a, b);
    TimesIsProduct(a', b);
    MulMonotone(a, a', b);
  }

  /** The vertex `r * cols + c` of row r, column c. */
  function Cell(cols: int, r: int, c: int): int {
    Times(r, cols) + c
  }

  /** Distinct grid positions have distinct vertex numbers. */
  lemma CellInjective(cols: int, r1: int, c1: int, r2: int, c2: int)
    requires 0 <= c1 < cols && 0 <= c2 < cols && Cell(cols, r1, c1) == Cell(cols, r2, c2)
    ensures r1 == r2 && c1 == c2
  {
    if r1 < r2 {
      TimesStep(r1, cols);
      TimesMonotone(r1 + 1, r2, cols);
    } else if r2 < r1 {
      TimesStep(r2, cols);
      TimesMonotone(r2 + 1, r1, cols);
    }
  }

  /** Every cell of a rows-by-cols grid is one of its rows * cols vertices. */
  lemma CellInRange(rows: int, cols: int, r: int, c: int)
    requires 0 <= r < rows && 0 <= c < cols
    ensures 0 <= Cell(cols, r, c) < rows * cols
  {
    TimesStep(r, cols);
    TimesMonotone(0, r, cols);
    TimesMonotone(r + 1, rows, cols);
    TimesIsProduct(rows, cols);
  }

  /** The body of the inner loop at row r, column c: the pair to the right
      neighbour, then the pair to the neighbour below, each when it exists. */
  function CellEdges(rows: int, cols: int, r: int, c: int): seq<Edge> {
    var current := Cell(cols, r, c);
    (if c < cols - 1 then [(current, current + 1)] else [])
      + (if r < rows - 1 then [(current, current + cols)] else [])
  }

  /** The grid pair leaving cell (r, c) towards (x, y): right or down. */
  predicate GridPair(rows: int, cols: int, r: int, c: int, x: int, y: int) {
    x == Cell(cols, r, c) && ((c < cols - 1 && y == x + 1) || (r < rows - 1 && y == x + cols))
  }

  /** Row r of the grid from column `from` on. */
  function GridCells(rows: int, cols: int, r: int, from: int): (es: seq<Edge>)
    requires 0 <= from <= cols
    ensures forall k :: 0 <= k < |es| ==> Cell(cols, r, from) <= es[k].0 < es[k].1
    ensures forall k :: 0 <= k < |es| ==> es[k].0 < Cell(cols, r, cols)
    ensures forall k :: 0 <= k < |es| ==> es[k].1 < Cell(cols, r, cols) + (if r < rows - 1 then cols else 0)
    ensures Increasing(es)
    ensures |es| == (if from < cols then cols - 1 - from else 0) + (if r < rows - 1 then cols - from else 0)
    decreases cols - from
  {
    if from == cols then []
    else
      var head := CellEdges(rows, cols, r, from);
      var tail := GridCells(rows, cols, r, from + 1);
      IncreasingAppend(head, tail);
      head + tail
  }

  /** The pairs of row r from column `from` on are the right and down pairs of
      its cells. */
  lemma {:induction false} GridCellsMembers(rows: int, cols: int, r: int, from: int)
    requires 0 <= from <= cols
    ensures forall x, y :: (x, y) in GridCells(rows, cols, r, from) <==>
              exists c :: from <= c < cols && GridPair(rows, cols, r, c, x, y)
    decreases cols - from
  {
    if from < cols {
      GridCellsMembers(rows, cols, r, from + 1);
      var head, tail := CellEdges(rows, cols, r, from), GridCells(rows, cols, r, from + 1);
      assert GridCells(rows, cols, r, from) == head + tail;
      assert forall x, y :: (x, y) in head <==> GridPair(rows, cols, r, from, x, y);
    }
  }

  /** The rows of the grid from row `from` on. */
  function GridRows(rows: int, cols: int, from: int): (es: seq<Edge>)
    requires 0 <= from && 0 < cols
    ensures forall k :: 0 <= k < |es| ==> Cell(cols, from, 0) <= es[k].0 < es[k].1 < rows * cols
    ensures Increasing(es)
    ensures |es| == if from < rows then (rows - from) * (cols - 1) + (rows - from - 1) * cols else 0
    decreases rows - from
  {
    if from >= rows then []
    else
      var head := GridCells(rows, cols, from, 0);
      var tail := GridRows(rows, cols, from + 1);
      GridRowsStep(rows, cols, from, head, tail);
      head + tail
  }

  /** The ordering that joins one row to the rows below it. */
  lemma GridRowsStep(rows: int, cols: int, from: int, head: seq<Edge>, tail: seq<Edge>)
    requires 0 <= from < rows && 0 < cols
    requires head == GridCells(rows, cols, from, 0)
    requires forall k :: 0 <= k < |tail| ==> Cell(cols, from + 1, 0) <= tail[k].0 < tail[k].1 < rows * cols
    requires Increasing(tail)
    requires |tail| == if from + 1 < rows then (rows - from - 1) * (cols - 1) + (rows - from - 2) * cols else 0
    ensures forall k :: 0 <= k < |head + tail| ==>
              Cell(cols, from, 0) <= (head + tail)[k].0 < (head + tail)[k].1 < rows * cols
    ensures Increasing(head + tail)
    ensures |head + tail| == (rows - from) * (cols - 1) + (rows - from - 1) * cols
  {
    CellBelow(cols, from);
    IncreasingAppend(head, tail);
    LastRowBound(rows, cols, from);
    RowCountStep(rows, cols, from);
    forall k | 0 <= k < |head + tail|
      ensures Cell(cols, from, 0) <= (head + tail)[k].0 < (head + tail)[k].1 < rows * cols
    {
      if k >= |head| {
        assert (head + tail)[k] == tail[k - |head|];
      }
    }
  }

  /** The first cell of the next row follows the last cell of this one. */
  lemma CellBelow(cols: int, r: int)
    ensures Cell(cols, r + 1, 0) == Cell(cols, r, cols)
  {
    TimesStep(r, cols);
  }

  /** The pairs of row r stay below rows * cols. */
  lemma LastRowBound(rows: int, cols: int, r: int)
    requires 0 <= r < rows && 0 < cols
    ensures Cell(cols, r, cols) + (if r < rows - 1 then cols else 0) <= rows * cols
  {
    TimesStep(r, cols);
    TimesStep(r + 1, cols);
    TimesIsProduct(rows, cols);
    if r < rows - 1 {
      TimesMonotone(r + 2, rows, cols);
    }
  }

  /** A row holds cols - 1 right pairs and, above the last row, cols down pairs. */
  lemma RowCountStep(rows: int, cols: int, from: int)
    requires 0 <= from < rows
    ensures (cols - 1) + (if from < rows - 1 then cols else 0)
            + (if from + 1 < rows then (rows - from - 1) * (cols - 1) + (rows - from - 2) * cols else 0)
            == (rows - from) * (cols - 1) + (rows - from - 1) * cols
  {
    var m := rows - from;
    assert m * (cols - 1) == (m - 1) * (cols - 1) + (cols - 1);
    assert (m - 1) * cols == (m - 2) * cols + cols;
  }

  /** The pairs of the rows from row `from` on are the right and down pairs of
      their cells. */
  lemma {:induction false} GridRowsMembers(rows: int, cols: int, from: int)
    requires 0 <= from && 0 < cols
    ensures forall x, y :: (x, y) in GridRows(rows, cols, from) <==>
              exists r, c :: from <= r < rows && 0 <= c < cols && GridPair(rows, cols, r, c, x, y)
    decreases rows - from
  {
    if from < rows {
      GridRowsMembers(rows, cols, from + 1);
      GridCellsMembers(rows, cols, from, 0);
      var head, tail := GridCells(rows, cols, from, 0), GridRows(rows, cols, from + 1);
      assert GridRows(rows, cols, from) == head + tail;
      forall x, y ensures (x, y) in head + tail <==>
                            exists r, c :: from <= r < rows && 0 <= c < cols && GridPair(rows, cols, r, c, x, y) {
        if (x, y) in head {
          var c :| 0 <= c < cols && GridPair(rows, cols, from, c, x, y);
          assert from <= from < rows && 0 <= c < cols && GridPair(rows, cols, from, c, x, y);
        }
        if exists r, c :: from <= r < rows && 0 <= c < cols && GridPair(rows, cols, r, c, x, y) {
          var r, c :| from <= r < rows && 0 <= c < cols && GridPair(rows, cols, r, c, x, y);
          if r == from {
            assert (x, y) in head;
          } else {
            assert (x, y) in tail;
          }
        }
      }
    }
  }

  /** The pairs `generateGridGraph` adds, row by row and column by column. */
  function GridEdges(rows: int, cols: int): seq<Edge>
    requires 0 < cols
  {
    GridRows(rows, cols, 0)
  }

  /** (x, y) is the right or down pair of some cell of the grid. */
  ghost predicate InGrid(rows: int, cols: int, x: int, y: int) {
    exists r, c :: 0 <= r < rows && 0 <= c < cols && GridPair(rows, cols, r, c, x, y)
  }

  /** The vertices next to cell (r, c): right, left, below and above, each
      when it exists. */
  predicate Beside(rows: int, cols: int, r: int, c: int, v: int) {
    var x := Cell(cols, r, c);
    || (c < cols - 1 && v == x + 1)
    || (c > 0 && v == x - 1)
    || (r < rows - 1 && v == x + cols)
    || (r > 0 && v == x - cols)
  }

  /** `generateGridGraph`: rejects a non-positive row or column count; the
      vertex of row r, column c is adjacent exactly to its horizontal and
      vertical neighbours, giving rows (cols - 1) + (rows - 1) cols edges. */
  function Grid(rows: int, cols: int): (r: Result<Graph>)
    ensures r.Ok? <==> rows > 0 && cols > 0
    ensures r.Err? ==> r.error == NonPositiveGrid
    ensures r.Ok? ==> Valid(r.value) && r.value.n == rows * cols
    ensures r.Ok? ==> r.value.numEdges == rows * (cols - 1) + (rows - 1) * cols
    ensures r.Ok? ==> forall i, j :: 0 <= i < rows && 0 <= j < cols ==> 0 <= Cell(cols, i, j) < rows * cols
    ensures r.Ok? ==> forall i, j, v :: 0 <= i < rows && 0 <= j < cols ==>
              (v in r.value.adj[Cell(cols, i, j)] <==> Beside(rows, cols, i, j, v))
  {
    if rows <= 0 || cols <= 0 then Err(NonPositiveGrid)
    else
      MulMonotone(1, rows, cols);
      var es := GridEdges(rows, cols);
      OrderedSimple(es);
      var h := BuildNew(rows * cols, es).value;
      GridAdjacency(rows, cols, h);
      Ok(h)
  }

  /** The neighbourhoods of the built grid. */
  lemma GridAdjacency(rows: int, cols: int, h: Graph)
    requires 0 < rows && 0 < cols && |h.adj| == rows * cols
    requires forall u, v :: 0 <= u < rows * cols ==>
               (v in h.adj[u] <==> (u, v) in GridEdges(rows, cols) || (v, u) in GridEdges(rows, cols))
    ensures forall i, j :: 0 <= i < rows && 0 <= j < cols ==> 0 <= Cell(cols, i, j) < rows * cols
    ensures forall i, j, v :: 0 <= i < rows && 0 <= j < cols ==>
              (v in h.adj[Cell(cols, i, j)] <==> Beside(rows, cols, i, j, v))
  {
    forall i, j | 0 <= i < rows && 0 <= j < cols ensures 0 <= Cell(cols, i, j) < rows * cols {
      CellInRange(rows, cols, i, j);
    }
    forall i, j, v | 0 <= i < rows && 0 <= j < cols
      ensures v in h.adj[Cell(cols, i, j)] <==> Beside(rows, cols, i, j, v)
    {
      AdjacentInGrid(rows, cols, h, i, j, v);
      GridNeighbour(rows, cols, h, i, j, v);
    }
  }

  /** In the built grid, adjacency is being joined by a grid pair. */
  lemma AdjacentInGrid(rows: int, cols: int, h: Graph, i: int, j: int, v: int)
    requires 0 <= i < rows && 0 <= j < cols && |h.adj| == rows * cols && 0 <= Cell(cols, i, j) < |h.adj|
    requires forall u, v :: 0 <= u < rows * cols ==>
               (v in h.adj[u] <==> (u, v) in GridEdges(rows, cols) || (v, u) in GridEdges(rows, cols))
    ensures v in h.adj[Cell(cols, i, j)] <==> InGrid(rows, cols, Cell(cols, i, j), v) || InGrid(rows, cols, v, Cell(cols, i, j))
  {
    GridRowsMembers(rows, cols, 0);
  }

  /** One vertex pair of the built grid. */
  lemma GridNeighbour(rows: int, cols: int, h: Graph, i: int, j: int, v: int)
    requires 0 <= i < rows && 0 <= j < cols && 0 <= Cell(cols, i, j) < |h.adj|
    requires v in h.adj[Cell(cols, i, j)] <==> InGrid(rows, cols, Cell(cols, i, j), v) || InGrid(rows, cols, v, Cell(cols, i, j))
    ensures v in h.adj[Cell(cols, i, j)] <==> Beside(rows, cols, i, j, v)
  {
    LeavingPair(rows, cols, i, j, v);
    EnteringPair(rows, cols, i, j, v);
    BesidePair(rows, cols, i, j, v);
  }

  /** A pair leaving cell (i, j) goes right or down. */
  lemma LeavingPair(rows: int, cols: int, i: int, j: int, v: int)
    requires 0 <= i < rows && 0 <= j < cols
    ensures InGrid(rows, cols, Cell(cols, i, j), v) ==> Beside(rows, cols, i, j, v)
  {
    if InGrid(rows, cols, Cell(cols, i, j), v) {
      var r, c :| 0 <= r < rows && 0 <= c < cols && GridPair(rows, cols, r, c, Cell(cols, i, j), v);
      CellInjective(cols, i, j, r, c);
    }
  }

  /** A pair entering cell (i, j) comes from the left or from above. */
  lemma EnteringPair(rows: int, cols: int, i: int, j: int, v: int)
    requires 0 <= i < rows && 0 <= j < cols
    ensures InGrid(rows, cols, v, Cell(cols, i, j)) ==> Beside(rows, cols, i, j, v)
  {
    var x := Cell(cols, i, j);
    if InGrid(rows, cols, v, x) {
      var r, c :| 0 <= r < rows && 0 <= c < cols && GridPair(rows, cols, r, c, v, x);
      if c < cols - 1 && x == v + 1 {
        CellInjective(cols, i, j, r, c + 1);
      } else {
        TimesStep(r, cols);
        CellInjective(cols, i, j, r + 1, c);
      }
    }
  }

  /** Every horizontal or vertical neighbour is joined to cell (i, j) by a
      grid pair in one direction or the other. */
  lemma BesidePair(rows: int, cols: int, i: int, j: int, v: int)
    requires 0 <= i < rows && 0 <= j < cols
    ensures Beside(rows, cols, i, j, v) ==> InGrid(rows, cols, Cell(cols, i, j), v) || InGrid(rows, cols, v, Cell(cols, i, j))
  {
    var x := Cell(cols, i, j);
    if j < cols - 1 && v == x + 1 {
      assert GridPair(rows, cols, i, j, x, v);
    } else if j > 0 && v == x - 1 {
      assert GridPair(rows, cols, i, j - 1, v, x);
    } else if i < rows - 1 && v == x + cols {
      assert GridPair(rows, cols, i, j, x, v);
    } else if i > 0 && v == x - cols {
      TimesStep(i - 1, cols);
      assert GridPair(rows, cols, i - 1, j, v, x);
    }
  }
}

/** An undirected graph on vertices 0 .. n-1 kept as adjacency sets: symmetric,
    without self-loops, ignoring duplicate edges, with an edge counter. */
module Graphs {
  import opened Wrappers

  /** Largest Java `int`; the statistics start the minimum degree there. */
  const IntMax: int := 0x7fff_ffff

  datatype Graph = Graph(n: int, adj: seq<set<int>>, numEdges: int)

  /** The sum of the degrees of all vertices. */
  function SumDegrees(adj: seq<set<int>>): nat {
    if |adj| == 0 then 0 else SumDegrees(adj[..|adj| - 1]) + |adj[|adj| - 1]|
  }

  /** What every operation keeps: one adjacency set per vertex, neighbours in
      range, no self-loops, symmetric adjacency, and an edge counter that is
      half the sum of the degrees. */
  predicate Valid(g: Graph) {
    && g.n > 0
    && |g.adj| == g.n
    && (forall u, v {:trigger v in g.adj[u]} :: 0 <= u < g.n && v in g.adj[u] ==> 0 <= v < g.n && v != u && u in g.adj[v])
    && 2 * g.numEdges == SumDegrees(g.adj)
  }

  /** The vertices 0 .. n-1. */
  function Vertices(n: nat): (r: set<int>)
    ensures |r| == n
    ensures forall v :: v in r <==> 0 <= v < n
  {
    if n == 0 then {} else Vertices(n - 1) + {n - 1}
  }

  /** n vertices without neighbours. */
  function EmptyAdjacency(n: nat): (adj: seq<set<int>>)
    ensures |adj| == n && forall v :: 0 <= v < n ==> adj[v] == {}
  {
    seq(n, _ => {})
  }

  lemma {:induction false} SumDegreesEmpty(n: nat)
    ensures SumDegrees(EmptyAdjacency(n)) == 0
  {
    if n > 0 {
      assert EmptyAdjacency(n)[..n - 1] == EmptyAdjacency(n - 1);
      SumDegreesEmpty(n - 1);
    }
  }

  /** Replacing one adjacency set changes the degree sum by the change in
      that set's size. */
  lemma {:induction false} SumDegreesUpdate(adj: seq<set<int>>, i: int, s: set<int>)
    requires 0 <= i < |adj|
    ensures SumDegrees(adj[i := s]) == SumDegrees(adj) - |adj[i]| + |s|
  {
    var k := |adj| - 1;
    if i < k {
      assert adj[i := s][..k] == adj[..k][i := s];
      SumDegreesUpdate(adj[..k], i, s);
    } else {
      assert adj[i := s][..k] == adj[..k];
    }
  }

  /** The constructor: rejects a vertex count of 0 or less; no edges. */
  function New(n: int): (r: Result<Graph>)
    ensures r.Ok? <==> n > 0
    ensures r.Err? ==> r.error == NonPositiveVertexCount
    ensures r.Ok? ==> Valid(r.value) && r.value.n == n && r.value.numEdges == 0
    ensures r.Ok? ==> forall v :: 0 <= v < n ==> r.value.adj[v] == {}
  {
    if n <= 0 then Err(NonPositiveVertexCount)
    else
      SumDegreesEmpty(n);
      Ok(Graph(n, EmptyAdjacency(n), 0))
  }

  /** `validateVertex`. */
  function ValidateVertex(g: Graph, v: int): (r: Result<int>)
    ensures r.Ok? <==> 0 <= v < g.n
    ensures r.Ok? ==> r.value == v
    ensures r.Err? ==> r.error == VertexOutOfBounds(v)
  {
    if v < 0 || v >= g.n then Err(VertexOutOfBounds(v)) else Ok(v)
  }

  /** `addEdge`: validates u, then v, then rejects a self-loop; an edge that is
      already present changes nothing, a new one joins both adjacency sets and
      counts once. */
  function AddEdge(g: Graph, u: int, v: int): (r: Result<Graph>)
    requires Valid(g)
    ensures r.Ok? <==> 0 <= u < g.n && 0 <= v < g.n && u != v
    ensures !(0 <= u < g.n) ==> r == Err(VertexOutOfBounds(u))
    ensures 0 <= u < g.n && !(0 <= v < g.n) ==> r == Err(VertexOutOfBounds(v))
    ensures 0 <= u < g.n && u == v ==> r == Err(SelfLoop)
    ensures r.Ok? ==> Valid(r.value) && r.value.n == g.n
    ensures r.Ok? ==> v in r.value.adj[u] && u in r.value.adj[v]
    ensures r.Ok? ==> forall a :: 0 <= a < g.n ==>
              r.value.adj[a] == g.adj[a] + (if a == u then {v} else if a == v then {u} else {})
    ensures r.Ok? ==> r.value.numEdges == g.numEdges + (if v in g.adj[u] then 0 else 1)
    ensures r.Ok? && v in g.adj[u] ==> r.value == g
  {
    var _ :- ValidateVertex(g, u);
    var _ :- ValidateVertex(g, v);
    if u == v then Err(SelfLoop)
    else if v in g.adj[u] then Ok(g)
    else Ok(Join(g, u, v))
  }

  /** The graph with the new edge {u, v} joined into both adjacency sets. */
  function Join(g: Graph, u: int, v: int): (h: Graph)
    requires Valid(g) && 0 <= u < g.n && 0 <= v < g.n && u != v && v !in g.adj[u]
    ensures Valid(h) && h.n == g.n && h.numEdges == g.numEdges + 1
    ensures forall a :: 0 <= a < g.n ==>
              h.adj[a] == g.adj[a] + (if a == u then {v} else if a == v then {u} else {})
  {
    var h := Graph(g.n, g.adj[u := g.adj[u] + {v}][v := g.adj[v] + {u}], g.numEdges + 1);
    JoinDegrees(g, u, v);
    JoinAdjacency(g, u, v, h);
    h
  }

  lemma JoinDegrees(g: Graph, u: int, v: int)
    requires Valid(g) && 0 <= u < g.n && 0 <= v < g.n && u != v && v !in g.adj[u]
    ensures SumDegrees(g.adj[u := g.adj[u] + {v}][v := g.adj[v] + {u}]) == SumDegrees(g.adj) + 2
  {
    assert u !in g.adj[v];
    var adj1 := g.adj[u := g.adj[u] + {v}];
    assert |g.adj[u] + {v}| == |g.adj[u]| + 1;
    assert |g.adj[v] + {u}| == |g.adj[v]| + 1;
    SumDegreesUpdate(g.adj, u, g.adj[u] + {v});
    assert adj1[v] == g.adj[v];
    SumDegreesUpdate(adj1, v, g.adj[v] + {u});
  }

  lemma JoinAdjacency(g: Graph, u: int, v: int, h: Graph)
    requires Valid(g) && 0 <= u < g.n && 0 <= v < g.n && u != v && v !in g.adj[u]
    requires h.n == g.n && h.adj == g.adj[u := g.adj[u] + {v}][v := g.adj[v] + {u}]
    ensures |h.adj| == h.n
    ensures forall a :: 0 <= a < g.n ==>
              h.adj[a] == g.adj[a] + (if a == u then {v} else if a == v then {u} else {})
    ensures forall a, b {:trigger b in h.adj[a]} :: 0 <= a < h.n && b in h.adj[a] ==> 0 <= b < h.n && b != a && a in h.adj[b]
  {
    forall a | 0 <= a < g.n
      ensures h.adj[a] == g.adj[a] + (if a == u then {v} else if a == v then {u} else {})
    {
      if a != u && a != v {
        assert h.adj[a] == g.adj[a];
      }
    }
    forall a, b | 0 <= a < h.n && b in h.adj[a]
      ensures 0 <= b < h.n && b != a && a in h.adj[b]
    {
      if b in g.adj[a] {
        assert 0 <= b < g.n && a in g.adj[b];
        assert g.adj[b] <= h.adj[b];
      } else {
        assert (a == u && b == v) || (a == v && b == u);
      }
    }
  }

  /** `getNeighbors`. */
  function Neighbors(g: Graph, v: int): (r: Result<set<int>>)
    requires Valid(g)
    ensures r.Ok? <==> 0 <= v < g.n
    ensures r.Err? ==> r.error == VertexOutOfBounds(v)
    ensures r.Ok? ==> v !in r.value && forall w :: w in r.value ==> 0 <= w < g.n && v in g.adj[w]
    ensures r.Ok? ==> r.value == g.adj[v]
  {
    var _ :- ValidateVertex(g, v);
    assert forall w :: w in g.adj[v] ==> 0 <= w < g.n && v in g.adj[w];
    Ok(g.adj[v])
  }

  /** A vertex has at most n - 1 neighbours. */
  lemma DegreeBound(g: Graph, v: int)
    requires Valid(g) && 0 <= v < g.n
    ensures |g.adj[v]| <= g.n - 1
  {
    forall w | w in g.adj[v] ensures w in Vertices(g.n) - {v} {
      assert 0 <= w < g.n && w != v;
    }
    assert |Vertices(g.n) - {v}| == g.n - 1;
    SubsetCard(g.adj[v], Vertices(g.n) - {v});
  }

  /** A subset is no larger than its superset. */
  lemma {:induction false} SubsetCard(a: set<int>, b: set<int>)
    requires a <= b
    ensures |a| <= |b|
  {
    assert b == a + (b - a);
  }

  /** `getDegree`. */
  function Degree(g: Graph, v: int): (r: Result<int>)
    requires Valid(g)
    ensures r.Ok? <==> 0 <= v < g.n
    ensures r.Err? ==> r.error == VertexOutOfBounds(v)
    ensures r.Ok? ==> r.value == |g.adj[v]| && 0 <= r.value <= g.n - 1
  {
    var _ :- ValidateVertex(g, v);
    DegreeBound(g, v);
    Ok(|g.adj[v]|)
  }

  /** `hasEdge`. */
  function HasEdge(g: Graph, u: int, v: int): (r: Result<bool>)
    requires Valid(g)
    ensures r.Ok? <==> 0 <= u < g.n && 0 <= v < g.n
    ensures !(0 <= u < g.n) ==> r == Err(VertexOutOfBounds(u))
    ensures 0 <= u < g.n && !(0 <= v < g.n) ==> r == Err(VertexOutOfBounds(v))
    ensures r.Ok? ==> (r.value <==> v in g.adj[u])
  {
    var _ :- ValidateVertex(g, u);
    var _ :- ValidateVertex(g, v);
    Ok(v in g.adj[u])
  }

  /** Adjacency is symmetric: both orders succeed or fail together and agree. */
  lemma HasEdgeSymmetric(g: Graph, u: int, v: int)
    requires Valid(g)
    ensures HasEdge(g, u, v).Ok? <==> HasEdge(g, v, u).Ok?
    ensures HasEdge(g, u, v).Ok? ==> HasEdge(g, u, v).value == HasEdge(g, v, u).value
  {
  }

  /** `copy`: a fresh graph with every edge {u, v}, u < v, of the original
      added once; the result has the same adjacency and edge count. */
  method CopyGraph(g: Graph) returns (r: Result<Graph>)
    requires Valid(g)
    ensures r == Ok(g)
  {
    var c := New(g.n).value;
    var u := 0;
    while u < g.n
      invariant 0 <= u <= g.n
      invariant Valid(c) && c.n == g.n
      invariant forall a, b :: 0 <= a < g.n ==> (b in c.adj[a] <==> b in g.adj[a] && (a < u || b < u))
    {
      var v := 0;
      while v < g.n
        invariant 0 <= v <= g.n
        invariant Valid(c) && c.n == g.n
        invariant forall a, b :: 0 <= a < g.n ==>
          (b in c.adj[a] <==> b in g.adj[a] && (a < u || b < u || (a == u && b < v && u < b) || (b == u && a < v && u < a)))
      {
        if v in g.adj[u] && u < v {
          c := AddEdge(c, u, v).value;
        }
        v := v + 1;
      }
      u := u + 1;
    }
    assert c.adj == g.adj by {
      forall a | 0 <= a < g.n ensures c.adj[a] == g.adj[a] {
        forall b ensures b in c.adj[a] <==> b in g.adj[a] {
          if b in g.adj[a] {
            assert 0 <= b < g.n;
          }
        }
      }
    }
    return Ok(c);
  }

  /** The degree part of `getStatistics`: the minimum starts at the largest
      Java int and the maximum at 0, then both are folded over every vertex. */
  method DegreeStatistics(g: Graph) returns (minDegree: int, maxDegree: int)
    requires Valid(g) && g.n <= IntMax
    ensures exists v :: 0 <= v < g.n && minDegree == |g.adj[v]|
    ensures exists v :: 0 <= v < g.n && maxDegree == |g.adj[v]|
    ensures forall v :: 0 <= v < g.n ==> minDegree <= |g.adj[v]| <= maxDegree
    ensures 0 <= minDegree <= maxDegree <= g.n - 1
  {
    minDegree, maxDegree := IntMax, 0;
    var i := 0;
    while i < g.n
      invariant 0 <= i <= g.n
      invariant i == 0 ==> minDegree == IntMax && maxDegree == 0
      invariant i > 0 ==> exists v :: 0 <= v < i && minDegree == |g.adj[v]|
      invariant i > 0 ==> exists v :: 0 <= v < i && maxDegree == |g.adj[v]|
      invariant forall v :: 0 <= v < i ==> minDegree <= |g.adj[v]| <= maxDegree
      invariant 0 <= maxDegree <= g.n - 1
    {
      var d := Degree(g, i).value;
      if d < minDegree {
        minDegree := d;
      }
      if d > maxDegree {
        maxDegree := d;
      }
      i := i + 1;
    }
  }

  /** A set D dominates the graph when every vertex is in D or adjacent to a
      member of D. */
  ghost predicate Dominates(g: Graph, d: set<int>)
    requires |g.adj| == g.n
  {
    forall v :: 0 <= v < g.n ==> v in d || exists w :: w in d && w in g.adj[v]
  }
}

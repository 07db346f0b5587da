/**
  Graphs on the vertices 0 .. n-1 given as a sequence of edges, and the
  adjacency sets `adj` that canonical_form and identify_graph_family build
  from them.
*/
module Graphs {
  import opened Sorting

  /** An edge (i, j); the enumeration only produces i < j. */
  type Edge = (int, int)

  /** Both end points of every edge are vertices 0 .. n-1. */
  predicate InRange(n: nat, edges: seq<Edge>) {
    forall k :: 0 <= k < |edges| ==> 0 <= edges[k].0 < n && 0 <= edges[k].1 < n
  }

  /** No self-loops, no edge listed twice in either orientation. */
  predicate Simple(edges: seq<Edge>) {
    && (forall k :: 0 <= k < |edges| ==> edges[k].0 != edges[k].1)
    && (forall k, l :: 0 <= k < l < |edges| ==>
          edges[k] != edges[l] && edges[k] != (edges[l].1, edges[l].0))
  }

  /** adj[v] after the edges have been added one by one: each edge (i, j)
      adds j to adj[i] and i to adj[j]. */
  function Neighbors(edges: seq<Edge>, v: int): set<int>
    decreases |edges|
  {
    if edges == [] then {}
    else
      var e := edges[|edges| - 1];
      Neighbors(edges[..|edges| - 1], v)
        + (if e.0 == v then {e.1} else {})
        + (if e.1 == v then {e.0} else {})
  }

  /** len(adj[v]) */
  function Degree(edges: seq<Edge>, v: int): nat {
    |Neighbors(edges, v)|
  }

  /** [len(adj[i]) for i in range(n)] */
  function Degrees(n: nat, edges: seq<Edge>): (r: seq<int>)
    ensures |r| == n && forall v :: 0 <= v < n ==> r[v] == Degree(edges, v)
  {
    if n == 0 then [] else Degrees(n - 1, edges) + [Degree(edges, n - 1)]
  }

  /** The whole adjacency list. */
  function NeighborTable(n: nat, edges: seq<Edge>): seq<set<int>> {
    seq(n, v => Neighbors(edges, v))
  }

  /** u is a neighbour of v exactly when (v, u) or (u, v) is an edge. */
  lemma {:induction false} NeighborsIff(edges: seq<Edge>, v: int, u: int)
    ensures u in Neighbors(edges, v) <==> (v, u) in edges || (u, v) in edges
  {
    if edges != [] {
      var p := edges[..|edges| - 1];
      NeighborsIff(p, v, u);
      assert edges == p + [edges[|edges| - 1]];
    }
  }

  /** Neighbour sets stay inside the vertex range. */
  lemma NeighborsInRange(n: nat, edges: seq<Edge>, v: int)
    requires InRange(n, edges)
    ensures forall u :: u in Neighbors(edges, v) ==> 0 <= u < n
  {
    forall u | u in Neighbors(edges, v) ensures 0 <= u < n {
      NeighborsIff(edges, v, u);
    }
  }

  /** The loop that fills `adj` in canonical_form and identify_graph_family. */
  method BuildAdjacency(n: nat, edges: seq<Edge>) returns (adj: seq<set<int>>)
    requires InRange(n, edges)
    ensures adj == NeighborTable(n, edges)
  {
    adj := seq(n, _ => {});
    for k := 0 to |edges|
      invariant |adj| == n
      invariant forall v :: 0 <= v < n ==> adj[v] == Neighbors(edges[..k], v)
    {
      var (i, j) := edges[k];
      assert edges[..k + 1][..k] == edges[..k];
      adj := adj[i := adj[i] + {j}];
      adj := adj[j := adj[j] + {i}];
    }
    assert edges[..|edges|] == edges;
  }

  /** Adding a fresh edge (a, b) raises the degrees of a and b by one each. */
  lemma DegreeStep(p: seq<Edge>, a: int, b: int, v: int)
    requires a != b && (a, b) !in p && (b, a) !in p
    ensures Degree(p + [(a, b)], v) == Degree(p, v) + Bump(a, b, v)
  {
    var q := p + [(a, b)];
    assert q[..|q| - 1] == p;
    NeighborsIff(p, v, a);
    NeighborsIff(p, v, b);
  }

  /** How many of the end points a, b equal v. */
  function Bump(a: int, b: int, v: int): nat {
    (if v == a then 1 else 0) + (if v == b then 1 else 0)
  }

  /** How many of the end points a, b lie in lo .. lo+len-1. */
  function BumpIn(a: int, b: int, lo: int, len: nat): nat {
    (if lo <= a < lo + len then 1 else 0) + (if lo <= b < lo + len then 1 else 0)
  }

  /** A pointwise bump of two entries changes the sum by the bumps in range. */
  lemma {:induction false} SumBumped(s1: seq<int>, s2: seq<int>, a: int, b: int, lo: int)
    requires |s1| == |s2|
    requires forall v :: 0 <= v < |s1| ==> s2[v] == s1[v] + Bump(a, b, lo + v)
    ensures Sum(s2) == Sum(s1) + BumpIn(a, b, lo, |s1|)
  {
    if s1 != [] {
      SumBumped(s1[1..], s2[1..], a, b, lo + 1);
    }
  }

  /** Handshake lemma: in a simple graph the degrees sum to twice the edge count. */
  lemma {:induction false} DegreeSum(n: nat, edges: seq<Edge>)
    requires InRange(n, edges) && Simple(edges)
    ensures Sum(Degrees(n, edges)) == 2 * |edges|
  {
    if edges == [] {
      ZeroDegrees(n);
    } else {
      var p := edges[..|edges| - 1];
      var (a, b) := edges[|edges| - 1];
      assert edges == p + [(a, b)];
      forall k | 0 <= k < |p| ensures p[k] != (a, b) && p[k] != (b, a) {
        assert edges[k] == p[k];
      }
      DegreeSum(n, p);
      forall v | 0 <= v < n ensures Degrees(n, edges)[v] == Degrees(n, p)[v] + Bump(a, b, 0 + v) {
        DegreeStep(p, a, b, v);
      }
      SumBumped(Degrees(n, p), Degrees(n, edges), a, b, 0);
    }
  }

  lemma {:induction false} ZeroDegrees(n: nat)
    ensures Sum(Degrees(n, [])) == 0
  {
    if n > 0 {
      ZeroDegrees(n - 1);
      SumAppend(Degrees(n - 1, []), 0);
    }
  }
}

/**
  canonical_form: a structural key for a graph made of its degree sequence
  (descending), the sorted list of (deg i, deg j) pairs over its edges and
  its edge count; the edgeless graph has the key (n zeros, ()).
*/
module Canonical {
  import opened Sorting
  import opened Graphs

  /** The two tuple shapes canonical_form returns: `(tuple([0] * n), ())`
      for no edges, `(degrees, edge_degrees, len(edges))` otherwise. */
  datatype Key =
    | EmptyKey(zeros: seq<int>)
    | StructKey(degrees: seq<int>, edgeDegrees: seq<(int, int)>, edgeCount: int)

  /** `reverse=True` order on degrees. */
  function DegreeGe(a: int, b: int): bool {
    a >= b
  }

  /** Python's order on pairs of integers. */
  function PairLe(x: (int, int), y: (int, int)): bool {
    x.0 < y.0 || (x.0 == y.0 && x.1 <= y.1)
  }

  lemma DegreeGeOrder()
    ensures Total(DegreeGe) && Transitive(DegreeGe)
  {
  }

  lemma PairLeOrder()
    ensures Total(PairLe) && Transitive(PairLe)
  {
  }

  /** [(len(adj[i]), len(adj[j])) for i, j in edges] */
  function EdgeDegreePairs(edges: seq<Edge>): (r: seq<(int, int)>)
    ensures |r| == |edges|
  {
    seq(|edges|, k requires 0 <= k < |edges| => (Degree(edges, edges[k].0), Degree(edges, edges[k].1)))
  }

  function KeyOf(n: nat, edges: seq<Edge>): Key {
    if edges == [] then EmptyKey(seq(n, _ => 0))
    else StructKey(SortBy(Degrees(n, edges), DegreeGe), SortBy(EdgeDegreePairs(edges), PairLe), |edges|)
  }

  /** canonical_form(n, edges), building the adjacency sets in a loop. */
  method CanonicalForm(n: nat, edges: seq<Edge>) returns (key: Key)
    requires InRange(n, edges)
    ensures key == KeyOf(n, edges)
  {
    if edges == [] {
      return EmptyKey(seq(n, _ => 0));
    }
    var adj := BuildAdjacency(n, edges);
    var degrees := seq(n, i requires 0 <= i < n => |adj[i]|);
    assert degrees == Degrees(n, edges);
    var edgeDegrees := seq(|edges|, k requires 0 <= k < |edges| =>
      (|adj[edges[k].0]|, |adj[edges[k].1]|));
    assert edgeDegrees == EdgeDegreePairs(edges);
    key := StructKey(SortBy(degrees, DegreeGe), SortBy(edgeDegrees, PairLe), |edges|);
  }

  /** The short key is used exactly for the edgeless graph, and it is the
      degree sequence of that graph: n zeros. */
  lemma EmptyKeyShape(n: nat, edges: seq<Edge>)
    ensures KeyOf(n, edges).EmptyKey? <==> edges == []
    ensures edges == [] ==>
      KeyOf(n, edges).zeros == Degrees(n, edges) &&
      forall v :: 0 <= v < n ==> KeyOf(n, edges).zeros[v] == 0
  {
  }

  /** For a graph with edges: the degree part is the degree sequence in
      non-increasing order, the pair part is the edge-degree list sorted,
      and the last part is the edge count. */
  lemma StructKeyShape(n: nat, edges: seq<Edge>)
    requires edges != []
    ensures KeyOf(n, edges).StructKey?
    ensures Sorted(KeyOf(n, edges).degrees, DegreeGe)
    ensures multiset(KeyOf(n, edges).degrees) == multiset(Degrees(n, edges))
    ensures Sorted(KeyOf(n, edges).edgeDegrees, PairLe)
    ensures multiset(KeyOf(n, edges).edgeDegrees) == multiset(EdgeDegreePairs(edges))
    ensures KeyOf(n, edges).edgeCount == |edges|
  {
    DegreeGeOrder();
    PairLeOrder();
    SortBySorted(Degrees(n, edges), DegreeGe);
    SortBySorted(EdgeDegreePairs(edges), PairLe);
  }

  /** In a simple graph the degree part of the key sums to 2 |E|. */
  lemma StructKeyDegreeSum(n: nat, edges: seq<Edge>)
    requires edges != [] && InRange(n, edges) && Simple(edges)
    ensures Sum(KeyOf(n, edges).degrees) == 2 * |edges|
  {
    SumSortBy(Degrees(n, edges), DegreeGe);
    DegreeSum(n, edges);
  }

  /** Equal keys mean equal edge counts and equal degree multisets. */
  lemma EqualKeys(n: nat, e1: seq<Edge>, e2: seq<Edge>)
    requires KeyOf(n, e1) == KeyOf(n, e2)
    ensures |e1| == |e2|
    ensures multiset(Degrees(n, e1)) == multiset(Degrees(n, e2))
  {
    EmptyKeyShape(n, e1);
    EmptyKeyShape(n, e2);
    if e1 != [] {
      StructKeyShape(n, e1);
      StructKeyShape(n, e2);
    }
  }

  /** The key is not invariant under relabelling: the two labelled copies
      of the path on three vertices, 0-1-2 and 1-0-2, get different keys. */
  lemma KeyMissesRelabelling()
    ensures KeyOf(3, [(0, 1), (1, 2)]) != KeyOf(3, [(0, 1), (0, 2)])
  {
    var p, q := [(0, 1), (1, 2)], [(0, 1), (0, 2)];
    PathMiddleDegrees();
    PathEndDegrees();
    var kp, kq := KeyOf(3, p), KeyOf(3, q);
    assert multiset(kp.edgeDegrees) == multiset{(1, 2), (2, 1)};
    assert multiset(kq.edgeDegrees) == multiset{(2, 1), (2, 1)};
    assert (1, 2) in multiset(kp.edgeDegrees);
  }

  lemma PathMiddleDegrees()
    ensures EdgeDegreePairs([(0, 1), (1, 2)]) == [(1, 2), (2, 1)]
  {
    var p := [(0, 1), (1, 2)];
    assert p[..1] == [(0, 1)];
    assert [(0, 1)][..0] == [];
    assert Neighbors(p, 0) == {1};
    assert Neighbors(p, 1) == {0} + {2};
    assert Neighbors(p, 2) == {1};
  }

  lemma PathEndDegrees()
    ensures EdgeDegreePairs([(0, 1), (0, 2)]) == [(2, 1), (2, 1)]
  {
    var q := [(0, 1), (0, 2)];
    assert q[..1] == [(0, 1)];
    assert [(0, 1)][..0] == [];
    assert Neighbors(q, 0) == {1} + {2};
    assert Neighbors(q, 1) == {0};
    assert Neighbors(q, 2) == {0};
  }
}

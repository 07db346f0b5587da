/**
  What the cascade of identify_graph_family names, and which of its tests
  can never win because an earlier one always matches first.
*/
module FamilyFacts {
  import opened Wrappers
  import opened Graphs
  import opened Enumeration
  import opened Text
  import opened Family

  /** n*(n-1)/2 exceeds n-1 once there are three vertices. */
  lemma PairCountAbovePath(n: nat)
    requires n >= 3
    ensures n * (n - 1) / 2 > n - 1
  {
    var a: nat := n - 3;
    var p := n * (n - 1);
    assert p == (a + 3) * (a + 2);
    assert (a + 3) * (a + 2) == a * a + 5 * a + 6;
    assert p >= 3 * (n - 1);
  }

  /** n*(n-1)/2 equals n only for n = 0 and n = 3. */
  lemma PairCountIsOrder(n: nat)
    ensures n * (n - 1) / 2 == n <==> n == 0 || n == 3
  {
    if n >= 4 {
      var a: nat := n - 4;
      var p := n * (n - 1);
      assert p == (a + 4) * (a + 3);
      assert (a + 4) * (a + 3) == a * a + 7 * a + 12;
      assert p >= 3 * n;
    } else {
      assert n == 0 || n == 1 || n == 2 || n == 3;
    }
  }

  /** A list whose set of values is a singleton is constant. */
  lemma SingleValue(s: seq<int>)
    requires |s| > 0 && |set d | d in s| == 1
    ensures forall k :: 0 <= k < |s| ==> s[k] == s[0]
  {
    var values := set d | d in s;
    assert s[0] in s;
    var rest := values - {s[0]};
    assert values == rest + {s[0]};
    assert |rest| == 0;
    assert rest == {};
    forall k | 0 <= k < |s| ensures s[k] == s[0] {
      assert s[k] in s;
      assert s[k] in values;
      assert s[k] !in rest;
    }
  }

  /** The path tests, on the edge count and the degree list. The P_2
      test never wins: with n = 2 and one edge the complete-graph test
      has matched already. */
  lemma ClassifyPath(n: nat, m: nat, degs: seq<int>, c: bool)
    requires |degs| == n && (m > 0 ==> n > 0)
    ensures Classify(n, m, degs, c) != Some(PathGraph(2))
    ensures Classify(n, m, degs, c) == Some(PathGraph(n)) <==>
      n > 2 && m == n - 1 && Count(degs, 1) == 2 && Count(degs, 2) == n - 2
  {
    if n > 2 {
      PairCountAbovePath(n);
    }
  }

  lemma ClassifyCycle(n: nat, m: nat, degs: seq<int>, c: bool)
    requires |degs| == n && (m > 0 ==> n > 0)
    ensures Classify(n, m, degs, c) == Some(Cycle(n)) <==>
      n > 0 && n != 3 && m == n && AllEqualTo(degs, 2) && c
  {
    PairCountIsOrder(n);
  }

  lemma ClassifyStar(n: nat, m: nat, degs: seq<int>, c: bool)
    requires |degs| == n && (m > 0 ==> n > 0)
    ensures Classify(n, m, degs, c) == Some(Star(n)) <==>
      n >= 4 && m == n - 1 && Max(degs) == n - 1 && Count(degs, 1) == n - 1
  {
    if n >= 3 {
      PairCountAbovePath(n);
    }
    if n == 3 && m == 2 && Max(degs) == 2 && Count(degs, 1) == 2 {
      CountTwo(degs, 1, 2);
      assert Count(degs, 2) == 1;
    }
  }

  lemma ClassifyRegular(n: nat, m: nat, degs: seq<int>, c: bool, d: nat)
    requires |degs| == n && (m > 0 ==> n > 0)
    requires Classify(n, m, degs, c) == Some(Regular(d, n))
    ensures d > 0 && forall v :: 0 <= v < n ==> degs[v] == d
  {
    SingleValue(degs);
  }

  /** The regular test wins when the degrees are one positive value and
      no earlier test matched. */
  lemma ClassifyRegularWhen(n: nat, m: nat, degs: seq<int>, c: bool)
    requires |degs| == n && m > 0 && n > 0
    requires m != n * (n - 1) / 2 && m != n - 1 && !(m == n && AllEqualTo(degs, 2) && c)
    requires |set d | d in degs| == 1 && degs[0] > 0
    ensures Classify(n, m, degs, c) == Some(Regular(degs[0], n))
  {
  }

  /** The empty graph is named first; any other graph with all n*(n-1)/2
      pairs as edges is the complete graph. */
  lemma EmptyAndCompleteFacts(n: nat, edges: seq<Edge>)
    requires InRange(n, edges)
    ensures FamilyOf(n, edges) == Some(Empty(n)) <==> edges == []
    ensures FamilyOf(n, edges) == Some(Complete(n)) <==> edges != [] && |edges| == n * (n - 1) / 2
  {
    assert |edges| > 0 ==> 0 <= edges[0].0 < n;
  }

  /** Path graphs are named only from three vertices on; "Path graph P_2"
      is never returned. */
  lemma PathFacts(n: nat, edges: seq<Edge>)
    requires InRange(n, edges)
    ensures FamilyOf(n, edges) != Some(PathGraph(2))
    ensures FamilyOf(n, edges) == Some(PathGraph(n)) <==>
      n > 2 && |edges| == n - 1 && Count(Degrees(n, edges), 1) == 2 && Count(Degrees(n, edges), 2) == n - 2
  {
    assert |edges| > 0 ==> 0 <= edges[0].0 < n;
    ClassifyPath(n, |edges|, Degrees(n, edges), Connected(NeighborTable(n, edges)));
  }

  /** Cycle graphs: n edges, every degree 2, connected, but never the
      triangle, which the complete-graph test takes first. */
  lemma CycleFacts(n: nat, edges: seq<Edge>)
    requires InRange(n, edges)
    ensures FamilyOf(n, edges) == Some(Cycle(n)) <==>
      && n > 0 && n != 3 && |edges| == n
      && AllEqualTo(Degrees(n, edges), 2)
      && Connected(NeighborTable(n, edges))
  {
    assert |edges| > 0 ==> 0 <= edges[0].0 < n;
    ClassifyCycle(n, |edges|, Degrees(n, edges), Connected(NeighborTable(n, edges)));
  }

  /** In a simple graph a vertex of degree 2 has two other vertices as
      neighbours, so a named cycle has at least four vertices. */
  lemma CycleAtLeastFour(n: nat, edges: seq<Edge>)
    requires InRange(n, edges) && Simple(edges) && FamilyOf(n, edges) == Some(Cycle(n))
    ensures n >= 4
  {
    CycleFacts(n, edges);
    var degs := Degrees(n, edges);
    var adj0 := Neighbors(edges, 0);
    assert degs[0] in degs;
    assert |adj0| == 2;
    assert 0 !in adj0 by {
      NeighborsIff(edges, 0, 0);
      forall k | 0 <= k < |edges| ensures edges[k] != (0, 0) {
      }
    }
    NeighborsInRange(n, edges, 0);
    SubsetOfRange(adj0 + {0}, n);
  }

  /** Star graphs K_{1,n-1}: named only from four vertices on, since on
      three vertices the path test takes them first. */
  lemma StarFacts(n: nat, edges: seq<Edge>)
    requires InRange(n, edges)
    ensures FamilyOf(n, edges) == Some(Star(n)) <==>
      && n >= 4 && |edges| == n - 1
      && Max(Degrees(n, edges)) == n - 1 && Count(Degrees(n, edges), 1) == n - 1
  {
    assert |edges| > 0 ==> 0 <= edges[0].0 < n;
    ClassifyStar(n, |edges|, Degrees(n, edges), Connected(NeighborTable(n, edges)));
  }

  /** A regular family has positive degree d, and every vertex has degree d. */
  lemma RegularFacts(n: nat, edges: seq<Edge>, d: nat)
    requires InRange(n, edges) && FamilyOf(n, edges) == Some(Regular(d, n))
    ensures d > 0 && forall v :: 0 <= v < n ==> Degrees(n, edges)[v] == d
  {
    assert |edges| > 0 ==> 0 <= edges[0].0 < n;
    ClassifyRegular(n, |edges|, Degrees(n, edges), Connected(NeighborTable(n, edges)), d);
  }

  // ---------------------------------------------------------------------
  // Named graphs
  // ---------------------------------------------------------------------

  lemma NeighborsAre(edges: seq<Edge>, v: int, s: set<int>)
    requires forall u :: ((v, u) in edges || (u, v) in edges) <==> u in s
    ensures Neighbors(edges, v) == s
  {
    forall u ensures u in Neighbors(edges, v) <==> u in s {
      NeighborsIff(edges, v, u);
    }
  }

  /** The complete graph on n >= 2 vertices, as the enumeration lists it. */
  lemma CompleteGraphNamed(n: nat)
    requires n >= 2
    ensures InRange(n, PossibleEdges(n))
    ensures LabelOf(FamilyOf(n, PossibleEdges(n))) == Some("Complete graph K_" + NatStr(n))
  {
    PossibleEdgesFacts(n);
    var p := PossibleEdges(n);
    assert p[0] in p;
    forall k | 0 <= k < |p| ensures 0 <= p[k].0 < n && 0 <= p[k].1 < n {
      assert p[k] in p;
    }
  }

  lemma TableAre(n: nat, e: seq<Edge>, t: seq<set<int>>)
    requires |t| == n && forall v :: 0 <= v < n ==> Neighbors(e, v) == t[v]
    ensures NeighborTable(n, e) == t
  {
  }

  /** The degrees are the sizes of the adjacency sets. */
  lemma DegreesFromTable(n: nat, e: seq<Edge>, t: seq<set<int>>, ds: seq<int>)
    requires NeighborTable(n, e) == t && |ds| == n
    requires forall v :: 0 <= v < n ==> |t[v]| == ds[v]
    ensures Degrees(n, e) == ds
  {
    forall v | 0 <= v < n ensures Degrees(n, e)[v] == ds[v] {
      assert Neighbors(e, v) == t[v];
    }
  }

  lemma TriangleNeighbors(e: seq<Edge>, v: int)
    requires e == [(0, 1), (0, 2), (1, 2)] && 0 <= v < 3
    ensures Neighbors(e, v) == [{1, 2}, {0, 2}, {0, 1}][v]
  {
    var s := [{1, 2}, {0, 2}, {0, 1}][v];
    forall u ensures ((v, u) in e || (u, v) in e) <==> u in s {
    }
    NeighborsAre(e, v, s);
  }

  lemma TriangleTable(e: seq<Edge>)
    requires e == [(0, 1), (0, 2), (1, 2)]
    ensures InRange(3, e) && NeighborTable(3, e) == [{1, 2}, {0, 2}, {0, 1}]
  {
    forall v | 0 <= v < 3 ensures Neighbors(e, v) == [{1, 2}, {0, 2}, {0, 1}][v] {
      TriangleNeighbors(e, v);
    }
    TableAre(3, e, [{1, 2}, {0, 2}, {0, 1}]);
  }

  lemma PathFourNeighbors(e: seq<Edge>, v: int)
    requires e == [(0, 1), (1, 2), (2, 3)] && 0 <= v < 4
    ensures Neighbors(e, v) == [{1}, {0, 2}, {1, 3}, {2}][v]
  {
    var s := [{1}, {0, 2}, {1, 3}, {2}][v];
    forall u ensures ((v, u) in e || (u, v) in e) <==> u in s {
    }
    NeighborsAre(e, v, s);
  }

  lemma PathFourTable(e: seq<Edge>)
    requires e == [(0, 1), (1, 2), (2, 3)]
    ensures InRange(4, e) && NeighborTable(4, e) == [{1}, {0, 2}, {1, 3}, {2}]
  {
    forall v | 0 <= v < 4 ensures Neighbors(e, v) == [{1}, {0, 2}, {1, 3}, {2}][v] {
      PathFourNeighbors(e, v);
    }
    TableAre(4, e, [{1}, {0, 2}, {1, 3}, {2}]);
  }

  lemma CycleFourNeighbors(e: seq<Edge>, v: int)
    requires e == [(0, 1), (1, 2), (2, 3), (0, 3)] && 0 <= v < 4
    ensures Neighbors(e, v) == [{1, 3}, {0, 2}, {1, 3}, {0, 2}][v]
  {
    var s := [{1, 3}, {0, 2}, {1, 3}, {0, 2}][v];
    forall u ensures ((v, u) in e || (u, v) in e) <==> u in s {
    }
    NeighborsAre(e, v, s);
  }

  lemma CycleFourTable(e: seq<Edge>)
    requires e == [(0, 1), (1, 2), (2, 3), (0, 3)]
    ensures InRange(4, e) && NeighborTable(4, e) == [{1, 3}, {0, 2}, {1, 3}, {0, 2}]
  {
    forall v | 0 <= v < 4 ensures Neighbors(e, v) == [{1, 3}, {0, 2}, {1, 3}, {0, 2}][v] {
      CycleFourNeighbors(e, v);
    }
    TableAre(4, e, [{1, 3}, {0, 2}, {1, 3}, {0, 2}]);
  }

  lemma StarFourNeighbors(e: seq<Edge>, v: int)
    requires e == [(0, 1), (0, 2), (0, 3)] && 0 <= v < 4
    ensures Neighbors(e, v) == [{1, 2, 3}, {0}, {0}, {0}][v]
  {
    var s := [{1, 2, 3}, {0}, {0}, {0}][v];
    forall u ensures ((v, u) in e || (u, v) in e) <==> u in s {
    }
    NeighborsAre(e, v, s);
  }

  lemma StarFourTable(e: seq<Edge>)
    requires e == [(0, 1), (0, 2), (0, 3)]
    ensures InRange(4, e) && NeighborTable(4, e) == [{1, 2, 3}, {0}, {0}, {0}]
  {
    forall v | 0 <= v < 4 ensures Neighbors(e, v) == [{1, 2, 3}, {0}, {0}, {0}][v] {
      StarFourNeighbors(e, v);
    }
    TableAre(4, e, [{1, 2, 3}, {0}, {0}, {0}]);
  }

  lemma TwoTrianglesNeighbors(e: seq<Edge>, v: int)
    requires e == [(0, 1), (0, 2), (1, 2), (3, 4), (3, 5), (4, 5)] && 0 <= v < 6
    ensures Neighbors(e, v) == [{1, 2}, {0, 2}, {0, 1}, {4, 5}, {3, 5}, {3, 4}][v]
  {
    var s := [{1, 2}, {0, 2}, {0, 1}, {4, 5}, {3, 5}, {3, 4}][v];
    forall u ensures ((v, u) in e || (u, v) in e) <==> u in s {
    }
    NeighborsAre(e, v, s);
  }

  lemma TwoTrianglesTable(e: seq<Edge>)
    requires e == [(0, 1), (0, 2), (1, 2), (3, 4), (3, 5), (4, 5)]
    ensures InRange(6, e) && NeighborTable(6, e) == [{1, 2}, {0, 2}, {0, 1}, {4, 5}, {3, 5}, {3, 4}]
  {
    forall v | 0 <= v < 6 ensures Neighbors(e, v) == [{1, 2}, {0, 2}, {0, 1}, {4, 5}, {3, 5}, {3, 4}][v] {
      TwoTrianglesNeighbors(e, v);
    }
    TableAre(6, e, [{1, 2}, {0, 2}, {0, 1}, {4, 5}, {3, 5}, {3, 4}]);
  }

  lemma TriangleConnected(adj: seq<set<int>>)
    requires adj == [{1, 2}, {0, 2}, {0, 1}]
    ensures Connected(adj)
  {
    forall v | 0 <= v < 3 ensures Reachable(adj, v) {
      var p := if v == 0 then [0] else [0, v];
      assert IsWalk(adj, p) && p[0] == 0 && p[|p| - 1] == v;
    }
  }

  lemma CycleFourConnected(adj: seq<set<int>>)
    requires adj == [{1, 3}, {0, 2}, {1, 3}, {0, 2}]
    ensures Connected(adj)
  {
    forall v | 0 <= v < 4 ensures Reachable(adj, v) {
      var p := if v == 0 then [0] else if v == 2 then [0, 1, 2] else [0, v];
      assert IsWalk(adj, p) && p[0] == 0 && p[|p| - 1] == v;
    }
  }

  /** No walk from 0 leaves the first triangle. */
  lemma TwoTrianglesDisconnected(adj: seq<set<int>>)
    requires adj == [{1, 2}, {0, 2}, {0, 1}, {4, 5}, {3, 5}, {3, 4}]
    ensures !Connected(adj)
  {
    if Reachable(adj, 3) {
      ClosedHoldsReachable(adj, {0, 1, 2}, 3);
    }
  }

  /** The cascade on the example degree sequences. */
  lemma TriangleClassified(c: bool)
    ensures Classify(3, 3, [2, 2, 2], c) == Some(Complete(3))
  {
  }

  lemma CountSnoc(s: seq<int>, y: int, x: int)
    ensures Count(s + [y], x) == Count(s, x) + (if y == x then 1 else 0)
  {
    assert (s + [y])[..|s|] == s;
  }

  lemma PathFourCount(x: int)
    requires x == 1 || x == 2
    ensures Count([1, 2, 2, 1], x) == 2
  {
    CountSnoc([], 1, x);
    assert [] + [1] == [1];
    CountSnoc([1], 2, x);
    assert [1] + [2] == [1, 2];
    CountSnoc([1, 2], 2, x);
    assert [1, 2] + [2] == [1, 2, 2];
    CountSnoc([1, 2, 2], 1, x);
    assert [1, 2, 2] + [1] == [1, 2, 2, 1];
  }

  lemma PathFourClassified(c: bool)
    ensures Classify(4, 3, [1, 2, 2, 1], c) == Some(PathGraph(4))
  {
    PathFourCount(1);
    PathFourCount(2);
    ClassifyPath(4, 3, [1, 2, 2, 1], c);
  }

  lemma CycleFourClassified()
    ensures Classify(4, 4, [2, 2, 2, 2], true) == Some(Cycle(4))
  {
    assert AllEqualTo([2, 2, 2, 2], 2);
    ClassifyCycle(4, 4, [2, 2, 2, 2], true);
  }

  lemma StarFourClassified(c: bool)
    ensures Classify(4, 3, [3, 1, 1, 1], c) == Some(Star(4))
  {
    CountSnoc([], 3, 1);
    CountSnoc([3], 1, 1);
    CountSnoc([3, 1], 1, 1);
    CountSnoc([3, 1, 1], 1, 1);
    assert Max([3, 1, 1, 1]) == 3 && Count([3, 1, 1, 1], 1) == 3;
    ClassifyStar(4, 3, [3, 1, 1, 1], c);
  }

  lemma TwoTrianglesClassified()
    ensures Classify(6, 6, [2, 2, 2, 2, 2, 2], false) == Some(Regular(2, 6))
  {
    var degs := [2, 2, 2, 2, 2, 2];
    assert (set d | d in degs) == {2};
    ClassifyRegularWhen(6, 6, degs, false);
  }

  lemma SmallNatStr(k: nat)
    requires k < 10
    ensures NatStr(k) == ["0123456789"[k]]
  {
  }

  lemma CompleteThreeLabel()
    ensures Label(Complete(3)) == "Complete graph K_3"
  {
    SmallNatStr(3);
  }

  lemma PathFourLabel()
    ensures Label(PathGraph(4)) == "Path graph P_4"
  {
    SmallNatStr(4);
  }

  lemma CycleFourLabel()
    ensures Label(Cycle(4)) == "Cycle graph C_4"
  {
    SmallNatStr(4);
  }

  lemma StarFourLabel()
    ensures Label(Star(4)) == "Star graph K_{1,3}"
  {
    SmallNatStr(3);
  }

  lemma TwoRegularSixLabel()
    ensures Label(Regular(2, 6)) == "2-regular graph on 6 vertices"
  {
    SmallNatStr(2);
    SmallNatStr(6);
    assert "2" + "-regular graph on " == "2-regular graph on ";
    assert "2-regular graph on " + "6" == "2-regular graph on 6";
    assert "2-regular graph on 6" + " vertices" == "2-regular graph on 6 vertices";
  }

  /** The triangle passes the cycle tests too, but is named K_3. */
  lemma TriangleNamedComplete(e: seq<Edge>)
    requires e == [(0, 1), (0, 2), (1, 2)]
    ensures InRange(3, e) && Degrees(3, e) == [2, 2, 2] && Connected(NeighborTable(3, e))
    ensures LabelOf(FamilyOf(3, e)) == Some("Complete graph K_3")
  {
    TriangleTable(e);
    DegreesFromTable(3, e, NeighborTable(3, e), [2, 2, 2]);
    TriangleConnected(NeighborTable(3, e));
    TriangleClassified(true);
    CompleteThreeLabel();
  }

  lemma PathFourNamed(e: seq<Edge>)
    requires e == [(0, 1), (1, 2), (2, 3)]
    ensures InRange(4, e)
    ensures LabelOf(FamilyOf(4, e)) == Some("Path graph P_4")
  {
    PathFourTable(e);
    DegreesFromTable(4, e, NeighborTable(4, e), [1, 2, 2, 1]);
    PathFourClassified(Connected(NeighborTable(4, e)));
    PathFourLabel();
  }

  lemma CycleFourNamed(e: seq<Edge>)
    requires e == [(0, 1), (1, 2), (2, 3), (0, 3)]
    ensures InRange(4, e)
    ensures LabelOf(FamilyOf(4, e)) == Some("Cycle graph C_4")
  {
    CycleFourTable(e);
    DegreesFromTable(4, e, NeighborTable(4, e), [2, 2, 2, 2]);
    CycleFourConnected(NeighborTable(4, e));
    CycleFourClassified();
    CycleFourLabel();
  }

  lemma StarFourNamed(e: seq<Edge>)
    requires e == [(0, 1), (0, 2), (0, 3)]
    ensures InRange(4, e)
    ensures LabelOf(FamilyOf(4, e)) == Some("Star graph K_{1,3}")
  {
    StarFourTable(e);
    DegreesFromTable(4, e, NeighborTable(4, e), [3, 1, 1, 1]);
    StarFourClassified(Connected(NeighborTable(4, e)));
    StarFourLabel();
  }

  /** Two disjoint triangles have six edges and all degrees 2, but the
      visit from vertex 0 misses the second triangle, so the cycle test
      fails and the regular test names them. */
  lemma TwoTrianglesNamedRegular(e: seq<Edge>)
    requires e == [(0, 1), (0, 2), (1, 2), (3, 4), (3, 5), (4, 5)]
    ensures InRange(6, e) && |e| == 6
    ensures !Connected(NeighborTable(6, e))
    ensures LabelOf(FamilyOf(6, e)) == Some("2-regular graph on 6 vertices")
  {
    TwoTrianglesTable(e);
    DegreesFromTable(6, e, NeighborTable(6, e), [2, 2, 2, 2, 2, 2]);
    TwoTrianglesDisconnected(NeighborTable(6, e));
    TwoTrianglesClassified();
    TwoRegularSixLabel();
  }
}

/**
  identify_graph_family: a cascade of tests on the edge count and the degree
  sequence, the first test that matches naming the family. The cycle test
  also asks for connectivity, checked by a depth-first visit from vertex 0.
*/
module Family {
  import opened Wrappers
  import opened Graphs
  import opened Text

  // ---------------------------------------------------------------------
  // Connectivity
  // ---------------------------------------------------------------------

  /** The vertices 0 .. n-1. */
  function Range(n: nat): (r: set<int>)
    ensures |r| == n && forall v :: v in r <==> 0 <= v < n
  {
    if n == 0 then {} else Range(n - 1) + {n - 1}
  }

  /** A set of vertices has at most as many members as the graph has
      vertices, and exactly as many only when it holds them all. */
  lemma {:induction false} SubsetOfRange(s: set<int>, n: nat)
    requires forall v :: v in s ==> 0 <= v < n
    ensures |s| <= n
    ensures |s| == n ==> s == Range(n)
  {
    if n > 0 {
      var t := s - {n - 1};
      SubsetOfRange(t, n - 1);
      if n - 1 in s {
        assert s == t + {n - 1};
      } else {
        assert s == t;
      }
    } else {
      assert forall x :: x in s <==> x in {};
      assert s == {};
    }
  }

  /** p is a walk along the adjacency lists adj. */
  ghost predicate IsWalk(adj: seq<set<int>>, p: seq<int>) {
    && |p| > 0
    && (forall k :: 0 <= k < |p| ==> 0 <= p[k] < |adj|)
    && (forall k :: 0 <= k < |p| - 1 ==> p[k + 1] in adj[p[k]])
  }

  /** Some walk leads from vertex 0 to v. */
  ghost predicate Reachable(adj: seq<set<int>>, v: int) {
    exists p :: IsWalk(adj, p) && p[0] == 0 && p[|p| - 1] == v
  }

  ghost predicate Connected(adj: seq<set<int>>) {
    forall v :: 0 <= v < |adj| ==> Reachable(adj, v)
  }

  /** Every neighbour named by adj is a vertex. */
  predicate WellFormed(adj: seq<set<int>>) {
    forall v, u :: 0 <= v < |adj| && u in adj[v] ==> 0 <= u < |adj|
  }

  lemma ReachStep(adj: seq<set<int>>, v: int, u: int)
    requires 0 <= v < |adj| && 0 <= u < |adj| && Reachable(adj, v) && u in adj[v]
    ensures Reachable(adj, u)
  {
    var p :| IsWalk(adj, p) && p[0] == 0 && p[|p| - 1] == v;
    var q := p + [u];
    assert IsWalk(adj, q) by {
      forall k | 0 <= k < |q| - 1 ensures q[k + 1] in adj[q[k]] {
        if k < |p| - 1 {
          assert q[k] == p[k] && q[k + 1] == p[k + 1];
        }
      }
    }
    assert q[0] == 0 && q[|q| - 1] == u;
  }

  /** A set that holds 0 and every neighbour of its members holds every
      reachable vertex. */
  lemma ClosedHoldsReachable(adj: seq<set<int>>, s: set<int>, v: int)
    requires 0 in s
    requires forall u, w :: u in s && 0 <= u < |adj| && w in adj[u] ==> w in s
    requires Reachable(adj, v)
    ensures v in s
  {
    var p :| IsWalk(adj, p) && p[0] == 0 && p[|p| - 1] == v;
    WalkStaysIn(adj, s, p, |p| - 1);
  }

  lemma {:induction false} WalkStaysIn(adj: seq<set<int>>, s: set<int>, p: seq<int>, k: nat)
    requires 0 in s
    requires forall u, w :: u in s && 0 <= u < |adj| && w in adj[u] ==> w in s
    requires IsWalk(adj, p) && p[0] == 0 && k < |p|
    ensures p[k] in s
  {
    if k > 0 {
      WalkStaysIn(adj, s, p, k - 1);
      assert p[k] in adj[p[k - 1]];
    }
  }

  /** The members of a set of vertices as a list, in ascending order. */
  method SetToSeq(s: set<int>, n: nat) returns (q: seq<int>)
    requires forall x :: x in s ==> 0 <= x < n
    ensures forall x :: x in q <==> x in s
  {
    q := [];
    for v := 0 to n
      invariant forall x :: x in q <==> x in s && x < v
    {
      if v in s {
        q := q + [v];
      }
    }
  }

  ghost predicate VisitedOk(adj: seq<set<int>>, visited: set<int>) {
    forall v :: v in visited ==> 0 <= v < |adj| && Reachable(adj, v)
  }

  ghost predicate StackOk(adj: seq<set<int>>, stack: seq<int>) {
    forall k :: 0 <= k < |stack| ==> 0 <= stack[k] < |adj| && Reachable(adj, stack[k])
  }

  /** Every neighbour of a marked vertex is marked or still on the stack. */
  ghost predicate Frontier(adj: seq<set<int>>, visited: set<int>, stack: seq<int>) {
    forall v, u :: v in visited && 0 <= v < |adj| && u in adj[v] ==> u in visited || u in stack
  }

  lemma PopMarked(adj: seq<set<int>>, visited: set<int>, stack: seq<int>, node: int)
    requires Frontier(adj, visited, stack + [node]) && node in visited
    ensures Frontier(adj, visited, stack)
  {
  }

  lemma MarkNode(adj: seq<set<int>>, visited: set<int>, stack: seq<int>, node: int, next: seq<int>)
    requires Frontier(adj, visited, stack + [node]) && 0 <= node < |adj|
    requires forall x :: x in next <==> x in adj[node] - (visited + {node})
    ensures Frontier(adj, visited + {node}, stack + next)
  {
  }

  lemma PushReachable(adj: seq<set<int>>, stack: seq<int>, node: int, next: seq<int>)
    requires WellFormed(adj) && StackOk(adj, stack) && 0 <= node < |adj| && Reachable(adj, node)
    requires forall x :: x in next ==> x in adj[node]
    ensures StackOk(adj, stack + next)
  {
    forall k | 0 <= k < |next| ensures 0 <= next[k] < |adj| && Reachable(adj, next[k]) {
      assert next[k] in next;
      ReachStep(adj, node, next[k]);
    }
  }

  /** The stack-based visit: pop a vertex, mark it, push its unmarked
      neighbours. The marked set is exactly the vertices reachable from 0. */
  method VisitFromZero(adj: seq<set<int>>) returns (visited: set<int>)
    requires |adj| > 0 && WellFormed(adj)
    ensures forall v :: v in visited <==> 0 <= v < |adj| && Reachable(adj, v)
  {
    var n := |adj|;
    visited := {};
    var stack := [0];
    assert IsWalk(adj, [0]);
    while stack != []
      invariant VisitedOk(adj, visited) && StackOk(adj, stack)
      invariant 0 in visited || 0 in stack
      invariant Frontier(adj, visited, stack)
      decreases n - |visited|, |stack|
    {
      var node := stack[|stack| - 1];
      ghost var full := stack;
      stack := stack[..|stack| - 1];
      assert full == stack + [node];
      if node !in visited {
        SubsetOfRange(visited + {node}, n);
        var next := SetToSeq(adj[node] - (visited + {node}), n);
        MarkNode(adj, visited, stack, node, next);
        PushReachable(adj, stack, node, next);
        visited := visited + {node};
        stack := stack + next;
      } else {
        PopMarked(adj, visited, stack, node);
      }
    }
    forall v | 0 <= v < n && Reachable(adj, v) ensures v in visited {
      ClosedHoldsReachable(adj, visited, v);
    }
  }

  /** len(visited) == n exactly when every vertex is reachable. */
  lemma VisitedAllIff(adj: seq<set<int>>, visited: set<int>)
    requires forall v :: v in visited <==> 0 <= v < |adj| && Reachable(adj, v)
    ensures |visited| == |adj| <==> Connected(adj)
  {
    SubsetOfRange(visited, |adj|);
    if Connected(adj) {
      assert visited == Range(|adj|);
    }
  }

  // ---------------------------------------------------------------------
  // Degree statistics
  // ---------------------------------------------------------------------

  /** degrees.count(x) */
  function Count(s: seq<int>, x: int): (c: nat)
    ensures c <= |s|
    ensures c > 0 <==> x in s
  {
    if s == [] then 0
    else Count(s[..|s| - 1], x) + (if s[|s| - 1] == x then 1 else 0)
  }

  /** Two different values share the positions of s. */
  lemma {:induction false} CountTwo(s: seq<int>, x: int, y: int)
    requires x != y
    ensures Count(s, x) + Count(s, y) <= |s|
  {
    if s != [] {
      CountTwo(s[..|s| - 1], x, y);
    }
  }

  /** max(degrees) */
  function Max(s: seq<int>): (m: int)
    requires |s| > 0
    ensures m in s && forall k :: 0 <= k < |s| ==> s[k] <= m
  {
    if |s| == 1 then s[0]
    else
      var m := Max(s[..|s| - 1]);
      assert forall k :: 0 <= k < |s| - 1 ==> s[k] == s[..|s| - 1][k];
      if s[|s| - 1] > m then s[|s| - 1] else m
  }

  /** A defaultdict(int) read. */
  function Get(counts: map<int, int>, d: int): int {
    if d in counts then counts[d] else 0
  }

  /** The degree_count loop. */
  method CountDegrees(degrees: seq<int>) returns (counts: map<int, int>)
    ensures forall d :: Get(counts, d) == Count(degrees, d)
  {
    counts := map[];
    for k := 0 to |degrees|
      invariant forall d :: Get(counts, d) == Count(degrees[..k], d)
    {
      var d := degrees[k];
      counts := counts[d := Get(counts, d) + 1];
      assert degrees[..k + 1][..k] == degrees[..k];
    }
    assert degrees[..|degrees|] == degrees;
  }

  // ---------------------------------------------------------------------
  // The cascade
  // ---------------------------------------------------------------------

  datatype Family =
    | Empty(n: nat)
    | Complete(n: nat)
    | PathGraph(n: nat)
    | Cycle(n: nat)
    | Star(n: nat)
    | Regular(d: nat, n: nat)

  /** The name identify_graph_family returns for a family. */
  function Label(f: Family): string {
    match f
    case Empty(n) => "Empty graph E_" + NatStr(n)
    case Complete(n) => "Complete graph K_" + NatStr(n)
    case PathGraph(n) => "Path graph P_" + NatStr(n)
    case Cycle(n) => "Cycle graph C_" + NatStr(n)
    case Star(n) => "Star graph K_{1," + IntStr(n - 1) + "}"
    case Regular(d, n) => NatStr(d) + "-regular graph on " + NatStr(n) + " vertices"
  }

  function LabelOf(f: Option<Family>): Option<string> {
    match f
    case None => None
    case Some(g) => Some(Label(g))
  }

  /** all(d == x for d in s) */
  predicate AllEqualTo(s: seq<int>, x: int) {
    forall d :: d in s ==> d == x
  }

  /** The tests of identify_graph_family in their order, on the edge count
      m, the degree sequence and whether the graph is connected: the first
      test that holds wins. */
  function Classify(n: nat, m: nat, degs: seq<int>, connected: bool): Option<Family>
    requires |degs| == n && (m > 0 ==> n > 0)
  {
    if m == 0 then Some(Empty(n))
    else if m == n * (n - 1) / 2 then Some(Complete(n))
    else if m == n - 1 && Count(degs, 1) == 2 && Count(degs, 2) == n - 2 && n > 2 then Some(PathGraph(n))
    else if m == n - 1 && n == 2 then Some(PathGraph(2))
    else if m == n && AllEqualTo(degs, 2) && connected then Some(Cycle(n))
    else if m == n - 1 && Max(degs) == n - 1 && Count(degs, 1) == n - 1 then Some(Star(n))
    else if |set d | d in degs| == 1 && degs[0] > 0 then Some(Regular(degs[0], n))
    else None
  }

  /** The family of a graph on n vertices. */
  ghost function FamilyOf(n: nat, edges: seq<Edge>): Option<Family>
    requires InRange(n, edges)
  {
    assert |edges| > 0 ==> 0 <= edges[0].0 < n;
    Classify(n, |edges|, Degrees(n, edges), Connected(NeighborTable(n, edges)))
  }

  lemma TableWellFormed(n: nat, edges: seq<Edge>)
    requires InRange(n, edges)
    ensures WellFormed(NeighborTable(n, edges))
  {
    forall v | 0 <= v < n ensures forall u :: u in NeighborTable(n, edges)[v] ==> 0 <= u < n {
      NeighborsInRange(n, edges, v);
    }
  }

  /** identify_graph_family(n, edges), returning the family rather than its name. */
  method ClassifyGraph(n: nat, edges: seq<Edge>) returns (family: Option<Family>)
    requires InRange(n, edges)
    ensures family == FamilyOf(n, edges)
  {
    var adj := BuildAdjacency(n, edges);
    var degrees := seq(n, i requires 0 <= i < n => |adj[i]|);
    assert degrees == Degrees(n, edges);
    assert |edges| > 0 ==> 0 <= edges[0].0 < n;
    TableWellFormed(n, edges);
    family := RunTests(n, |edges|, adj, degrees);
  }

  /** The tests, run on the adjacency sets and the degree list. */
  method RunTests(n: nat, m: nat, adj: seq<set<int>>, degrees: seq<int>) returns (family: Option<Family>)
    requires |adj| == n && |degrees| == n && WellFormed(adj) && (m > 0 ==> n > 0)
    ensures family == Classify(n, m, degrees, Connected(adj))
  {
    if m == 0 {
      return Some(Empty(n));
    }
    if m == n * (n - 1) / 2 {
      return Some(Complete(n));
    }
    if m == n - 1 {
      var degreeCount := CountDegrees(degrees);
      if Get(degreeCount, 1) == 2 && Get(degreeCount, 2) == n - 2 && n > 2 {
        return Some(PathGraph(n));
      }
      if n == 2 {
        return Some(PathGraph(n));
      }
    }
    if m == n && AllEqualTo(degrees, 2) {
      var visited := VisitFromZero(adj);
      VisitedAllIff(adj, visited);
      if |visited| == n {
        return Some(Cycle(n));
      }
    }
    if m == n - 1 {
      if Max(degrees) == n - 1 && Count(degrees, 1) == n - 1 {
        return Some(Star(n));
      }
    }
    if |set d | d in degrees| == 1 && degrees[0] > 0 {
      return Some(Regular(degrees[0], n));
    }
    return None;
  }

  /** identify_graph_family(n, edges) */
  method IdentifyGraphFamily(n: nat, edges: seq<Edge>) returns (name: Option<string>)
    requires InRange(n, edges)
    ensures name == LabelOf(FamilyOf(n, edges))
  {
    var family := ClassifyGraph(n, edges);
    name := LabelOf(family);
  }

  // ---------------------------------------------------------------------
  // Properties of the names
  // ---------------------------------------------------------------------

  /** The degree is the run of digits at the front of a regular name. */
  lemma RegularLabelDegree(d: nat, n: nat)
    ensures LeadingDigits(Label(Regular(d, n))) == |NatStr(d)|
    ensures Label(Regular(d, n))[..|NatStr(d)|] == NatStr(d)
    ensures Label(Regular(d, n))[|NatStr(d)|..] == "-regular graph on " + NatStr(n) + " vertices"
  {
    var rest := "-regular graph on " + NatStr(n) + " vertices";
    assert Label(Regular(d, n)) == NatStr(d) + rest;
    LeadingDigitsOfNat(d, rest);
  }

  lemma RegularLabelInjective(d1: nat, n1: nat, d2: nat, n2: nat)
    requires Label(Regular(d1, n1)) == Label(Regular(d2, n2))
    ensures d1 == d2 && n1 == n2
  {
    var mid := "-regular graph on ";
    RegularLabelDegree(d1, n1);
    RegularLabelDegree(d2, n2);
    NatStrInjective(d1, d2);
    assert mid + NatStr(n1) + " vertices" == mid + NatStr(n2) + " vertices";
    StripSuffix(mid + NatStr(n1), mid + NatStr(n2), " vertices");
    StripPrefix(mid, NatStr(n1), NatStr(n2));
    NatStrInjective(n1, n2);
  }

  /** The first two characters of each kind of name. */
  function HeadPair(f: Family): (char, char) {
    match f
    case Empty(_) => ('E', 'm')
    case Complete(_) => ('C', 'o')
    case PathGraph(_) => ('P', 'a')
    case Cycle(_) => ('C', 'y')
    case Star(_) => ('S', 't')
    case Regular(d, _) => (NatStr(d)[0], '-')
  }

  lemma PrefixHead(p: string, x: string)
    requires |p| >= 2
    ensures (p + x)[0] == p[0] && (p + x)[1] == p[1]
  {
  }

  /** A name other than a regular one starts with its first two letters. */
  lemma LabelHeadPair(f: Family)
    requires !f.Regular?
    ensures |Label(f)| >= 2 && (Label(f)[0], Label(f)[1]) == HeadPair(f)
  {
    match f
    case Empty(n) => EmptyHead(n);
    case Complete(n) => CompleteHead(n);
    case PathGraph(n) => PathHead(n);
    case Cycle(n) => CycleHead(n);
    case Star(n) => StarHead(n);
  }

  lemma EmptyHead(n: nat)
    ensures |Label(Empty(n))| >= 2 && (Label(Empty(n))[0], Label(Empty(n))[1]) == HeadPair(Empty(n))
  {
    PrefixHead("Empty graph E_", NatStr(n));
  }

  lemma CompleteHead(n: nat)
    ensures |Label(Complete(n))| >= 2 && (Label(Complete(n))[0], Label(Complete(n))[1]) == HeadPair(Complete(n))
  {
    PrefixHead("Complete graph K_", NatStr(n));
  }

  lemma PathHead(n: nat)
    ensures |Label(PathGraph(n))| >= 2 && (Label(PathGraph(n))[0], Label(PathGraph(n))[1]) == HeadPair(PathGraph(n))
  {
    PrefixHead("Path graph P_", NatStr(n));
  }

  lemma CycleHead(n: nat)
    ensures |Label(Cycle(n))| >= 2 && (Label(Cycle(n))[0], Label(Cycle(n))[1]) == HeadPair(Cycle(n))
  {
    PrefixHead("Cycle graph C_", NatStr(n));
  }

  lemma StarHead(n: nat)
    ensures |Label(Star(n))| >= 2 && (Label(Star(n))[0], Label(Star(n))[1]) == HeadPair(Star(n))
  {
    PrefixHead("Star graph K_{1,", IntStr(n - 1) + "}");
  }

  /** The first two characters of a name tell the kind of family. */
  lemma LabelHead(f: Family)
    ensures |Label(f)| >= 2
    ensures f.Regular? <==> IsDigit(Label(f)[0])
    ensures f.Empty? <==> Label(f)[0] == 'E'
    ensures f.PathGraph? <==> Label(f)[0] == 'P'
    ensures f.Star? <==> Label(f)[0] == 'S'
    ensures f.Complete? <==> Label(f)[0] == 'C' && Label(f)[1] == 'o'
    ensures f.Cycle? <==> Label(f)[0] == 'C' && Label(f)[1] == 'y'
  {
    if f.Regular? {
      RegularLabelDegree(f.d, f.n);
      assert IsDigit(NatStr(f.d)[0]);
      assert Label(f)[0] == NatStr(f.d)[0];
    } else {
      LabelHeadPair(f);
    }
  }

  /** Different families get different names, so the name in a result
      identifies the family. */
  lemma LabelInjective(f: Family, g: Family)
    requires Label(f) == Label(g)
    ensures f == g
  {
    LabelHead(f);
    LabelHead(g);
    assert Label(f)[0] == Label(g)[0] && Label(f)[1] == Label(g)[1];
    match f
    case Empty(n) =>
      StripPrefix("Empty graph E_", NatStr(n), NatStr(g.n));
      NatStrInjective(n, g.n);
    case Complete(n) =>
      StripPrefix("Complete graph K_", NatStr(n), NatStr(g.n));
      NatStrInjective(n, g.n);
    case PathGraph(n) =>
      StripPrefix("Path graph P_", NatStr(n), NatStr(g.n));
      NatStrInjective(n, g.n);
    case Cycle(n) =>
      StripPrefix("Cycle graph C_", NatStr(n), NatStr(g.n));
      NatStrInjective(n, g.n);
    case Star(n) =>
      StripSuffix("Star graph K_{1," + IntStr(n - 1), "Star graph K_{1," + IntStr(g.n - 1), "}");
      StripPrefix("Star graph K_{1,", IntStr(n - 1), IntStr(g.n - 1));
      IntStrInjective(n - 1, g.n - 1);
    case Regular(d, n) =>
      RegularLabelInjective(d, n, g.d, g.n);
  }
}

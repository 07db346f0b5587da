/**
  find_analytic_graphs: group the unique graphs by the printed form of
  their characteristic polynomial, keep one result per polynomial whose
  roots all have closed forms, and sort the results by edge count and
  polynomial.

  The algebra is given as two functions: `charPoly` maps a matrix, as
  a list of rows, to str(expand(det(A - x I))), and `solve` maps the
  printed polynomial to its roots with multiplicities, or None when
  solving fails (sympify followed by find_eigenvalues).
*/
module Aggregate {
  import opened Wrappers
  import opened Sorting
  import opened Graphs
  import opened Enumeration
  import opened Unique
  import opened SkewMatrix
  import opened Family
  import opened Text
  import opened Eigen
  import opened Grouping

  /** One entry of the returned list. */
  datatype Result = Result(
    n: nat,
    edges: seq<Edge>,
    edgeString: string,
    edgeCount: nat,
    polynomial: string,
    eigenvalues: seq<EigenRecord>,
    family: Option<string>,
    classSize: nat)

  /** Python's `<=` on str: lexicographic by code point, a prefix first. */
  predicate StrLe(a: string, b: string)
    decreases |a|
  {
    a == [] || (b != [] && (a[0] < b[0] || (a[0] == b[0] && StrLe(a[1..], b[1..]))))
  }

  lemma {:induction false} StrLeTotal(a: string, b: string)
    ensures StrLe(a, b) || StrLe(b, a)
    decreases |a|
  {
    if a != [] && b != [] && a[0] == b[0] {
      StrLeTotal(a[1..], b[1..]);
    }
  }

  lemma {:induction false} StrLeTransitive(a: string, b: string, c: string)
    requires StrLe(a, b) && StrLe(b, c)
    ensures StrLe(a, c)
    decreases |a|
  {
    if a != [] && a[0] == b[0] && b[0] == c[0] {
      StrLeTransitive(a[1..], b[1..], c[1..]);
    }
  }

  lemma {:induction false} StrLeAntisymmetric(a: string, b: string)
    requires StrLe(a, b) && StrLe(b, a)
    ensures a == b
    decreases |a|
  {
    if a != [] {
      StrLeAntisymmetric(a[1..], b[1..]);
      assert a == [a[0]] + a[1..] && b == [b[0]] + b[1..];
    }
  }

  /** The sort key (edge_count, polynomial), compared as a tuple. */
  predicate ResultLe(x: Result, y: Result) {
    x.edgeCount < y.edgeCount || (x.edgeCount == y.edgeCount && StrLe(x.polynomial, y.polynomial))
  }

  /** The key order is a total preorder, and two results compare both
      ways only when they have the same key. */
  lemma ResultLeOrder()
    ensures Total(ResultLe) && Transitive(ResultLe)
    ensures forall x, y :: ResultLe(x, y) && ResultLe(y, x) ==>
      x.edgeCount == y.edgeCount && x.polynomial == y.polynomial
  {
    forall x: Result, y: Result ensures ResultLe(x, y) || ResultLe(y, x) {
      StrLeTotal(x.polynomial, y.polynomial);
    }
    forall x: Result, y: Result, z: Result | ResultLe(x, y) && ResultLe(y, z) ensures ResultLe(x, z) {
      if x.edgeCount == y.edgeCount == z.edgeCount {
        StrLeTransitive(x.polynomial, y.polynomial, z.polynomial);
      }
    }
    forall x: Result, y: Result | ResultLe(x, y) && ResultLe(y, x)
      ensures x.edgeCount == y.edgeCount && x.polynomial == y.polynomial
    {
      StrLeAntisymmetric(x.polynomial, y.polynomial);
    }
  }

  /** The printed characteristic polynomial of every graph, in scan order. */
  function PolysOf(n: nat, gs: seq<seq<Edge>>, charPoly: seq<seq<int>> -> string): seq<string> {
    seq(|gs|, i requires 0 <= i < |gs| => charPoly(Matrix(n, gs[i])))
  }

  /** Every key in order has a non-empty list whose head is a graph on n
      vertices. */
  predicate Fit(n: nat, order: seq<string>, groups: map<string, seq<seq<Edge>>>) {
    forall k :: 0 <= k < |order| ==>
      order[k] in groups && |groups[order[k]]| > 0 && InRange(n, groups[order[k]][0])
  }

  /** The result for one polynomial and its graphs, when it is analytic. */
  ghost function Outcome(n: nat, p: string, graphs: seq<seq<Edge>>, solve: string -> Option<seq<(Root, int)>>): Option<Result>
    requires |graphs| > 0 && InRange(n, graphs[0])
  {
    var analysis := AnalysisOf(solve(p));
    if analysis.allAnalytic then
      var rep := graphs[0];
      Some(Result(n, rep, EdgesToString(rep), |rep|, p, analysis.eigenvalues, LabelOf(FamilyOf(n, rep)), |graphs|))
    else None
  }

  /** The values of the Some entries, in order. */
  function Somes<T>(os: seq<Option<T>>): (r: seq<T>)
    ensures |r| <= |os|
  {
    if os == [] then []
    else
      var prev := Somes(os[..|os| - 1]);
      match os[|os| - 1]
      case None => prev
      case Some(x) => prev + [x]
  }

  lemma SomesStep<T>(os: seq<Option<T>>, o: Option<T>)
    ensures Somes(os + [o]) == match o case None => Somes(os) case Some(x) => Somes(os) + [x]
  {
    assert (os + [o])[..|os|] == os;
  }

  lemma {:induction false} SomesSound<T>(os: seq<Option<T>>)
    ensures forall x :: x in Somes(os) ==> exists k :: 0 <= k < |os| && os[k] == Some(x)
    decreases |os|
  {
    if os != [] {
      var m := |os| - 1;
      SomesSound(os[..m]);
      assert os == os[..m] + [os[m]];
      SomesStep(os[..m], os[m]);
      forall x | x in Somes(os) ensures exists k :: 0 <= k < |os| && os[k] == Some(x) {
        if x in Somes(os[..m]) {
          var k :| 0 <= k < m && os[..m][k] == Some(x);
          assert os[k] == Some(x);
        } else {
          assert os[m] == Some(x);
        }
      }
    }
  }

  lemma {:induction false} SomesComplete<T>(os: seq<Option<T>>)
    ensures forall k :: 0 <= k < |os| && os[k].Some? ==> os[k].value in Somes(os)
    decreases |os|
  {
    if os != [] {
      var m := |os| - 1;
      SomesComplete(os[..m]);
      assert os == os[..m] + [os[m]];
      SomesStep(os[..m], os[m]);
      forall k | 0 <= k < m && os[k].Some? ensures os[k].value in Somes(os) {
        assert os[..m][k] == os[k];
      }
    }
  }

  /** When entry k, if any, is a result for key order[k] and the keys are
      distinct, no two results share a polynomial. */
  lemma {:induction false} SomesDistinct(os: seq<Option<Result>>, order: seq<string>)
    requires |os| == |order| && Distinct(order)
    requires forall k :: 0 <= k < |os| && os[k].Some? ==> os[k].value.polynomial == order[k]
    ensures forall i, j :: 0 <= i < j < |Somes(os)| ==> Somes(os)[i].polynomial != Somes(os)[j].polynomial
    decreases |os|
  {
    if os != [] {
      var m := |os| - 1;
      var prev := Somes(os[..m]);
      assert os == os[..m] + [os[m]];
      SomesStep(os[..m], os[m]);
      SomesDistinct(os[..m], order[..m]);
      SomesSound(os[..m]);
      if os[m].Some? {
        forall i | 0 <= i < |prev| ensures prev[i].polynomial != order[m] {
          assert prev[i] in prev;
          var k :| 0 <= k < m && os[..m][k] == Some(prev[i]);
          assert prev[i].polynomial == order[k];
        }
      }
    }
  }

  /** The outcome of every key in order. */
  ghost function Outcomes(n: nat, order: seq<string>, groups: map<string, seq<seq<Edge>>>,
                          solve: string -> Option<seq<(Root, int)>>): (r: seq<Option<Result>>)
    requires Fit(n, order, groups)
    ensures |r| == |order|
    ensures forall k :: 0 <= k < |order| ==> r[k] == Outcome(n, order[k], groups[order[k]], solve)
  {
    seq(|order|, k requires 0 <= k < |order| => Outcome(n, order[k], groups[order[k]], solve))
  }

  /** The results list after the analysis loop has seen the keys in order. */
  ghost function Collected(n: nat, order: seq<string>, groups: map<string, seq<seq<Edge>>>,
                           solve: string -> Option<seq<(Root, int)>>): seq<Result>
    requires Fit(n, order, groups)
  {
    Somes(Outcomes(n, order, groups, solve))
  }

  /** The unique graphs of the enumeration are graphs on n vertices. */
  lemma UniqueInRange(n: nat)
    ensures forall k :: 0 <= k < |UniqueGraphs(n)| ==> InRange(n, UniqueGraphs(n)[k])
  {
    var all := AllEdgeSets(n);
    UniqueInOrder(all, KeysOf(n, all));
    SubseqMembers(UniqueGraphs(n), all);
    AllEdgeSetsInRange(n);
    forall k | 0 <= k < |UniqueGraphs(n)| ensures InRange(n, UniqueGraphs(n)[k]) {
      assert UniqueGraphs(n)[k] in all;
    }
  }

  /** The grouped graphs fit the analysis loop. */
  lemma GroupsFit(n: nat, gs: seq<seq<Edge>>, ks: seq<string>)
    requires |gs| == |ks| && forall k :: 0 <= k < |gs| ==> InRange(n, gs[k])
    ensures Fit(n, FirstOccurrences(ks), GroupMap(gs, ks))
  {
    var order := FirstOccurrences(ks);
    forall k | 0 <= k < |order|
      ensures order[k] in GroupMap(gs, ks) && |GroupMap(gs, ks)[order[k]]| > 0 && InRange(n, GroupMap(gs, ks)[order[k]][0])
    {
      var i := FirstIndex(ks, order[k]);
      MembersHead(gs, ks, order[k], i);
    }
  }

  /** The graphs in scan order, the polynomial of each, and the map and
      key order the grouping loop builds from them. */
  ghost function Polys(n: nat, charPoly: seq<seq<int>> -> string): seq<string> {
    PolysOf(n, UniqueGraphs(n), charPoly)
  }

  ghost function Order(n: nat, charPoly: seq<seq<int>> -> string): seq<string> {
    FirstOccurrences(Polys(n, charPoly))
  }

  ghost function Groups(n: nat, charPoly: seq<seq<int>> -> string): map<string, seq<seq<Edge>>> {
    GroupMap(UniqueGraphs(n), Polys(n, charPoly))
  }

  lemma PolysFit(n: nat, charPoly: seq<seq<int>> -> string)
    ensures Fit(n, Order(n, charPoly), Groups(n, charPoly))
  {
    UniqueInRange(n);
    GroupsFit(n, UniqueGraphs(n), Polys(n, charPoly));
  }

  /** The list find_analytic_graphs(n) returns. */
  ghost function Expected(n: nat, charPoly: seq<seq<int>> -> string, solve: string -> Option<seq<(Root, int)>>): seq<Result> {
    PolysFit(n, charPoly);
    SortBy(Collected(n, Order(n, charPoly), Groups(n, charPoly), solve), ResultLe)
  }

  /** The poly_groups loop. */
  method GroupByPolynomial(n: nat, gs: seq<seq<Edge>>, charPoly: seq<seq<int>> -> string)
    returns (groups: map<string, seq<seq<Edge>>>, order: seq<string>)
    requires forall k :: 0 <= k < |gs| ==> InRange(n, gs[k])
    ensures order == FirstOccurrences(PolysOf(n, gs, charPoly))
    ensures groups == GroupMap(gs, PolysOf(n, gs, charPoly))
  {
    ghost var ks := PolysOf(n, gs, charPoly);
    groups := map[];
    order := [];
    for i := 0 to |gs|
      invariant order == FirstOccurrences(ks[..i])
      invariant groups == GroupMap(gs[..i], ks[..i])
    {
      var edges := gs[i];
      var a := MakeSkewSymmetricMatrix(n, edges);
      var polyStr := charPoly(Rows(a));
      assert polyStr == ks[i];
      FirstOccurrencesStep(ks, i);
      GroupMapStep(gs, ks, i);
      FirstOccurrencesKeys(ks[..i], polyStr);
      if polyStr in groups {
        groups := groups[polyStr := groups[polyStr] + [edges]];
      } else {
        groups := groups[polyStr := [edges]];
        order := order + [polyStr];
      }
    }
    assert gs[..|gs|] == gs && ks[..|gs|] == ks;
  }

  lemma CollectedStep(n: nat, order: seq<string>, groups: map<string, seq<seq<Edge>>>,
                      solve: string -> Option<seq<(Root, int)>>, i: nat)
    requires Fit(n, order, groups) && i < |order|
    ensures Fit(n, order[..i], groups) && Fit(n, order[..i + 1], groups)
    ensures Collected(n, order[..i + 1], groups, solve) ==
      match Outcome(n, order[i], groups[order[i]], solve)
      case None => Collected(n, order[..i], groups, solve)
      case Some(r) => Collected(n, order[..i], groups, solve) + [r]
  {
    var before := Outcomes(n, order[..i], groups, solve);
    var o := Outcome(n, order[i], groups[order[i]], solve);
    assert Outcomes(n, order[..i + 1], groups, solve) == before + [o];
    SomesStep(before, o);
  }

  /** The analysis loop over poly_groups.items(). */
  method AnalyzeGroups(n: nat, order: seq<string>, groups: map<string, seq<seq<Edge>>>,
                       solve: string -> Option<seq<(Root, int)>>) returns (results: seq<Result>)
    requires Fit(n, order, groups)
    ensures results == Collected(n, order, groups, solve)
  {
    results := [];
    for i := 0 to |order|
      invariant Fit(n, order[..i], groups)
      invariant results == Collected(n, order[..i], groups, solve)
    {
      var polyStr := order[i];
      var graphs := groups[polyStr];
      var eigs := solve(polyStr);
      var analysis := AnalyzeEigenvalues(eigs);
      CollectedStep(n, order, groups, solve, i);
      if analysis.allAnalytic {
        var rep := graphs[0];
        var family := IdentifyGraphFamily(n, rep);
        var result := Result(n, rep, EdgesToString(rep), |rep|, polyStr, analysis.eigenvalues, family, |graphs|);
        results := results + [result];
      }
    }
    assert order[..|order|] == order;
  }

  /** find_analytic_graphs(n), without the printing and the timing. */
  method FindAnalyticGraphs(n: nat, charPoly: seq<seq<int>> -> string, solve: string -> Option<seq<(Root, int)>>)
    returns (results: seq<Result>)
    ensures results == Expected(n, charPoly, solve)
  {
    var unique := EnumerateUniqueGraphs(n, true);
    var gs := seq(|unique|, k requires 0 <= k < |unique| => unique[k].0);
    assert gs == UniqueGraphs(n);
    UniqueInRange(n);
    var groups, order := GroupByPolynomial(n, gs, charPoly);
    PolysFit(n, charPoly);
    var collected := AnalyzeGroups(n, order, groups, solve);
    results := SortBy(collected, ResultLe);
  }

  /** Every result comes from a key of the loop, with that key's outcome;
      every key with an outcome contributes it. */
  lemma CollectedFacts(n: nat, order: seq<string>, groups: map<string, seq<seq<Edge>>>,
                       solve: string -> Option<seq<(Root, int)>>)
    requires Fit(n, order, groups)
    ensures forall r :: r in Collected(n, order, groups, solve) ==>
      exists k :: 0 <= k < |order| && Outcome(n, order[k], groups[order[k]], solve) == Some(r)
    ensures forall k :: 0 <= k < |order| && Outcome(n, order[k], groups[order[k]], solve).Some? ==>
      Outcome(n, order[k], groups[order[k]], solve).value in Collected(n, order, groups, solve)
  {
    var os := Outcomes(n, order, groups, solve);
    SomesSound(os);
    SomesComplete(os);
  }

  /** Distinct keys give results with distinct polynomials. */
  lemma CollectedDistinct(n: nat, order: seq<string>, groups: map<string, seq<seq<Edge>>>,
                          solve: string -> Option<seq<(Root, int)>>)
    requires Fit(n, order, groups) && Distinct(order)
    ensures forall i, j :: 0 <= i < j < |Collected(n, order, groups, solve)| ==>
      Collected(n, order, groups, solve)[i].polynomial != Collected(n, order, groups, solve)[j].polynomial
  {
    SomesDistinct(Outcomes(n, order, groups, solve), order);
  }

  /** An element repeated at two positions occurs twice. */
  lemma TwiceInMultiset<T>(a: seq<T>, i: nat, j: nat)
    requires i < j < |a| && a[i] == a[j]
    ensures multiset(a)[a[i]] >= 2
  {
    assert a == a[..j] + a[j..];
    assert a[i] in a[..j] && a[j..][0] == a[j];
    assert a[j] in a[j..];
  }

  /** Results with distinct polynomials are distinct, so each occurs once. */
  lemma {:induction false} OncePerPolynomial(b: seq<Result>)
    requires forall i, j :: 0 <= i < j < |b| ==> b[i].polynomial != b[j].polynomial
    ensures forall x :: multiset(b)[x] <= 1
  {
    if b != [] {
      OncePerPolynomial(b[1..]);
      assert b == [b[0]] + b[1..];
      assert b[0] !in b[1..] by {
        forall k | 0 <= k < |b[1..]| ensures b[1..][k] != b[0] {
          assert b[1..][k].polynomial == b[k + 1].polynomial;
        }
      }
    }
  }

  /** A permutation of results with distinct polynomials has them too. */
  lemma PermutedDistinct(a: seq<Result>, b: seq<Result>)
    requires multiset(a) == multiset(b)
    requires forall i, j :: 0 <= i < j < |b| ==> b[i].polynomial != b[j].polynomial
    ensures forall i, j :: 0 <= i < j < |a| ==> a[i].polynomial != a[j].polynomial
  {
    OncePerPolynomial(b);
    forall i, j | 0 <= i < j < |a| ensures a[i].polynomial != a[j].polynomial {
      assert a[i] in multiset(b) && a[j] in multiset(b);
      var p :| 0 <= p < |b| && b[p] == a[i];
      var q :| 0 <= q < |b| && b[q] == a[j];
      if p == q {
        TwiceInMultiset(a, i, j);
      }
    }
  }

  /** The output is sorted by (edge count, polynomial), is a permutation
      of the analytic results in key order, and strictly increases: no
      polynomial is reported twice. */
  lemma ExpectedSorted(n: nat, charPoly: seq<seq<int>> -> string, solve: string -> Option<seq<(Root, int)>>)
    ensures Fit(n, Order(n, charPoly), Groups(n, charPoly))
    ensures Sorted(Expected(n, charPoly, solve), ResultLe)
    ensures multiset(Expected(n, charPoly, solve)) == multiset(Collected(n, Order(n, charPoly), Groups(n, charPoly), solve))
    ensures forall i, j :: 0 <= i < j < |Expected(n, charPoly, solve)| ==>
      Expected(n, charPoly, solve)[i].polynomial != Expected(n, charPoly, solve)[j].polynomial
  {
    PolysFit(n, charPoly);
    var c := Collected(n, Order(n, charPoly), Groups(n, charPoly), solve);
    ResultLeOrder();
    SortBySorted(c, ResultLe);
    CollectedDistinct(n, Order(n, charPoly), Groups(n, charPoly), solve);
    PermutedDistinct(Expected(n, charPoly, solve), c);
  }

  /** Every reported entry is the outcome of one key of the loop. */
  lemma ExpectedFromOutcome(n: nat, charPoly: seq<seq<int>> -> string, solve: string -> Option<seq<(Root, int)>>, r: Result)
    requires r in Expected(n, charPoly, solve)
    ensures Fit(n, Order(n, charPoly), Groups(n, charPoly))
    ensures exists k :: 0 <= k < |Order(n, charPoly)| &&
                        Outcome(n, Order(n, charPoly)[k], Groups(n, charPoly)[Order(n, charPoly)[k]], solve) == Some(r)
  {
    ExpectedSorted(n, charPoly, solve);
    assert r in Collected(n, Order(n, charPoly), Groups(n, charPoly), solve) by {
      assert r in multiset(Expected(n, charPoly, solve));
    }
    CollectedFacts(n, Order(n, charPoly), Groups(n, charPoly), solve);
  }

  /** The outcome of key p describes the first graph scanned with key p
      and the size of p's list. */
  lemma OutcomeMeaning(n: nat, gs: seq<seq<Edge>>, ks: seq<string>, p: string,
                       solve: string -> Option<seq<(Root, int)>>, r: Result)
    requires |gs| == |ks| && forall k :: 0 <= k < |gs| ==> InRange(n, gs[k])
    requires p in ks
    requires |GroupMap(gs, ks)[p]| > 0 && InRange(n, GroupMap(gs, ks)[p][0])
    requires Outcome(n, p, GroupMap(gs, ks)[p], solve) == Some(r)
    ensures r.n == n && r.polynomial == p && InRange(n, r.edges)
    ensures exists i :: 0 <= i < |gs| && gs[i] == r.edges && ks[i] == p && (forall j :: 0 <= j < i ==> ks[j] != p)
    ensures AnalysisOf(solve(p)).allAnalytic && r.eigenvalues == AnalysisOf(solve(p)).eigenvalues
    ensures r.classSize == |Members(gs, ks, p)|
    ensures r.edgeString == EdgesToString(r.edges) && r.edgeCount == |r.edges|
    ensures r.family == LabelOf(FamilyOf(n, r.edges))
  {
    FirstOccurrencesKeys(ks, p);
    var i := FirstIndex(ks, p);
    MembersHead(gs, ks, p, i);
  }

  /** What each reported entry means: its polynomial is the polynomial of
      some unique graph and all its roots have closed forms; its graph is
      the first unique graph with that polynomial; its class size is the
      number of unique graphs with that polynomial; and its text, edge
      count and family are those of its graph. */
  lemma ResultMeaning(n: nat, charPoly: seq<seq<int>> -> string, solve: string -> Option<seq<(Root, int)>>, r: Result)
    requires r in Expected(n, charPoly, solve)
    ensures r.n == n && InRange(n, r.edges)
    ensures exists i :: 0 <= i < |UniqueGraphs(n)| && UniqueGraphs(n)[i] == r.edges &&
                        Polys(n, charPoly)[i] == r.polynomial &&
                        (forall j :: 0 <= j < i ==> Polys(n, charPoly)[j] != r.polynomial)
    ensures AnalysisOf(solve(r.polynomial)).allAnalytic
    ensures r.eigenvalues == AnalysisOf(solve(r.polynomial)).eigenvalues
    ensures r.classSize == |Members(UniqueGraphs(n), Polys(n, charPoly), r.polynomial)|
    ensures r.edgeString == EdgesToString(r.edges) && r.edgeCount == |r.edges|
    ensures r.family == LabelOf(FamilyOf(n, r.edges))
  {
    var gs, ks := UniqueGraphs(n), Polys(n, charPoly);
    var order, groups := Order(n, charPoly), Groups(n, charPoly);
    ExpectedFromOutcome(n, charPoly, solve, r);
    var k :| 0 <= k < |order| && Outcome(n, order[k], groups[order[k]], solve) == Some(r);
    UniqueInRange(n);
    OutcomeMeaning(n, gs, ks, order[k], solve, r);
  }

  /** Every polynomial of a unique graph whose roots all have closed
      forms is reported. */
  lemma ResultsComplete(n: nat, charPoly: seq<seq<int>> -> string, solve: string -> Option<seq<(Root, int)>>, i: nat)
    requires i < |UniqueGraphs(n)| && AnalysisOf(solve(Polys(n, charPoly)[i])).allAnalytic
    ensures exists r :: r in Expected(n, charPoly, solve) && r.polynomial == Polys(n, charPoly)[i]
  {
    var ks := Polys(n, charPoly);
    var order, groups := Order(n, charPoly), Groups(n, charPoly);
    ExpectedSorted(n, charPoly, solve);
    var k :| 0 <= k < |order| && order[k] == ks[i];
    CollectedFacts(n, order, groups, solve);
    var r := Outcome(n, order[k], groups[order[k]], solve).value;
    assert r in multiset(Collected(n, order, groups, solve));
  }

  /** The class sizes of all groups add up to the number of unique graphs. */
  lemma ClassSizesAddUp(n: nat, charPoly: seq<seq<int>> -> string)
    ensures Sum(Sizes(UniqueGraphs(n), Polys(n, charPoly), Order(n, charPoly))) == |UniqueGraphs(n)|
  {
    Partition(UniqueGraphs(n), Polys(n, charPoly));
  }
}

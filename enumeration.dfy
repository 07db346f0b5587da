/**
  generate_all_edge_sets: the list of all pairs (i, j) with 0 <= i < j < n in
  lexicographic order, and every sub-combination of it, grouped by size
  r = 0 .. C(n, 2), each group in the order itertools.combinations emits it.
*/
module Enumeration {
  import opened Sorting
  import opened Graphs

  // ---------------------------------------------------------------------
  // The pair list [(i, j) for i in range(n) for j in range(i+1, n)]
  // ---------------------------------------------------------------------

  /** [(i, j) for j in range(i+1, n)] */
  function Row(i: nat, n: nat): seq<Edge>
    requires i < n
  {
    seq(n - i - 1, k => (i, i + 1 + k))
  }

  /** The rows i, i+1, .., n-1 concatenated. */
  function PairsFrom(i: nat, n: nat): seq<Edge>
    decreases n - i
  {
    if i >= n then [] else Row(i, n) + PairsFrom(i + 1, n)
  }

  function PossibleEdges(n: nat): seq<Edge> {
    PairsFrom(0, n)
  }

  /** Strict lexicographic order on pairs, as Python compares tuples. */
  predicate PairLess(x: Edge, y: Edge) {
    x.0 < y.0 || (x.0 == y.0 && x.1 < y.1)
  }

  predicate StrictlyIncreasing(s: seq<Edge>) {
    forall i, j :: 0 <= i < j < |s| ==> PairLess(s[i], s[j])
  }

  predicate Distinct<T(==)>(s: seq<T>) {
    forall i, j :: 0 <= i < j < |s| ==> s[i] != s[j]
  }

  lemma {:induction false} PairsFromMembers(i: nat, n: nat, e: Edge)
    ensures e in PairsFrom(i, n) <==> i <= e.0 < e.1 < n
    decreases n - i
  {
    if i < n {
      PairsFromMembers(i + 1, n, e);
      if e.0 == i && e.1 < n && i < e.1 {
        assert Row(i, n)[e.1 - i - 1] == e;
      }
    }
  }

  lemma {:induction false} PairsFromIncreasing(i: nat, n: nat)
    ensures StrictlyIncreasing(PairsFrom(i, n))
    decreases n - i
  {
    if i < n {
      PairsFromIncreasing(i + 1, n);
      var r, rest := Row(i, n), PairsFrom(i + 1, n);
      forall y | y in rest ensures y.0 > i {
        PairsFromMembers(i + 1, n, y);
      }
      assert forall a, b :: 0 <= a < |r| && 0 <= b < |rest| ==> PairLess(r[a], rest[b]) by {
        forall a, b | 0 <= a < |r| && 0 <= b < |rest| ensures PairLess(r[a], rest[b]) {
          assert rest[b] in rest;
        }
      }
    }
  }

  lemma {:induction false} PairsFromCount(i: nat, n: nat)
    requires i <= n
    ensures 2 * |PairsFrom(i, n)| == (n - i) * (n - i - 1)
    decreases n - i
  {
    if i < n {
      PairsFromCount(i + 1, n);
      var m := n - i;
      assert 2 * (m - 1) + (m - 1) * (m - 2) == m * (m - 1);
    }
  }

  /** The pair list holds exactly the pairs 0 <= i < j < n, strictly
      increasing (so with no repeats), C(n, 2) of them. */
  lemma PossibleEdgesFacts(n: nat)
    ensures forall e :: e in PossibleEdges(n) <==> 0 <= e.0 < e.1 < n
    ensures StrictlyIncreasing(PossibleEdges(n))
    ensures Distinct(PossibleEdges(n))
    ensures |PossibleEdges(n)| == n * (n - 1) / 2
  {
    forall e ensures e in PossibleEdges(n) <==> 0 <= e.0 < e.1 < n {
      PairsFromMembers(0, n, e);
    }
    PairsFromIncreasing(0, n);
    PairsFromCount(0, n);
  }

  // ---------------------------------------------------------------------
  // itertools.combinations
  // ---------------------------------------------------------------------

  /** t can be obtained from s by deleting elements. */
  predicate IsSubseq<T(==)>(t: seq<T>, s: seq<T>)
    decreases |s|
  {
    if t == [] then true
    else if s == [] then false
    else (t[0] == s[0] && IsSubseq(t[1..], s[1..])) || IsSubseq(t, s[1..])
  }

  function PrependAll<T>(x: T, cs: seq<seq<T>>): (r: seq<seq<T>>)
    ensures |r| == |cs| && forall k :: 0 <= k < |cs| ==> r[k] == [x] + cs[k]
  {
    seq(|cs|, k requires 0 <= k < |cs| => [x] + cs[k])
  }

  /** combinations(s, r): the r-element sub-combinations of s, in
      lexicographic order of their positions in s. */
  function Combinations<T>(s: seq<T>, r: nat): seq<seq<T>>
    decreases |s|
  {
    if r == 0 then [[]]
    else if s == [] then []
    else PrependAll(s[0], Combinations(s[1..], r - 1)) + Combinations(s[1..], r)
  }

  function Binom(m: nat, r: nat): nat {
    if r == 0 then 1 else if m == 0 then 0 else Binom(m - 1, r - 1) + Binom(m - 1, r)
  }

  function Pow2(m: nat): nat {
    if m == 0 then 1 else 2 * Pow2(m - 1)
  }

  lemma {:induction false} SubseqMembers<T>(t: seq<T>, s: seq<T>)
    requires IsSubseq(t, s)
    ensures forall x :: x in t ==> x in s
    ensures |t| <= |s|
    decreases |s|
  {
    if t != [] {
      if t[0] == s[0] && IsSubseq(t[1..], s[1..]) {
        SubseqMembers(t[1..], s[1..]);
        assert t == [t[0]] + t[1..];
      } else {
        SubseqMembers(t, s[1..]);
      }
    }
  }

  /** Every sub-combination is a subsequence of the right size. */
  lemma {:induction false} CombinationsSound<T>(s: seq<T>, r: nat, c: seq<T>)
    requires c in Combinations(s, r)
    ensures IsSubseq(c, s) && |c| == r
    decreases |s|
  {
    if r > 0 && s != [] {
      var head := PrependAll(s[0], Combinations(s[1..], r - 1));
      if c in head {
        var k :| 0 <= k < |head| && head[k] == c;
        var c' := Combinations(s[1..], r - 1)[k];
        CombinationsSound(s[1..], r - 1, c');
        assert c[1..] == c';
      } else {
        CombinationsSound(s[1..], r, c);
      }
    }
  }

  /** Every subsequence is among the sub-combinations of its size. */
  lemma {:induction false} CombinationsComplete<T>(s: seq<T>, t: seq<T>)
    requires IsSubseq(t, s)
    ensures t in Combinations(s, |t|)
    decreases |s|
  {
    if t != [] {
      if t[0] == s[0] && IsSubseq(t[1..], s[1..]) {
        CombinationsComplete(s[1..], t[1..]);
        var cs := Combinations(s[1..], |t| - 1);
        var k :| 0 <= k < |cs| && cs[k] == t[1..];
        assert PrependAll(s[0], cs)[k] == t;
      } else {
        CombinationsComplete(s[1..], t);
      }
    }
  }

  lemma DistinctTail<T>(s: seq<T>)
    requires Distinct(s) && s != []
    ensures Distinct(s[1..]) && s[0] !in s[1..]
  {
    var tail := s[1..];
    forall i, j | 0 <= i < j < |tail| ensures tail[i] != tail[j] {
      assert tail[i] == s[i + 1] && tail[j] == s[j + 1];
    }
    forall j | 0 <= j < |tail| ensures tail[j] != s[0] {
      assert tail[j] == s[j + 1];
    }
  }

  lemma PrependAllDistinct<T>(x: T, cs: seq<seq<T>>)
    requires Distinct(cs)
    ensures Distinct(PrependAll(x, cs))
  {
    var head := PrependAll(x, cs);
    forall a, b | 0 <= a < b < |head| ensures head[a] != head[b] {
      assert head[a][1..] == cs[a] && head[b][1..] == cs[b];
    }
  }

  /** Sub-combinations of a list without x do not start with x. */
  lemma CombinationsAvoid<T>(tail: seq<T>, r: nat, x: T)
    requires r > 0 && x !in tail
    ensures forall c :: c in Combinations(tail, r) ==> c != [] && c[0] != x
  {
    forall c | c in Combinations(tail, r) ensures c != [] && c[0] != x {
      CombinationsSound(tail, r, c);
      SubseqMembers(c, tail);
      assert c[0] in c;
    }
  }

  /** Over a list without repeats no sub-combination is emitted twice. */
  lemma {:induction false} CombinationsDistinct<T>(s: seq<T>, r: nat)
    requires Distinct(s)
    ensures Distinct(Combinations(s, r))
    decreases |s|
  {
    if r > 0 && s != [] {
      var tail := s[1..];
      DistinctTail(s);
      CombinationsDistinct(tail, r - 1);
      CombinationsDistinct(tail, r);
      CombinationsAvoid(tail, r, s[0]);
      PrependAllDistinct(s[0], Combinations(tail, r - 1));
      var head, rest := PrependAll(s[0], Combinations(tail, r - 1)), Combinations(tail, r);
      forall i, j | 0 <= i < |head| && 0 <= j < |rest| ensures head[i] != rest[j] {
        assert head[i][0] == s[0];
        assert rest[j] in rest;
      }
      DistinctAppend(head, rest);
    }
  }

  /** There are C(|s|, r) sub-combinations of size r. */
  lemma {:induction false} CombinationsCount<T>(s: seq<T>, r: nat)
    ensures |Combinations(s, r)| == Binom(|s|, r)
    decreases |s|
  {
    if r > 0 && s != [] {
      CombinationsCount(s[1..], r - 1);
      CombinationsCount(s[1..], r);
    }
  }

  /** A subsequence of a strictly increasing list is strictly increasing. */
  lemma {:induction false} SubseqIncreasing(t: seq<Edge>, s: seq<Edge>)
    requires IsSubseq(t, s) && StrictlyIncreasing(s)
    ensures StrictlyIncreasing(t)
    decreases |s|
  {
    if t != [] {
      var tail := s[1..];
      assert StrictlyIncreasing(tail) by {
        forall i, j | 0 <= i < j < |tail| ensures PairLess(tail[i], tail[j]) {
          assert tail[i] == s[i + 1] && tail[j] == s[j + 1];
        }
      }
      if t[0] == s[0] && IsSubseq(t[1..], tail) {
        SubseqIncreasing(t[1..], tail);
        SubseqMembers(t[1..], tail);
        forall j | 1 <= j < |t| ensures PairLess(t[0], t[j]) {
          assert t[j] == t[1..][j - 1];
          assert t[j] in tail;
          var k :| 0 <= k < |tail| && tail[k] == t[j];
          assert s[k + 1] == t[j];
        }
        forall i, j | 0 <= i < j < |t| ensures PairLess(t[i], t[j]) {
          if i > 0 {
            assert t[i] == t[1..][i - 1] && t[j] == t[1..][j - 1];
          }
        }
      } else {
        SubseqIncreasing(t, tail);
      }
    }
  }

  // ---------------------------------------------------------------------
  // All sub-combinations, grouped by size
  // ---------------------------------------------------------------------

  /** The groups of sizes 0 .. k-1, concatenated. */
  function SubsetsUpTo<T>(s: seq<T>, k: nat): seq<seq<T>> {
    if k == 0 then [] else SubsetsUpTo(s, k - 1) + Combinations(s, k - 1)
  }

  /** What generate_all_edge_sets(n) yields, in order. */
  function AllEdgeSets(n: nat): seq<seq<Edge>> {
    SubsetsUpTo(PossibleEdges(n), |PossibleEdges(n)| + 1)
  }

  function SumBinom(m: nat, k: nat): nat {
    if k == 0 then 0 else SumBinom(m, k - 1) + Binom(m, k - 1)
  }

  lemma {:induction false} SubsetsUpToSound<T>(s: seq<T>, k: nat)
    ensures forall i :: 0 <= i < |SubsetsUpTo(s, k)| ==>
      IsSubseq(SubsetsUpTo(s, k)[i], s) && |SubsetsUpTo(s, k)[i]| < k
  {
    if k > 0 {
      SubsetsUpToSound(s, k - 1);
      var prev, cur := SubsetsUpTo(s, k - 1), Combinations(s, k - 1);
      forall i | |prev| <= i < |prev| + |cur|
        ensures IsSubseq((prev + cur)[i], s) && |(prev + cur)[i]| == k - 1
      {
        assert (prev + cur)[i] == cur[i - |prev|];
        CombinationsSound(s, k - 1, cur[i - |prev|]);
      }
    }
  }

  lemma {:induction false} SubsetsUpToComplete<T>(s: seq<T>, k: nat, t: seq<T>)
    requires IsSubseq(t, s) && |t| < k
    ensures t in SubsetsUpTo(s, k)
  {
    if |t| == k - 1 {
      CombinationsComplete(s, t);
    } else {
      SubsetsUpToComplete(s, k - 1, t);
    }
  }

  lemma CombinationsLength<T>(s: seq<T>, r: nat)
    ensures forall c :: c in Combinations(s, r) ==> |c| == r
  {
    forall c | c in Combinations(s, r) ensures |c| == r {
      CombinationsSound(s, r, c);
    }
  }

  lemma {:induction false} SubsetsUpToBelow<T>(s: seq<T>, k: nat)
    ensures forall i :: 0 <= i < |SubsetsUpTo(s, k)| ==> |SubsetsUpTo(s, k)[i]| < k
  {
    if k > 0 {
      SubsetsUpToBelow(s, k - 1);
      CombinationsLength(s, k - 1);
      var prev, cur := SubsetsUpTo(s, k - 1), Combinations(s, k - 1);
      forall i | |prev| <= i < |prev| + |cur| ensures |(prev + cur)[i]| < k {
        assert (prev + cur)[i] == cur[i - |prev|];
        assert cur[i - |prev|] in cur;
      }
    }
  }

  lemma {:induction false} SubsetsUpToSizes<T>(s: seq<T>, k: nat)
    ensures forall a, b :: 0 <= a < b < |SubsetsUpTo(s, k)| ==>
      |SubsetsUpTo(s, k)[a]| <= |SubsetsUpTo(s, k)[b]|
  {
    if k > 0 {
      SubsetsUpToSizes(s, k - 1);
      SubsetsUpToBelow(s, k - 1);
      CombinationsLength(s, k - 1);
      var prev, cur := SubsetsUpTo(s, k - 1), Combinations(s, k - 1);
      var all := prev + cur;
      forall a, b | 0 <= a < b < |all| ensures |all[a]| <= |all[b]| {
        if b >= |prev| {
          assert all[b] == cur[b - |prev|] && cur[b - |prev|] in cur;
          if a >= |prev| {
            assert all[a] == cur[a - |prev|] && cur[a - |prev|] in cur;
          }
        }
      }
    }
  }

  /** Two lists without repeats and without common elements. */
  lemma DistinctAppend<T>(a: seq<T>, b: seq<T>)
    requires Distinct(a) && Distinct(b)
    requires forall i, j :: 0 <= i < |a| && 0 <= j < |b| ==> a[i] != b[j]
    ensures Distinct(a + b)
  {
    var all := a + b;
    forall x, y | 0 <= x < y < |all| ensures all[x] != all[y] {
      if x >= |a| {
        assert all[x] == b[x - |a|] && all[y] == b[y - |a|];
      } else if y >= |a| {
        assert all[x] == a[x] && all[y] == b[y - |a|];
      }
    }
  }

  /** Shorter lists before lists of length m: nothing in common. */
  lemma ApartBySize<T>(prev: seq<seq<T>>, cur: seq<seq<T>>, m: nat)
    requires Distinct(prev) && Distinct(cur)
    requires forall i :: 0 <= i < |prev| ==> |prev[i]| < m
    requires forall c :: c in cur ==> |c| == m
    ensures Distinct(prev + cur)
  {
    forall i, j | 0 <= i < |prev| && 0 <= j < |cur| ensures prev[i] != cur[j] {
      assert cur[j] in cur;
    }
    DistinctAppend(prev, cur);
  }

  lemma {:induction false} SubsetsUpToDistinct<T>(s: seq<T>, k: nat)
    requires Distinct(s)
    ensures Distinct(SubsetsUpTo(s, k))
  {
    if k > 0 {
      SubsetsUpToDistinct(s, k - 1);
      SubsetsUpToBelow(s, k - 1);
      CombinationsLength(s, k - 1);
      CombinationsDistinct(s, k - 1);
      ApartBySize(SubsetsUpTo(s, k - 1), Combinations(s, k - 1), k - 1);
    }
  }

  lemma {:induction false} SubsetsUpToCount<T>(s: seq<T>, k: nat)
    ensures |SubsetsUpTo(s, k)| == SumBinom(|s|, k)
  {
    if k > 0 {
      SubsetsUpToCount(s, k - 1);
      CombinationsCount(s, k - 1);
    }
  }

  lemma {:induction false} BinomAbove(m: nat, r: nat)
    requires r > m
    ensures Binom(m, r) == 0
  {
    if m > 0 {
      BinomAbove(m - 1, r - 1);
      BinomAbove(m - 1, r);
    }
  }

  /** Pascal's rule summed over r < k + 1. */
  lemma {:induction false} SumBinomPascal(m: nat, k: nat)
    ensures SumBinom(m + 1, k + 1) == SumBinom(m, k + 1) + SumBinom(m, k)
  {
    if k > 0 {
      SumBinomPascal(m, k - 1);
    }
  }

  /** Sizes 0 .. m together: sum of C(m, r) is 2^m. */
  lemma {:induction false} SumBinomPow2(m: nat)
    ensures SumBinom(m, m + 1) == Pow2(m)
  {
    if m > 0 {
      SumBinomPow2(m - 1);
      SumBinomPascal(m - 1, m);
      BinomAbove(m - 1, m);
    }
  }

  /** What the enumeration promises: every yielded set is a subsequence of
      the pair list (so its edges are pairs i < j < n, strictly increasing,
      without repeats), every subsequence is yielded, none twice, sizes never
      decrease, and there are 2^(n(n-1)/2) sets. */
  lemma AllEdgeSetsFacts(n: nat)
    ensures forall k :: 0 <= k < |AllEdgeSets(n)| ==> IsSubseq(AllEdgeSets(n)[k], PossibleEdges(n))
    ensures forall k, e :: 0 <= k < |AllEdgeSets(n)| && e in AllEdgeSets(n)[k] ==> 0 <= e.0 < e.1 < n
    ensures forall k :: 0 <= k < |AllEdgeSets(n)| ==>
      StrictlyIncreasing(AllEdgeSets(n)[k]) && Distinct(AllEdgeSets(n)[k])
    ensures forall t :: IsSubseq(t, PossibleEdges(n)) ==> t in AllEdgeSets(n)
    ensures Distinct(AllEdgeSets(n))
    ensures forall a, b :: 0 <= a < b < |AllEdgeSets(n)| ==> |AllEdgeSets(n)[a]| <= |AllEdgeSets(n)[b]|
    ensures |AllEdgeSets(n)| == Pow2(n * (n - 1) / 2)
  {
    var possible := PossibleEdges(n);
    var sets: seq<seq<Edge>> := AllEdgeSets(n);
    PossibleEdgesFacts(n);
    SubsetsUpToSound(possible, |possible| + 1);
    forall k | 0 <= k < |sets|
      ensures StrictlyIncreasing(sets[k]) && Distinct(sets[k])
      ensures forall e: Edge :: e in sets[k] ==> 0 <= e.0 < e.1 < n
    {
      SubseqIncreasing(sets[k], possible);
      SubseqMembers(sets[k], possible);
    }
    forall t | IsSubseq(t, possible) ensures t in sets {
      SubseqMembers(t, possible);
      SubsetsUpToComplete(possible, |possible| + 1, t);
    }
    SubsetsUpToDistinct(possible, |possible| + 1);
    SubsetsUpToSizes(possible, |possible| + 1);
    SubsetsUpToCount(possible, |possible| + 1);
    SumBinomPow2(|possible|);
  }

  /** Every generated edge set is a graph on the vertices 0 .. n-1. */
  lemma AllEdgeSetsInRange(n: nat)
    ensures forall k :: 0 <= k < |AllEdgeSets(n)| ==> InRange(n, AllEdgeSets(n)[k])
  {
    AllEdgeSetsFacts(n);
    forall k | 0 <= k < |AllEdgeSets(n)| ensures InRange(n, AllEdgeSets(n)[k]) {
      var g := AllEdgeSets(n)[k];
      forall i | 0 <= i < |g| ensures 0 <= g[i].0 < n && 0 <= g[i].1 < n {
        assert g[i] in g;
      }
    }
  }

  /** Increasing pairs i < j make a simple graph: no self-loop, and no
      edge listed twice in either orientation. */
  lemma IncreasingSimple(g: seq<Edge>)
    requires StrictlyIncreasing(g) && forall e :: e in g ==> e.0 < e.1
    ensures Simple(g)
  {
    forall k, l | 0 <= k < l < |g| ensures g[k] != g[l] && g[k] != (g[l].1, g[l].0) {
      assert g[k] in g && g[l] in g;
      assert PairLess(g[k], g[l]);
    }
    forall k | 0 <= k < |g| ensures g[k].0 != g[k].1 {
      assert g[k] in g;
    }
  }

  /** Every generated edge set is a simple graph. */
  lemma AllEdgeSetsSimple(n: nat)
    ensures forall k :: 0 <= k < |AllEdgeSets(n)| ==> Simple(AllEdgeSets(n)[k])
  {
    AllEdgeSetsFacts(n);
    forall k | 0 <= k < |AllEdgeSets(n)| ensures Simple(AllEdgeSets(n)[k]) {
      IncreasingSimple(AllEdgeSets(n)[k]);
    }
  }

  /** The handshake count holds for every generated graph. */
  lemma AllEdgeSetsDegreeSum(n: nat, k: nat)
    requires k < |AllEdgeSets(n)|
    ensures Sum(Degrees(n, AllEdgeSets(n)[k])) == 2 * |AllEdgeSets(n)[k]|
  {
    AllEdgeSetsSimple(n);
    AllEdgeSetsInRange(n);
    DegreeSum(n, AllEdgeSets(n)[k]);
  }

  /** The loop over r = 0 .. len(possible_edges) emitting combinations. */
  method GenerateAllEdgeSets(n: nat) returns (sets: seq<seq<Edge>>)
    ensures sets == AllEdgeSets(n)
  {
    var possible := PossibleEdges(n);
    sets := [];
    for r := 0 to |possible| + 1
      invariant sets == SubsetsUpTo(possible, r)
    {
      sets := sets + Combinations(possible, r);
    }
  }
}

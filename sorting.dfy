/**
  Python's `sorted` and `list.sort`, modelled as a stable insertion sort
  parameterised by a "less or equal" relation.
*/
module Sorting {

  /** Every earlier element is `le` every later one. */
  predicate Sorted<T>(s: seq<T>, le: (T, T) -> bool) {
    forall i, j :: 0 <= i < j < |s| ==> le(s[i], s[j])
  }

  ghost predicate Total<T(!new)>(le: (T, T) -> bool) {
    forall a, b :: le(a, b) || le(b, a)
  }

  ghost predicate Transitive<T(!new)>(le: (T, T) -> bool) {
    forall a, b, c :: le(a, b) && le(b, c) ==> le(a, c)
  }

  /** Inserts x in front of the first element it is `le`. */
  function Insert<T>(x: T, s: seq<T>, le: (T, T) -> bool): (r: seq<T>)
    ensures multiset(r) == multiset(s) + multiset{x}
    ensures |r| == |s| + 1
  {
    if s == [] then [x]
    else if le(x, s[0]) then [x] + s
    else
      assert s == [s[0]] + s[1..];
      [s[0]] + Insert(x, s[1..], le)
  }

  /** The sorted permutation of s. */
  function SortBy<T>(s: seq<T>, le: (T, T) -> bool): (r: seq<T>)
    ensures multiset(r) == multiset(s)
    ensures |r| == |s|
  {
    if s == [] then []
    else
      assert s == [s[0]] + s[1..];
      Insert(s[0], SortBy(s[1..], le), le)
  }

  lemma {:induction false} InsertSorted<T(!new)>(x: T, s: seq<T>, le: (T, T) -> bool)
    requires Total(le) && Transitive(le) && Sorted(s, le)
    ensures Sorted(Insert(x, s, le), le)
  {
    if s != [] && !le(x, s[0]) {
      var rest := Insert(x, s[1..], le);
      InsertSorted(x, s[1..], le);
      forall k | 0 <= k < |rest| ensures le(s[0], rest[k]) {
        assert rest[k] in multiset(rest);
        assert rest[k] == x || rest[k] in multiset(s[1..]);
        if rest[k] != x {
          var j :| 0 <= j < |s[1..]| && s[1..][j] == rest[k];
          assert s[j + 1] == rest[k];
        }
      }
    }
  }

  /** The output of SortBy is sorted when le is a total preorder. */
  lemma {:induction false} SortBySorted<T(!new)>(s: seq<T>, le: (T, T) -> bool)
    requires Total(le) && Transitive(le)
    ensures Sorted(SortBy(s, le), le)
  {
    if s != [] {
      SortBySorted(s[1..], le);
      InsertSorted(s[0], SortBy(s[1..], le), le);
    }
  }

  /** Sum of a sequence of integers. */
  function Sum(s: seq<int>): int {
    if s == [] then 0 else s[0] + Sum(s[1..])
  }

  lemma {:induction false} SumAppend(s: seq<int>, x: int)
    ensures Sum(s + [x]) == Sum(s) + x
  {
    if s != [] {
      assert (s + [x])[1..] == s[1..] + [x];
      SumAppend(s[1..], x);
    }
  }

  lemma {:induction false} SumInsert(x: int, s: seq<int>, le: (int, int) -> bool)
    ensures Sum(Insert(x, s, le)) == x + Sum(s)
  {
    if s != [] && !le(x, s[0]) {
      SumInsert(x, s[1..], le);
    }
  }

  /** Sorting does not change the sum. */
  lemma {:induction false} SumSortBy(s: seq<int>, le: (int, int) -> bool)
    ensures Sum(SortBy(s, le)) == Sum(s)
  {
    if s != [] {
      SumSortBy(s[1..], le);
      SumInsert(s[0], SortBy(s[1..], le), le);
    }
  }
}

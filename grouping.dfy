/**
  The defaultdict(list) of find_analytic_graphs, as values: scanning
  items with keys appends each item to the list of its key, and the
  dictionary remembers its keys in the order they were first inserted.
*/
module Grouping {
  import opened Sorting
  import opened Enumeration

  /** The keys of the dictionary in insertion order after scanning ks. */
  function FirstOccurrences<K(==)>(ks: seq<K>): (r: seq<K>)
    ensures Distinct(r)
    ensures forall k :: 0 <= k < |r| ==> r[k] in ks
    ensures forall i :: 0 <= i < |ks| ==> ks[i] in r
  {
    if ks == [] then []
    else
      var prev := FirstOccurrences(ks[..|ks| - 1]);
      var p := ks[|ks| - 1];
      assert forall i :: 0 <= i < |ks| - 1 ==> ks[i] == ks[..|ks| - 1][i];
      assert forall k :: 0 <= k < |prev| ==> prev[k] in ks by {
        forall k | 0 <= k < |prev| ensures prev[k] in ks {
          var i :| 0 <= i < |ks| - 1 && ks[..|ks| - 1][i] == prev[k];
        }
      }
      if p in prev then prev else prev + [p]
  }

  /** The keys are exactly the scanned keys. */
  lemma FirstOccurrencesKeys<K>(ks: seq<K>, p: K)
    ensures p in FirstOccurrences(ks) <==> p in ks
  {
  }

  /** The list stored under key p: the items whose key is p, in scan order. */
  function Members<G, K(==)>(gs: seq<G>, ks: seq<K>, p: K): (r: seq<G>)
    requires |gs| == |ks|
    ensures |r| <= |gs|
  {
    if gs == [] then []
    else
      var prev := Members(gs[..|gs| - 1], ks[..|gs| - 1], p);
      if ks[|gs| - 1] == p then prev + [gs[|gs| - 1]] else prev
  }

  /** The whole dictionary after scanning the items gs with keys ks. */
  function GroupMap<G, K(==)>(gs: seq<G>, ks: seq<K>): map<K, seq<G>>
    requires |gs| == |ks|
  {
    map p | p in FirstOccurrences(ks) :: Members(gs, ks, p)
  }

  lemma FirstOccurrencesStep<K>(ks: seq<K>, i: nat)
    requires i < |ks|
    ensures FirstOccurrences(ks[..i + 1]) ==
      if ks[i] in FirstOccurrences(ks[..i]) then FirstOccurrences(ks[..i])
      else FirstOccurrences(ks[..i]) + [ks[i]]
  {
    assert ks[..i + 1][..i] == ks[..i];
  }

  lemma MembersStep<G, K>(gs: seq<G>, ks: seq<K>, i: nat, p: K)
    requires |gs| == |ks| && i < |gs|
    ensures Members(gs[..i + 1], ks[..i + 1], p) ==
      if ks[i] == p then Members(gs[..i], ks[..i], p) + [gs[i]] else Members(gs[..i], ks[..i], p)
  {
    assert gs[..i + 1][..i] == gs[..i];
    assert ks[..i + 1][..i] == ks[..i];
  }

  /** The list of one key after one more item. */
  lemma MembersAfter<G, K>(gs: seq<G>, ks: seq<K>, i: nat, p: K)
    requires |gs| == |ks| && i < |gs|
    ensures Members(gs[..i + 1], ks[..i + 1], p) ==
      if p != ks[i] then Members(gs[..i], ks[..i], p)
      else if ks[i] in FirstOccurrences(ks[..i]) then Members(gs[..i], ks[..i], p) + [gs[i]]
      else [gs[i]]
  {
    MembersStep(gs, ks, i, p);
    if p == ks[i] && ks[i] !in FirstOccurrences(ks[..i]) {
      FirstOccurrencesKeys(ks[..i], ks[i]);
      MembersEmpty(gs[..i], ks[..i], ks[i]);
    }
  }

  /** Scanning one more item appends it to its key's list, creating the
      list when the key is new. */
  lemma GroupMapStep<G, K>(gs: seq<G>, ks: seq<K>, i: nat)
    requires |gs| == |ks| && i < |gs|
    ensures GroupMap(gs[..i + 1], ks[..i + 1]) ==
      var before := GroupMap(gs[..i], ks[..i]);
      if ks[i] in before then before[ks[i] := before[ks[i]] + [gs[i]]] else before[ks[i] := [gs[i]]]
  {
    var before, after := GroupMap(gs[..i], ks[..i]), GroupMap(gs[..i + 1], ks[..i + 1]);
    var expected := if ks[i] in before then before[ks[i] := before[ks[i]] + [gs[i]]] else before[ks[i] := [gs[i]]];
    FirstOccurrencesStep(ks, i);
    assert after.Keys == expected.Keys;
    forall p | p in after ensures after[p] == expected[p] {
      MembersAfter(gs, ks, i, p);
    }
  }

  /** A key that was never scanned has an empty list. */
  lemma {:induction false} MembersEmpty<G, K>(gs: seq<G>, ks: seq<K>, p: K)
    requires |gs| == |ks| && p !in ks
    ensures Members(gs, ks, p) == []
    decreases |gs|
  {
    if gs != [] {
      var m := |gs| - 1;
      assert forall j :: 0 <= j < m ==> ks[..m][j] == ks[j];
      assert ks[m] in ks;
      MembersEmpty(gs[..m], ks[..m], p);
    }
  }

  /** Every item in p's list was scanned with key p. */
  lemma {:induction false} MembersSound<G, K>(gs: seq<G>, ks: seq<K>, p: K)
    requires |gs| == |ks|
    ensures forall x :: x in Members(gs, ks, p) ==> exists i :: 0 <= i < |gs| && gs[i] == x && ks[i] == p
    decreases |gs|
  {
    if gs != [] {
      var m := |gs| - 1;
      MembersSound(gs[..m], ks[..m], p);
      forall x | x in Members(gs, ks, p) ensures exists i :: 0 <= i < |gs| && gs[i] == x && ks[i] == p {
        if x in Members(gs[..m], ks[..m], p) {
          var i :| 0 <= i < m && gs[..m][i] == x && ks[..m][i] == p;
          assert gs[i] == x && ks[i] == p;
        } else {
          assert gs[m] == x && ks[m] == p;
        }
      }
    }
  }

  /** Every item scanned with key p is in p's list. */
  lemma {:induction false} MembersComplete<G, K>(gs: seq<G>, ks: seq<K>, p: K)
    requires |gs| == |ks|
    ensures forall i :: 0 <= i < |gs| && ks[i] == p ==> gs[i] in Members(gs, ks, p)
    decreases |gs|
  {
    if gs != [] {
      var m := |gs| - 1;
      MembersComplete(gs[..m], ks[..m], p);
      forall i | 0 <= i < |gs| && ks[i] == p ensures gs[i] in Members(gs, ks, p) {
        if i < m {
          assert gs[..m][i] == gs[i] && ks[..m][i] == ks[i];
        }
      }
    }
  }

  /** The head of p's list is the first item scanned with key p. */
  lemma {:induction false} MembersHead<G, K>(gs: seq<G>, ks: seq<K>, p: K, i: nat)
    requires |gs| == |ks| && i < |gs| && ks[i] == p
    requires forall j :: 0 <= j < i ==> ks[j] != p
    ensures |Members(gs, ks, p)| > 0 && Members(gs, ks, p)[0] == gs[i]
    decreases |gs|
  {
    var m := |gs| - 1;
    if i < m {
      MembersHead(gs[..m], ks[..m], p, i);
    } else {
      assert p !in ks[..m] by {
        forall j | 0 <= j < m ensures ks[..m][j] != p {
          assert ks[..m][j] == ks[j];
        }
      }
      MembersEmpty(gs[..m], ks[..m], p);
    }
  }

  /** Some item scanned with key p comes first. */
  lemma FirstIndex<K>(ks: seq<K>, p: K) returns (i: nat)
    requires p in ks
    ensures i < |ks| && ks[i] == p && forall j :: 0 <= j < i ==> ks[j] != p
  {
    i := 0;
    while ks[i] != p
      invariant i < |ks| && forall j :: 0 <= j < i ==> ks[j] != p
      decreases |ks| - i
    {
      assert p in ks[i + 1..] by {
        var k :| 0 <= k < |ks| && ks[k] == p;
        assert ks[i + 1..][k - i - 1] == p;
      }
      i := i + 1;
    }
  }

  /** The size of each list, key by key. */
  function Sizes<G, K(==)>(gs: seq<G>, ks: seq<K>, order: seq<K>): (r: seq<int>)
    requires |gs| == |ks|
    ensures |r| == |order| && forall k :: 0 <= k < |order| ==> r[k] == |Members(gs, ks, order[k])|
  {
    seq(|order|, k requires 0 <= k < |order| => |Members(gs, ks, order[k])|)
  }

  lemma {:induction false} SumBumpAt(a: seq<int>, b: seq<int>, j: nat)
    requires |a| == |b| && j < |a|
    requires forall k :: 0 <= k < |a| ==> a[k] == b[k] + (if k == j then 1 else 0)
    ensures Sum(a) == Sum(b) + 1
  {
    if j == 0 {
      assert a[1..] == b[1..];
    } else {
      SumBumpAt(a[1..], b[1..], j - 1);
    }
  }

  /** The last item joins an existing list. */
  lemma SizesJoin<G, K>(gs: seq<G>, ks: seq<K>, m: nat)
    requires |gs| == |ks| && m == |gs| - 1 && ks[m] in FirstOccurrences(ks[..m])
    ensures Sum(Sizes(gs, ks, FirstOccurrences(ks[..m]))) == Sum(Sizes(gs[..m], ks[..m], FirstOccurrences(ks[..m]))) + 1
  {
    var order := FirstOccurrences(ks[..m]);
    var before, after := Sizes(gs[..m], ks[..m], order), Sizes(gs, ks, order);
    assert gs[..m + 1] == gs && ks[..m + 1] == ks;
    var j :| 0 <= j < |order| && order[j] == ks[m];
    forall k | 0 <= k < |order| ensures after[k] == before[k] + (if k == j then 1 else 0) {
      MembersStep(gs, ks, m, order[k]);
    }
    SumBumpAt(after, before, j);
  }

  /** The last item starts a new list. */
  lemma SizesOpen<G, K>(gs: seq<G>, ks: seq<K>, m: nat)
    requires |gs| == |ks| && m == |gs| - 1 && ks[m] !in FirstOccurrences(ks[..m])
    ensures Sum(Sizes(gs, ks, FirstOccurrences(ks[..m]) + [ks[m]])) == Sum(Sizes(gs[..m], ks[..m], FirstOccurrences(ks[..m]))) + 1
  {
    var order := FirstOccurrences(ks[..m]);
    var before := Sizes(gs[..m], ks[..m], order);
    assert gs[..m + 1] == gs && ks[..m + 1] == ks;
    FirstOccurrencesKeys(ks[..m], ks[m]);
    MembersEmpty(gs[..m], ks[..m], ks[m]);
    MembersStep(gs, ks, m, ks[m]);
    forall k | 0 <= k < |order| ensures Sizes(gs, ks, order)[k] == before[k] {
      MembersStep(gs, ks, m, order[k]);
    }
    assert Sizes(gs, ks, order) == before;
    assert Sizes(gs, ks, order + [ks[m]]) == before + [1];
    SumAppend(before, 1);
  }

  /** The lists partition the scanned items: their sizes add up to the
      number of items. */
  lemma {:induction false} Partition<G, K>(gs: seq<G>, ks: seq<K>)
    requires |gs| == |ks|
    ensures Sum(Sizes(gs, ks, FirstOccurrences(ks))) == |gs|
    decreases |gs|
  {
    if gs != [] {
      var m := |gs| - 1;
      Partition(gs[..m], ks[..m]);
      FirstOccurrencesStep(ks, m);
      assert ks[..m + 1] == ks;
      if ks[m] in FirstOccurrences(ks[..m]) {
        SizesJoin(gs, ks, m);
      } else {
        SizesOpen(gs, ks, m);
      }
    }
  }
}

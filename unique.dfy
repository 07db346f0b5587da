/**
  enumerate_unique_graphs: scan the generated edge sets, keep a set `seen`
  of keys, and yield a graph only when its key has not been seen before.
  With the filter off, every edge set is yielded paired with None.
*/
module Unique {
  import opened Wrappers
  import opened Graphs
  import opened Enumeration
  import opened Canonical

  function Keys<G, K>(out: seq<(G, K)>): (r: seq<K>)
    ensures |r| == |out| && forall k :: 0 <= k < |out| ==> r[k] == out[k].1
  {
    seq(|out|, k requires 0 <= k < |out| => out[k].1)
  }

  function GraphsOf<G, K>(out: seq<(G, K)>): (r: seq<G>)
    ensures |r| == |out| && forall k :: 0 <= k < |out| ==> r[k] == out[k].0
  {
    seq(|out|, k requires 0 <= k < |out| => out[k].0)
  }

  /** The key of every scanned graph, in scan order. */
  function KeysOf(n: nat, cs: seq<seq<Edge>>): (r: seq<Key>)
    ensures |r| == |cs| && forall i :: 0 <= i < |cs| ==> r[i] == KeyOf(n, cs[i])
  {
    seq(|cs|, i requires 0 <= i < |cs| => KeyOf(n, cs[i]))
  }

  /** What the filtering loop has yielded after scanning the graphs cs,
      whose keys are ks. */
  function UniqueOf<G, K(==)>(cs: seq<G>, ks: seq<K>): seq<(G, K)>
    requires |cs| == |ks|
    decreases |cs|
  {
    if cs == [] then []
    else
      var prev := UniqueOf(cs[..|cs| - 1], ks[..|cs| - 1]);
      if ks[|cs| - 1] in Keys(prev) then prev else prev + [(cs[|cs| - 1], ks[|cs| - 1])]
  }

  /** The graphs the filter keeps out of the full enumeration. */
  function UniqueGraphs(n: nat): seq<seq<Edge>> {
    GraphsOf(UniqueOf(AllEdgeSets(n), KeysOf(n, AllEdgeSets(n))))
  }

  function Tagged(out: seq<(seq<Edge>, Key)>): (r: seq<(seq<Edge>, Option<Key>)>)
    ensures |r| == |out| && forall k :: 0 <= k < |out| ==> r[k] == (out[k].0, Some(out[k].1))
  {
    seq(|out|, k requires 0 <= k < |out| => (out[k].0, Some(out[k].1)))
  }

  lemma {:induction false} SubseqSnoc<T>(t: seq<T>, s: seq<T>, x: T)
    requires IsSubseq(t, s)
    ensures IsSubseq(t, s + [x]) && IsSubseq(t + [x], s + [x])
    decreases |s|
  {
    if s == [] {
      assert t == [];
      assert [x][1..] == [];
    } else {
      assert (s + [x])[1..] == s[1..] + [x];
      if t == [] {
        SubseqSnoc(t, s[1..], x);
      } else {
        assert (t + [x])[1..] == t[1..] + [x];
        if t[0] == s[0] && IsSubseq(t[1..], s[1..]) {
          SubseqSnoc(t[1..], s[1..], x);
        } else {
          SubseqSnoc(t, s[1..], x);
        }
      }
    }
  }

  lemma {:induction false} SubseqRefl<T>(s: seq<T>)
    ensures IsSubseq(s, s)
    decreases |s|
  {
    if s != [] {
      SubseqRefl(s[1..]);
    }
  }

  /** One more scanned graph: it is yielded exactly when its key is new. */
  lemma UniqueOfStep<G, K>(cs: seq<G>, ks: seq<K>, i: nat)
    requires |cs| == |ks| && i < |cs|
    ensures UniqueOf(cs[..i + 1], ks[..i + 1]) ==
      if ks[i] in Keys(UniqueOf(cs[..i], ks[..i])) then UniqueOf(cs[..i], ks[..i])
      else UniqueOf(cs[..i], ks[..i]) + [(cs[i], ks[i])]
  {
    assert cs[..i + 1][..i] == cs[..i];
    assert ks[..i + 1][..i] == ks[..i];
  }

  /** Every scanned graph's key is among the yielded keys. */
  lemma {:induction false} UniqueCovers<G, K>(cs: seq<G>, ks: seq<K>)
    requires |cs| == |ks|
    ensures forall i :: 0 <= i < |ks| ==> ks[i] in Keys(UniqueOf(cs, ks))
    decreases |cs|
  {
    if cs != [] {
      var m := |cs| - 1;
      var pre, kpre := cs[..m], ks[..m];
      UniqueCovers(pre, kpre);
      var prev, out := UniqueOf(pre, kpre), UniqueOf(cs, ks);
      assert forall k :: k in Keys(prev) ==> k in Keys(out) by {
        if out != prev {
          assert Keys(out) == Keys(prev) + [ks[m]];
        }
      }
      forall i | 0 <= i < |ks| ensures ks[i] in Keys(out) {
        if i < m {
          assert ks[i] == kpre[i];
        } else if ks[m] !in Keys(prev) {
          assert Keys(out)[|prev|] == ks[m];
        }
      }
    }
  }

  /** No key is yielded twice. */
  lemma {:induction false} UniqueDistinct<G, K>(cs: seq<G>, ks: seq<K>)
    requires |cs| == |ks|
    ensures Distinct(Keys(UniqueOf(cs, ks)))
    decreases |cs|
  {
    if cs != [] {
      var m := |cs| - 1;
      UniqueDistinct(cs[..m], ks[..m]);
      var prev, out := UniqueOf(cs[..m], ks[..m]), UniqueOf(cs, ks);
      if out != prev {
        assert Keys(out) == Keys(prev) + [ks[m]];
      }
    }
  }

  /** Each yielded pair is a scanned graph with its key, and no earlier
      scanned graph has that key: the first graph with a key wins. */
  lemma {:induction false} UniqueFirst<G, K>(cs: seq<G>, ks: seq<K>)
    requires |cs| == |ks|
    ensures forall k :: 0 <= k < |UniqueOf(cs, ks)| ==>
      (exists i :: 0 <= i < |cs| && cs[i] == UniqueOf(cs, ks)[k].0 && ks[i] == UniqueOf(cs, ks)[k].1 &&
        (forall j :: 0 <= j < i ==> ks[j] != ks[i]))
    decreases |cs|
  {
    if cs != [] {
      var m := |cs| - 1;
      var pre, kpre := cs[..m], ks[..m];
      UniqueFirst(pre, kpre);
      UniqueCovers(pre, kpre);
      var prev, out := UniqueOf(pre, kpre), UniqueOf(cs, ks);
      forall k | 0 <= k < |out|
        ensures exists i :: 0 <= i < |cs| && cs[i] == out[k].0 && ks[i] == out[k].1 &&
                            (forall j :: 0 <= j < i ==> ks[j] != ks[i])
      {
        if k < |prev| {
          assert out[k] == prev[k];
          var i :| 0 <= i < m && pre[i] == prev[k].0 && kpre[i] == prev[k].1 &&
            (forall j :: 0 <= j < i ==> kpre[j] != kpre[i]);
          assert cs[i] == out[k].0 && ks[i] == out[k].1;
          forall j | 0 <= j < i ensures ks[j] != ks[i] {
            assert ks[j] == kpre[j];
          }
        } else {
          assert ks[m] !in Keys(prev);
          assert out == prev + [(cs[m], ks[m])];
          assert out[k] == (cs[m], ks[m]);
          forall j | 0 <= j < m ensures ks[j] != ks[m] {
            assert ks[j] == kpre[j];
          }
          assert cs[m] == out[k].0 && ks[m] == out[k].1;
        }
      }
    } else {
      assert UniqueOf(cs, ks) == [];
    }
  }

  /** The final `seen` set: the yielded keys are exactly the keys of all
      scanned graphs. */
  lemma UniqueKeySet<G, K>(cs: seq<G>, ks: seq<K>)
    requires |cs| == |ks|
    ensures (set k | k in Keys(UniqueOf(cs, ks))) == (set k | k in ks)
  {
    UniqueCovers(cs, ks);
    UniqueFirst(cs, ks);
    var out := UniqueOf(cs, ks);
    forall k | k in Keys(out) ensures k in ks {
      var a :| 0 <= a < |out| && Keys(out)[a] == k;
      var i :| 0 <= i < |cs| && cs[i] == out[a].0 && ks[i] == out[a].1 &&
        (forall j :: 0 <= j < i ==> ks[j] != ks[i]);
    }
  }

  /** The yielded graphs come out in scan order. */
  lemma {:induction false} UniqueInOrder<G, K>(cs: seq<G>, ks: seq<K>)
    requires |cs| == |ks|
    ensures IsSubseq(GraphsOf(UniqueOf(cs, ks)), cs)
    decreases |cs|
  {
    if cs != [] {
      var m := |cs| - 1;
      var pre := cs[..m];
      UniqueInOrder(pre, ks[..m]);
      var prev, out := UniqueOf(pre, ks[..m]), UniqueOf(cs, ks);
      assert cs == pre + [cs[m]];
      SubseqSnoc(GraphsOf(prev), pre, cs[m]);
      if out != prev {
        assert GraphsOf(out) == GraphsOf(prev) + [cs[m]];
      }
    }
  }

  lemma KeysSnoc<G, K>(out: seq<(G, K)>, g: G, k: K)
    ensures Keys(out + [(g, k)]) == Keys(out) + [k]
  {
  }

  lemma TaggedSnoc(out: seq<(seq<Edge>, Key)>, g: seq<Edge>, k: Key)
    ensures Tagged(out + [(g, k)]) == Tagged(out) + [(g, Some(k))]
  {
  }

  /** enumerate_unique_graphs(n, use_isomorphism_filter) */
  method EnumerateUniqueGraphs(n: nat, useFilter: bool) returns (out: seq<(seq<Edge>, Option<Key>)>)
    ensures !useFilter ==>
      |out| == |AllEdgeSets(n)| && forall i :: 0 <= i < |out| ==> out[i] == (AllEdgeSets(n)[i], None)
    ensures useFilter ==> out == Tagged(UniqueOf(AllEdgeSets(n), KeysOf(n, AllEdgeSets(n))))
  {
    var all := GenerateAllEdgeSets(n);
    if !useFilter {
      out := [];
      for i := 0 to |all|
        invariant |out| == i && forall k :: 0 <= k < i ==> out[k] == (all[k], None)
      {
        out := out + [(all[i], None)];
      }
    } else {
      AllEdgeSetsInRange(n);
      out := FilterUnseen(n, all);
    }
  }

  /** One pass of the `seen`-set loop, on the ghost state the loop keeps. */
  lemma FilterStep<G, K>(cs: seq<G>, ks: seq<K>, i: nat, kept: seq<(G, K)>, seen: set<K>)
    requires |cs| == |ks| && i < |cs|
    requires kept == UniqueOf(cs[..i], ks[..i]) && seen == (set k | k in Keys(kept))
    ensures ks[i] in seen ==> kept == UniqueOf(cs[..i + 1], ks[..i + 1])
    ensures ks[i] !in seen ==>
      kept + [(cs[i], ks[i])] == UniqueOf(cs[..i + 1], ks[..i + 1]) &&
      seen + {ks[i]} == (set k | k in Keys(kept + [(cs[i], ks[i])]))
  {
    UniqueOfStep(cs, ks, i);
    KeysSnoc(kept, cs[i], ks[i]);
  }

  /** The `seen`-set loop of enumerate_unique_graphs over the scanned graphs cs. */
  method FilterUnseen(n: nat, cs: seq<seq<Edge>>) returns (out: seq<(seq<Edge>, Option<Key>)>)
    requires forall k :: 0 <= k < |cs| ==> InRange(n, cs[k])
    ensures out == Tagged(UniqueOf(cs, KeysOf(n, cs)))
  {
    out := [];
    var seen: set<Key> := {};
    ghost var keys := KeysOf(n, cs);
    ghost var kept: seq<(seq<Edge>, Key)> := [];
    for i := 0 to |cs|
      invariant kept == UniqueOf(cs[..i], keys[..i])
      invariant out == Tagged(kept)
      invariant seen == (set k | k in Keys(kept))
    {
      var edges := cs[i];
      var canon := CanonicalForm(n, edges);
      FilterStep(cs, keys, i, kept, seen);
      if canon !in seen {
        TaggedSnoc(kept, edges, canon);
        seen := seen + {canon};
        out := out + [(edges, Some(canon))];
        kept := kept + [(edges, canon)];
      }
    }
    assert cs[..|cs|] == cs && keys[..|cs|] == keys;
  }
}

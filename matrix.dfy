/**
  make_skew_symmetric_matrix: an n x n zero matrix into which every edge
  writes +1 above and -1 below the diagonal. An edge given as (j, i) with
  j > i is written the same way as (i, j).
*/
module SkewMatrix {
  import opened Graphs

  /** The entry at (i, j) once all edges are written. A self-loop (i, i)
      takes the else branch of the source, whose second write leaves -1 on
      the diagonal. */
  function Entry(edges: seq<Edge>, i: int, j: int): int {
    if i < j then (if (i, j) in edges || (j, i) in edges then 1 else 0)
    else if j < i then (if (i, j) in edges || (j, i) in edges then -1 else 0)
    else if (i, i) in edges then -1 else 0
  }

  /** The matrix as a list of rows. */
  function Matrix(n: nat, edges: seq<Edge>): seq<seq<int>> {
    seq(n, i => seq(n, j => Entry(edges, i, j)))
  }

  /** The rows of a two-dimensional array. */
  function Rows(a: array2<int>): seq<seq<int>>
    reads a
  {
    seq(a.Length0, i reads a requires 0 <= i < a.Length0 =>
      seq(a.Length1, j reads a requires 0 <= i < a.Length0 && 0 <= j < a.Length1 => a[i, j]))
  }

  method MakeSkewSymmetricMatrix(n: nat, edges: seq<Edge>) returns (a: array2<int>)
    requires InRange(n, edges)
    ensures fresh(a) && a.Length0 == n && a.Length1 == n
    ensures forall i, j :: 0 <= i < n && 0 <= j < n ==> a[i, j] == Entry(edges, i, j)
    ensures Rows(a) == Matrix(n, edges)
  {
    a := new int[n, n]((i, j) => 0);
    for k := 0 to |edges|
      invariant forall i, j :: 0 <= i < n && 0 <= j < n ==> a[i, j] == Entry(edges[..k], i, j)
    {
      var (x, y) := edges[k];
      assert edges[..k + 1] == edges[..k] + [(x, y)];
      if x < y {
        a[x, y] := 1;
        a[y, x] := -1;
      } else {
        a[y, x] := 1;
        a[x, y] := -1;
      }
    }
    assert edges[..|edges|] == edges;
    assert Rows(a) == Matrix(n, edges) by {
      forall i | 0 <= i < n ensures Rows(a)[i] == Matrix(n, edges)[i] {
      }
    }
  }

  /** Skew symmetry off the diagonal: A[j][i] == -A[i][j]. */
  lemma SkewSymmetric(edges: seq<Edge>, i: int, j: int)
    requires i != j
    ensures Entry(edges, j, i) == -Entry(edges, i, j)
  {
  }

  /** Without self-loops the diagonal is zero. */
  lemma ZeroDiagonal(edges: seq<Edge>, i: int)
    requires forall k :: 0 <= k < |edges| ==> edges[k].0 != edges[k].1
    ensures Entry(edges, i, i) == 0
  {
  }

  /** Every entry is -1, 0 or 1; above the diagonal it is 1 exactly on an
      edge, in either orientation. */
  lemma EntryValues(edges: seq<Edge>, i: int, j: int)
    ensures Entry(edges, i, j) in {-1, 0, 1}
    ensures i < j ==> (Entry(edges, i, j) == 1 <==> (i, j) in edges || (j, i) in edges)
    ensures i < j ==> (Entry(edges, i, j) == 0 <==> (i, j) !in edges && (j, i) !in edges)
  {
  }

  /** Edge k with its orientation reversed. */
  function Flip(edges: seq<Edge>, k: nat): seq<Edge>
    requires k < |edges|
  {
    edges[k := (edges[k].1, edges[k].0)]
  }

  /** Reversing the orientation of any edge gives the same matrix. */
  lemma FlipSameMatrix(n: nat, edges: seq<Edge>, k: nat)
    requires k < |edges|
    ensures Matrix(n, Flip(edges, k)) == Matrix(n, edges)
  {
    var f := Flip(edges, k);
    forall i, j ensures Entry(f, i, j) == Entry(edges, i, j) {
      assert ((i, j) in f || (j, i) in f) <==> ((i, j) in edges || (j, i) in edges) by {
        if (i, j) in f {
          var m :| 0 <= m < |f| && f[m] == (i, j);
          if m == k { assert edges[k] == (j, i); } else { assert edges[m] == (i, j); }
        }
        if (j, i) in f {
          var m :| 0 <= m < |f| && f[m] == (j, i);
          if m == k { assert edges[k] == (i, j); } else { assert edges[m] == (j, i); }
        }
        if (i, j) in edges {
          var m :| 0 <= m < |edges| && edges[m] == (i, j);
          if m == k { assert f[k] == (j, i); } else { assert f[m] == (i, j); }
        }
        if (j, i) in edges {
          var m :| 0 <= m < |edges| && edges[m] == (j, i);
          if m == k { assert f[k] == (i, j); } else { assert f[m] == (j, i); }
        }
      }
    }
    forall i | 0 <= i < n ensures Matrix(n, f)[i] == Matrix(n, edges)[i] {
    }
  }
}

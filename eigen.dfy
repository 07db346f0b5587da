/**
  analyze_eigenvalues and the textual part of is_nice_closed_form.

  The computer algebra steps are not modelled: what the algebra system
  says about one root (its printed form, its simplified form, its
  category, whether it is a Float and whether it contains one) arrives
  as a `Root` value, and the roots of a polynomial with their
  multiplicities arrive as a sequence in the order the dictionary of
  roots yields them, or None when solving failed.
*/
module Eigen {
  import opened Wrappers

  /** The categories classify_eigenvalue answers with. */
  datatype Category = Zero | PureImaginary | RealValue | ComplexValue | Unknown

  /** One root as the algebra system reports it: `text` is str(expr),
      `simplified` is str(simplify(expr)), `isFloat` is
      isinstance(expr, Float) and `hasFloat` is expr.has(Float). */
  datatype Root = Root(text: string, simplified: string, category: Category, isFloat: bool, hasFloat: bool)

  /** One entry of the 'eigenvalues' list. */
  datatype EigenRecord = EigenRecord(value: string, multiplicity: int, category: Category, isNice: bool)

  /** The dictionary analyze_eigenvalues returns. */
  datatype Analysis = Analysis(allAnalytic: bool, eigenvalues: seq<EigenRecord>, summary: string)

  predicate StartsWith(s: string, p: string) {
    |p| <= |s| && s[..|p|] == p
  }

  /** t occurs in s at position i. */
  predicate At(s: string, t: string, i: int) {
    0 <= i <= |s| - |t| && s[i..i + |t|] == t
  }

  /** Substring test `t in s`. */
  function Contains(s: string, t: string): (b: bool)
    ensures b <==> exists i :: At(s, t, i)
    decreases |s|
  {
    if StartsWith(s, t) then
      assert At(s, t, 0);
      true
    else if s == [] then false
    else
      var b := Contains(s[1..], t);
      assert b ==> exists i :: At(s, t, i) by {
        if b {
          var i :| At(s[1..], t, i);
          assert s[i + 1..i + 1 + |t|] == s[1..][i..i + |t|];
          assert At(s, t, i + 1);
        }
      }
      assert (exists i :: At(s, t, i)) ==> b by {
        if exists i :: At(s, t, i) {
          var i :| At(s, t, i);
          assert i != 0;
          assert s[1..][i - 1..i - 1 + |t|] == s[i..i + |t|];
          assert At(s[1..], t, i - 1);
        }
      }
      b
  }

  /** s.replace('...', ''): every "..." is dropped, scanning left to right. */
  function RemoveEllipses(s: string): (r: string)
    ensures |r| <= |s|
    ensures forall k :: 0 <= k < |r| ==> r[k] in s
    decreases |s|
  {
    if |s| < 3 then s
    else if s[..3] == "..." then
      var r := RemoveEllipses(s[3..]);
      assert forall k :: 0 <= k < |r| ==> r[k] in s by {
        forall k | 0 <= k < |r| ensures r[k] in s {
          var j :| 0 <= j < |s[3..]| && s[3..][j] == r[k];
          assert s[j + 3] == r[k];
        }
      }
      r
    else
      var tail := RemoveEllipses(s[1..]);
      assert forall k :: 0 <= k < |tail| ==> tail[k] in s by {
        forall k | 0 <= k < |tail| ensures tail[k] in s {
          var j :| 0 <= j < |s[1..]| && s[1..][j] == tail[k];
          assert s[j + 1] == tail[k];
        }
      }
      [s[0]] + tail
  }

  /** The float hint of is_nice_closed_form: the text mentions Float, or a
      dot is left once the ellipses are gone. */
  predicate FloatHint(s: string) {
    Contains(s, "Float") || '.' in RemoveEllipses(s)
  }

  /** is_nice_closed_form(expr); None stands for the expression None. */
  function IsNiceClosedForm(e: Option<Root>): (b: bool)
    ensures b ==> e.Some? && !Contains(e.value.text, "RootOf") && !Contains(e.value.text, "CRootOf")
    ensures b ==> !e.value.isFloat && |e.value.text| <= 200
    ensures b ==> !(FloatHint(e.value.text) && e.value.hasFloat)
  {
    if e.None? then false
    else
      var s := e.value.text;
      CRootOfHasRootOf(s);
      if Contains(s, "RootOf") || Contains(s, "CRootOf") then false
      else if e.value.isFloat then false
      else if FloatHint(s) && e.value.hasFloat then false
      else if |s| > 200 then false
      else true
  }

  /** Every "CRootOf" holds a "RootOf", so the second test of the source
      never decides anything. */
  lemma CRootOfHasRootOf(s: string)
    ensures Contains(s, "CRootOf") ==> Contains(s, "RootOf")
  {
    if Contains(s, "CRootOf") {
      var i :| At(s, "CRootOf", i);
      assert s[i + 1..i + 7] == s[i..i + 7][1..];
      assert At(s, "RootOf", i + 1);
    }
  }

  lemma {:induction false} DotHead(t: string)
    requires |RemoveEllipses(t)| > 0 && RemoveEllipses(t)[0] == '.'
    ensures |t| > 0 && t[0] == '.'
    decreases |t|
  {
    if |t| >= 3 && t[..3] == "..." {
      assert t[0] == t[..3][0];
    }
  }

  lemma {:induction false} TwoDotsHead(t: string)
    requires StartsWith(RemoveEllipses(t), "..")
    ensures StartsWith(t, "..")
  {
    if |t| >= 3 && t[..3] == "..." {
      assert t[..2] == t[..3][..2];
    } else if |t| >= 3 {
      var tail := RemoveEllipses(t[1..]);
      assert RemoveEllipses(t) == [t[0]] + tail;
      assert tail[0] == RemoveEllipses(t)[1];
      DotHead(t[1..]);
      assert t[0] == RemoveEllipses(t)[0];
      assert t[..2] == [t[0], t[1]];
    }
  }

  lemma ContainsCons(c: char, u: string, t: string)
    requires |t| > 0
    ensures Contains([c] + u, t) <==> StartsWith([c] + u, t) || Contains(u, t)
  {
    assert ([c] + u)[1..] == u;
  }

  /** A kept character followed by a replaced tail starts "..." only
      when the text itself does. */
  lemma JoinedDots(s: string)
    requires |s| >= 3
    ensures StartsWith([s[0]] + RemoveEllipses(s[1..]), "...") ==> s[..3] == "..."
  {
    var tail := RemoveEllipses(s[1..]);
    if StartsWith([s[0]] + tail, "...") {
      assert tail[..2] == ([s[0]] + tail)[1..3];
      TwoDotsHead(s[1..]);
      assert s[..3] == [s[0]] + s[1..][..2];
    }
  }

  /** After s.replace('...', '') no "..." is left: the dots the float hint
      sees are never part of an ellipsis. */
  lemma {:induction false} NoEllipsisLeft(s: string)
    ensures !Contains(RemoveEllipses(s), "...")
    decreases |s|
  {
    if |s| < 3 {
    } else if s[..3] == "..." {
      NoEllipsisLeft(s[3..]);
    } else {
      NoEllipsisLeft(s[1..]);
      ContainsCons(s[0], RemoveEllipses(s[1..]), "...");
      JoinedDots(s);
    }
  }

  /** Text without dots comes through the replacement unchanged. */
  lemma {:induction false} RemoveEllipsesNoDots(s: string)
    requires '.' !in s
    ensures RemoveEllipses(s) == s
    decreases |s|
  {
    if |s| >= 3 {
      assert s[0] in s;
      assert s[..3] != "...";
      assert forall c :: c in s[1..] ==> c in s;
      RemoveEllipsesNoDots(s[1..]);
      assert s == [s[0]] + s[1..];
    }
  }

  /** Where the text raises no Float hint (no "Float", and no dot once the
      ellipses are gone), expr.has(Float) is never consulted: niceness is
      the RootOf, Float-instance and length tests alone. */
  lemma NiceWithoutFloatHint(r: Root)
    requires !FloatHint(r.text)
    ensures IsNiceClosedForm(Some(r)) <==>
      !Contains(r.text, "RootOf") && !r.isFloat && |r.text| <= 200
  {
    CRootOfHasRootOf(r.text);
  }

  /** In particular, text with neither "Float" nor a dot raises no hint. */
  lemma NoDotsNoFloatHint(s: string)
    requires !Contains(s, "Float") && '.' !in s
    ensures !FloatHint(s)
  {
    RemoveEllipsesNoDots(s);
  }

  /** With the hint raised, the answer of expr.has(Float) decides. */
  lemma NiceWithFloatHint(r: Root)
    requires FloatHint(r.text) && !Contains(r.text, "RootOf") && !r.isFloat && |r.text| <= 200
    ensures IsNiceClosedForm(Some(r)) <==> !r.hasFloat
  {
    CRootOfHasRootOf(r.text);
  }

  /** A symbolic ellipsis is not mistaken for a decimal point. */
  lemma EllipsisIsNotADecimal()
    ensures RemoveEllipses("x...y") == "xy"
    ensures !FloatHint("x...y")
  {
    var s := "x...y";
    assert s[0] == 'x' && s[..3] != "...";
    assert s[1..] == "...y" && s[1..][..3] == "...";
    assert s[1..][3..] == "y";
    assert RemoveEllipses(s) == [s[0]] + RemoveEllipses("y");
    forall i ensures !At(s, "Float", i) {
      if i == 0 {
        assert s[i..i + 5][0] != "Float"[0];
      }
    }
  }

  /** The entry recorded for one root and its multiplicity. */
  function RecordOf(item: (Root, int)): EigenRecord {
    EigenRecord(item.0.simplified, item.1, item.0.category, IsNiceClosedForm(Some(item.0)))
  }

  /** all_nice and results after the loop has seen the items. */
  function Analyzed(items: seq<(Root, int)>): (r: (bool, seq<EigenRecord>))
    ensures r.0 <==> forall k :: 0 <= k < |items| ==> IsNiceClosedForm(Some(items[k].0))
    ensures |r.1| == |items| && forall k :: 0 <= k < |items| ==> r.1[k] == RecordOf(items[k])
  {
    if items == [] then (true, [])
    else
      var prev := Analyzed(items[..|items| - 1]);
      var last := items[|items| - 1];
      (prev.0 && IsNiceClosedForm(Some(last.0)), prev.1 + [RecordOf(last)])
  }

  function Summary(allNice: bool): string {
    if allNice then "All eigenvalues have closed forms" else "Some eigenvalues lack closed forms"
  }

  /** analyze_eigenvalues as a value. */
  function AnalysisOf(eigs: Option<seq<(Root, int)>>): Analysis {
    match eigs
    case None => Analysis(false, [], "Could not solve")
    case Some(items) =>
      var r := Analyzed(items);
      Analysis(r.0, r.1, Summary(r.0))
  }

  /** What the analysis promises: failure to solve is never analytic; when
      solved, the analysis is analytic exactly when every root is nice,
      there is one entry per root in order, with its multiplicity and
      niceness, and the summary says which case holds. */
  lemma AnalysisFacts(eigs: Option<seq<(Root, int)>>)
    ensures eigs.None? ==> !AnalysisOf(eigs).allAnalytic && AnalysisOf(eigs).eigenvalues == []
    ensures eigs.Some? ==>
      (AnalysisOf(eigs).allAnalytic <==> forall k :: 0 <= k < |eigs.value| ==> IsNiceClosedForm(Some(eigs.value[k].0)))
    ensures eigs.Some? ==> |AnalysisOf(eigs).eigenvalues| == |eigs.value|
    ensures eigs.Some? ==> forall k :: 0 <= k < |eigs.value| ==>
      AnalysisOf(eigs).eigenvalues[k].multiplicity == eigs.value[k].1 &&
      AnalysisOf(eigs).eigenvalues[k].value == eigs.value[k].0.simplified &&
      AnalysisOf(eigs).eigenvalues[k].isNice == IsNiceClosedForm(Some(eigs.value[k].0))
    ensures AnalysisOf(eigs).allAnalytic <==> AnalysisOf(eigs).summary == "All eigenvalues have closed forms"
    ensures AnalysisOf(eigs).allAnalytic ==> forall k :: 0 <= k < |AnalysisOf(eigs).eigenvalues| ==>
      AnalysisOf(eigs).eigenvalues[k].isNice
  {
  }

  /** An empty list of roots counts as analytic: all() of nothing holds.
      The 0 x 0 matrix gives one, and so does a solver that returns no
      roots without failing; `solve` is free to do either. */
  lemma NoRootsAnalytic()
    ensures AnalysisOf(Some([])).allAnalytic
  {
  }

  /** One more pass of the loop over the roots. */
  lemma AnalyzedStep(items: seq<(Root, int)>, i: nat)
    requires i < |items|
    ensures Analyzed(items[..i + 1]) ==
      (Analyzed(items[..i]).0 && IsNiceClosedForm(Some(items[i].0)), Analyzed(items[..i]).1 + [RecordOf(items[i])])
  {
    assert items[..i + 1][..i] == items[..i];
  }

  /** analyze_eigenvalues(eigs) */
  method AnalyzeEigenvalues(eigs: Option<seq<(Root, int)>>) returns (a: Analysis)
    ensures a == AnalysisOf(eigs)
  {
    if eigs.None? {
      return Analysis(false, [], "Could not solve");
    }
    var items := eigs.value;
    var results: seq<EigenRecord> := [];
    var allNice := true;
    for i := 0 to |items|
      invariant (allNice, results) == Analyzed(items[..i])
    {
      var (eig, mult) := items[i];
      var isNice := IsNiceClosedForm(Some(eig));
      AnalyzedStep(items, i);
      if !isNice {
        allNice := false;
      }
      results := results + [EigenRecord(eig.simplified, mult, eig.category, isNice)];
    }
    assert items[..|items|] == items;
    var summary := if allNice then "All eigenvalues have closed forms" else "Some eigenvalues lack closed forms";
    a := Analysis(allNice, results, summary);
  }
}

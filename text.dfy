/**
  String rendering used by the records: Python's str() of an integer and
  edges_to_string, with a parser that reads an edge string back.
*/
module Text {
  import opened Wrappers
  import opened Sorting
  import opened Graphs
  import opened Canonical

  predicate IsDigit(c: char) {
    '0' <= c <= '9'
  }

  predicate AllDigits(s: string) {
    forall k :: 0 <= k < |s| ==> IsDigit(s[k])
  }

  function DigitChar(d: nat): char
    requires d < 10
  {
    "0123456789"[d]
  }

  /** Decimal digits of k, without leading zeros. */
  function NatStr(k: nat): (s: string)
    ensures |s| >= 1 && AllDigits(s)
  {
    if k < 10 then [DigitChar(k)] else NatStr(k / 10) + [DigitChar(k % 10)]
  }

  /** str(i) */
  function IntStr(i: int): string {
    if i < 0 then "-" + NatStr(-i) else NatStr(i)
  }

  /** The number a string of decimal digits denotes. */
  function DigitsValue(s: string): nat
    requires AllDigits(s)
  {
    if s == [] then 0 else 10 * DigitsValue(s[..|s| - 1]) + ((s[|s| - 1] as int) - ('0' as int))
  }

  /** Length of the run of digits at the start of s. */
  function LeadingDigits(s: string): (r: nat)
    ensures r <= |s| && AllDigits(s[..r])
    ensures r < |s| ==> !IsDigit(s[r])
  {
    if s == [] || !IsDigit(s[0]) then 0
    else
      var r := 1 + LeadingDigits(s[1..]);
      assert s[..r] == [s[0]] + s[1..][..r - 1];
      r
  }

  /** Each digit character stands for its digit. */
  lemma DigitCharValue(d: nat)
    requires d < 10
    ensures IsDigit(DigitChar(d)) && (DigitChar(d) as int) - ('0' as int) == d
  {
  }

  lemma NatStrLast(k: nat)
    requires k >= 10
    ensures NatStr(k)[..|NatStr(k)| - 1] == NatStr(k / 10)
    ensures NatStr(k)[|NatStr(k)| - 1] == DigitChar(k % 10)
  {
  }

  /** Rendering then reading digits gives the number back. */
  lemma {:induction false} NatStrValue(k: nat)
    ensures DigitsValue(NatStr(k)) == k
  {
    if k >= 10 {
      NatStrValue(k / 10);
      NatStrLast(k);
      DigitCharValue(k % 10);
    } else {
      DigitCharValue(k);
    }
  }

  lemma LeadingDigitsOfNat(k: nat, rest: string)
    requires rest == [] || !IsDigit(rest[0])
    ensures LeadingDigits(NatStr(k) + rest) == |NatStr(k)|
  {
    LeadingDigitsPrefix(NatStr(k), rest);
  }

  lemma {:induction false} LeadingDigitsPrefix(d: string, rest: string)
    requires AllDigits(d) && (rest == [] || !IsDigit(rest[0]))
    ensures LeadingDigits(d + rest) == |d|
  {
    if d != [] {
      assert (d + rest)[1..] == d[1..] + rest;
      LeadingDigitsPrefix(d[1..], rest);
    } else {
      assert d + rest == rest;
    }
  }

  /** Different numbers have different renderings. */
  lemma NatStrInjective(a: nat, b: nat)
    requires NatStr(a) == NatStr(b)
    ensures a == b
  {
    NatStrValue(a);
    NatStrValue(b);
  }

  /** A rendering starts with a minus sign exactly when the number is negative. */
  lemma IntStrSign(i: int)
    ensures |IntStr(i)| > 0 && (IntStr(i)[0] == '-' <==> i < 0)
  {
    if i >= 0 {
      assert IsDigit(NatStr(i)[0]);
    }
  }

  /** Different integers have different renderings. */
  lemma IntStrInjective(a: int, b: int)
    requires IntStr(a) == IntStr(b)
    ensures a == b
  {
    IntStrSign(a);
    IntStrSign(b);
    if a < 0 && b < 0 {
      assert NatStr(-a) == IntStr(a)[1..] == IntStr(b)[1..] == NatStr(-b);
      NatStrInjective(-a, -b);
    } else if a >= 0 && b >= 0 {
      NatStrInjective(a, b);
    }
  }

  lemma StripPrefix(p: string, x: string, y: string)
    requires p + x == p + y
    ensures x == y
  {
    assert x == (p + x)[|p|..];
    assert y == (p + y)[|p|..];
  }

  lemma StripSuffix(x: string, y: string, q: string)
    requires x + q == y + q
    ensures x == y
  {
    assert |x| == |y|;
    assert x == (x + q)[..|x|];
    assert y == (y + q)[..|y|];
  }

  // ---------------------------------------------------------------------
  // edges_to_string
  // ---------------------------------------------------------------------

  const NoEdges: string := "\U{2205} (no edges)"

  /** f"{i}-{j}" */
  function EdgeStr(e: Edge): string {
    IntStr(e.0) + "-" + IntStr(e.1)
  }

  /** ", ".join(parts) */
  function Join(parts: seq<string>): string {
    if parts == [] then ""
    else if |parts| == 1 then parts[0]
    else parts[0] + ", " + Join(parts[1..])
  }

  function EdgeStrs(edges: seq<Edge>): (r: seq<string>)
    ensures |r| == |edges| && forall k :: 0 <= k < |edges| ==> r[k] == EdgeStr(edges[k])
  {
    seq(|edges|, k requires 0 <= k < |edges| => EdgeStr(edges[k]))
  }

  function EdgesToString(edges: seq<Edge>): string {
    if edges == [] then NoEdges else Join(EdgeStrs(SortBy(edges, PairLe)))
  }

  /** Reads one edge "i-j" at the start of s; returns it with the rest. */
  function ParseEdge(s: string): (r: Option<(Edge, string)>)
    ensures r.Some? ==> |r.value.1| < |s|
  {
    var a := LeadingDigits(s);
    if a == 0 || a == |s| || s[a] != '-' then None
    else
      var t := s[a + 1..];
      var b := LeadingDigits(t);
      if b == 0 then None
      else Some(((DigitsValue(s[..a]), DigitsValue(t[..b])), t[b..]))
  }

  /** Reads "i-j, i-j, ..." with natural numbers i, j. */
  function ParseEdgeList(s: string): Option<seq<Edge>>
    decreases |s|
  {
    match ParseEdge(s)
    case None => None
    case Some((e, rest)) =>
      if rest == [] then Some([e])
      else if |rest| >= 2 && rest[..2] == ", " then
        match ParseEdgeList(rest[2..])
        case Some(es) => Some([e] + es)
        case None => None
      else None
  }

  /** Reads the output of edges_to_string back. */
  function ParseEdgeString(s: string): Option<seq<Edge>> {
    if s == NoEdges then Some([]) else ParseEdgeList(s)
  }

  predicate NonNegative(edges: seq<Edge>) {
    forall k :: 0 <= k < |edges| ==> edges[k].0 >= 0 && edges[k].1 >= 0
  }

  /** A number, a dash and the rest: the digits end at the dash. */
  lemma NumberThenDash(a: nat, rest: string)
    ensures LeadingDigits(NatStr(a) + "-" + rest) == |NatStr(a)|
    ensures (NatStr(a) + "-" + rest)[..|NatStr(a)|] == NatStr(a)
    ensures (NatStr(a) + "-" + rest)[|NatStr(a)|] == '-'
    ensures (NatStr(a) + "-" + rest)[|NatStr(a)| + 1..] == rest
  {
    assert NatStr(a) + "-" + rest == NatStr(a) + ("-" + rest);
    LeadingDigitsOfNat(a, "-" + rest);
  }

  /** A number and a tail that does not start with a digit. */
  lemma NumberThenTail(b: nat, tail: string)
    requires tail == [] || !IsDigit(tail[0])
    ensures LeadingDigits(NatStr(b) + tail) == |NatStr(b)|
    ensures (NatStr(b) + tail)[..|NatStr(b)|] == NatStr(b)
    ensures (NatStr(b) + tail)[|NatStr(b)|..] == tail
  {
    LeadingDigitsOfNat(b, tail);
  }

  lemma ParseEdgeOf(a: nat, b: nat, tail: string)
    requires tail == [] || !IsDigit(tail[0])
    ensures ParseEdge(NatStr(a) + "-" + NatStr(b) + tail) == Some(((a, b), tail))
  {
    assert NatStr(a) + "-" + NatStr(b) + tail == NatStr(a) + "-" + (NatStr(b) + tail);
    NumberThenDash(a, NatStr(b) + tail);
    NumberThenTail(b, tail);
    NatStrValue(a);
    NatStrValue(b);
  }

  /** How the parser reads one edge followed by the rest. */
  lemma ParseHead(a: nat, b: nat, tail: string)
    requires tail == [] || (|tail| >= 2 && tail[..2] == ", ")
    ensures ParseEdgeList(NatStr(a) + "-" + NatStr(b) + tail) ==
      if tail == [] then Some([(a, b)])
      else match ParseEdgeList(tail[2..])
        case Some(es) => Some([(a, b)] + es)
        case None => None
  {
    if tail != [] {
      assert tail[0] == tail[..2][0] == ',';
    }
    ParseEdgeOf(a, b, tail);
  }

  lemma JoinCons(parts: seq<string>)
    requires |parts| > 1
    ensures Join(parts) == parts[0] + (", " + Join(parts[1..]))
  {
  }

  /** Reading "i-j, " in front of a list that reads back reads back. */
  lemma ParseCons(edges: seq<Edge>)
    requires |edges| > 1 && NonNegative(edges)
    requires ParseEdgeList(Join(EdgeStrs(edges[1..]))) == Some(edges[1..])
    ensures ParseEdgeList(Join(EdgeStrs(edges))) == Some(edges)
  {
    var e := edges[0];
    assert EdgeStr(e) == NatStr(e.0) + "-" + NatStr(e.1);
    var more := Join(EdgeStrs(edges[1..]));
    assert EdgeStrs(edges)[1..] == EdgeStrs(edges[1..]);
    JoinCons(EdgeStrs(edges));
    var tail := ", " + more;
    assert tail[..2] == ", " && tail[2..] == more;
    ParseHead(e.0, e.1, tail);
    assert edges == [e] + edges[1..];
  }

  lemma {:induction false} ParseJoin(edges: seq<Edge>)
    requires edges != [] && NonNegative(edges)
    ensures ParseEdgeList(Join(EdgeStrs(edges))) == Some(edges)
    decreases |edges|
  {
    if |edges| > 1 {
      ParseJoin(edges[1..]);
      ParseCons(edges);
    } else {
      var e := edges[0];
      assert Join(EdgeStrs(edges)) == NatStr(e.0) + "-" + NatStr(e.1) + "";
      ParseHead(e.0, e.1, "");
      assert edges == [e];
    }
  }

  lemma JoinStartsWithDigit(edges: seq<Edge>)
    requires edges != [] && NonNegative(edges)
    ensures |Join(EdgeStrs(edges))| > 0 && IsDigit(Join(EdgeStrs(edges))[0])
  {
    var e := edges[0];
    var first := NatStr(e.0);
    assert EdgeStr(e) == first + ("-" + NatStr(e.1));
    var rest := if |edges| > 1 then ", " + Join(EdgeStrs(edges)[1..]) else "";
    if |edges| > 1 {
      JoinCons(EdgeStrs(edges));
    }
    assert Join(EdgeStrs(edges)) == first + (("-" + NatStr(e.1)) + rest);
    assert IsDigit(first[0]);
  }

  /** Sorting keeps the end points, so it keeps them non-negative. */
  lemma SortKeepsNonNegative(edges: seq<Edge>)
    requires NonNegative(edges)
    ensures NonNegative(SortBy(edges, PairLe))
  {
    var s := SortBy(edges, PairLe);
    forall k | 0 <= k < |s| ensures s[k].0 >= 0 && s[k].1 >= 0 {
      assert s[k] in multiset(s);
      var m :| 0 <= m < |edges| && edges[m] == s[k];
    }
  }

  /** edges_to_string loses nothing but the order: reading it back gives
      the edges sorted. */
  lemma EdgesToStringRoundTrip(edges: seq<Edge>)
    requires NonNegative(edges)
    ensures ParseEdgeString(EdgesToString(edges)) == Some(SortBy(edges, PairLe))
  {
    if edges != [] {
      var s := SortBy(edges, PairLe);
      SortKeepsNonNegative(edges);
      ParseJoin(s);
      JoinStartsWithDigit(s);
      assert !IsDigit(NoEdges[0]);
    }
  }

  /** A list already in order is left as it is by the sort. */
  lemma {:induction false} SortedListUnchanged(s: seq<Edge>)
    requires Sorted(s, PairLe)
    ensures SortBy(s, PairLe) == s
  {
    if s != [] {
      var t := s[1..];
      assert Sorted(t, PairLe) by {
        forall i, j | 0 <= i < j < |t| ensures PairLe(t[i], t[j]) {
          assert t[i] == s[i + 1] && t[j] == s[j + 1];
        }
      }
      SortedListUnchanged(t);
      if t != [] {
        assert PairLe(s[0], s[1]);
      }
    }
  }
}

/** The match-and-wrap step of `highlightSearchTerms`: `text.replace(regex, '<mark …>$1</mark>')`
    with the global, case-insensitive regex built from the escaped query. Because the
    pattern is the query taken literally (RegexEscape.GroupPattern), the replace wraps every
    leftmost, non-overlapping, case-insensitive occurrence of the query; the result is kept
    as an ordered sequence of plain and marked segments. */
module Highlighter {
  import opened TextUtil

  /** A run of text outside any mark, or the text of one `<mark>` element. */
  datatype Segment = Plain(text: string) | Marked(text: string)

  /** The text content of a run of segments: what unwrapping each mark leaves. */
  function Flatten(segs: seq<Segment>): string {
    if segs == [] then [] else segs[0].text + Flatten(segs[1..])
  }

  /** Number of marks among the segments. */
  function MarkCount(segs: seq<Segment>): nat {
    if segs == [] then 0 else (if segs[0].Marked? then 1 else 0) + MarkCount(segs[1..])
  }

  /** Puts one unmatched character in front of the segments, joining it to a leading plain run. */
  function ConsChar(c: char, segs: seq<Segment>): seq<Segment> {
    if segs != [] && segs[0].Plain? then [Plain([c] + segs[0].text)] + segs[1..]
    else [Plain([c])] + segs
  }

  /** The global replace, scanning left to right: a match at the current position is
      wrapped and scanning resumes after it; otherwise one character is kept as plain text. */
  function Highlight(t: string, q: string): seq<Segment>
    requires q != []
    decreases |t|
  {
    if t == [] then []
    else if OccursAt(t, q, 0) then [Marked(t[..|q|])] + Highlight(t[|q|..], q)
    else ConsChar(t[0], Highlight(t[1..], q))
  }

  /** Reference description of a leftmost, non-overlapping, global replace of `q` in `t`:
      the segments spell `t` from left to right; a mark is a case-insensitive occurrence
      of `q` at its place; no occurrence of `q` starts inside a plain run (so each mark
      is the leftmost one left); a plain run is non-empty and is followed by a mark or
      ends the text. */
  ghost predicate Greedy(t: string, q: string, segs: seq<Segment>)
    decreases segs
  {
    if segs == [] then t == []
    else
      var s := segs[0].text;
      0 < |s| <= |t| && t[..|s|] == s
      && (if segs[0].Marked? then |s| == |q| && OccursAt(t, q, 0)
          else (forall j :: 0 <= j < |s| ==> !OccursAt(t, q, j))
               && (|segs| > 1 ==> segs[1].Marked?))
      && Greedy(t[|s|..], q, segs[1..])
  }

  lemma MarkCountConsChar(c: char, segs: seq<Segment>)
    ensures MarkCount(ConsChar(c, segs)) == MarkCount(segs)
  {
    if segs != [] && segs[0].Plain? {
      assert ([Plain([c] + segs[0].text)] + segs[1..])[1..] == segs[1..];
    } else {
      assert ([Plain([c])] + segs)[1..] == segs;
    }
  }

  /** The highlighted segments are exactly the leftmost global replace. */
  lemma {:induction false} HighlightIsGreedy(t: string, q: string)
    requires q != []
    ensures Greedy(t, q, Highlight(t, q))
    decreases |t|
  {
    if t == [] {
    } else if OccursAt(t, q, 0) {
      var rest := Highlight(t[|q|..], q);
      HighlightIsGreedy(t[|q|..], q);
      assert ([Marked(t[..|q|])] + rest)[1..] == rest;
    } else {
      HighlightIsGreedy(t[1..], q);
      GreedyConsChar(t, q, Highlight(t[1..], q));
    }
  }

  /** A character at which no occurrence starts joins the plain run that follows it. */
  lemma GreedyConsChar(t: string, q: string, rest: seq<Segment>)
    requires t != [] && !OccursAt(t, q, 0) && Greedy(t[1..], q, rest)
    ensures Greedy(t, q, ConsChar(t[0], rest))
  {
    if rest != [] && rest[0].Plain? {
      GreedyJoinPlain(t, q, rest);
    } else {
      var segs := [Plain([t[0]])] + rest;
      assert segs[1..] == rest;
    }
  }

  lemma GreedyJoinPlain(t: string, q: string, rest: seq<Segment>)
    requires t != [] && !OccursAt(t, q, 0) && Greedy(t[1..], q, rest)
    requires rest != [] && rest[0].Plain?
    ensures Greedy(t, q, [Plain([t[0]] + rest[0].text)] + rest[1..])
  {
    var p := rest[0].text;
    var segs := [Plain([t[0]] + p)] + rest[1..];
    assert segs[1..] == rest[1..];
    assert t[..|p| + 1] == [t[0]] + t[1..][..|p|];
    assert t[|p| + 1..] == t[1..][|p|..];
    forall j | 0 <= j < |p| + 1
      ensures !OccursAt(t, q, j)
    {
      if j > 0 {
        OccursAtShift(t, q, 1, j - 1);
      }
    }
  }

  /** There is only one segmentation that meets the reference description. */
  lemma {:induction false} GreedyUnique(t: string, q: string, a: seq<Segment>, b: seq<Segment>)
    requires Greedy(t, q, a) && Greedy(t, q, b)
    ensures a == b
    decreases |a|
  {
    if a != [] && b != [] {
      var sa, sb := a[0].text, b[0].text;
      if a[0].Plain? && b[0].Plain? && |sa| < |sb| {
        PlainRunEnds(t, q, a);
        assert false;
      } else if a[0].Plain? && b[0].Plain? && |sb| < |sa| {
        PlainRunEnds(t, q, b);
        assert false;
      } else {
        assert sa == t[..|sa|] == t[..|sb|] == sb;
        assert a[0] == b[0];
        GreedyUnique(t[|sa|..], q, a[1..], b[1..]);
        assert a == [a[0]] + a[1..];
        assert b == [b[0]] + b[1..];
      }
    }
  }

  /** The highlighted segments are the one segmentation that meets the reference. */
  lemma GreedyIsHighlight(t: string, q: string, segs: seq<Segment>)
    requires q != [] && Greedy(t, q, segs)
    ensures Highlight(t, q) == segs
  {
    HighlightIsGreedy(t, q);
    GreedyUnique(t, q, segs, Highlight(t, q));
  }

  /** A plain run that does not end the text is followed by an occurrence of the query. */
  lemma PlainRunEnds(t: string, q: string, segs: seq<Segment>)
    requires Greedy(t, q, segs)
    requires segs != [] && segs[0].Plain? && |segs[0].text| < |t|
    ensures OccursAt(t, q, |segs[0].text|)
  {
    var n := |segs[0].text|;
    assert |segs| > 1;
    OccursAtShift(t, q, n, 0);
  }

  /** Unwrapping every mark gives the text back. */
  lemma {:induction false} GreedyFlatten(t: string, q: string, segs: seq<Segment>)
    requires Greedy(t, q, segs)
    ensures Flatten(segs) == t
    decreases segs
  {
    if segs != [] {
      var s := segs[0].text;
      GreedyFlatten(t[|s|..], q, segs[1..]);
      assert t == t[..|s|] + t[|s|..];
    }
  }

  /** Every mark holds the query up to case. */
  lemma {:induction false} GreedyMarks(t: string, q: string, segs: seq<Segment>, k: int)
    requires Greedy(t, q, segs)
    requires 0 <= k < |segs| && segs[k].Marked?
    ensures |segs[k].text| == |q| && LowerStr(segs[k].text) == LowerStr(q)
    decreases segs
  {
    if k == 0 {
      assert segs[0].text == t[..|q|] == t[0..0 + |q|];
    } else {
      GreedyMarks(t[|segs[0].text|..], q, segs[1..], k - 1);
    }
  }

  /** No plain run contains an occurrence of the query. */
  lemma {:induction false} GreedyPlain(t: string, q: string, segs: seq<Segment>, k: int)
    requires Greedy(t, q, segs)
    requires q != [] && 0 <= k < |segs| && segs[k].Plain?
    ensures !ContainsCI(segs[k].text, q)
    decreases segs
  {
    var s := segs[0].text;
    if k == 0 {
      assert t[..|s|] == s;
      forall j | 0 <= j <= |s| - |q|
        ensures !OccursAt(s, q, j)
      {
        var m := j + |q|;
        assert forall i :: j <= i < m ==> s[i] == t[i];
        assert s[j..m] == t[j..m];
        assert !OccursAt(t, q, j);
      }
    } else {
      GreedyPlain(t[|s|..], q, segs[1..], k - 1);
    }
  }

  /** Every mark matches the query up to case, every plain run is free of it, and unwrapping
      gives the text back: the visible effect of the global replace on one text node. */
  lemma HighlightSegments(t: string, q: string)
    requires q != []
    ensures Flatten(Highlight(t, q)) == t
    ensures forall k :: 0 <= k < |Highlight(t, q)| && Highlight(t, q)[k].Marked? ==>
              |Highlight(t, q)[k].text| == |q| && LowerStr(Highlight(t, q)[k].text) == LowerStr(q)
    ensures forall k :: 0 <= k < |Highlight(t, q)| && Highlight(t, q)[k].Plain? ==>
              !ContainsCI(Highlight(t, q)[k].text, q)
  {
    var segs := Highlight(t, q);
    HighlightIsGreedy(t, q);
    GreedyFlatten(t, q, segs);
    forall k | 0 <= k < |segs| && segs[k].Marked?
      ensures |segs[k].text| == |q| && LowerStr(segs[k].text) == LowerStr(q)
    {
      GreedyMarks(t, q, segs, k);
    }
    forall k | 0 <= k < |segs| && segs[k].Plain?
      ensures !ContainsCI(segs[k].text, q)
    {
      GreedyPlain(t, q, segs, k);
    }
  }

  /** `regex.test(text)` holds exactly when the replace wraps at least one mark. */
  lemma {:induction false} HasMarkIffContains(t: string, q: string)
    requires q != []
    ensures MarkCount(Highlight(t, q)) > 0 <==> ContainsCI(t, q)
    decreases |t|
  {
    if t == [] {
    } else if OccursAt(t, q, 0) {
      assert ([Marked(t[..|q|])] + Highlight(t[|q|..], q))[1..] == Highlight(t[|q|..], q);
    } else {
      HasMarkIffContains(t[1..], q);
      MarkCountConsChar(t[0], Highlight(t[1..], q));
      if ContainsCI(t, q) {
        var j :| 0 <= j <= |t| - |q| && OccursAt(t, q, j);
        OccursAtShift(t, q, 1, j - 1);
      }
      if ContainsCI(t[1..], q) {
        var j :| 0 <= j <= |t[1..]| - |q| && OccursAt(t[1..], q, j);
        OccursAtShift(t, q, 1, j);
      }
    }
  }

  /** Marks do not overlap: together they take no more characters than the text has. */
  lemma {:induction false} MarksFit(t: string, q: string)
    requires q != []
    ensures MarkCount(Highlight(t, q)) * |q| <= |t|
    decreases |t|
  {
    if t == [] {
    } else if OccursAt(t, q, 0) {
      var rest := Highlight(t[|q|..], q);
      MarksFit(t[|q|..], q);
      assert ([Marked(t[..|q|])] + rest)[1..] == rest;
      var m := MarkCount(rest);
      assert MarkCount(Highlight(t, q)) == 1 + m;
      assert (1 + m) * |q| == |q| + m * |q|;
    } else {
      MarksFit(t[1..], q);
      MarkCountConsChar(t[0], Highlight(t[1..], q));
    }
  }

  /** No occurrence of "cell" starts among the first `n` characters when none of them is a `c`. */
  lemma NoCellBefore(t: string, q: string, n: nat)
    requires q == "cell" && n <= |t| && 'c' !in t[..n] && 'C' !in t[..n]
    ensures forall j :: 0 <= j < n ==> !OccursAt(t, q, j)
  {
    forall j | 0 <= j < n
      ensures !OccursAt(t, q, j)
    {
      assert t[j] == t[..n][j];
      assert Lower(t[j]) != Lower(q[0]);
    }
  }

  /** The query "cell" on "granuloma cells form" wraps the "cell" inside "cells". */
  lemma CellScenario()
    ensures Highlight("granuloma cells form", "cell")
            == [Plain("granuloma "), Marked("cell"), Plain("s form")]
  {
    CellGreedy();
    GreedyIsHighlight("granuloma cells form", "cell",
                      [Plain("granuloma "), Marked("cell"), Plain("s form")]);
  }

  /** The expected segments meet the reference description. */
  lemma CellGreedy()
    ensures Greedy("granuloma cells form", "cell",
                   [Plain("granuloma "), Marked("cell"), Plain("s form")])
  {
    var p, u, q := "granuloma ", "cells form", "cell";
    assert p + u == "granuloma cells form";
    assert (p + u)[..10] == p;
    NoCellBefore(p + u, q, 10);
    CellTail();
    GreedyPrependPlain(p, u, q, [Marked("cell"), Plain("s form")]);
  }

  /** A non-empty run in which no occurrence starts, put in front of a segmentation that
      starts with a mark, is a plain run of the longer text. */
  lemma GreedyPrependPlain(p: string, u: string, q: string, rest: seq<Segment>)
    requires p != [] && Greedy(u, q, rest) && (rest != [] ==> rest[0].Marked?)
    requires forall j :: 0 <= j < |p| ==> !OccursAt(p + u, q, j)
    ensures Greedy(p + u, q, [Plain(p)] + rest)
  {
    var t, segs := p + u, [Plain(p)] + rest;
    assert t[..|p|] == p && t[|p|..] == u;
    assert segs[1..] == rest;
  }

  /** The part of the scenario from the mark on. */
  lemma CellTail()
    ensures Greedy("cells form", "cell", [Marked("cell"), Plain("s form")])
  {
    var t, q := "cells form", "cell";
    NoCellBefore("s form", q, 6);
    assert t[..4] == "cell" && t[4..] == "s form";
    assert t[0..0 + |q|] == "cell";
    assert Greedy("s form", q, [Plain("s form")]);
    assert [Marked("cell"), Plain("s form")][1..] == [Plain("s form")];
  }
}

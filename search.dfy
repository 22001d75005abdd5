/** The section filter of the search bar (`performSearch`, `clearHighlights`,
    `showNoResults`, `removeNoResults`) and the DOM side of `highlightSearchTerms`,
    over an abstract page: sections in document order, each with an id, a visible flag
    and its text nodes in tree-walker order, plus the "no results" notices. */
module Search {
  import opened TextUtil
  import opened Highlighter

  /** One text-node slot of a section: a plain text node, or the `<span>` that replaced a
      text node and holds its plain runs and `<mark class="search-highlight">` elements. */
  datatype Node = Text(text: string) | Wrapper(segs: seq<Segment>)

  datatype Section = Section(id: string, visible: bool, nodes: seq<Node>)

  /** The text the tree walker sees in one slot. */
  function NodeText(n: Node): string {
    match n
    case Text(t) => t
    case Wrapper(segs) => Flatten(segs)
  }

  /** `section.textContent`. */
  function TextContent(ns: seq<Node>): string {
    if ns == [] then [] else NodeText(ns[0]) + TextContent(ns[1..])
  }

  /** No highlight mark is left among the nodes. */
  predicate NoMarks(ns: seq<Node>) {
    forall k :: 0 <= k < |ns| ==> ns[k].Text?
  }

  /** Every mark replaced by a text node with the mark's text, then `normalize()`: the
      wrapper is left holding one text node with the wrapper's whole text. */
  function Unwrapped(ns: seq<Node>): seq<Node> {
    seq(|ns|, k requires 0 <= k < |ns| => Text(NodeText(ns[k])))
  }

  /** One text node after the match-and-wrap step: replaced by a wrapper when the
      regex finds the query in it, left alone otherwise. */
  function HighlightText(t: string, q: string): Node
    requires q != []
  {
    if ContainsCI(t, q) then Wrapper(Highlight(t, q)) else Text(t)
  }

  /** A section's nodes after `highlightSearchTerms`: old marks unwrapped, then every
      text node highlighted. */
  function Highlighted(ns: seq<Node>, q: string): seq<Node>
    requires q != []
  {
    seq(|ns|, k requires 0 <= k < |ns| => HighlightText(NodeText(ns[k]), q))
  }

  /** `section.textContent.toLowerCase().includes(query.toLowerCase())`. */
  predicate Matches(s: Section, q: string) {
    Contains(LowerStr(TextContent(s.nodes)), LowerStr(q))
  }

  /** A section after `clearHighlights`. */
  function Cleared(s: Section): Section {
    s.(visible := true, nodes := Unwrapped(s.nodes))
  }

  /** A section after one pass of the `performSearch` loop: shown and re-highlighted when
      it matches, hidden (and otherwise untouched) when it does not. */
  function Searched(s: Section, q: string): Section
    requires q != []
  {
    if Matches(s, q) then s.(visible := true, nodes := Highlighted(s.nodes, q))
    else s.(visible := false)
  }

  /** Every section after one pass of the `performSearch` loop. */
  function SearchAll(ss: seq<Section>, q: string): (r: seq<Section>)
    requires q != []
    ensures |r| == |ss|
  {
    if ss == [] then [] else SearchAll(ss[..|ss| - 1], q) + [Searched(ss[|ss| - 1], q)]
  }

  /** The pass treats each section on its own. */
  lemma {:induction false} SearchAllIndex(ss: seq<Section>, q: string)
    requires q != []
    ensures forall k :: 0 <= k < |ss| ==> SearchAll(ss, q)[k] == Searched(ss[k], q)
  {
    if ss != [] {
      var init := ss[..|ss| - 1];
      SearchAllIndex(init, q);
      assert forall k :: 0 <= k < |init| ==> ss[k] == init[k];
    }
  }

  /** Some section matches the query, scanning the sections in order. */
  predicate AnyMatch(ss: seq<Section>, q: string) {
    ss != [] && (AnyMatch(ss[..|ss| - 1], q) || Matches(ss[|ss| - 1], q))
  }

  /** `hasResults` is set exactly when some section matches. */
  lemma {:induction false} AnyMatchIff(ss: seq<Section>, q: string)
    ensures AnyMatch(ss, q) <==> exists k :: 0 <= k < |ss| && Matches(ss[k], q)
  {
    if ss != [] {
      var init := ss[..|ss| - 1];
      AnyMatchIff(init, q);
      if exists k :: 0 <= k < |init| && Matches(init[k], q) {
        var k :| 0 <= k < |init| && Matches(init[k], q);
        assert ss[k] == init[k];
      }
      if exists k :: 0 <= k < |ss| && Matches(ss[k], q) {
        var k :| 0 <= k < |ss| && Matches(ss[k], q);
        if k < |init| {
          assert init[k] == ss[k];
        }
      }
    }
  }

  /** The unwrap loop that `highlightSearchTerms` and `clearHighlights` share. */
  method RemoveHighlights(nodes: seq<Node>) returns (out: seq<Node>)
    ensures out == Unwrapped(nodes)
    ensures NoMarks(out) && TextContent(out) == TextContent(nodes)
  {
    out := [];
    var i := 0;
    while i < |nodes|
      invariant 0 <= i <= |nodes| && |out| == i
      invariant forall k :: 0 <= k < i ==> out[k] == Text(NodeText(nodes[k]))
    {
      out := out + [Text(NodeText(nodes[i]))];
      i := i + 1;
    }
    UnwrappedText(nodes);
  }

  /** `highlightSearchTerms(section, query)` on the section's nodes: unwrap the old marks,
      then wrap every occurrence of the query in each text node that has one. */
  method HighlightSearchTerms(nodes: seq<Node>, query: string) returns (out: seq<Node>)
    requires query != []
    ensures out == Highlighted(nodes, query)
    ensures TextContent(out) == TextContent(nodes)
  {
    var textNodes := RemoveHighlights(nodes);
    out := [];
    var i := 0;
    while i < |textNodes|
      invariant 0 <= i <= |textNodes| && |out| == i
      invariant forall k :: 0 <= k < i ==> out[k] == HighlightText(NodeText(nodes[k]), query)
    {
      var text := textNodes[i].text;
      if ContainsCI(text, query) {
        out := out + [Wrapper(Highlight(text, query))];
      } else {
        out := out + [Text(text)];
      }
      i := i + 1;
    }
    HighlightedText(nodes, query);
  }

  /** The body of the `performSearch` loop for one section: match its whole text, then
      show and re-highlight it, or hide it. */
  method SearchSection(section: Section, query: string) returns (r: Section, matches: bool)
    requires query != []
    ensures matches == Matches(section, query)
    ensures r == Searched(section, query)
  {
    var content := LowerStr(TextContent(section.nodes));
    matches := Contains(content, LowerStr(query));
    if matches {
      var nodes := HighlightSearchTerms(section.nodes, query);
      r := section.(visible := true, nodes := nodes);
    } else {
      r := section.(visible := false);
    }
  }

  /** The page: its sections and the "no results" notices appended to `.content-wrapper`
      (`hasContentWrapper` says whether the page has that element). */
  class Page {
    const sections: array<Section>
    const hasContentWrapper: bool
    var notices: nat

    /** At most one notice is ever on the page. */
    ghost predicate Valid()
      reads this
    {
      notices <= 1
    }

    constructor (initial: seq<Section>, hasContentWrapper: bool)
      ensures Valid() && fresh(sections)
      ensures sections[..] == initial && notices == 0
      ensures this.hasContentWrapper == hasContentWrapper
    {
      sections := new Section[|initial|](k requires 0 <= k < |initial| => initial[k]);
      this.hasContentWrapper := hasContentWrapper;
      notices := 0;
    }

    /** `removeNoResults`: removes the first notice, if there is one. */
    method RemoveNoResults()
      modifies this
      ensures notices == if old(notices) > 0 then old(notices) - 1 else 0
    {
      if notices > 0 {
        notices := notices - 1;
      }
    }

    /** `showNoResults`: removes any notice, then appends one if `.content-wrapper` exists. */
    method ShowNoResults()
      requires Valid()
      modifies this
      ensures Valid()
      ensures notices == if hasContentWrapper then 1 else 0
    {
      RemoveNoResults();
      if hasContentWrapper {
        notices := notices + 1;
      }
    }

    /** `clearHighlights`: every section shown, every mark unwrapped, the notice removed. */
    method ClearHighlights()
      requires Valid()
      modifies this, sections
      ensures Valid() && notices == 0
      ensures forall k :: 0 <= k < sections.Length ==> sections[k] == Cleared(old(sections[k]))
    {
      var i := 0;
      while i < sections.Length
        invariant 0 <= i <= sections.Length && notices == old(notices)
        invariant forall k :: 0 <= k < i ==> sections[k] == Cleared(old(sections[k]))
        invariant forall k :: i <= k < sections.Length ==> sections[k] == old(sections[k])
      {
        var s := sections[i];
        var plain := RemoveHighlights(s.nodes);
        sections[i] := s.(visible := true, nodes := plain);
        i := i + 1;
      }
      RemoveNoResults();
    }

    /** `performSearch(query)`: a query shorter than two UTF-16 code units resets the
        page;
        otherwise each section is shown and highlighted exactly when it matches, and a
        notice is present exactly when nothing matched (and the page has a place for it). */
    method PerformSearch(query: string)
      requires Valid()
      modifies this, sections
      ensures Valid()
      ensures JsLength(query) < 2 ==> notices == 0
      ensures JsLength(query) < 2 ==>
        forall k :: 0 <= k < sections.Length ==> sections[k] == Cleared(old(sections[k]))
      ensures JsLength(query) >= 2 ==>
        forall k :: 0 <= k < sections.Length ==> sections[k] == Searched(old(sections[k]), query)
      ensures JsLength(query) >= 2 ==>
        notices == if !AnyMatch(old(sections[..]), query) && hasContentWrapper then 1 else 0
    {
      if JsLength(query) < 2 {
        ClearHighlights();
        return;
      }
      ghost var before := sections[..];
      var hasResults := FilterSections(query);
      SearchAllIndex(before, query);
      if !hasResults {
        ShowNoResults();
      } else {
        RemoveNoResults();
      }
    }

    /** The `sections.forEach` loop of `performSearch`; reports whether any section matched. */
    method FilterSections(query: string) returns (hasResults: bool)
      requires query != []
      modifies sections
      ensures sections[..] == SearchAll(old(sections[..]), query)
      ensures hasResults == AnyMatch(old(sections[..]), query)
    {
      ghost var before := sections[..];
      hasResults := false;
      var i := 0;
      while i < sections.Length
        invariant 0 <= i <= sections.Length
        invariant sections[..i] == SearchAll(before[..i], query)
        invariant sections[i..] == before[i..]
        invariant hasResults == AnyMatch(before[..i], query)
      {
        ghost var done := sections[..i];
        assert sections[i] == before[i..][0];
        var s, matches := SearchSection(sections[i], query);
        sections[i] := s;
        assert before[..i + 1][..i] == before[..i];
        assert sections[..i + 1] == done + [s];
        assert sections[i + 1..] == before[i + 1..];
        hasResults := hasResults || matches;
        i := i + 1;
      }
      assert before[..i] == before;
      assert sections[..] == sections[..i];
    }

    /** The search input's `input` handler: the value lower-cased and trimmed is searched
        for, and an empty query clears the page. */
    method OnInput(value: string)
      requires Valid()
      modifies this, sections
      ensures Valid()
      ensures JsLength(Trim(LowerStr(value))) < 2 ==> notices == 0
      ensures JsLength(Trim(LowerStr(value))) < 2 ==>
        forall k :: 0 <= k < sections.Length ==> sections[k] == Cleared(old(sections[k]))
      ensures JsLength(Trim(LowerStr(value))) >= 2 ==>
        forall k :: 0 <= k < sections.Length ==>
          sections[k] == Searched(old(sections[k]), Trim(LowerStr(value)))
      ensures JsLength(Trim(LowerStr(value))) >= 2 ==>
        notices == if !AnyMatch(old(sections[..]), Trim(LowerStr(value))) && hasContentWrapper
                   then 1 else 0
    {
      var query := Trim(LowerStr(value));
      if query != [] {
        PerformSearch(query);
      } else {
        ClearHighlights();
      }
    }
  }

  /** A section matches a query exactly when it matches the query lower-cased: the
      handler's own lower-casing before `performSearch` changes no match. */
  lemma MatchesLowered(s: Section, q: string)
    ensures Matches(s, LowerStr(q)) <==> Matches(s, q)
  {
    LowerIdempotent(q);
  }

  /** An occurrence inside one text node is an occurrence in the section's text. */
  lemma {:induction false} ContainsInNode(ns: seq<Node>, k: int, q: string)
    requires 0 <= k < |ns| && ContainsCI(NodeText(ns[k]), q)
    ensures ContainsCI(TextContent(ns), q)
  {
    var head, tail := NodeText(ns[0]), TextContent(ns[1..]);
    if k == 0 {
      ContainsCIInContext([], head, tail, q);
      assert [] + head + tail == head + tail;
    } else {
      ContainsInNode(ns[1..], k - 1, q);
      ContainsCIInContext(head, tail, [], q);
      assert head + tail + [] == head + tail;
    }
  }

  /** Unwrapping keeps the section's text content. */
  lemma {:induction false} UnwrappedText(ns: seq<Node>)
    ensures TextContent(Unwrapped(ns)) == TextContent(ns)
  {
    if ns != [] {
      assert Unwrapped(ns)[1..] == Unwrapped(ns[1..]);
      UnwrappedText(ns[1..]);
    }
  }

  /** One text node after highlighting: same text; a wrapper, with at least one mark,
      exactly when the text contains the query; left as it was otherwise. */
  lemma HighlightTextFacts(t: string, q: string)
    requires q != []
    ensures NodeText(HighlightText(t, q)) == t
    ensures HighlightText(t, q).Wrapper? <==> ContainsCI(t, q)
    ensures HighlightText(t, q).Wrapper? ==> MarkCount(HighlightText(t, q).segs) > 0
    ensures !ContainsCI(t, q) ==> HighlightText(t, q) == Text(t)
  {
    HighlightSegments(t, q);
    HasMarkIffContains(t, q);
  }

  /** Highlighting keeps the section's text content. */
  lemma {:induction false} HighlightedText(ns: seq<Node>, q: string)
    requires q != []
    ensures TextContent(Highlighted(ns, q)) == TextContent(ns)
  {
    if ns != [] {
      assert Highlighted(ns, q)[1..] == Highlighted(ns[1..], q);
      HighlightTextFacts(NodeText(ns[0]), q);
      HighlightedText(ns[1..], q);
    }
  }

  /** Clearing after highlighting yields what clearing alone yields. */
  lemma ClearAfterHighlight(ns: seq<Node>, q: string)
    requires q != []
    ensures Unwrapped(Highlighted(ns, q)) == Unwrapped(ns)
  {
    forall k | 0 <= k < |ns|
      ensures Unwrapped(Highlighted(ns, q))[k] == Unwrapped(ns)[k]
    {
      HighlightTextFacts(NodeText(ns[k]), q);
    }
  }

  /** Round trip: on plain text nodes, highlighting then clearing restores every node. */
  lemma HighlightRoundTrip(ns: seq<Node>, q: string)
    requires q != [] && NoMarks(ns)
    ensures Unwrapped(Highlighted(ns, q)) == ns
  {
    ClearAfterHighlight(ns, q);
    assert Unwrapped(ns) == ns;
  }

  /** Highlighting twice with the same query is highlighting once: no double wrapping. */
  lemma HighlightIdempotent(ns: seq<Node>, q: string)
    requires q != []
    ensures Highlighted(Highlighted(ns, q), q) == Highlighted(ns, q)
  {
    forall k | 0 <= k < |ns|
      ensures Highlighted(Highlighted(ns, q), q)[k] == Highlighted(ns, q)[k]
    {
      HighlightTextFacts(NodeText(ns[k]), q);
    }
  }

  /** A node that received a mark lies in a section that matches. */
  lemma WrapperImpliesMatch(s: Section, q: string, k: int)
    requires q != [] && 0 <= k < |s.nodes|
    requires Highlighted(s.nodes, q)[k].Wrapper?
    ensures Matches(s, q)
  {
    var ns := s.nodes;
    HighlightTextFacts(NodeText(ns[k]), q);
    ContainsInNode(ns, k, q);
    ContainsCIIffLowerContains(TextContent(ns), q);
  }

  /** Visibility tests the whole section text, highlighting tests one text node at a time:
      a query split across two text nodes shows the section without any mark. */
  lemma MatchAcrossNodesHasNoMark()
    ensures var s := Section("s", true, [Text("ce"), Text("ll")]);
            Matches(s, "cell") && NoMarks(Searched(s, "cell").nodes)
  {
    var s := Section("s", true, [Text("ce"), Text("ll")]);
    assert TextContent(s.nodes) == "ce" + TextContent([Text("ll")]);
    assert TextContent(s.nodes) == "cell";
    assert IsAt(LowerStr("cell"), LowerStr("cell"), 0);
    assert Matches(s, "cell");
  }

  /** The search pass keeps a section's id and its text content. */
  lemma SearchKeepsText(s: Section, q: string)
    requires q != []
    ensures Searched(s, q).id == s.id
    ensures TextContent(Searched(s, q).nodes) == TextContent(s.nodes)
  {
    HighlightedText(s.nodes, q);
  }

  /** Searching twice with the same query gives the state one search gives. */
  lemma SearchIdempotent(s: Section, q: string)
    requires q != []
    ensures Searched(Searched(s, q), q) == Searched(s, q)
  {
    SearchKeepsText(s, q);
    if Matches(s, q) {
      HighlightIdempotent(s.nodes, q);
    }
  }

  /** Clearing after a search restores the section as clearing alone would. */
  lemma ClearAfterSearch(s: Section, q: string)
    requires q != []
    ensures Cleared(Searched(s, q)) == Cleared(s)
    ensures NoMarks(Cleared(s).nodes) && TextContent(Cleared(s).nodes) == TextContent(s.nodes)
  {
    ClearAfterHighlight(s.nodes, q);
    UnwrappedText(s.nodes);
  }

  /** A section holding one text node matches exactly when that text contains the query;
      the search pass then wraps that node, and hides the section otherwise. */
  lemma OneNodeSection(id: string, t: string, q: string)
    requires q != []
    ensures Matches(Section(id, true, [Text(t)]), q) <==> ContainsCI(t, q)
    ensures Searched(Section(id, true, [Text(t)]), q)
            == if ContainsCI(t, q) then Section(id, true, [Wrapper(Highlight(t, q))])
               else Section(id, false, [Text(t)])
  {
    var ns := [Text(t)];
    assert TextContent(ns) == t + TextContent([]) == t;
    ContainsCIIffLowerContains(t, q);
    assert Highlighted(ns, q) == [HighlightText(t, q)];
  }

  /** The query "cell" on a section reading "granuloma cells form" shows the section and
      marks the "cell" inside "cells". */
  lemma CellSectionScenario()
    ensures var s := Section("intro", true, [Text("granuloma cells form")]);
            Matches(s, "cell")
            && Searched(s, "cell")
               == s.(nodes := [Wrapper([Plain("granuloma "), Marked("cell"), Plain("s form")])])
  {
    var t, q := "granuloma cells form", "cell";
    CellScenario();
    HasMarkIffContains(t, q);
    OneNodeSection("intro", t, q);
  }

  /** The query "xyz123" on a section reading "granuloma cells form" hides it: nothing on
      the page matches, so `performSearch` shows the notice. */
  lemma NoResultsScenario()
    ensures var s := Section("intro", true, [Text("granuloma cells form")]);
            !AnyMatch([s], "xyz123") && Searched(s, "xyz123") == s.(visible := false)
  {
    var t, q := "granuloma cells form", "xyz123";
    assert 'x' !in t && 'X' !in t;
    forall j | 0 <= j <= |t| - |q|
      ensures !OccursAt(t, q, j)
    {
      assert t[j] in t;
      assert Lower(t[j]) != Lower(q[0]);
    }
    OneNodeSection("intro", t, q);
    var s := Section("intro", true, [Text(t)]);
    assert [s][0] == s;
  }
}

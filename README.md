# Lecture-page interactions, modelled in Dafny

This project models the interactive core of the lecture page's `script.js`:

- **The search filter.** The search input's handler, `performSearch`, `clearHighlights`, `showNoResults`, `removeNoResults` and the DOM side of `highlightSearchTerms`.
  - A page is an array of sections. Each section has an id, a visible flag and its text nodes in tree-walker order.
  - A text node is either plain text or the `<span>` wrapper that replaced it after highlighting.
  - The page also holds a count of "no results" notices.
- **The highlighter.** `escapeRegExp`, plus the global, case-insensitive `replace` that wraps each match in `<mark class="search-highlight">`.
  - The replace is modelled as a scan from left to right (`Highlighter.Highlight`).
  - It is proved equal to the one segmentation that fits a declarative description of a leftmost, non-overlapping global replace (`Highlighter.Greedy`).
- **The theme toggle.**
  - The `data-theme` attribute, its persisted copy and the toggle button's icon form a class.
  - `initializeDarkMode` is its constructor, the click handler is `Click`, and `updateDarkModeIcon` is `UpdateIcon`.
- **Section-completion tracking.**
  - The set of completed section ids and the numbers shown in the header form a class.
  - The observer callback is `Observe` (one entry at a time: `ObserveEntry`), and `updateProgressStats` is `UpdateProgressStats`.
  - The callback is also given as a pure step function, `Step`/`Run`, with lemmas about it.

Modules: `TextUtil`, `RegexEscape`, `Highlighter`, `Search`, `Theme` and `SectionTracking`, one file each.
- `TextUtil` holds ASCII lower-casing, substring search, the case-insensitive occurrence test, JavaScript's `trim` and JavaScript's string length (UTF-16 code units).

Two choices shape the model:
- **Percentages are exact.** The page computes `Math.round((completedCount / totalSections) * 100)` in floating point. The model rounds the exact rational `100 * count / total` instead: `(200 * count + total) / (2 * total)`. The rounding property is proved about that. The two can differ (see "## Left out").
- **Unwrapped slots become plain text.** In the page, `highlightSearchTerms` replaces a text node by a `<span>` and never removes that `<span>`. Unwrapping a mark and calling `normalize()` leaves the `<span>` holding one text node, and a later highlight of that text node nests a new `<span>` inside it. The model drops the `<span>`: an unwrapped slot is `Text(NodeText(wrapper))`, with the same text.

`performSearch` runs `highlightSearchTerms` only on sections that match. A section that does not match is hidden, and it keeps the marks from an earlier search (`Search.Searched`). Those marks are only removed by `clearHighlights` or by a later search that the section matches.

## Model

| member | source | states |
|---|---|---|
| TextUtil.LowerIdempotent | script.js:156 | lower-casing twice is lower-casing once, so the query the handler already lower-cased (line 112) is unchanged by the second `toLowerCase` |
| TextUtil.ContainsCIIffLowerContains | script.js:155-156 | a case-insensitive occurrence exists exactly when the lower-cased text includes the lower-cased query |
| TextUtil.OccursAtShift | script.js:198-201 | an occurrence at offset j of a suffix starting at k is an occurrence at k + j of the whole text, both ways |
| TextUtil.ContainsCIInContext | script.js:155-156 | an occurrence in a part of a text is an occurrence in the whole text |
| TextUtil.TrimStart | script.js:112 | the removed prefix is all spaces and what is left does not start with one |
| TextUtil.TrimEnd | script.js:112 | the removed suffix is all spaces and what is left does not end with one |
| TextUtil.Trim | script.js:112 | `trim()` leaves one slice of the input that neither starts nor ends with a space |
| TextUtil.TrimRemovesOnlySpaces | script.js:112 | `trim()` returns the slice starting after the leading spaces, and everything before and after that slice is space |
| TextUtil.JsLength | script.js:146 | `length` counts characters outside the Basic Multilingual Plane twice: it lies between the number of characters and twice it, and equals it exactly when every character is inside that plane |
| RegexEscape.EscapeConcat | script.js:251-253 | escaping works character by character: escaping a + b is escaping a, then b |
| RegexEscape.EscapeLength | script.js:251-253 | the escaped string is one character longer per metacharacter of the input |
| RegexEscape.UnescapeEscape | script.js:251-253 | removing the added backslashes gives the input back |
| RegexEscape.EscapeIsLiteral | script.js:251-253 | the escaped query is read as literal characters only, so no character of input acts as an operator |
| RegexEscape.LexConcat | script.js:198 | an escaped string followed by more pattern text is read in two independent parts |
| RegexEscape.GroupPattern | script.js:198 | `(${escapeRegExp(query)})` is one capturing group around the query taken literally |
| Highlighter.MarkCountConsChar | script.js:201 | keeping an unmatched character adds no mark |
| Highlighter.HighlightIsGreedy | script.js:201 | the replace result meets the reference description of a leftmost, non-overlapping global replace |
| Highlighter.GreedyConsChar | script.js:201 | a character where no match starts joins the following plain run and keeps the reference description |
| Highlighter.GreedyJoinPlain | script.js:201 | the joined plain run still contains no match start |
| Highlighter.GreedyUnique | script.js:201 | at most one segmentation meets the reference description |
| Highlighter.GreedyIsHighlight | script.js:201 | any segmentation meeting the reference description is the replace result |
| Highlighter.PlainRunEnds | script.js:201 | a plain run that does not end the text is followed by a match |
| Highlighter.GreedyFlatten | script.js:201-203 | unwrapping every mark of the segmentation gives the text back |
| Highlighter.GreedyMarks | script.js:201 | every mark holds the query up to case |
| Highlighter.GreedyPlain | script.js:201 | no plain run contains the query |
| Highlighter.HighlightSegments | script.js:196-205 | the replace keeps the text, every mark is the query up to case, and every plain run is free of it |
| Highlighter.HasMarkIffContains | script.js:200-201 | `regex.test(text)` holds if and only if the replace wraps at least one mark |
| Highlighter.MarksFit | script.js:201 | marks do not overlap: mark count times query length is at most the text length |
| Highlighter.GreedyPrependPlain | script.js:201 | a match-free run in front of a segmentation that starts with a mark is a plain run of the longer text |
| Highlighter.CellTail | script.js:201 | "cells form" splits as the mark "cell" followed by the plain run "s form" |
| Highlighter.CellGreedy | script.js:201 | the expected segments of "granuloma cells form" meet the reference description |
| Highlighter.CellScenario | script.js:196-205 | the query "cell" on "granuloma cells form" marks exactly the "cell" inside "cells" |
| Search.SearchAll | script.js:154-165 | the loop yields one section per section |
| Search.SearchAllIndex | script.js:154-165 | the loop treats each section on its own, as one search pass |
| Search.AnyMatchIff | script.js:152-161 | `hasResults` ends true exactly when some section matches |
| Search.RemoveHighlights | script.js:176-180 | unwrapping leaves only text nodes, node by node, with the section's text unchanged |
| Search.HighlightSearchTerms | script.js:174-207 | old marks are unwrapped, then each text node containing the query becomes a wrapper of its highlighted segments and the others stay as they are; the text is unchanged |
| Search.SearchSection | script.js:155-164 | one loop pass: `matches` is the section-text test, and the section is shown and highlighted when it matches and hidden otherwise |
| Search.Page.constructor | script.js:151 | the page starts with the given sections and no notice |
| Search.Page.RemoveNoResults | script.js:244-249 | removes one notice if there is one, and nothing otherwise |
| Search.Page.ShowNoResults | script.js:226-242 | afterwards exactly one notice is present when `.content-wrapper` exists, and none otherwise |
| Search.Page.ClearHighlights | script.js:209-224 | every section is shown with its marks unwrapped, and no notice is left |
| Search.Page.PerformSearch | script.js:145-172 | a query shorter than two UTF-16 code units clears the page; otherwise each section is searched, and a notice is present exactly when no section matched and the page has `.content-wrapper` |
| Search.Page.FilterSections | script.js:151-165 | the array holds each section after its pass, and the result tells whether any section matched |
| Search.Page.OnInput | script.js:111-119 | the lower-cased, trimmed input is searched for, and a notice is present exactly when no section matched and the page has `.content-wrapper`; a query shorter than two UTF-16 code units clears the page |
| Search.MatchesLowered | script.js:156 | a section matches the lower-cased query exactly when it matches the query |
| Search.ContainsInNode | script.js:155-156 | a match in one text node is a match of the section's whole text |
| Search.UnwrappedText | script.js:176-180 | unwrapping keeps the section's text |
| Search.HighlightTextFacts | script.js:196-205 | a text node keeps its text, becomes a wrapper exactly when it contains the query, a wrapper holds at least one mark, and a node without a match is untouched |
| Search.HighlightedText | script.js:174-207 | highlighting keeps the section's text |
| Search.ClearAfterHighlight | script.js:174-180 | clearing after highlighting gives what clearing alone gives |
| Search.HighlightRoundTrip | script.js:176-205 | on plain text nodes, highlighting and then clearing restores every node |
| Search.HighlightIdempotent | script.js:174-207 | highlighting twice with the same query is highlighting once: no double wrapping |
| Search.WrapperImpliesMatch | script.js:155-160 | a node that got a mark lies in a section that matches |
| Search.MatchAcrossNodesHasNoMark | script.js:155-160 | a query split across two text nodes shows the section without any mark |
| Search.SearchKeepsText | script.js:154-165 | a search pass keeps the section's id and its text |
| Search.SearchIdempotent | script.js:154-165 | searching twice with the same query gives what one search gives |
| Search.ClearAfterSearch | script.js:209-220 | clearing after a search gives what clearing alone gives, with no marks and the same text |
| Search.OneNodeSection | script.js:155-164 | a one-node section matches exactly when its text contains the query; its pass is then that node highlighted, or the section hidden |
| Search.CellSectionScenario | script.js:154-165 | the query "cell" on a section reading "granuloma cells form" shows it, with "cell" marked |
| Search.NoResultsScenario | script.js:154-170 | the query "xyz123" matches no section of "granuloma cells form", so the section is hidden and `showNoResults` runs |
| Theme.ToggleTwice | script.js:71-72 | two clicks come back to the start exactly when it is `light` or `dark` |
| Theme.ThemeToggle.constructor | script.js:54-66 | a missing or empty saved value applies `light` and any other saved value is applied as it is; the icon is the sun exactly for `dark`; storage is not written |
| Theme.ThemeToggle.UpdateIcon | script.js:82-89 | only the icon changes, to the class for the given theme |
| Theme.ThemeToggle.Click | script.js:69-79 | the new theme is `light` exactly when the old one was `dark`, and `dark` otherwise; it is persisted, and the icon is the sun exactly for `dark` |
| Theme.ToggleFromDefault | script.js:61-79 | on a first visit one click persists `dark` and a second persists `light` |
| SectionTracking.PercentageRounds | script.js:513 | the percentage is the nearest whole number to 100 * count / total, a half rounded up; it is at most 100 while count <= total and 100 when all are completed |
| SectionTracking.IdSetSize | script.js:494 | there are no more distinct section ids than sections |
| SectionTracking.SubsetSize | script.js:495 | a subset is no larger than its superset |
| SectionTracking.CompletedBound | script.js:495-513 | an id set drawn from the sections has at most as many ids as there are sections, so the percentage is at most 100 |
| SectionTracking.ReachedMembers | script.js:498-500 | an id is added exactly when some entry for its section qualifies |
| SectionTracking.RunCompleted | script.js:497-503 | a batch adds exactly the ids of its qualifying entries and removes none |
| SectionTracking.RunProgress | script.js:498-502 | the header is rewritten from the final set exactly when some entry qualifies, and otherwise keeps its text |
| SectionTracking.RunValid | script.js:494-500 | only observed sections are ever completed |
| SectionTracking.Tracker.constructor | script.js:494-495 | tracking starts with nothing completed |
| SectionTracking.Tracker.Observe | script.js:497-503 | the callback over a batch is the pure run: the set grows by the reached ids, and the header is updated exactly when some entry qualified |
| SectionTracking.Tracker.ObserveEntry | script.js:499-502 | one entry: a qualifying entry adds its section's id and refreshes the header; any other changes nothing |
| SectionTracking.Tracker.UpdateProgressStats | script.js:510-520 | the header shows the completed count, the total and the nearest whole number to 100 * count / total; the set is unchanged |

## Left out

- DOM mechanics are abstracted away: element lookup, `style.display`, `createElement`, `replaceChild` and the tree walker.
  - A section's text is a sequence of text-node slots.
- The `<span>` that `highlightSearchTerms` inserts is never removed by the source; an unwrapped slot is modelled as a plain text node with the same text. Spans nested inside spans by later highlights are not modelled.
- `innerHTML` re-parses the text it is given. Text containing `<` or `&` would be read as markup.
  - The model assumes the wrapped text is read back unchanged. HTML parsing is not modelled.
- `toLowerCase`, the regex `i` flag and `trim` are modelled on Unicode characters; only `length` counts UTF-16 code units (`TextUtil.JsLength`). Strings that hold unpaired surrogates are not modelled. Lower-casing covers ASCII only, and Unicode case mapping is not modelled.
  - `trim` uses the ECMAScript whitespace and line-terminator set.
- Regular-expression matching is not modelled in general.
  - `RegexEscape.Lex` reads only what an escaped pattern can contain. Any other backslash sequence counts as one non-literal atom.
  - `Highlighter.Highlight` is the replace for the literal pattern that `GroupPattern` shows the escaped query to be.
- `Math.round` on floating point is replaced by exact rounding of the rational `100 * count / total`.
  - SectionTracking.Percentage can differ from the page: in binary64, `(23 / 40) * 100` is `57.49999999999999`, so the page shows 57% where `Percentage(23, 40)` is 58. Forty is the smallest total where this happens; up to a total of 500 there are 18 such cases.
  - The decimal rendering of the header text is not modelled.
  - A missing `.reading-progress` element is not modelled: `progress` is the text it would show.
- The intersection observer's geometry is not modelled. Entries are given as values: a target index, `isIntersecting` and the ratio.
  - The `threshold: 0.5` option is not modelled, because it only decides when entries are delivered.
- `localStorage` is a field of the toggle; `console` logging is left out as output only.
  - The guard for a missing toggle element is left out, because it only stops initialization.
- Other event wiring is left out, because each simply calls a modelled operation or only moves focus:
  - the search toggle, the clear button and the Escape key call `clearHighlights`;
  - Ctrl+K and Cmd+K open the search bar;
  - Ctrl+D and Cmd+D click the theme toggle.
- `debounce` (script.js:303-313) is not used by the modelled handlers, because it is a timer.
- Outside the modelled core: navigation, active-section tracking, smooth scrolling, lazy loading, the table of contents, breadcrumbs, the scroll progress bar, print and export, accessibility helpers, tooltips and `initializeAll`.
- Search.Page.PerformSearch, Search.Page.ClearHighlights and Search.Page.OnInput: these methods state the new state with `old`. Their facts about one section are proved as lemmas on `Searched` and `Cleared`.
- SectionTracking.Tracker.Observe: assumes every entry's target is one of the tracked sections, as the observer only reports observed elements.

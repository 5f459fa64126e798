# Essay annotation loop

This project models the part of the grammar checker's essay handler that
turns the checker's matches into three results:

- the highlighted essay;
- the list of issues;
- the corrected essay.

The handler sorts the matches by offset and visits them in that order. For
each match it does four things:

- it splices a `<span class="highlight" title="…">…</span>` element around the
  flagged text of the HTML copy, at the match's offset moved by what the
  earlier spans added (`offset_shift`);
- it grows that shift;
- it appends an issue `{mistake, suggestion, message}`;
- it overwrites the flagged window of a character list with the suggestion,
  left-justified to the window's length.

Finally it strips the character list.

The modules are these:

- `Strings`: `str.strip()` with Python's whitespace set, `str.ljust` and slice
  splicing.
- `Matches`: a match and Python's stable `sorted(…, key=offset)`, written as an
  insertion sort. The sort is proved sorted, a permutation and stable.
- `Segments`: the text cut into unflagged stretches and flagged spans. One
  `Rendered` function yields three renderings of it: the highlighted HTML, the
  submitted text itself (the round trip) and the intended corrected text. This
  module also holds the facts about the HTML shift.
- `Correction`: the character list as the code writes it (`Drifted`). Each
  window is overwritten at its offset in the submitted text, even after
  earlier longer suggestions have grown the list. The module also holds the
  corrected loop that moves every window by that growth.
- `Annotator`: the loop itself as a method (`Visit`, one pass `VisitMatch`)
  and the whole annotation (`Annotate`).

The code uses Python slice assignment, which inserts
a longer suggestion whole and grows the list. The model grows the list too
(`Correction.Drifted`, `Correction.OverwriteWindow`).

## Model

| member | source | states |
|---|---|---|
| Strings.Strip | app.py:62 | the result starts and ends with no whitespace; it is empty exactly when the text is all whitespace; a text with no whitespace at either end is returned as is |
| Strings.TrimStart | app.py:62 | the leading half of `strip()`: the result is a suffix of the text, does not start with whitespace, and everything cut off is whitespace |
| Strings.TrimEnd | app.py:62 | the trailing half of `strip()`: the result is a prefix of the text, does not end with whitespace, and everything cut off is whitespace |
| Strings.StripIsSlice | app.py:62 | the stripped text is one slice of its argument, and everything cut off on both sides is whitespace |
| Strings.LJust | app.py:59 | `ljust(width)` keeps the string as its prefix, pads it with spaces up to `width`, and never truncates |
| Strings.Splice | app.py:50 | splicing replaces exactly the window `[lo, hi)`: the prefix and the suffix are kept and the new piece sits between them |
| Matches.SortByOffset | app.py:35 | sorting by offset yields a permutation of the matches (multiset equality) with non-decreasing offsets |
| Matches.Insert | app.py:35 | the insertion step of the sort adds exactly the new match to the multiset of matches |
| Matches.InsertSorted | app.py:35 | inserting a match into a sorted list keeps it sorted |
| Matches.InsertKeepsTies | app.py:35 | an insertion puts the new match ahead of those it ties with, so for every offset the matches there keep their order |
| Matches.SortIsStable | app.py:35 | for every offset, the matches at that offset keep their input order (Python's sort is stable) |
| Matches.SortedMembers | app.py:35 | sorting keeps the number of matches and exactly the same members |
| Segments.InBoundsSorted | app.py:35-44 | spans that lie inside the text still do after sorting |
| Segments.Mistake | app.py:44 | the flagged text `raw_essay[offset:offset + length]` is exactly `length` characters long |
| Segments.Shift | app.py:48-51 | the running `offset_shift`, the sum over the visited matches of `len(highlight_html) - length`, is never negative |
| Segments.Span | app.py:49 | the highlight element is 40 characters longer than its tooltip and flagged text together |
| Segments.RenderStep | app.py:48-51 | one splice of window `i`, moved by the shift so far, extends the rendered prefix by one match and grows the shift by the piece's excess over the window |
| Segments.HtmlStep | app.py:48-51 | the highlighting step: splicing the span element at `offset + offset_shift` extends the highlighted prefix by one match and lengthens it by `len(highlight_html) - length` |
| Segments.OriginalPrefix | app.py:44-50 | putting each flagged span's own text back gives the submitted text up to the end of the last span |
| Segments.RoundTrip | app.py:37-51 | removing the markup from the highlighted essay, i.e. putting each mistake back in place of its span, gives the submitted text |
| Segments.HtmlLength | app.py:48-51 | the highlighted prefix of `i` matches is exactly `Shift` characters longer than the text it stands for |
| Segments.HighlightedLength | app.py:37-51 | the length of the highlighted essay is the length of the submitted text plus the final `offset_shift` |
| Segments.InsertionPoint | app.py:48-50 | span `i` sits in the highlighted essay at its offset plus the shift of the spans before it; right before it, the gap since the previous span is copied unchanged |
| Segments.HighlightedPrefix | app.py:50 | the highlighted essay starts with the rendering of the first `i + 1` matches: the earlier spans, the gap and span `i` |
| Segments.HighlightedTail | app.py:50 | after the last span, the highlighted essay is the rest of the submitted text, unchanged |
| Correction.OverwriteWindow | app.py:59 | a suggestion that fits is padded to the window and nothing outside it changes; a longer one is inserted whole, the list grows by the difference and the tail moves right |
| Correction.FallbackKeeps | app.py:45-59 | a match with no replacement uses its own text as the suggestion, so its overwrite leaves the list unchanged when its window still holds the submitted text (always so while no earlier suggestion has grown the list and no earlier span overlaps this one) |
| Correction.Drifted | app.py:39-59 | after any number of overwrites the character list is never shorter than the submitted text |
| Correction.DriftedNext | app.py:59 | each loop pass overwrites the window at the match's unshifted offset, which always lies inside the (possibly grown) list |
| Correction.DriftedGrows | app.py:59 | each overwrite grows the list by exactly what its suggestion exceeds the window by, and not at all when it fits |
| Correction.DriftedLength | app.py:39-59 | the list's length is the text's length plus the total excess of the longer suggestions, and it is unchanged when every suggestion fits |
| Correction.Excess | app.py:59 | the total excess is zero when every suggestion fits its window |
| Correction.FixedLength | app.py:59 | with fitting suggestions, the corrected prefix is exactly as long as the text it replaces |
| Correction.FixedStep | app.py:59 | one overwrite of window `i`, moved by `shift`, extends the intended corrected prefix by one window |
| Correction.DriftStep | app.py:59 | one unshifted overwrite lands on window `j` when the list so far has not grown |
| Correction.DriftedRendered | app.py:39-59 | with fitting suggestions, the list after `i` overwrites is the corrected text of `i` windows followed by the untouched rest |
| Correction.DriftFree | app.py:39-59 | with fitting suggestions, the handler's list is exactly the intended corrected text |
| Correction.OverwriteShifted | app.py:39-59 | the loop that moves every window by the growth before it produces the intended corrected text |
| Correction.CorrectWithShift | app.py:35-62 | the corrected handler path yields the stripped intended text for any in-bounds, non-overlapping matches |
| Correction.ExampleArranged | app.py:35 | the example's matches are in bounds, do not overlap and are already sorted |
| Correction.ExampleFirst | app.py:59 | the first overwrite of the example grows the list by one character |
| Correction.ExampleSecond | app.py:59 | the second overwrite lands one character early and leaves the flagged "a" in place |
| Correction.ExampleIntended | app.py:59 | the intended text puts each suggestion over its own window |
| Correction.DriftExample | app.py:35-62 | for "I has a apple." the handler stores "I haveana apple." where "I have an apple." is meant |
| Annotator.Reports | app.py:53-57 | the issue list of `i` visited matches has exactly `i` entries |
| Annotator.ReportsAt | app.py:53-57 | issue `k` reports match `k` in visiting order: its mistake, its suggestion with the fallback, and its message |
| Annotator.VisitMatch | app.py:41-59 | one pass of the loop body takes the state after `i` matches to the state after `i + 1`: the highlighted prefix, `offset_shift`, the character list and the issues |
| Annotator.Visit | app.py:37-59 | the loop leaves the highlighted essay in `essay_html`, the as-written character list in `corrected_chars`, and one issue per match in `issues` |
| Annotator.Annotate | app.py:35-62 | the whole annotation: highlighted essay, stripped character list, and one issue per match in sorted order; with no match, the essay itself, its stripped copy and no issues |

## Left out

- The request to the grammar checker (app.py:26-34) is left out, because it is network I/O. Its matches are a parameter of `Annotate`. A missing "matches" key defaults to the empty list, which is the no-match case.
- Flask's request, redirect and template rendering, and the application's start-up (app.py:1-6, 15-24, 69, 74-78, 80-84), are left out, because they are web framework I/O.
- After a POST the handler redirects. The highlighted essay and the issues are therefore computed but never shown. Only the corrected text reaches storage. The model returns all three.
- The database model and the storage of the essay (app.py:3, 7-14, 64-67, 72) are left out, because they are persistence I/O.
- `Markup(essay_html)` (app.py:61) is the identity in the model. It only marks the string as safe. Nothing is escaped: a `<`, `>`, `"` or `&` in a message, a suggestion or the essay goes into the HTML as is.
- Match fields the handler reads with `match[...]` are assumed present and well typed. A missing key would raise `KeyError` in the handler, and the model has no such path.
- Offsets and lengths are counted in the same units as Dafny's characters. Whether the checker counts offsets in Unicode code points or in UTF-16 units is not modelled.
- Annotator.Annotate: it requires every span to lie inside the text and the sorted spans not to overlap. The handler does not check either. For an out-of-range span, Python clamps the slices. For overlapping spans, a later splice lands inside the earlier span's element, 7 characters (the length of `</span>`) past the text it flags. If the later span ends fewer than 7 characters before the earlier one's end, or past it, the splice cuts into the closing tag. Otherwise it nests a misplaced element inside the earlier one's body. Neither behaviour is modelled.
- Correction.CorrectWithShift: it has the same two requirements as `Annotate`.

## Findings

| source | as written | input that shows it | evidently intended | confidence | as-written member | corrected member |
|---|---|---|---|---|---|---|
| app.py:59 | each window of `corrected_chars` is overwritten at its offset in the submitted text, although a longer earlier suggestion has grown the list, so later windows land early | "I has a apple." with "has" at 2 (suggestion "have") and "a" at 6 (suggestion "an") gives "I haveana apple." | every window is moved by the growth of the windows before it, as the HTML loop does with `offset_shift`, giving "I have an apple." | not executed | Correction.DriftExample | Correction.CorrectWithShift |

/** The annotation loop of the essay handler (app.py:35-62): it visits the
    checker's matches in offset order, wraps each flagged span of the
    submitted text in a highlight element, records an issue for it and
    overwrites the span in a character list with its suggestion. */
module Annotator {
  import opened Strings
  import opened Matches
  import opened Segments
  import opened Correction

  /** One entry of the handler's issue list (app.py:53-57). */
  datatype Issue = Issue(mistake: string, suggestion: string, message: string)

  /** The issue the handler records for match `m`. */
  function Report(raw: string, m: Match): Issue
    requires End(m) <= |raw|
  {
    Issue(Mistake(raw, m), Suggestion(raw, m), m.message)
  }

  /** The issues the handler records for the first `i` matches of `ms`, in
      visiting order. */
  function Reports(raw: string, ms: seq<Match>, i: nat): (r: seq<Issue>)
    requires InBounds(raw, ms) && i <= |ms|
    ensures |r| == i
  {
    if i == 0 then [] else Reports(raw, ms, i - 1) + [Report(raw, ms[i - 1])]
  }

  /** Issue `k` is the report on match `k`: one issue per match, in
      visiting order. */
  lemma {:induction false} ReportsAt(raw: string, ms: seq<Match>, i: nat)
    requires InBounds(raw, ms) && i <= |ms|
    ensures forall k :: 0 <= k < i ==> Reports(raw, ms, i)[k] == Report(raw, ms[k])
  {
    if i > 0 {
      var j := i - 1;
      ReportsAt(raw, ms, j);
      assert Reports(raw, ms, i) == Reports(raw, ms, j) + [Report(raw, ms[j])];
    }
  }

  /** The handler's state after visiting the first `i` matches of `ms`:
      `essay_html` is the highlighted text of those matches followed by the
      rest of the submitted text, `offset_shift` is what their spans added
      to its length, `corrected_chars` has their windows overwritten and
      `issues` holds their reports. */
  predicate Visited(raw: string, ms: seq<Match>, i: nat,
                    essayHtml: string, offsetShift: int, correctedChars: string, issues: seq<Issue>)
    requires Arranged(raw, ms) && i <= |ms|
  {
    && essayHtml == Rendered(raw, ms, i, Html) + raw[LastEnd(ms, i)..]
    && offsetShift == Shift(raw, ms, i)
    && |Rendered(raw, ms, i, Html)| == LastEnd(ms, i) + offsetShift
    && correctedChars == Drifted(raw, ms, i)
    && issues == Reports(raw, ms, i)
  }

  /** One pass of the loop body (app.py:41-59): match `i` is spliced into
      the HTML at its offset moved by the shift so far, the shift grows by
      what its span adds, its issue is appended and its window of the
      character list is overwritten. */
  method VisitMatch(raw: string, ms: seq<Match>, i: nat,
                    essayHtml: string, offsetShift: int, correctedChars: string, issues: seq<Issue>)
    returns (essayHtml': string, offsetShift': int, correctedChars': string, issues': seq<Issue>)
    requires Arranged(raw, ms) && i < |ms|
    requires Visited(raw, ms, i, essayHtml, offsetShift, correctedChars, issues)
    ensures Visited(raw, ms, i + 1, essayHtml', offsetShift', correctedChars', issues')
  {
    var m := ms[i];
    var offset, length := m.offset, m.length;
    var mistake := Mistake(raw, m);
    var suggestion := Suggestion(raw, m);
    var message := m.message;
    var htmlOffset, htmlEnd := offset + offsetShift, offset + offsetShift + length;
    var highlightHtml := Span(Title(raw, m), mistake);
    var next := i + 1;
    HtmlStep(raw, ms, i, next, essayHtml, offsetShift, htmlOffset, htmlEnd, highlightHtml);
    essayHtml' := Splice(essayHtml, htmlOffset, htmlEnd, highlightHtml);
    offsetShift' := offsetShift + |highlightHtml| - length;
    var issue := Issue(mistake, suggestion, message);
    assert Reports(raw, ms, next) == issues + [issue];
    issues' := issues + [issue];
    DriftedNext(raw, ms, i, next, correctedChars, offset, length, suggestion);
    correctedChars' := Overwrite(correctedChars, offset, length, suggestion);
  }

  /** The handler's loop over matches already in visiting order:
      `essay_html` becomes the highlighted essay, `issues` holds one issue
      per match in that order, and `corrected_chars` has each window
      overwritten at its offset in the submitted text. */
  method Visit(raw: string, ms: seq<Match>) returns (essayHtml: string, correctedChars: string, issues: seq<Issue>)
    requires Arranged(raw, ms)
    ensures essayHtml == Highlighted(raw, ms)
    ensures correctedChars == Drifted(raw, ms, |ms|)
    ensures issues == Reports(raw, ms, |ms|)
  {
    essayHtml := raw;
    var offsetShift := 0;
    correctedChars := raw;
    issues := [];
    var i := 0;
    while i < |ms|
      invariant i <= |ms|
      invariant essayHtml == Rendered(raw, ms, i, Html) + raw[LastEnd(ms, i)..]
      invariant offsetShift == Shift(raw, ms, i)
      invariant |Rendered(raw, ms, i, Html)| == LastEnd(ms, i) + offsetShift
      invariant correctedChars == Drifted(raw, ms, i)
      invariant issues == Reports(raw, ms, i)
    {
      essayHtml, offsetShift, correctedChars, issues := VisitMatch(raw, ms, i, essayHtml, offsetShift, correctedChars, issues);
      i := i + 1;
    }
  }

  /** The annotation of one submitted essay (app.py:35-62): the matches are
      sorted by offset and visited in that order. The highlighted essay
      marks up every match, the corrected essay is the stripped character
      list, and there is one issue per match, in visiting order. With no
      match both texts are the submitted text, the corrected one stripped,
      and there is no issue. */
  method Annotate(raw: string, matches: seq<Match>) returns (highlighted: string, corrected: string, issues: seq<Issue>)
    requires InBounds(raw, matches)
    requires Disjoint(SortByOffset(matches))
    ensures Arranged(raw, SortByOffset(matches))
    ensures highlighted == Highlighted(raw, SortByOffset(matches))
    ensures corrected == Strip(Drifted(raw, SortByOffset(matches), |SortByOffset(matches)|))
    ensures |issues| == |SortByOffset(matches)| == |matches|
    ensures forall k :: 0 <= k < |issues| ==> issues[k] == Report(raw, SortByOffset(matches)[k])
    ensures matches == [] ==> highlighted == raw && corrected == Strip(raw) && issues == []
  {
    var ms := SortByOffset(matches);
    InBoundsSorted(raw, matches);
    SortedMembers(matches);
    var essayHtml, correctedChars;
    essayHtml, correctedChars, issues := Visit(raw, ms);
    ReportsAt(raw, ms, |ms|);
    highlighted := essayHtml;
    corrected := Strip(correctedChars);
  }
}

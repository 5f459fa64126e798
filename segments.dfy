/** What the annotation loop makes of the submitted text: the text cut into
    unflagged stretches and flagged spans. The highlighted HTML, the text the
    spans were cut from and the text with every span corrected are three
    renderings of one such layout. */
module Segments {
  import opened Strings
  import opened Matches

  /** A stretch of the submitted text copied as is, or a flagged span: its
      tooltip, the flagged text (the "mistake") and the replacement offered
      for it. */
  datatype Segment = Plain(text: string) | Mark(title: string, body: string, fix: string)

  /** The element the handler wraps around a flagged span (app.py:49). No
      character of `title` or `body` is escaped. */
  function Span(title: string, body: string): (r: string)
    ensures |r| == |title| + |body| + 40
  {
    "<span class=\"highlight\" title=\"" + title + "\">" + body + "</span>"
  }

  /** A segment as it appears in the highlighted HTML. */
  function Html(g: Segment): string {
    match g
    case Plain(t) => t
    case Mark(t, b, _) => Span(t, b)
  }

  /** A segment as it appears in the submitted text. */
  function Original(g: Segment): string {
    match g
    case Plain(t) => t
    case Mark(_, b, _) => b
  }

  /** A segment with its suggestion padded to the flagged length, the way
      `suggestion.ljust(length)` pads it (app.py:59). */
  function Fixed(g: Segment): string {
    match g
    case Plain(t) => t
    case Mark(_, b, f) => LJust(f, |b|)
  }

  /** Every flagged span lies inside the text (Python would clamp the slice
      otherwise). */
  predicate InBounds(raw: string, ms: seq<Match>) {
    forall i :: 0 <= i < |ms| ==> End(ms[i]) <= |raw|
  }

  /** Sorting moves the spans around but keeps them inside the text. */
  lemma {:induction false} InBoundsSorted(raw: string, ms: seq<Match>)
    requires InBounds(raw, ms)
    ensures InBounds(raw, SortByOffset(ms))
  {
    var r := SortByOffset(ms);
    SortedMembers(ms);
    forall i | 0 <= i < |r|
      ensures End(r[i]) <= |raw|
    {
      assert r[i] in ms;
      var j :| 0 <= j < |ms| && ms[j] == r[i];
    }
  }

  /** Each span ends at or before the next one starts: the spans do not
      overlap, and `ms` is sorted by offset. */
  predicate Disjoint(ms: seq<Match>) {
    forall i :: 0 < i < |ms| ==> End(ms[i - 1]) <= ms[i].offset
  }

  predicate Arranged(raw: string, ms: seq<Match>) {
    InBounds(raw, ms) && Disjoint(ms)
  }

  /** `raw_essay[offset:offset + length]` (app.py:44). */
  function Mistake(raw: string, m: Match): (r: string)
    requires End(m) <= |raw|
    ensures |r| == m.length
  {
    raw[m.offset..End(m)]
  }

  /** The first replacement's value, or the mistake itself when the checker
      offered none (app.py:45). */
  function Suggestion(raw: string, m: Match): string
    requires End(m) <= |raw|
  {
    if m.replacements != [] then m.replacements[0] else Mistake(raw, m)
  }

  /** The tooltip text `"{message}. Suggestion: {suggestion}"` (app.py:49). */
  function Title(raw: string, m: Match): string
    requires End(m) <= |raw|
  {
    m.message + ". Suggestion: " + Suggestion(raw, m)
  }

  function Flag(raw: string, m: Match): Segment
    requires End(m) <= |raw|
  {
    Mark(Title(raw, m), Mistake(raw, m), Suggestion(raw, m))
  }

  /** Where the text resumes after the first `i` spans of `ms`. */
  function LastEnd(ms: seq<Match>, i: nat): nat
    requires i <= |ms|
  {
    if i == 0 then 0 else End(ms[i - 1])
  }

  /** Span `i` starts at or after the end of the spans before it and ends
      inside the text. */
  lemma {:induction false} InOrder(raw: string, ms: seq<Match>, i: nat)
    requires Arranged(raw, ms) && i < |ms|
    ensures LastEnd(ms, i) <= ms[i].offset <= End(ms[i]) <= |raw|
  {
    if i > 0 {
      assert End(ms[i - 1]) <= ms[i].offset;
    }
  }

  /** The text the first `i` matches make of `raw[..LastEnd(ms, i)]` under
      one rendering: for each match, the unflagged stretch before it and then
      its span. */
  function Rendered(raw: string, ms: seq<Match>, i: nat, render: Segment -> string): string
    requires Arranged(raw, ms) && i <= |ms|
  {
    if i == 0 then ""
    else
      Rendered(raw, ms, i - 1, render)
      + render(Plain(raw[LastEnd(ms, i - 1)..ms[i - 1].offset])) + render(Flag(raw, ms[i - 1]))
  }

  /** The whole text under one rendering: every span rendered, and the text
      after the last one copied. */
  function Whole(raw: string, ms: seq<Match>, render: Segment -> string): string
    requires Arranged(raw, ms)
  {
    Rendered(raw, ms, |ms|, render) + raw[LastEnd(ms, |ms|)..]
  }

  /** The highlighted essay the handler builds for the matches `ms` in the
      order it visits them. */
  function Highlighted(raw: string, ms: seq<Match>): string
    requires Arranged(raw, ms)
  {
    Whole(raw, ms, Html)
  }

  /** A rendering that copies unflagged text as is. */
  ghost predicate KeepsPlain(render: Segment -> string) {
    forall t :: render(Plain(t)) == t
  }

  /** All three renderings copy unflagged text as is. */
  lemma {:induction false} PlainKept()
    ensures KeepsPlain(Html) && KeepsPlain(Original) && KeepsPlain(Fixed)
  {
  }

  /** One step of a splicing loop: when `text` is the first `i` matches
      rendered, followed by the rest of the submitted text, and the rendered
      part is `shift` characters longer than the text it stands for, then
      replacing window `i`, moved by `shift` to `[lo, hi)`, with its
      rendering gives the first `i + 1` matches rendered followed by the
      rest. */
  lemma {:induction false} RenderStep(raw: string, ms: seq<Match>, i: nat, render: Segment -> string,
                                      text: string, shift: nat, lo: nat, hi: nat, piece: string)
    requires Arranged(raw, ms) && i < |ms| && KeepsPlain(render)
    requires text == Rendered(raw, ms, i, render) + raw[LastEnd(ms, i)..]
    requires |Rendered(raw, ms, i, render)| == LastEnd(ms, i) + shift
    requires lo == ms[i].offset + shift && hi == ms[i].offset + shift + ms[i].length
    requires piece == render(Flag(raw, ms[i]))
    ensures lo <= hi <= |text|
    ensures Splice(text, lo, hi, piece) == Rendered(raw, ms, i + 1, render) + raw[LastEnd(ms, i + 1)..]
    ensures |Rendered(raw, ms, i + 1, render)| == LastEnd(ms, i + 1) + shift + |piece| - ms[i].length
  {
    InOrder(raw, ms, i);
    assert render(Plain(raw[LastEnd(ms, i)..ms[i].offset])) == raw[LastEnd(ms, i)..ms[i].offset];
    SpliceShifted(Rendered(raw, ms, i, render), raw, LastEnd(ms, i), ms[i].offset, End(ms[i]), shift, lo, hi, piece);
  }

  /** One step of the highlighting loop (app.py:48-51): splicing the span
      of match `i` over its window, moved by the shift so far, extends the
      highlighted part by one match and lengthens it by what the span adds. */
  lemma {:induction false} HtmlStep(raw: string, ms: seq<Match>, i: nat, next: nat, html: string, shift: nat,
                                    lo: nat, hi: nat, piece: string)
    requires Arranged(raw, ms) && i < |ms| && next == i + 1
    requires html == Rendered(raw, ms, i, Html) + raw[LastEnd(ms, i)..]
    requires |Rendered(raw, ms, i, Html)| == LastEnd(ms, i) + shift
    requires lo == ms[i].offset + shift && hi == ms[i].offset + shift + ms[i].length
    requires piece == Span(Title(raw, ms[i]), Mistake(raw, ms[i]))
    ensures lo <= hi <= |html|
    ensures Splice(html, lo, hi, piece) == Rendered(raw, ms, next, Html) + raw[LastEnd(ms, next)..]
    ensures |Rendered(raw, ms, next, Html)| == LastEnd(ms, next) + shift + |piece| - ms[i].length
  {
    PlainKept();
    assert piece == Html(Flag(raw, ms[i]));
    RenderStep(raw, ms, i, Html, html, shift, lo, hi, piece);
  }

  /** The sum over the first `i` matches of what each span adds to the
      length of the text, `len(highlight_html) - length` (app.py:51). */
  function Shift(raw: string, ms: seq<Match>, i: nat): (r: int)
    requires InBounds(raw, ms) && i <= |ms|
    ensures r >= 0
  {
    if i == 0 then 0
    else Shift(raw, ms, i - 1) + |Span(Title(raw, ms[i - 1]), Mistake(raw, ms[i - 1]))| - ms[i - 1].length
  }

  /** Putting each flagged span's own text back in place of the span gives
      the submitted text up to the end of the last span. */
  lemma {:induction false} OriginalPrefix(raw: string, ms: seq<Match>, i: nat)
    requires Arranged(raw, ms) && i <= |ms|
    ensures LastEnd(ms, i) <= |raw|
    ensures Rendered(raw, ms, i, Original) == raw[..LastEnd(ms, i)]
  {
    if i > 0 {
      var j := i - 1;
      OriginalPrefix(raw, ms, j);
      InOrder(raw, ms, j);
      SliceJoin(raw, LastEnd(ms, j), ms[j].offset, End(ms[j]));
    }
  }

  /** Round trip: putting every flagged span's own text back in place of its
      markup gives the submitted text, character for character. */
  lemma {:induction false} RoundTrip(raw: string, ms: seq<Match>)
    requires Arranged(raw, ms)
    ensures Whole(raw, ms, Original) == raw
  {
    OriginalPrefix(raw, ms, |ms|);
    assert raw == raw[..LastEnd(ms, |ms|)] + raw[LastEnd(ms, |ms|)..];
  }

  /** The length the markup adds: the marked-up text of the first `i` spans
      is `Shift` characters longer than the text it replaces. */
  lemma {:induction false} HtmlLength(raw: string, ms: seq<Match>, i: nat)
    requires Arranged(raw, ms) && i <= |ms|
    ensures |Rendered(raw, ms, i, Html)| == LastEnd(ms, i) + Shift(raw, ms, i)
  {
    if i > 0 {
      var j := i - 1;
      HtmlLength(raw, ms, j);
      InOrder(raw, ms, j);
      var m := ms[j];
      assert |Html(Plain(raw[LastEnd(ms, j)..m.offset]))| == m.offset - LastEnd(ms, j);
      assert Html(Flag(raw, m)) == Span(Title(raw, m), Mistake(raw, m));
    }
  }

  /** The highlighted essay is the submitted text lengthened by the shift of
      all its spans. */
  lemma {:induction false} HighlightedLength(raw: string, ms: seq<Match>)
    requires Arranged(raw, ms)
    ensures |Highlighted(raw, ms)| == |raw| + Shift(raw, ms, |ms|)
  {
    HtmlLength(raw, ms, |ms|);
  }

  /** One more match rendered appends its unflagged stretch and its span. */
  lemma {:induction false} RenderedNext(raw: string, ms: seq<Match>, i: nat, next: nat, render: Segment -> string)
    requires Arranged(raw, ms) && i < |ms| && next == i + 1
    ensures Rendered(raw, ms, next, render)
         == Rendered(raw, ms, i, render) + render(Plain(raw[LastEnd(ms, i)..ms[i].offset])) + render(Flag(raw, ms[i]))
  {
  }

  /** The rendering of fewer matches is a prefix of the rendering of more. */
  lemma {:induction false} RenderedPrefix(raw: string, ms: seq<Match>, i: nat, j: nat, render: Segment -> string)
    requires Arranged(raw, ms) && i <= j <= |ms|
    ensures |Rendered(raw, ms, i, render)| <= |Rendered(raw, ms, j, render)|
    ensures Rendered(raw, ms, j, render)[..|Rendered(raw, ms, i, render)|] == Rendered(raw, ms, i, render)
  {
    if i < j {
      var k := j - 1;
      RenderedPrefix(raw, ms, i, k, render);
      RenderedNext(raw, ms, k, j, render);
      PrefixExtend(Rendered(raw, ms, i, render), Rendered(raw, ms, k, render),
                   render(Plain(raw[LastEnd(ms, k)..ms[k].offset])) + render(Flag(raw, ms[k])), |Rendered(raw, ms, i, render)|);
    } else {
      assert Rendered(raw, ms, j, render)[..|Rendered(raw, ms, j, render)|] == Rendered(raw, ms, j, render);
    }
  }

  /** The offset shift (app.py:48): in the highlighted essay, span `i` starts
      at its offset in the submitted text plus the shift of the spans before
      it, and right before it stands, unchanged, the text between the
      previous span and this one. */
  lemma {:induction false} InsertionPoint(raw: string, ms: seq<Match>, i: nat)
    requires Arranged(raw, ms) && i < |ms|
    ensures LastEnd(ms, i) <= ms[i].offset && End(ms[i]) <= |raw|
    ensures var q, p := LastEnd(ms, i) + Shift(raw, ms, i), ms[i].offset + Shift(raw, ms, i);
            var span := Span(Title(raw, ms[i]), Mistake(raw, ms[i]));
            p + |span| <= |Highlighted(raw, ms)|
            && Highlighted(raw, ms)[q..p] == raw[LastEnd(ms, i)..ms[i].offset]
            && Highlighted(raw, ms)[p..p + |span|] == span
  {
    InOrder(raw, ms, i);
    HtmlLength(raw, ms, i);
    HighlightedPrefix(raw, ms, i, i + 1);
    var q, p := LastEnd(ms, i) + Shift(raw, ms, i), ms[i].offset + Shift(raw, ms, i);
    PiecesAt(raw, ms, i, Highlighted(raw, ms), q, p);
  }

  /** Where `h` starts with the rendering of `i + 1` matches, the gap and the
      span of match `i` sit at `[q, p)` and right after it. */
  lemma {:induction false} PiecesAt(raw: string, ms: seq<Match>, i: nat, h: string, q: nat, p: nat)
    requires Arranged(raw, ms) && i < |ms| && LastEnd(ms, i) <= ms[i].offset
    requires q == |Rendered(raw, ms, i, Html)| && p == q + ms[i].offset - LastEnd(ms, i)
    requires p + |Html(Flag(raw, ms[i]))| <= |h|
    requires h[..p + |Html(Flag(raw, ms[i]))|]
          == Rendered(raw, ms, i, Html) + raw[LastEnd(ms, i)..ms[i].offset] + Html(Flag(raw, ms[i]))
    ensures var span := Span(Title(raw, ms[i]), Mistake(raw, ms[i]));
            p + |span| <= |h| && h[q..p] == raw[LastEnd(ms, i)..ms[i].offset] && h[p..p + |span|] == span
  {
    var span := Span(Title(raw, ms[i]), Mistake(raw, ms[i]));
    assert Html(Flag(raw, ms[i])) == span;
    Pieces(h, Rendered(raw, ms, i, Html), raw[LastEnd(ms, i)..ms[i].offset], span, q, p, p + |span|);
  }

  /** The highlighted essay starts with the rendering of the first `next`
      matches. */
  lemma {:induction false} HighlightedPrefix(raw: string, ms: seq<Match>, i: nat, next: nat)
    requires Arranged(raw, ms) && i < |ms| && next == i + 1
    ensures |Rendered(raw, ms, next, Html)| <= |Highlighted(raw, ms)|
    ensures Highlighted(raw, ms)[..|Rendered(raw, ms, next, Html)|]
         == Rendered(raw, ms, i, Html) + raw[LastEnd(ms, i)..ms[i].offset] + Html(Flag(raw, ms[i]))
  {
    RenderedNext(raw, ms, i, next, Html);
    RenderedPrefix(raw, ms, next, |ms|, Html);
    PrefixExtend(Rendered(raw, ms, next, Html), Rendered(raw, ms, |ms|, Html), raw[LastEnd(ms, |ms|)..],
                 |Rendered(raw, ms, next, Html)|);
  }

  /** After the last span the highlighted essay is the rest of the submitted
      text, unchanged. */
  lemma {:induction false} HighlightedTail(raw: string, ms: seq<Match>)
    requires Arranged(raw, ms)
    ensures LastEnd(ms, |ms|) <= |raw|
    ensures var q := LastEnd(ms, |ms|) + Shift(raw, ms, |ms|);
            q <= |Highlighted(raw, ms)| && Highlighted(raw, ms)[q..] == raw[LastEnd(ms, |ms|)..]
  {
    HtmlLength(raw, ms, |ms|);
  }
}

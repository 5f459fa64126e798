/** The corrected essay: a character list copied from the submitted text in
    which every flagged window is overwritten by its suggestion
    (app.py:39, 59, 62). */
module Correction {
  import opened Strings
  import opened Matches
  import opened Segments

  /** `corrected_chars[offset:offset + length] = list(suggestion.ljust(length))`
      (app.py:59) for a window inside the list. */
  function Overwrite(cs: string, offset: nat, length: nat, suggestion: string): string
    requires offset + length <= |cs|
  {
    Splice(cs, offset, offset + length, LJust(suggestion, length))
  }

  /** A suggestion that fits its window is padded with spaces to the window's
      length and the list keeps its length and every character outside the
      window; a longer one is inserted whole, the list grows by the
      difference, and what follows the window moves right by as much. */
  lemma {:induction false} OverwriteWindow(cs: string, offset: nat, length: nat, suggestion: string)
    requires offset + length <= |cs|
    ensures var r := Overwrite(cs, offset, length, suggestion);
            |suggestion| <= length ==>
              |r| == |cs| && r[offset..offset + length] == LJust(suggestion, length)
              && forall k :: 0 <= k < |cs| && !(offset <= k < offset + length) ==> r[k] == cs[k]
    ensures var r := Overwrite(cs, offset, length, suggestion);
            |suggestion| > length ==>
              |r| == |cs| + |suggestion| - length && r[..offset] == cs[..offset]
              && r[offset..offset + |suggestion|] == suggestion
              && r[offset + |suggestion|..] == cs[offset + length..]
  {
    var r := Overwrite(cs, offset, length, suggestion);
    if |suggestion| <= length {
      forall k | offset + length <= k < |cs|
        ensures r[k] == cs[k]
      {
        assert r[k] == r[offset + length..][k - offset - length];
      }
    }
  }

  /** A match with no replacement falls back to its own text as the
      suggestion (app.py:45), so overwriting its window changes nothing
      while that window still holds the submitted text. */
  lemma {:induction false} FallbackKeeps(cs: string, raw: string, m: Match)
    requires End(m) <= |raw| && m.replacements == []
    requires End(m) <= |cs| && cs[m.offset..End(m)] == raw[m.offset..End(m)]
    ensures Overwrite(cs, m.offset, m.length, Suggestion(raw, m)) == cs
  {
    var lo, hi := m.offset, End(m);
    assert LJust(Suggestion(raw, m), m.length) == cs[lo..hi];
    assert cs == cs[..lo] + cs[lo..hi] + cs[hi..];
  }

  /** `corrected_chars` after the loop has visited the first `i` matches of
      `ms` (app.py:39, 59): each window is overwritten at its offset in the
      submitted text, however much earlier overwrites have grown the list.
      The list is never shorter than the text. */
  function Drifted(raw: string, ms: seq<Match>, i: nat): (r: string)
    requires InBounds(raw, ms) && i <= |ms|
    ensures |r| >= |raw|
  {
    if i == 0 then raw
    else
      var m := ms[i - 1];
      Overwrite(Drifted(raw, ms, i - 1), m.offset, m.length, Suggestion(raw, m))
  }

  /** One more overwrite of the handler's loop. */
  lemma {:induction false} DriftedNext(raw: string, ms: seq<Match>, i: nat, next: nat, chars: string,
                                       offset: nat, length: nat, suggestion: string)
    requires InBounds(raw, ms) && i < |ms| && next == i + 1 && chars == Drifted(raw, ms, i)
    requires offset == ms[i].offset && length == ms[i].length && suggestion == Suggestion(raw, ms[i])
    ensures offset + length <= |chars|
    ensures Drifted(raw, ms, next) == Overwrite(chars, offset, length, suggestion)
  {
  }

  /** What a suggestion exceeds its window by, or zero when it fits. */
  function Overhang(raw: string, m: Match): nat
    requires End(m) <= |raw|
  {
    var s := |Suggestion(raw, m)|;
    if s > m.length then s - m.length else 0
  }

  /** What the suggestions of the first `i` matches exceed their windows by. */
  function Excess(raw: string, ms: seq<Match>, i: nat): (r: nat)
    requires InBounds(raw, ms) && i <= |ms|
    ensures Fits(raw, ms) ==> r == 0
  {
    if i == 0 then 0 else Excess(raw, ms, i - 1) + Overhang(raw, ms[i - 1])
  }

  /** Each overwrite grows the list by its suggestion's overhang. */
  lemma {:induction false} DriftedGrows(raw: string, ms: seq<Match>, j: nat, next: nat)
    requires InBounds(raw, ms) && j < |ms| && next == j + 1
    ensures |Drifted(raw, ms, next)| == |Drifted(raw, ms, j)| + Overhang(raw, ms[j])
  {
    var m := ms[j];
    var chars, suggestion := Drifted(raw, ms, j), Suggestion(raw, m);
    DriftedNext(raw, ms, j, next, chars, m.offset, m.length, suggestion);
    assert |LJust(suggestion, m.length)| == m.length + Overhang(raw, m);
  }

  /** The list keeps the length of the text when every suggestion fits its
      window, and grows by exactly the excess of the longer ones otherwise. */
  lemma {:induction false} DriftedLength(raw: string, ms: seq<Match>, i: nat)
    requires InBounds(raw, ms) && i <= |ms|
    ensures |Drifted(raw, ms, i)| == |raw| + Excess(raw, ms, i)
    ensures Fits(raw, ms) ==> |Drifted(raw, ms, i)| == |raw|
  {
    if i > 0 {
      var j := i - 1;
      DriftedLength(raw, ms, j);
      DriftedGrows(raw, ms, j, i);
    }
  }

  /** The text the corrected essay is evidently meant to be: the submitted
      text with each flagged window replaced by its padded suggestion and
      everything between the windows copied. */
  function Intended(raw: string, ms: seq<Match>): string
    requires Arranged(raw, ms)
  {
    Whole(raw, ms, Fixed)
  }

  /** Every suggestion is at most as long as its window. */
  predicate Fits(raw: string, ms: seq<Match>)
    requires InBounds(raw, ms)
  {
    forall k :: 0 <= k < |ms| ==> |Suggestion(raw, ms[k])| <= ms[k].length
  }

  /** With suggestions that fit, the corrected text up to the end of the
      `i`-th window is exactly as long as the submitted text up to there. */
  lemma {:induction false} FixedLength(raw: string, ms: seq<Match>, i: nat)
    requires Arranged(raw, ms) && Fits(raw, ms) && i <= |ms|
    ensures |Rendered(raw, ms, i, Fixed)| == LastEnd(ms, i)
  {
    if i > 0 {
      var j := i - 1;
      FixedLength(raw, ms, j);
      InOrder(raw, ms, j);
      var m := ms[j];
      assert |Fixed(Plain(raw[LastEnd(ms, j)..m.offset]))| == m.offset - LastEnd(ms, j);
      assert |Fixed(Flag(raw, m))| == m.length;
    }
  }

  /** One step of a corrected loop, read as corrected text: replacing window
      `i`, moved by `shift`, with its padded suggestion extends the corrected
      text by one window. */
  lemma {:induction false} FixedStep(raw: string, ms: seq<Match>, i: nat, next: nat, chars: string, shift: nat,
                                     lo: nat, hi: nat, padded: string)
    requires Arranged(raw, ms) && i < |ms| && next == i + 1
    requires chars == Rendered(raw, ms, i, Fixed) + raw[LastEnd(ms, i)..]
    requires |Rendered(raw, ms, i, Fixed)| == LastEnd(ms, i) + shift
    requires lo == ms[i].offset + shift && hi == ms[i].offset + shift + ms[i].length
    requires padded == LJust(Suggestion(raw, ms[i]), ms[i].length)
    ensures lo <= hi <= |chars|
    ensures Splice(chars, lo, hi, padded) == Rendered(raw, ms, next, Fixed) + raw[LastEnd(ms, next)..]
    ensures |Rendered(raw, ms, next, Fixed)| == LastEnd(ms, next) + shift + |padded| - ms[i].length
  {
    PlainKept();
    assert padded == Fixed(Flag(raw, ms[i]));
    RenderStep(raw, ms, i, Fixed, chars, shift, lo, hi, padded);
  }

  /** One overwrite of the handler's loop, when the list so far is the
      corrected text of the first `j` windows followed by the rest of the
      submitted text and the corrected part is exactly as long as what it
      replaced: the overwrite lands on window `j` and extends the corrected
      part by that window. */
  lemma {:induction false} DriftStep(raw: string, ms: seq<Match>, j: nat, next: nat)
    requires Arranged(raw, ms) && 0 < next <= |ms| && j == next - 1
    requires Drifted(raw, ms, j) == Rendered(raw, ms, j, Fixed) + raw[LastEnd(ms, j)..]
    requires |Rendered(raw, ms, j, Fixed)| == LastEnd(ms, j)
    ensures Drifted(raw, ms, next) == Rendered(raw, ms, next, Fixed) + raw[LastEnd(ms, next)..]
  {
    var m := ms[j];
    var chars, suggestion := Drifted(raw, ms, j), Suggestion(raw, m);
    var lo, hi, padded := m.offset, m.offset + m.length, LJust(suggestion, m.length);
    DriftedNext(raw, ms, j, next, chars, m.offset, m.length, suggestion);
    assert Drifted(raw, ms, next) == Splice(chars, lo, hi, padded);
    FixedStep(raw, ms, j, next, chars, 0, lo, hi, padded);
  }

  /** With suggestions that fit, the list after `i` overwrites is the
      corrected text of the first `i` windows followed by the untouched rest
      of the submitted text. */
  lemma {:induction false} DriftedRendered(raw: string, ms: seq<Match>, i: nat)
    requires Arranged(raw, ms) && Fits(raw, ms) && i <= |ms|
    ensures LastEnd(ms, i) <= |raw|
    ensures Drifted(raw, ms, i) == Rendered(raw, ms, i, Fixed) + raw[LastEnd(ms, i)..]
  {
    if i > 0 {
      var j := i - 1;
      DriftedRendered(raw, ms, j);
      FixedLength(raw, ms, j);
      DriftStep(raw, ms, j, i);
    }
  }

  /** When every suggestion fits its window the list never grows, no later
      window drifts, and the handler's list is the intended text. */
  lemma {:induction false} DriftFree(raw: string, ms: seq<Match>)
    requires Arranged(raw, ms) && Fits(raw, ms)
    ensures Drifted(raw, ms, |ms|) == Intended(raw, ms)
  {
    DriftedRendered(raw, ms, |ms|);
  }

  /** The corrected loop over matches already in visiting order: each window
      is overwritten at its offset moved by the growth of the windows before
      it. */
  method OverwriteShifted(raw: string, ms: seq<Match>) returns (chars: string)
    requires Arranged(raw, ms)
    ensures chars == Intended(raw, ms)
  {
    chars := raw;
    var shift := 0;
    var i := 0;
    while i < |ms|
      invariant 0 <= i <= |ms| && shift >= 0
      invariant chars == Rendered(raw, ms, i, Fixed) + raw[LastEnd(ms, i)..]
      invariant |Rendered(raw, ms, i, Fixed)| == LastEnd(ms, i) + shift
    {
      var m := ms[i];
      var padded := LJust(Suggestion(raw, m), m.length);
      var lo, hi := m.offset + shift, m.offset + shift + m.length;
      FixedStep(raw, ms, i, i + 1, chars, shift, lo, hi, padded);
      chars := Splice(chars, lo, hi, padded);
      shift := shift + |padded| - m.length;
      i := i + 1;
    }
  }

  /** The handler's loop with the drift bug fixed: each window is moved by
      the growth of the windows before it, as the HTML loop moves its spans.
      It yields the intended text. */
  method CorrectWithShift(raw: string, matches: seq<Match>) returns (corrected: string)
    requires InBounds(raw, matches)
    requires Disjoint(SortByOffset(matches))
    ensures Arranged(raw, SortByOffset(matches))
    ensures corrected == Strip(Intended(raw, SortByOffset(matches)))
  {
    var ms := SortByOffset(matches);
    InBoundsSorted(raw, matches);
    var chars := OverwriteShifted(raw, ms);
    corrected := Strip(chars);
  }

  /** The submitted text of the drift bug's example, "I has a apple.". It is
      written as the concatenation of its words and gaps so that the proofs
      below can take it apart piece by piece instead of character by
      character. */
  function ExampleText(): string {
    "I " + "has" + " " + "a" + " apple."
  }

  /** Matches a grammar checker could report for it: "has" at 2
      (suggesting "have") and "a" at 6 (suggesting "an"). */
  function ExampleMatches(): seq<Match> {
    [Match(2, 3, "Possible agreement error", ["have"]), Match(6, 1, "Use \"an\" instead of \"a\"", ["an"])]
  }

  /** The example's matches are already in order and respect the handler's
      assumptions. */
  lemma {:induction false} ExampleArranged()
    ensures Arranged(ExampleText(), ExampleMatches())
    ensures SortByOffset(ExampleMatches()) == ExampleMatches()
  {
    var ms := ExampleMatches();
    assert ms[1..] == [ms[1]] && [ms[1]][1..] == [];
  }

  /** The first overwrite puts "have" over "has" and grows the list by one. */
  lemma {:induction false} ExampleFirst()
    ensures Arranged(ExampleText(), ExampleMatches())
    ensures Drifted(ExampleText(), ExampleMatches(), 1) == "I " + "have" + " " + "a" + " apple."
  {
    ExampleArranged();
    var raw, ms := ExampleText(), ExampleMatches();
    var have: string := "have";
    assert Suggestion(raw, ms[0]) == have && LJust(have, 3) == have;
    assert Drifted(raw, ms, 1) == Splice(raw, 2, 5, have);
    Pieces(raw, "I ", "has", " " + "a" + " apple.", 2, 5, |raw|);
  }

  /** The second overwrite still uses offset 6, which now holds the space
      after "have", and the "a" it was meant to replace stays. */
  lemma {:induction false} ExampleSecond()
    ensures Arranged(ExampleText(), ExampleMatches())
    ensures Drifted(ExampleText(), ExampleMatches(), 2) == "I " + "have" + "an" + "a" + " apple."
  {
    ExampleFirst();
    var raw, ms := ExampleText(), ExampleMatches();
    var d := "I " + "have" + " " + "a" + " apple.";
    var an: string := "an";
    assert Suggestion(raw, ms[1]) == an && LJust(an, 1) == an;
    assert Drifted(raw, ms, 2) == Splice(d, 6, 7, an);
    Pieces(d, "I " + "have", " ", "a" + " apple.", 6, 7, |d|);
  }

  /** The intended text puts each suggestion over its own window. */
  lemma {:induction false} ExampleIntended()
    ensures Arranged(ExampleText(), ExampleMatches())
    ensures Intended(ExampleText(), ExampleMatches()) == "I " + "have" + " " + "an" + " apple."
  {
    ExampleArranged();
    var raw, ms := ExampleText(), ExampleMatches();
    assert Fixed(Flag(raw, ms[0])) == "have" && Fixed(Flag(raw, ms[1])) == "an";
    assert raw[0..2] == "I " && raw[5..6] == " " && raw[7..] == " apple.";
    assert Rendered(raw, ms, 1, Fixed) == "I " + "have";
  }

  /** The pieces of the two results, written out as the literals they spell;
      kept apart so that the example lemmas reason about the pieces only. */
  lemma {:induction false} LiteralCheck()
    ensures "I " + "have" + "an" + "a" + " apple." == "I haveana apple."
    ensures "I " + "have" + " " + "an" + " apple." == "I have an apple."
  {
  }

  /** The drift bug in the handler's loop: in "I has a apple." the checker flags
      "has" (suggesting "have") and "a" (suggesting "an"). The first
      overwrite grows the list by one character, so the second lands one
      character early and the handler stores "I haveana apple." where
      "I have an apple." is meant. */
  lemma {:induction false} DriftExample()
    ensures var raw, ms := ExampleText(), ExampleMatches();
            InBounds(raw, ms) && Disjoint(SortByOffset(ms))
            && Strip(Drifted(raw, SortByOffset(ms), 2)) == "I haveana apple."
            && Strip(Intended(raw, SortByOffset(ms))) == "I have an apple."
  {
    var raw, ms := ExampleText(), ExampleMatches();
    ExampleArranged();
    ExampleSecond();
    ExampleIntended();
    LiteralCheck();
    var a: string, b: string := "I haveana apple.", "I have an apple.";
    assert Drifted(raw, ms, 2) == a && Intended(raw, ms) == b;
    StripKeeps(a);
    StripKeeps(b);
  }

  /** A text that starts with "I" and ends with a full stop is left as is by
      `Strip`. It passes the example's results to `Strip` as a parameter, so
      that `Strip` is not unfolded on the literal one character at a time. */
  lemma {:induction false} StripKeeps(s: string)
    requires |s| > 0 && s[0] == 'I' && s[|s| - 1] == '.'
    ensures Strip(s) == s
  {
  }
}

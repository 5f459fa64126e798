/** The handful of Python string and list primitives the annotation loop
    relies on: `str.strip()`, `str.ljust(width)` and slice splicing. */
module Strings {

  /** The characters `str.isspace()` accepts, which is the set `str.strip()`
      removes when called without arguments: the ASCII controls TAB, LF, VT,
      FF and CR, the separators FS, GS, RS and US, SPACE, NEL, NO-BREAK SPACE
      and the Unicode space, line and paragraph separators. */
  predicate IsSpace(c: char) {
    ('\t' <= c <= '\r') || ('\U{1c}' <= c <= '\U{1f}') || c == ' '
    || c == '\U{85}' || c == '\U{a0}' || c == '\U{1680}'
    || ('\U{2000}' <= c <= '\U{200a}') || c == '\U{2028}' || c == '\U{2029}'
    || c == '\U{202f}' || c == '\U{205f}' || c == '\U{3000}'
  }

  /** `s.lstrip()`: drops every leading whitespace character and nothing else. */
  function TrimStart(s: string): (r: string)
    ensures |r| <= |s| && r == s[|s| - |r|..]
    ensures r == [] || !IsSpace(r[0])
    ensures forall k :: 0 <= k < |s| - |r| ==> IsSpace(s[k])
  {
    if s != [] && IsSpace(s[0]) then TrimStart(s[1..]) else s
  }

  /** `s.rstrip()`: drops every trailing whitespace character and nothing else. */
  function TrimEnd(s: string): (r: string)
    ensures |r| <= |s| && r == s[..|r|]
    ensures r == [] || !IsSpace(r[|r| - 1])
    ensures forall k :: |r| <= k < |s| ==> IsSpace(s[k])
  {
    if s != [] && IsSpace(s[|s| - 1]) then TrimEnd(s[..|s| - 1]) else s
  }

  /** `s.strip()` (app.py:62): cuts whitespace off both ends of `s`. */
  function Strip(s: string): (r: string)
    ensures r == [] || (!IsSpace(r[0]) && !IsSpace(r[|r| - 1]))
    ensures r == [] <==> forall k :: 0 <= k < |s| ==> IsSpace(s[k])
    ensures (s == [] || (!IsSpace(s[0]) && !IsSpace(s[|s| - 1]))) ==> r == s
  {
    TrimEnd(TrimStart(s))
  }

  /** What `Strip` leaves is one slice of its argument, and everything cut
      off around that slice is whitespace. */
  lemma {:induction false} StripIsSlice(s: string) returns (i: nat)
    ensures i + |Strip(s)| <= |s| && Strip(s) == s[i..i + |Strip(s)|]
    ensures forall k :: 0 <= k < i ==> IsSpace(s[k])
    ensures forall k :: i + |Strip(s)| <= k < |s| ==> IsSpace(s[k])
  {
    var t := TrimStart(s);
    i := |s| - |t|;
    var r := TrimEnd(t);
    assert t == s[i..];
    forall k | i + |r| <= k < |s|
      ensures IsSpace(s[k])
    {
      assert s[k] == t[k - i];
    }
  }

  /** `n` copies of the space character. */
  function Spaces(n: nat): (r: string)
    ensures |r| == n
    ensures forall k :: 0 <= k < n ==> r[k] == ' '
  {
    seq(n, _ => ' ')
  }

  /** `s.ljust(width)`: `s` right-padded with spaces to `width` characters,
      or `s` itself when it is already at least that long (never truncated). */
  function LJust(s: string, width: nat): (r: string)
    ensures |r| == if |s| < width then width else |s|
    ensures r[..|s|] == s
    ensures forall k :: |s| <= k < |r| ==> r[k] == ' '
  {
    if |s| < width then s + Spaces(width - |s|) else s
  }

  /** `xs[:lo] + ys + xs[hi:]`, which is also what the list slice assignment
      `xs[lo:hi] = ys` leaves behind, for indices inside `xs`. */
  function Splice<T>(xs: seq<T>, lo: nat, hi: nat, ys: seq<T>): (r: seq<T>)
    requires lo <= hi <= |xs|
    ensures |r| == |xs| - (hi - lo) + |ys|
    ensures r[..lo] == xs[..lo] && r[lo..lo + |ys|] == ys && r[lo + |ys|..] == xs[hi..]
  {
    xs[..lo] + ys + xs[hi..]
  }

  /** Two adjacent slices make up the slice that spans both. */
  lemma {:induction false} SliceJoin<T>(s: seq<T>, a: nat, b: nat, c: nat)
    requires a <= b <= c <= |s|
    ensures s[..c] == s[..a] + s[a..b] + s[b..c]
  {
    var x, y, z := s[..a], s[a..b], s[b..c];
    var t := x + y + z;
    forall k | 0 <= k < c
      ensures t[k] == s[k]
    {
      if k < a {
        assert t[k] == x[k];
      } else if k < b {
        assert t[k] == y[k - a];
      } else {
        assert t[k] == z[k - b];
      }
    }
    assert s[..c] == t;
  }

  /** Splicing into a sequence that is `front` followed by the tail of `s`
      from `at` on, where `front` is `shift` longer than the `at` elements it
      stands for: the window `[lo, hi)` of `s`, moved to `[a, b)` by `shift`,
      is what gets replaced. */
  lemma {:induction false} SpliceShifted<T>(front: seq<T>, s: seq<T>, at: nat, lo: nat, hi: nat, shift: nat,
                                            a: nat, b: nat, ys: seq<T>)
    requires at <= lo <= hi <= |s| && |front| == at + shift && a == lo + shift && b == hi + shift
    ensures a <= b <= |front + s[at..]|
    ensures Splice(front + s[at..], a, b, ys) == front + s[at..lo] + ys + s[hi..]
  {
    var x := front + s[at..];
    assert x[..a] == front + s[at..lo];
    assert x[b..] == s[hi..];
  }

  /** A prefix stays a prefix when more is appended. */
  lemma {:induction false} PrefixExtend<T>(p: seq<T>, s: seq<T>, t: seq<T>, n: nat)
    requires n == |p| <= |s| && s[..n] == p
    ensures n <= |s + t| && (s + t)[..n] == p
  {
    assert (s + t)[..n] == s[..n];
  }

  /** Where `x` starts with `a + b + c`, `b` and `c` sit right after `a`:
      at `[i, j)` and `[j, k)`. */
  lemma {:induction false} Pieces<T>(x: seq<T>, a: seq<T>, b: seq<T>, c: seq<T>, i: nat, j: nat, k: nat)
    requires i == |a| && j == i + |b| && k == j + |c|
    requires k <= |x| && x[..k] == a + b + c
    ensures x[i..j] == b && x[j..k] == c
  {
    assert x[i..j] == x[..k][i..j];
    assert x[j..k] == x[..k][j..k];
  }
}

/** The grammar checker's matches and the order the handler visits them in:
    `sorted(matches, key=lambda x: x["offset"])` (app.py:35). */
module Matches {

  /** One entry of the checker's "matches" list: the flagged span
      `[offset, offset + length)` of the submitted text, the explanation
      shown to the writer, and the `value`s of its "replacements" list in the
      checker's order. */
  datatype Match = Match(offset: nat, length: nat, message: string, replacements: seq<string>)

  /** One past the last character of the flagged span. */
  function End(m: Match): nat {
    m.offset + m.length
  }

  /** Offsets never decrease along `ms`. */
  predicate Sorted(ms: seq<Match>) {
    forall i, j :: 0 <= i < j < |ms| ==> ms[i].offset <= ms[j].offset
  }

  /** Puts `m` in front of the first element whose offset is at least its
      own, so that `m` stays ahead of the matches it ties with. */
  function Insert(m: Match, ms: seq<Match>): (r: seq<Match>)
    ensures multiset(r) == multiset(ms) + multiset{m}
  {
    if ms == [] || m.offset <= ms[0].offset then [m] + ms
    else
      assert ms == [ms[0]] + ms[1..];
      [ms[0]] + Insert(m, ms[1..])
  }

  /** Inserting into a sorted list keeps it sorted. */
  lemma {:induction false} InsertSorted(m: Match, ms: seq<Match>)
    requires Sorted(ms)
    ensures Sorted(Insert(m, ms))
  {
    if ms == [] || m.offset <= ms[0].offset {
      SortedCons(m, ms);
    } else {
      var head, tail := ms[0], ms[1..];
      var rest := Insert(m, tail);
      SortedTail(ms);
      InsertSorted(m, tail);
      InsertFirst(m, tail);
      SortedCons(head, rest);
    }
  }

  /** The first element of an insertion is the inserted match or the old
      first element. */
  lemma {:induction false} InsertFirst(m: Match, ms: seq<Match>)
    ensures Insert(m, ms) != []
    ensures Insert(m, ms)[0] == m || (ms != [] && Insert(m, ms)[0] == ms[0])
  {
  }

  /** Dropping the first element keeps a list sorted. */
  lemma {:induction false} SortedTail(ms: seq<Match>)
    requires Sorted(ms) && ms != []
    ensures Sorted(ms[1..])
  {
    var tail := ms[1..];
    forall i, j | 0 <= i < j < |tail|
      ensures tail[i].offset <= tail[j].offset
    {
      assert tail[i] == ms[i + 1] && tail[j] == ms[j + 1];
    }
  }

  /** A match no later than the first of a sorted list can go in front. */
  lemma {:induction false} SortedCons(h: Match, ms: seq<Match>)
    requires Sorted(ms) && (ms == [] || h.offset <= ms[0].offset)
    ensures Sorted([h] + ms)
  {
    var r := [h] + ms;
    forall i, j | 0 <= i < j < |r|
      ensures r[i].offset <= r[j].offset
    {
      assert r[j] == ms[j - 1];
      if i > 0 {
        assert r[i] == ms[i - 1];
      } else {
        assert ms[0].offset <= ms[j - 1].offset;
      }
    }
  }

  /** Python's `sorted` keyed on the offset: an insertion sort, which is
      stable. */
  function SortByOffset(ms: seq<Match>): (r: seq<Match>)
    ensures multiset(r) == multiset(ms)
    ensures Sorted(r)
  {
    if ms == [] then []
    else
      assert ms == [ms[0]] + ms[1..];
      InsertSorted(ms[0], SortByOffset(ms[1..]));
      Insert(ms[0], SortByOffset(ms[1..]))
  }

  /** The matches of `ms` at offset `k`, in the order `ms` lists them. */
  function At(ms: seq<Match>, k: nat): seq<Match> {
    if ms == [] then []
    else (if ms[0].offset == k then [ms[0]] else []) + At(ms[1..], k)
  }

  /** Insertion puts `m` ahead of the matches it ties with, so at every
      offset the matches keep the order of `[m] + ms`. */
  lemma {:induction false} InsertKeepsTies(m: Match, ms: seq<Match>, k: nat)
    ensures At(Insert(m, ms), k) == At([m] + ms, k)
  {
    if ms == [] || m.offset <= ms[0].offset {
    } else {
      var head, tail := ms[0], ms[1..];
      var rest := Insert(m, tail);
      InsertKeepsTies(m, tail, k);
      // `m` and `head` have different offsets, so at most one is at `k`.
      var a := if m.offset == k then [m] else [];
      var b := if head.offset == k then [head] else [];
      assert ([head] + rest)[1..] == rest;
      assert ([m] + ms)[1..] == ms;
      assert ([m] + tail)[1..] == tail;
      assert At(ms, k) == b + At(tail, k);
      assert At(rest, k) == a + At(tail, k);
      assert a == [] || b == [];
    }
  }

  /** Stability: sorting keeps, for every offset, the matches at that offset
      in their input order. With `Sorted` and the multiset equality this
      pins `SortByOffset` down to Python's stable sort. */
  lemma {:induction false} SortIsStable(ms: seq<Match>, k: nat)
    ensures At(SortByOffset(ms), k) == At(ms, k)
  {
    if ms != [] {
      var rest := SortByOffset(ms[1..]);
      InsertKeepsTies(ms[0], rest, k);
      SortIsStable(ms[1..], k);
      assert ([ms[0]] + rest)[1..] == rest;
    }
  }

  /** Sorting neither adds nor drops a match. */
  lemma {:induction false} SortedMembers(ms: seq<Match>)
    ensures |SortByOffset(ms)| == |ms|
    ensures forall m :: m in SortByOffset(ms) <==> m in ms
  {
    var r := SortByOffset(ms);
    assert |r| == |multiset(r)| == |multiset(ms)| == |ms|;
    forall m
      ensures m in r <==> m in ms
    {
      assert m in r <==> m in multiset(r);
    }
  }
}

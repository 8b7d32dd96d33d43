/** Half-open index ranges `[start, end)` of the plot text, and the stable sorts
    the highlighter applies to them with `Array.prototype.sort`. */
module Intervals {

  /** `{ startIndex, endIndex }` (and `{ start, end }` for name-part matches). */
  datatype Span = Span(start: int, end: int)

  /** Index `x` lies in the span. */
  predicate Holds(p: Span, x: int) {
    p.start <= x < p.end
  }

  /** Span `a` lies inside span `b` (the containment test of the hit scan). */
  predicate Inside(a: Span, b: Span) {
    b.start <= a.start && a.end <= b.end
  }

  /** Index `x` lies in some span of `ps`. */
  predicate Covered(ps: seq<Span>, x: int) {
    exists i :: 0 <= i < |ps| && Holds(ps[i], x)
  }

  /** Coverage by a span followed by more spans. */
  lemma CoveredCons(p: Span, rest: seq<Span>, x: int)
    ensures Covered([p] + rest, x) <==> Holds(p, x) || Covered(rest, x)
  {
    var ps := [p] + rest;
    if Covered(ps, x) {
      var k :| 0 <= k < |ps| && Holds(ps[k], x);
      if k > 0 { assert ps[k] == rest[k - 1]; }
    }
    if Covered(rest, x) {
      var k :| 0 <= k < |rest| && Holds(rest[k], x);
      assert ps[k + 1] == rest[k];
    }
    if Holds(p, x) { assert Holds(ps[0], x); }
  }

  /** The comparators of the source: by start ascending and, when
      `longestFirst`, longer spans first among equal starts. `Before(a, b)` means
      the comparator puts `a` strictly ahead of `b`. */
  predicate Before(a: Span, b: Span, longestFirst: bool) {
    a.start < b.start || (longestFirst && a.start == b.start && a.end - a.start > b.end - b.start)
  }

  /** No element is strictly ahead of one that precedes it. */
  predicate Sorted(s: seq<Span>, longestFirst: bool) {
    forall i, j :: 0 <= i < j < |s| ==> !Before(s[j], s[i], longestFirst)
  }

  /** Insert `x` after every element the comparator does not put behind it. */
  function Insert(x: Span, t: seq<Span>, longestFirst: bool): (r: seq<Span>)
    ensures multiset(r) == multiset(t) + multiset{x}
    ensures |r| == |t| + 1
  {
    if t == [] then [x]
    else if Before(x, t[0], longestFirst) then [x] + t
    else
      assert t == [t[0]] + t[1..];
      [t[0]] + Insert(x, t[1..], longestFirst)
  }

  /** What the insertion holds: the new element and the old ones. */
  lemma InsertMember(x: Span, t: seq<Span>, longestFirst: bool, y: Span)
    requires y in Insert(x, t, longestFirst)
    ensures y == x || y in t
  {
    assert y in multiset(Insert(x, t, longestFirst));
  }

  /** A sorted sequence stays sorted behind an element nothing in it goes
      ahead of. */
  lemma SortedCons(a: Span, s: seq<Span>, longestFirst: bool)
    requires Sorted(s, longestFirst)
    requires forall y :: y in s ==> !Before(y, a, longestFirst)
    ensures Sorted([a] + s, longestFirst)
  {
    forall i, j | 0 <= i < j < |s| + 1 ensures !Before(([a] + s)[j], ([a] + s)[i], longestFirst) {
      assert ([a] + s)[j] == s[j - 1];
      if i > 0 { assert ([a] + s)[i] == s[i - 1]; }
    }
  }

  /** A stable sort: elements the comparator calls equal keep their order. */
  function SortSpans(s: seq<Span>, longestFirst: bool): seq<Span>
  {
    if s == [] then []
    else Insert(s[|s| - 1], SortSpans(s[..|s| - 1], longestFirst), longestFirst)
  }

  lemma BeforeOrder(a: Span, b: Span, c: Span, longestFirst: bool)
    ensures !(Before(a, b, longestFirst) && Before(b, a, longestFirst))
    ensures Before(a, b, longestFirst) && Before(b, c, longestFirst) ==> Before(a, c, longestFirst)
    ensures Before(a, b, longestFirst) ==> Before(a, c, longestFirst) || Before(c, b, longestFirst)
  {
  }

  lemma {:induction false} InsertSorted(x: Span, t: seq<Span>, longestFirst: bool)
    requires Sorted(t, longestFirst)
    ensures Sorted(Insert(x, t, longestFirst), longestFirst)
    decreases |t|
  {
    if t != [] && !Before(x, t[0], longestFirst) {
      InsertSorted(x, t[1..], longestFirst);
      forall y | y in Insert(x, t[1..], longestFirst) ensures !Before(y, t[0], longestFirst) {
        InsertMember(x, t[1..], longestFirst, y);
      }
      SortedCons(t[0], Insert(x, t[1..], longestFirst), longestFirst);
    } else if t != [] {
      forall i, j | 0 <= i < j < |t| + 1 ensures !Before(([x] + t)[j], ([x] + t)[i], longestFirst) {
        if i == 0 {
          BeforeOrder(t[j - 1], x, t[0], longestFirst);
        }
      }
    }
  }

  /** The sort orders its input. */
  lemma {:induction false} SortSpansSorted(s: seq<Span>, longestFirst: bool)
    ensures Sorted(SortSpans(s, longestFirst), longestFirst)
    decreases |s|
  {
    if s != [] {
      SortSpansSorted(s[..|s| - 1], longestFirst);
      InsertSorted(s[|s| - 1], SortSpans(s[..|s| - 1], longestFirst), longestFirst);
    }
  }

  /** The sort is a permutation of its input. */
  lemma {:induction false} SortSpansPermutes(s: seq<Span>, longestFirst: bool)
    ensures multiset(SortSpans(s, longestFirst)) == multiset(s)
    ensures |SortSpans(s, longestFirst)| == |s|
    decreases |s|
  {
    if s != [] {
      SortSpansPermutes(s[..|s| - 1], longestFirst);
      assert s == s[..|s| - 1] + [s[|s| - 1]];
    }
  }

  /** An element no earlier one is behind goes last. */
  lemma {:induction false} InsertAtEnd(x: Span, t: seq<Span>, longestFirst: bool)
    requires forall k :: 0 <= k < |t| ==> !Before(x, t[k], longestFirst)
    ensures Insert(x, t, longestFirst) == t + [x]
    decreases |t|
  {
    if t != [] {
      InsertAtEnd(x, t[1..], longestFirst);
      assert t == [t[0]] + t[1..];
    }
  }

  /** A sorted input is left as it is. */
  lemma {:induction false} SortSpansOfSorted(s: seq<Span>, longestFirst: bool)
    requires Sorted(s, longestFirst)
    ensures SortSpans(s, longestFirst) == s
    decreases |s|
  {
    if s != [] {
      var init := s[..|s| - 1];
      assert Sorted(init, longestFirst);
      SortSpansOfSorted(init, longestFirst);
      InsertAtEnd(s[|s| - 1], init, longestFirst);
      assert init + [s[|s| - 1]] == s;
    }
  }

  /** Membership is kept by the sort. */
  lemma SortSpansMembers(s: seq<Span>, longestFirst: bool)
    ensures forall p :: p in SortSpans(s, longestFirst) <==> p in s
  {
    SortSpansPermutes(s, longestFirst);
    forall p ensures p in SortSpans(s, longestFirst) <==> p in s {
      assert p in SortSpans(s, longestFirst) <==> p in multiset(SortSpans(s, longestFirst));
      assert p in s <==> p in multiset(s);
    }
  }

  /** Spans in `[lo, hi]`, each non-empty, each starting at or after the end of the
      one before it. */
  predicate ChainFrom(sel: seq<Span>, lo: int, hi: int)
  {
    sel == [] ||
    (lo <= sel[0].start < sel[0].end <= hi && ChainFrom(sel[1..], sel[0].end, hi))
  }

  lemma {:induction false} ChainStarts(sel: seq<Span>, lo: int, hi: int)
    requires ChainFrom(sel, lo, hi)
    ensures forall i :: 0 <= i < |sel| ==> lo <= sel[i].start < sel[i].end <= hi
    decreases |sel|
  {
    if sel != [] {
      ChainStarts(sel[1..], sel[0].end, hi);
      assert forall i :: 0 < i < |sel| ==> sel[i] == sel[1..][i - 1];
    }
  }

  /** Coverage by a chain: before its first span nothing, inside the first span
      everything, after it what the rest covers. */
  lemma CoveredByChain(sel: seq<Span>, lo: int, hi: int, x: int)
    requires sel != [] && ChainFrom(sel, lo, hi)
    ensures x < sel[0].start ==> !Covered(sel, x)
    ensures sel[0].start <= x < sel[0].end ==> Covered(sel, x)
    ensures x >= sel[0].end ==> (Covered(sel, x) <==> Covered(sel[1..], x))
  {
    var rest := sel[1..];
    ChainStarts(rest, sel[0].end, hi);
    if Covered(sel, x) {
      var i :| 0 <= i < |sel| && Holds(sel[i], x);
      if i > 0 { assert sel[i] == rest[i - 1]; }
    }
    if Covered(rest, x) {
      var i :| 0 <= i < |rest| && Holds(rest[i], x);
      assert sel[i + 1] == rest[i];
    }
    if sel[0].start <= x < sel[0].end {
      assert Holds(sel[0], x);
    }
  }

  /** Ordered disjoint spans: each ends no later than any later one starts. */
  lemma {:induction false} ChainOrdered(sel: seq<Span>, lo: int, hi: int)
    requires ChainFrom(sel, lo, hi)
    ensures forall i, j :: 0 <= i < j < |sel| ==> sel[i].end <= sel[j].start
    decreases |sel|
  {
    if sel != [] {
      ChainOrdered(sel[1..], sel[0].end, hi);
      ChainStarts(sel[1..], sel[0].end, hi);
      assert forall i :: 0 < i < |sel| ==> sel[i] == sel[1..][i - 1];
    }
  }

}

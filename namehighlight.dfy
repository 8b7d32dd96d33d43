/** `highlightAllNamePartsInText` (js/plotHighlighter.js): marks every name variant
    in a text segment with a `highlighted-character` span and escapes the rest. */
module NameHighlight {
  import opened Strings
  import opened Markup
  import opened Utils
  import opened Intervals

  /** Name variants usable as search patterns: none is empty. */
  predicate ValidVariants(vs: seq<string>) {
    forall k :: 0 <= k < |vs| ==> |vs[k]| > 0
  }

  // ---------------------------------------------------------------------------
  // Collecting the matches of every variant

  /** The spans of length `n` starting at the positions `ps`. */
  function SpansOf(ps: seq<nat>, n: nat): (r: seq<Span>)
    ensures |r| == |ps|
  {
    if ps == [] then [] else [Span(ps[0], ps[0] + n)] + SpansOf(ps[1..], n)
  }

  lemma {:induction false} SpansOfAt(ps: seq<nat>, n: nat)
    ensures forall k :: 0 <= k < |ps| ==> SpansOf(ps, n)[k] == Span(ps[k], ps[k] + n)
    decreases |ps|
  {
    if ps != [] {
      SpansOfAt(ps[1..], n);
    }
  }

  /** The matches one global, case-insensitive regular expression for `v` reports. */
  function VariantMatches(seg: string, v: string): seq<Span>
    requires |v| > 0
  {
    SpansOf(Occurrences(seg, v, 0), |v|)
  }

  /** The matches of all variants, variant by variant in order. */
  function AllMatches(seg: string, vs: seq<string>): seq<Span>
    requires ValidVariants(vs)
  {
    if vs == [] then []
    else AllMatches(seg, vs[..|vs| - 1]) + VariantMatches(seg, vs[|vs| - 1])
  }

  /** One `while ((match = regex.exec(rawTextSegment)) !== null)` loop. */
  method ScanVariant(seg: string, v: string) returns (found: seq<Span>)
    requires |v| > 0
    ensures found == VariantMatches(seg, v)
  {
    found := [];
    var i := 0;
    ghost var target := VariantMatches(seg, v);
    while i + |v| <= |seg|
      invariant 0 <= i <= |seg|
      invariant found + SpansOf(Occurrences(seg, v, i), |v|) == target
      decreases |seg| - i
    {
      ScanAdvance(seg, v, i, found, target);
      if MatchesAt(seg, v, i) {
        found, i := found + [Span(i, i + |v|)], i + |v|;
      } else {
        i := i + 1;
      }
    }
    assert Occurrences(seg, v, i) == [];
  }

  /** One turn of the `exec` loop keeps what is found ahead of what is left. */
  lemma ScanAdvance(seg: string, v: string, i: nat, found: seq<Span>, target: seq<Span>)
    requires |v| > 0 && i + |v| <= |seg|
    requires found + SpansOf(Occurrences(seg, v, i), |v|) == target
    ensures MatchesAt(seg, v, i) ==>
      (found + [Span(i, i + |v|)]) + SpansOf(Occurrences(seg, v, i + |v|), |v|) == target
    ensures !MatchesAt(seg, v, i) ==> found + SpansOf(Occurrences(seg, v, i + 1), |v|) == target
  {
    ScanStep(seg, v, i);
    SeqAssoc(found, [Span(i, i + |v|)], SpansOf(Occurrences(seg, v, i + |v|), |v|));
  }

  lemma ScanStep(seg: string, v: string, i: nat)
    requires |v| > 0 && i + |v| <= |seg|
    ensures MatchesAt(seg, v, i) ==>
      SpansOf(Occurrences(seg, v, i), |v|) ==
        [Span(i, i + |v|)] + SpansOf(Occurrences(seg, v, i + |v|), |v|)
    ensures !MatchesAt(seg, v, i) ==> Occurrences(seg, v, i) == Occurrences(seg, v, i + 1)
  {
    if MatchesAt(seg, v, i) {
      var rest := Occurrences(seg, v, i + |v|);
      assert Occurrences(seg, v, i) == [i] + rest;
      assert ([i] + rest)[1..] == rest;
    }
  }

  /** The `forEach` over the regular expressions. */
  method FindNameMatches(seg: string, vs: seq<string>) returns (matches: seq<Span>)
    requires ValidVariants(vs)
    ensures matches == AllMatches(seg, vs)
  {
    matches := [];
    var vi := 0;
    while vi < |vs|
      invariant 0 <= vi <= |vs|
      invariant matches == AllMatches(seg, vs[..vi])
    {
      var found := ScanVariant(seg, vs[vi]);
      assert vs[..vi + 1][..vi] == vs[..vi];
      matches := matches + found;
      vi := vi + 1;
    }
    assert vs[..|vs|] == vs;
  }

  /** A span reported for `v` is a case-insensitive occurrence of `v`. */
  predicate IsMatchOf(seg: string, v: string, m: Span) {
    0 <= m.start && m.end == m.start + |v| && MatchesAt(seg, v, m.start)
  }

  /** Every collected match is a case-insensitive occurrence of some variant. */
  lemma {:induction false} AllMatchesSound(seg: string, vs: seq<string>)
    requires ValidVariants(vs)
    ensures forall m :: m in AllMatches(seg, vs) ==> exists v :: v in vs && IsMatchOf(seg, v, m)
    decreases |vs|
  {
    if vs != [] {
      var init := vs[..|vs| - 1];
      var v := vs[|vs| - 1];
      AllMatchesSound(seg, init);
      VariantMatchesSound(seg, v);
      assert forall w :: w in init ==> w in vs;
    }
  }

  /** No occurrence is missed: every occurrence of a variant overlaps a collected
      match of that variant that starts no later. */
  lemma {:induction false} AllMatchesComplete(seg: string, vs: seq<string>)
    requires ValidVariants(vs)
    ensures forall v, q: nat :: v in vs && MatchesAt(seg, v, q) ==>
      exists m :: m in AllMatches(seg, vs) && IsMatchOf(seg, v, m) && m.start <= q < m.end
    decreases |vs|
  {
    if vs != [] {
      var init := vs[..|vs| - 1];
      var v := vs[|vs| - 1];
      AllMatchesComplete(seg, init);
      VariantMatchesComplete(seg, v);
      assert vs == init + [v];
    }
  }

  lemma VariantMatchesSound(seg: string, v: string)
    requires |v| > 0
    ensures forall m :: m in VariantMatches(seg, v) ==> IsMatchOf(seg, v, m)
  {
    var occ := Occurrences(seg, v, 0);
    var ms := VariantMatches(seg, v);
    OccurrencesSound(seg, v, 0);
    SpansOfAt(occ, |v|);
    forall m | m in ms ensures IsMatchOf(seg, v, m) {
      var k :| 0 <= k < |ms| && ms[k] == m;
      assert m == Span(occ[k], occ[k] + |v|);
    }
  }

  lemma VariantMatchesComplete(seg: string, v: string)
    requires |v| > 0
    ensures forall q: nat :: MatchesAt(seg, v, q) ==>
      exists m :: m in VariantMatches(seg, v) && IsMatchOf(seg, v, m) && m.start <= q < m.end
  {
    forall q: nat | MatchesAt(seg, v, q)
      ensures exists m :: m in VariantMatches(seg, v) && IsMatchOf(seg, v, m) && m.start <= q < m.end
    {
      VariantMatchCovers(seg, v, q);
    }
  }

  /** One occurrence, and the reported match that covers it. */
  lemma VariantMatchCovers(seg: string, v: string, q: nat)
    requires |v| > 0 && MatchesAt(seg, v, q)
    ensures exists m :: m in VariantMatches(seg, v) && IsMatchOf(seg, v, m) && m.start <= q < m.end
  {
    OccurrencesComplete(seg, v, 0, q);
    var p :| p in Occurrences(seg, v, 0) && p <= q < p + |v|;
    var k :| 0 <= k < |Occurrences(seg, v, 0)| && Occurrences(seg, v, 0)[k] == p;
    OccurrencesSound(seg, v, 0);
    SpansOfAt(Occurrences(seg, v, 0), |v|);
    assert VariantMatches(seg, v)[k] == Span(p, p + |v|);
    assert VariantMatches(seg, v)[k] in VariantMatches(seg, v);
  }

  // ---------------------------------------------------------------------------
  // Keeping the non-overlapping matches

  /** The `for (const match of matches)` loop with `lastMatchEnd`: a match is kept
      when it starts at or after the end of the last kept one. */
  function Select(ms: seq<Span>, lastEnd: int): seq<Span>
  {
    if ms == [] then []
    else if ms[0].start >= lastEnd then [ms[0]] + Select(ms[1..], ms[0].end)
    else Select(ms[1..], lastEnd)
  }

  method SelectNonOverlapping(ms: seq<Span>) returns (kept: seq<Span>)
    ensures kept == Select(ms, -1)
  {
    kept := [];
    var lastMatchEnd := -1;
    var i := 0;
    while i < |ms|
      invariant 0 <= i <= |ms|
      invariant kept + Select(ms[i..], lastMatchEnd) == Select(ms, -1)
    {
      assert ms[i..][1..] == ms[i + 1..];
      var m := ms[i];
      if m.start >= lastMatchEnd {
        kept := kept + [m];
        lastMatchEnd := m.end;
      }
      i := i + 1;
    }
  }

  /** Matches inside the segment and not empty. */
  predicate WithinSegment(ms: seq<Span>, n: int) {
    forall k :: 0 <= k < |ms| ==> 0 <= ms[k].start < ms[k].end <= n
  }

  /** The kept matches form a chain: sorted by start and pairwise disjoint. */
  lemma {:induction false} SelectChain(ms: seq<Span>, lastEnd: int, lo: int, n: int)
    requires WithinSegment(ms, n)
    requires lo <= lastEnd || lo <= 0
    ensures ChainFrom(Select(ms, lastEnd), lo, n)
    decreases |ms|
  {
    if ms != [] {
      assert WithinSegment(ms[1..], n);
      if ms[0].start >= lastEnd {
        SelectChain(ms[1..], ms[0].end, ms[0].end, n);
        assert Select(ms, lastEnd) == [ms[0]] + Select(ms[1..], ms[0].end);
        assert 0 <= ms[0].start < ms[0].end <= n;
      } else {
        SelectChain(ms[1..], lastEnd, lo, n);
      }
    }
  }

  lemma {:induction false} SelectSubset(ms: seq<Span>, lastEnd: int)
    requires forall k :: 0 <= k < |ms| ==> ms[k].start <= ms[k].end
    ensures forall a :: a in Select(ms, lastEnd) ==> a in ms && a.start >= lastEnd
    decreases |ms|
  {
    if ms != [] {
      assert forall k :: 0 <= k < |ms[1..]| ==> ms[1..][k] == ms[k + 1];
      if ms[0].start >= lastEnd {
        SelectSubset(ms[1..], ms[0].end);
        assert forall a :: a in Select(ms[1..], ms[0].end) ==> a.start >= ms[0].end;
      } else {
        SelectSubset(ms[1..], lastEnd);
      }
    }
  }

  /** A match that is not kept starts before `lastEnd` or inside a kept match that
      starts no later than it. */
  lemma {:induction false} SelectCovers(ms: seq<Span>, lastEnd: int)
    requires Sorted(ms, true)
    ensures forall m :: m in ms ==>
      (m in Select(ms, lastEnd) || m.start < lastEnd ||
       exists a :: a in Select(ms, lastEnd) && a.start <= m.start < a.end)
    decreases |ms|
  {
    if ms != [] {
      var rest := ms[1..];
      assert Sorted(rest, true);
      assert forall m :: m in ms ==> m == ms[0] || m in rest;
      if ms[0].start >= lastEnd {
        SelectCovers(rest, ms[0].end);
        var sel := Select(ms, lastEnd);
        assert sel == [ms[0]] + Select(rest, ms[0].end);
        forall m | m in rest ensures ms[0].start <= m.start {
          var k :| 0 <= k < |rest| && rest[k] == m;
          assert ms[k + 1] == m;
        }
      } else {
        SelectCovers(rest, lastEnd);
      }
    }
  }

  /** At equal starts the longer match is kept. */
  lemma {:induction false} SelectLongest(ms: seq<Span>, lastEnd: int)
    requires Sorted(ms, true)
    requires forall k :: 0 <= k < |ms| ==> ms[k].start < ms[k].end
    ensures forall a, m :: a in Select(ms, lastEnd) && m in ms && m.start == a.start ==>
      m.end - m.start <= a.end - a.start
    decreases |ms|
  {
    if ms != [] {
      SortedHead(ms);
      assert 0 <= 0 < |ms|;
      if ms[0].start >= lastEnd {
        SelectLongest(ms[1..], ms[0].end);
        SelectSubset(ms[1..], ms[0].end);
        forall a, m | a in Select(ms, lastEnd) && m in ms && m.start == a.start
          ensures m.end - m.start <= a.end - a.start
        {
          if a != ms[0] {
            assert a in Select(ms[1..], ms[0].end);
          }
        }
      } else {
        SelectLongest(ms[1..], lastEnd);
        SelectSubset(ms[1..], lastEnd);
      }
    }
  }

  /** The rest of a sorted sequence is sorted, and nothing in it goes ahead of
      its first element. */
  lemma SortedHead(ms: seq<Span>)
    requires ms != [] && Sorted(ms, true)
    ensures Sorted(ms[1..], true)
    ensures forall m :: m in ms <==> m == ms[0] || m in ms[1..]
    ensures forall m :: m in ms[1..] ==> !Before(m, ms[0], true)
  {
    assert ms == [ms[0]] + ms[1..];
    forall m | m in ms[1..] ensures !Before(m, ms[0], true) {
      var k :| 0 <= k < |ms[1..]| && ms[1..][k] == m;
      assert ms[k + 1] == m;
    }
  }

  // ---------------------------------------------------------------------------
  // Emitting the markup

  /** The escaped, unhighlighted text between `cur` and the next match. */
  function Gap(seg: string, cur: int, start: int): string {
    if start > cur then HtmlEscape(Substring(seg, cur, start)) else ""
  }

  /** A kept match: its escaped text in a `highlighted-character` span. */
  function Piece(seg: string, m: Span): string {
    CharSpanOpen + HtmlEscape(Substring(seg, m.start, m.end)) + SpanClose
  }

  /** The escaped text after the last match. */
  function Tail(seg: string, cur: int): string {
    if cur < |seg| then HtmlEscape(Substring(seg, cur, |seg|)) else ""
  }

  /** The `forEach` over the kept matches from `currentIndex = cur` on, followed by
      the escaped rest of the segment. */
  function EmitFrom(seg: string, sel: seq<Span>, cur: int): string
    decreases |sel|
  {
    if sel == [] then Tail(seg, cur)
    else Gap(seg, cur, sel[0].start) + Piece(seg, sel[0]) + EmitFrom(seg, sel[1..], sel[0].end)
  }

  method EmitHighlighted(seg: string, sel: seq<Span>) returns (html: string)
    ensures html == EmitFrom(seg, sel, 0)
  {
    html := "";
    var cur := 0;
    var i := 0;
    while i < |sel|
      invariant 0 <= i <= |sel|
      invariant html + EmitFrom(seg, sel[i..], cur) == EmitFrom(seg, sel, 0)
    {
      var m := sel[i];
      EmitStep(seg, sel, i, cur);
      var gap := "";
      if m.start > cur {
        gap := HtmlEscape(Substring(seg, cur, m.start));
      }
      var piece := CharSpanOpen + HtmlEscape(Substring(seg, m.start, m.end)) + SpanClose;
      ConcatAssoc(html, gap, piece, EmitFrom(seg, sel[i + 1..], m.end));
      html := html + gap + piece;
      cur := m.end;
      i := i + 1;
    }
    assert sel[|sel|..] == [];
    assert html + Tail(seg, cur) == EmitFrom(seg, sel, 0);
    if cur < |seg| {
      html := html + HtmlEscape(Substring(seg, cur, |seg|));
    }
  }

  lemma EmitStep(seg: string, sel: seq<Span>, i: nat, cur: int)
    requires i < |sel|
    ensures EmitFrom(seg, sel[i..], cur) ==
      Gap(seg, cur, sel[i].start) + Piece(seg, sel[i]) + EmitFrom(seg, sel[i + 1..], sel[i].end)
  {
    assert sel[i..][1..] == sel[i + 1..];
  }

  /** Whether a kept match covers index `x`: the span stack of a shown character. */
  function MarkSpans(sel: seq<Span>, open: seq<string>, x: int): seq<string> {
    open + (if Covered(sel, x) then [CharSpanOpen] else [])
  }

  /** What a segment shows from index `lo` on: its own characters, inside the
      elements `open` and, where a kept match covers them, inside a
      `highlighted-character` span as well. */
  function Shade(seg: string, sel: seq<Span>, open: seq<string>, lo: int): (r: seq<Styled>)
    requires 0 <= lo <= |seg|
    ensures |r| == |seg| - lo
  {
    seq(|seg| - lo, k requires 0 <= k < |seg| - lo => Styled(seg[lo + k], MarkSpans(sel, open, lo + k)))
  }

  /** With no kept match, nothing is highlighted. */
  lemma ShadeNone(seg: string, open: seq<string>, cur: int)
    requires 0 <= cur <= |seg|
    ensures Shade(seg, [], open, cur) == Plain(seg[cur..], open)
  {
    forall k | 0 <= k < |seg| - cur ensures Shade(seg, [], open, cur)[k] == Plain(seg[cur..], open)[k] {
      assert !Covered([], cur + k);
      assert MarkSpans([], open, cur + k) == open;
      assert seg[cur..][k] == seg[cur + k];
    }
  }

  /** Splitting the shading at the first kept match. */
  lemma ShadeSplit(seg: string, sel: seq<Span>, open: seq<string>, cur: int)
    requires 0 <= cur <= |seg| && sel != [] && ChainFrom(sel, cur, |seg|)
    ensures
      Shade(seg, sel, open, cur) ==
        Plain(seg[cur..sel[0].start], open) +
        Plain(seg[sel[0].start..sel[0].end], open + [CharSpanOpen]) +
        Shade(seg, sel[1..], open, sel[0].end)
  {
    var m := sel[0];
    var lhs := Shade(seg, sel, open, cur);
    var rhs := Plain(seg[cur..m.start], open) + Plain(seg[m.start..m.end], open + [CharSpanOpen]) +
      Shade(seg, sel[1..], open, m.end);
    ChainStarts(sel, cur, |seg|);
    forall k | 0 <= k < |lhs| ensures lhs[k] == rhs[k] {
      ShadeSplitAt(seg, sel, open, cur, k);
    }
  }

  /** The same at one index. */
  lemma ShadeSplitAt(seg: string, sel: seq<Span>, open: seq<string>, cur: int, k: int)
    requires 0 <= cur <= |seg| && sel != [] && ChainFrom(sel, cur, |seg|)
    requires 0 <= k < |seg| - cur
    ensures cur <= sel[0].start <= sel[0].end <= |seg|
    ensures Shade(seg, sel, open, cur)[k] ==
      (Plain(seg[cur..sel[0].start], open) +
       Plain(seg[sel[0].start..sel[0].end], open + [CharSpanOpen]) +
       Shade(seg, sel[1..], open, sel[0].end))[k]
  {
    var m := sel[0];
    ChainStarts(sel, cur, |seg|);
    var a := Plain(seg[cur..m.start], open);
    var b := Plain(seg[m.start..m.end], open + [CharSpanOpen]);
    var c := Shade(seg, sel[1..], open, m.end);
    CoveredByChain(sel, cur, |seg|, cur + k);
    IndexThree(a, b, c, k);
    if cur + k < m.start {
      assert MarkSpans(sel, open, cur + k) == open;
      ShadePlain(seg, sel, open, open, cur, cur, m.start, k);
    } else if cur + k < m.end {
      assert MarkSpans(sel, open, cur + k) == open + [CharSpanOpen];
      ShadePlain(seg, sel, open, open + [CharSpanOpen], cur, m.start, m.end, k);
    } else {
      ShadeRest(seg, sel, open, cur, k);
    }
  }

  /** Where the kept matches put the same elements, the shading is plain text. */
  lemma ShadePlain(seg: string, sel: seq<Span>, open: seq<string>, o: seq<string>, cur: int, lo: int, hi: int, k: int)
    requires 0 <= cur <= lo <= cur + k < hi <= |seg|
    requires MarkSpans(sel, open, cur + k) == o
    ensures Shade(seg, sel, open, cur)[k] == Plain(seg[lo..hi], o)[cur + k - lo]
  {
  }

  /** After the first kept match, the shading is that of the others. */
  lemma ShadeRest(seg: string, sel: seq<Span>, open: seq<string>, cur: int, k: int)
    requires sel != [] && 0 <= cur <= sel[0].end <= cur + k < |seg|
    requires Covered(sel, cur + k) <==> Covered(sel[1..], cur + k)
    ensures Shade(seg, sel, open, cur)[k] == Shade(seg, sel[1..], open, sel[0].end)[cur + k - sel[0].end]
  {
    assert MarkSpans(sel, open, cur + k) == MarkSpans(sel[1..], open, cur + k);
  }

  lemma GapShows(seg: string, cur: int, start: int, open: seq<string>)
    requires 0 <= cur <= start <= |seg|
    ensures WellFormed(Gap(seg, cur, start), InlineTags)
    ensures OpenAfter(Gap(seg, cur, start), open) == open
    ensures Render(Gap(seg, cur, start), open) == Plain(seg[cur..start], open)
  {
    HtmlEscapeShows(seg[cur..start], open);
    WellFormedMono(HtmlEscape(seg[cur..start]), {}, InlineTags);
  }

  lemma PieceShows(seg: string, m: Span, open: seq<string>)
    requires 0 <= m.start <= m.end <= |seg|
    ensures WellFormed(Piece(seg, m), InlineTags)
    ensures OpenAfter(Piece(seg, m), open) == open
    ensures Render(Piece(seg, m), open) == Plain(seg[m.start..m.end], open + [CharSpanOpen])
  {
    var t := seg[m.start..m.end];
    assert Substring(seg, m.start, m.end) == t;
    HtmlEscapeShows(t, open + [CharSpanOpen]);
    PlotTagsAreTags();
    Wrap(CharSpanOpen, HtmlEscape(t), {}, open);
    assert {} + {CharSpanOpen, SpanClose} == InlineTags;
  }

  lemma TailShows(seg: string, cur: int, open: seq<string>)
    requires 0 <= cur <= |seg|
    ensures WellFormed(Tail(seg, cur), InlineTags)
    ensures OpenAfter(Tail(seg, cur), open) == open
    ensures Render(Tail(seg, cur), open) == Plain(seg[cur..], open)
  {
    assert Substring(seg, cur, |seg|) == seg[cur..];
    HtmlEscapeShows(seg[cur..], open);
    WellFormedMono(HtmlEscape(seg[cur..]), {}, InlineTags);
  }

  /** Reading three well-formed pieces in a row, none of which leaves an element
      open. */
  lemma RenderThree(a: string, b: string, c: string, open: seq<string>)
    requires WellFormed(a, InlineTags) && WellFormed(b, InlineTags) && WellFormed(c, InlineTags)
    requires OpenAfter(a, open) == open && OpenAfter(b, open) == open && OpenAfter(c, open) == open
    ensures WellFormed(a + b + c, InlineTags)
    ensures OpenAfter(a + b + c, open) == open
    ensures Render(a + b + c, open) == Render(a, open) + Render(b, open) + Render(c, open)
  {
    PlotTagsAreTags();
    RenderJoin(a, b, c, InlineTags, open);
  }

  lemma RenderJoin(a: string, b: string, c: string, tags: set<string>, open: seq<string>)
    requires AllTags(tags) && WellFormed(a, tags) && WellFormed(b, tags) && WellFormed(c, tags)
    requires OpenAfter(a, open) == open && OpenAfter(b, open) == open && OpenAfter(c, open) == open
    ensures WellFormed(a + b + c, tags)
    ensures OpenAfter(a + b + c, open) == open
    ensures Render(a + b + c, open) == Render(a, open) + Render(b, open) + Render(c, open)
  {
    SeqAssoc(a, b, c);
    RenderAppend(b, c, tags, open);
    WellFormedAppend(b, c, tags);
    RenderAppend(a, b + c, tags, open);
    WellFormedAppend(a, b + c, tags);
    SeqAssoc(Render(a, open), Render(b, open), Render(c, open));
  }

  /** The emitted markup is safe, closes what it opens, and shows the segment
      with exactly the kept matches highlighted. */
  lemma {:induction false} EmitShows(seg: string, sel: seq<Span>, cur: int, open: seq<string>)
    requires 0 <= cur <= |seg| && ChainFrom(sel, cur, |seg|)
    ensures WellFormed(EmitFrom(seg, sel, cur), InlineTags)
    ensures OpenAfter(EmitFrom(seg, sel, cur), open) == open
    ensures Render(EmitFrom(seg, sel, cur), open) == Shade(seg, sel, open, cur)
    decreases |sel|
  {
    if sel == [] {
      TailShows(seg, cur, open);
      ShadeNone(seg, open, cur);
    } else {
      EmitShows(seg, sel[1..], sel[0].end, open);
      GapShows(seg, cur, sel[0].start, open);
      PieceShows(seg, sel[0], open);
      RenderThree(Gap(seg, cur, sel[0].start), Piece(seg, sel[0]), EmitFrom(seg, sel[1..], sel[0].end), open);
      ShadeSplit(seg, sel, open, cur);
    }
  }

  // ---------------------------------------------------------------------------
  // The whole sub-highlighter

  /** The matches that end up highlighted. */
  function Selected(seg: string, vs: seq<string>): seq<Span>
    requires ValidVariants(vs)
  {
    if seg == [] || vs == [] then [] else Select(SortSpans(AllMatches(seg, vs), true), -1)
  }

  /** `highlightAllNamePartsInText(seg, regexes)` for the regular expressions of
      the variants `vs`. */
  function HighlightNames(seg: string, vs: seq<string>): string
    requires ValidVariants(vs)
  {
    if seg == [] || vs == [] then HtmlEscape(seg)
    else
      var ms := AllMatches(seg, vs);
      if ms == [] then HtmlEscape(seg) else EmitFrom(seg, Select(SortSpans(ms, true), -1), 0)
  }

  /** The collected matches, sorted, lie inside the segment and are not empty. */
  lemma SortedMatchesWithin(seg: string, vs: seq<string>)
    requires ValidVariants(vs)
    ensures WithinSegment(SortSpans(AllMatches(seg, vs), true), |seg|)
    ensures Sorted(SortSpans(AllMatches(seg, vs), true), true)
  {
    var ms := AllMatches(seg, vs);
    var sorted := SortSpans(ms, true);
    AllMatchesSound(seg, vs);
    SortSpansMembers(ms, true);
    SortSpansSorted(ms, true);
    forall k | 0 <= k < |sorted| ensures 0 <= sorted[k].start < sorted[k].end <= |seg| {
      assert sorted[k] in ms;
      var v :| v in vs && IsMatchOf(seg, v, sorted[k]);
    }
  }

  lemma SelectedChain(seg: string, vs: seq<string>)
    requires ValidVariants(vs)
    ensures ChainFrom(Selected(seg, vs), 0, |seg|)
  {
    if seg != [] && vs != [] {
      SortedMatchesWithin(seg, vs);
      SelectChain(SortSpans(AllMatches(seg, vs), true), -1, 0, |seg|);
    }
  }

  /** The sub-highlighter's markup is safe (only `highlighted-character` spans as
      tags), closes every span it opens, and shows the segment itself with exactly
      the selected matches inside a `highlighted-character` span. */
  lemma HighlightShows(seg: string, vs: seq<string>, open: seq<string>)
    requires ValidVariants(vs)
    ensures WellFormed(HighlightNames(seg, vs), InlineTags)
    ensures OpenAfter(HighlightNames(seg, vs), open) == open
    ensures Render(HighlightNames(seg, vs), open) == Shade(seg, Selected(seg, vs), open, 0)
  {
    if seg == [] || vs == [] || AllMatches(seg, vs) == [] {
      assert HighlightNames(seg, vs) == EmitFrom(seg, [], 0) by {
        assert seg[0..|seg|] == seg;
      }
      EmitShows(seg, [], 0, open);
      if seg != [] && vs != [] {
        assert Selected(seg, vs) == [] by {
          assert SortSpans([], true) == [];
        }
      }
    } else {
      SelectedChain(seg, vs);
      EmitShows(seg, Selected(seg, vs), 0, open);
    }
  }

  /** Decoding the markup gives the segment back. */
  lemma HighlightText(seg: string, vs: seq<string>)
    requires ValidVariants(vs)
    ensures Text(HighlightNames(seg, vs)) == seg
  {
    HighlightShows(seg, vs, []);
    var r := Render(HighlightNames(seg, vs), []);
    assert forall k :: 0 <= k < |r| ==> r[k].ch == seg[k];
  }

  /** The highlighted matches: each is a case-insensitive occurrence of a variant;
      they are sorted by start and pairwise disjoint; every collected match is
      highlighted or starts inside a highlighted one; and where matches start
      together, the longest one is highlighted. */
  lemma SelectedFacts(seg: string, vs: seq<string>)
    requires ValidVariants(vs)
    ensures var sel := Selected(seg, vs);
      (forall a :: a in sel ==> exists v :: v in vs && IsMatchOf(seg, v, a)) &&
      (forall i, j :: 0 <= i < j < |sel| ==> sel[i].end <= sel[j].start) &&
      (seg != [] ==> forall m :: m in AllMatches(seg, vs) ==>
        (m in sel || exists a :: a in sel && a.start <= m.start < a.end)) &&
      (seg != [] ==> forall a, m :: a in sel && m in AllMatches(seg, vs) && m.start == a.start ==>
        m.end - m.start <= a.end - a.start)
  {
    var sel := Selected(seg, vs);
    SelectedChain(seg, vs);
    ChainOrdered(sel, 0, |seg|);
    if seg != [] && vs != [] {
      var ms := AllMatches(seg, vs);
      var sorted := SortSpans(ms, true);
      AllMatchesSound(seg, vs);
      SortedMatchesWithin(seg, vs);
      SortSpansMembers(ms, true);
      SelectSubset(sorted, -1);
      SelectCovers(sorted, -1);
      SelectLongest(sorted, -1);
      forall m | m in ms ensures m.start >= 0 {
        assert m in sorted;
      }
    }
  }

  /** `highlightAllNamePartsInText`. */
  method HighlightAllNamePartsInText(seg: string, vs: seq<string>) returns (html: string)
    requires ValidVariants(vs)
    ensures html == HighlightNames(seg, vs)
    ensures WellFormed(html, InlineTags) && Text(html) == seg
    ensures Render(html, []) == Shade(seg, Selected(seg, vs), [], 0)
  {
    HighlightShows(seg, vs, []);
    HighlightText(seg, vs);
    if seg == [] || vs == [] {
      return HtmlEscape(seg);
    }
    var matches := FindNameMatches(seg, vs);
    if matches == [] {
      return HtmlEscape(seg);
    }
    var sorted := SortSpans(matches, true);
    var kept := SelectNonOverlapping(sorted);
    html := EmitHighlighted(seg, kept);
  }
}

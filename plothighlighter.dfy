/** `highlightCharacterInPlot` (js/plotHighlighter.js): the plot rendered line by
    line, every character inside a `sentence-highlight-match` span when it lies in
    a styled passage and inside a `sentence-faded` span otherwise, with the name
    variants highlighted within both. */
module PlotHighlighter {
  import opened Strings
  import opened Markup
  import opened Intervals
  import opened NameParts
  import opened NameHighlight
  import opened Passages

  // ---------------------------------------------------------------------------
  // The passages of one line

  /** `styledPassages.filter(...).map(...)` for the line of length `n` starting at
      offset `ls`: the passages that overlap the line, in line coordinates and cut
      to the line. */
  function ClipToLine(styled: seq<Span>, ls: int, n: int): seq<Span>
    decreases |styled|
  {
    if styled == [] then []
    else
      var p := styled[0];
      var rest := ClipToLine(styled[1..], ls, n);
      if p.end > ls && p.start < ls + n then [Span(Max(0, p.start - ls), Min(n, p.end - ls))] + rest
      else rest
  }

  /** `passagesInLine`, sorted by start. */
  function PassagesInLine(styled: seq<Span>, ls: int, n: int): seq<Span> {
    SortSpans(ClipToLine(styled, ls, n), false)
  }

  lemma ChainFromLower(s: seq<Span>, a: int, b: int, hi: int)
    requires ChainFrom(s, a, hi) && b <= a
    ensures ChainFrom(s, b, hi)
  {
  }

  /** Clipping a chain of passages to a line gives a chain within the line. */
  lemma {:induction false} ClipChain(styled: seq<Span>, lo: int, hi: int, ls: int, n: int)
    requires ChainFrom(styled, lo, hi) && n > 0
    ensures ChainFrom(ClipToLine(styled, ls, n), Max(0, lo - ls), n)
    decreases |styled|
  {
    if styled != [] {
      var p := styled[0];
      ClipChain(styled[1..], p.end, hi, ls, n);
      var rest := ClipToLine(styled[1..], ls, n);
      if p.end > ls && p.start < ls + n {
        ChainFromLower(rest, Max(0, p.end - ls), Min(n, p.end - ls), n);
      } else {
        ChainFromLower(rest, Max(0, p.end - ls), Max(0, lo - ls), n);
      }
    }
  }

  /** A chain is sorted by start. */
  lemma ChainIsSorted(s: seq<Span>, lo: int, hi: int)
    requires ChainFrom(s, lo, hi)
    ensures Sorted(s, false)
  {
    ChainStarts(s, lo, hi);
    ChainOrdered(s, lo, hi);
  }

  /** An index of the line lies in a clipped passage exactly when the plot index
      it stands for lies in a styled passage. */
  lemma {:induction false} ClipCovered(styled: seq<Span>, ls: int, n: int, x: int)
    requires 0 <= x < n
    ensures Covered(ClipToLine(styled, ls, n), x) <==> Covered(styled, ls + x)
    decreases |styled|
  {
    if styled != [] {
      var p := styled[0];
      ClipCovered(styled[1..], ls, n, x);
      assert styled == [p] + styled[1..];
      CoveredCons(p, styled[1..], ls + x);
      if p.end > ls && p.start < ls + n {
        CoveredCons(Span(Max(0, p.start - ls), Min(n, p.end - ls)), ClipToLine(styled[1..], ls, n), x);
      }
    }
  }

  /** The passages of a line, for a chain of styled passages: a chain within the
      line, each index covered exactly when its plot index is. */
  lemma PassagesInLineFacts(styled: seq<Span>, lo: int, hi: int, ls: int, n: int)
    requires ChainFrom(styled, lo, hi) && n > 0
    ensures ChainFrom(PassagesInLine(styled, ls, n), 0, n)
    ensures forall x :: 0 <= x < n ==>
      (Covered(PassagesInLine(styled, ls, n), x) <==> Covered(styled, ls + x))
  {
    var clipped := ClipToLine(styled, ls, n);
    ClipChain(styled, lo, hi, ls, n);
    ChainFromLower(clipped, Max(0, lo - ls), 0, n);
    ChainIsSorted(clipped, 0, n);
    SortSpansOfSorted(clipped, false);
    forall x | 0 <= x < n ensures Covered(clipped, x) <==> Covered(styled, ls + x) {
      ClipCovered(styled, ls, n, x);
    }
  }

  // ---------------------------------------------------------------------------
  // The markup of one line

  /** A `sentence-faded` or `sentence-highlight-match` span around the highlighted
      names of `seg`. */
  function Wrapped(cls: string, seg: string, parts: seq<string>): string
    requires ValidVariants(parts)
  {
    cls + HighlightNames(seg, parts) + SpanClose
  }

  /** The faded text between `cur` and the next passage. */
  function FadedGap(line: string, cur: int, start: int, parts: seq<string>): string
    requires ValidVariants(parts)
  {
    if start > cur then Wrapped(FadedSpanOpen, Substring(line, cur, start), parts) else ""
  }

  /** A passage of the line. */
  function MatchPiece(line: string, p: Span, parts: seq<string>): string
    requires ValidVariants(parts)
  {
    Wrapped(MatchSpanOpen, Substring(line, p.start, p.end), parts)
  }

  /** The faded text after the last passage. */
  function FadedTail(line: string, cur: int, parts: seq<string>): string
    requires ValidVariants(parts)
  {
    if cur < |line| then Wrapped(FadedSpanOpen, Substring(line, cur, |line|), parts) else ""
  }

  /** The `forEach` over the passages of the line from `currentLocalIndexInLine =
      cur` on, followed by the faded rest of the line. */
  function LinePieces(line: string, ps: seq<Span>, cur: int, parts: seq<string>): string
    requires ValidVariants(parts)
    decreases |ps|
  {
    if ps == [] then FadedTail(line, cur, parts)
    else FadedGap(line, cur, ps[0].start, parts) + MatchPiece(line, ps[0], parts) + LinePieces(line, ps[1..], ps[0].end, parts)
  }

  /** `lineHtml` for a line that is not blank. */
  function LineHtml(line: string, ps: seq<Span>, parts: seq<string>): string
    requires ValidVariants(parts)
  {
    if ps == [] then Wrapped(FadedSpanOpen, line, parts) else LinePieces(line, ps, 0, parts)
  }

  lemma PiecesStep(line: string, ps: seq<Span>, i: nat, cur: int, parts: seq<string>)
    requires ValidVariants(parts) && i < |ps|
    ensures LinePieces(line, ps[i..], cur, parts) ==
      FadedGap(line, cur, ps[i].start, parts) + MatchPiece(line, ps[i], parts) + LinePieces(line, ps[i + 1..], ps[i].end, parts)
  {
    assert ps[i..][1..] == ps[i + 1..];
  }

  /** ``<span class="...">${highlightAllNamePartsInText(seg, ...)}</span>``. */
  method RenderWrapped(cls: string, seg: string, parts: seq<string>) returns (html: string)
    requires ValidVariants(parts)
    ensures html == Wrapped(cls, seg, parts)
  {
    var inner := HighlightAllNamePartsInText(seg, parts);
    html := cls + inner + SpanClose;
  }

  /** The markup of one line that is not blank. */
  method RenderLine(line: string, ls: int, styled: seq<Span>, parts: seq<string>) returns (lineHtml: string)
    requires ValidVariants(parts)
    ensures lineHtml == LineHtml(line, PassagesInLine(styled, ls, |line|), parts)
  {
    var ps := PassagesInLine(styled, ls, |line|);
    if |ps| == 0 {
      lineHtml := RenderWrapped(FadedSpanOpen, line, parts);
    } else {
      lineHtml := RenderPieces(line, ps, parts);
    }
  }

  /** The `forEach` over the passages of a line, then the faded rest of it. */
  method RenderPieces(line: string, ps: seq<Span>, parts: seq<string>) returns (lineHtml: string)
    requires ValidVariants(parts)
    ensures lineHtml == LinePieces(line, ps, 0, parts)
  {
    lineHtml := "";
    var cur := 0;
    var i := 0;
    while i < |ps|
      invariant 0 <= i <= |ps|
      invariant lineHtml + LinePieces(line, ps[i..], cur, parts) == LinePieces(line, ps, 0, parts)
    {
      PiecesStep(line, ps, i, cur, parts);
      var step := RenderPassage(line, cur, ps[i], parts);
      SeqAssoc(lineHtml, step, LinePieces(line, ps[i + 1..], ps[i].end, parts));
      lineHtml := lineHtml + step;
      cur := ps[i].end;
      i := i + 1;
    }
    assert ps[|ps|..] == [];
    if cur < |line| {
      var tail := RenderWrapped(FadedSpanOpen, Substring(line, cur, |line|), parts);
      lineHtml := lineHtml + tail;
    }
  }

  /** One passage of the `forEach`: the faded text before it, when there is
      any, then the passage itself. */
  method RenderPassage(line: string, cur: int, p: Span, parts: seq<string>) returns (html: string)
    requires ValidVariants(parts)
    ensures html == FadedGap(line, cur, p.start, parts) + MatchPiece(line, p, parts)
  {
    var gap := "";
    if p.start > cur {
      gap := RenderWrapped(FadedSpanOpen, Substring(line, cur, p.start), parts);
    }
    var piece := RenderWrapped(MatchSpanOpen, Substring(line, p.start, p.end), parts);
    html := gap + piece;
  }

  // ---------------------------------------------------------------------------
  // What a line shows

  /** How a rendered character should look: the character `c`, with no element
      open when `cls` is `None`, and otherwise inside the element `cls` and,
      where a name part is highlighted, a `highlighted-character` span within
      it. */
  predicate ShownAs(s: Styled, c: char, cls: Option<string>) {
    s.ch == c &&
    match cls
    case None => s.spans == []
    case Some(t) => s.spans == [t] || s.spans == [t, CharSpanOpen]
  }

  /** `r` shows the text `t` character by character with the classes `cls`. */
  predicate ShowsIn(r: seq<Styled>, t: string, cls: seq<Option<string>>) {
    |r| == |t| == |cls| && forall k :: 0 <= k < |r| ==> ShownAs(r[k], t[k], cls[k])
  }

  /** Markup that is well formed, closes what it opens, and shows `t` with the
      classes `c`. */
  ghost predicate Shows(h: string, t: string, c: seq<Option<string>>) {
    WellFormed(h, PlotTags) && OpenAfter(h, []) == [] && ShowsIn(Render(h, []), t, c)
  }

  lemma ShowsAppend(r1: seq<Styled>, t1: string, c1: seq<Option<string>>,
                    r2: seq<Styled>, t2: string, c2: seq<Option<string>>)
    requires ShowsIn(r1, t1, c1) && ShowsIn(r2, t2, c2)
    ensures ShowsIn(r1 + r2, t1 + t2, c1 + c2)
  {
    forall k | 0 <= k < |r1 + r2| ensures ShownAs((r1 + r2)[k], (t1 + t2)[k], (c1 + c2)[k]) {
      if k >= |r1| {
        assert (r1 + r2)[k] == r2[k - |r1|];
        assert (t1 + t2)[k] == t2[k - |r1|];
        assert (c1 + c2)[k] == c2[k - |r1|];
      }
    }
  }

  /** The class of the passage span around index `x` of a line. */
  function ClassAt(ps: seq<Span>, x: int): string {
    if Covered(ps, x) then MatchSpanOpen else FadedSpanOpen
  }

  /** The classes of the indices `lo` to `hi` (exclusive). */
  function Classes(ps: seq<Span>, lo: int, hi: int): (c: seq<Option<string>>)
    requires lo <= hi
    ensures |c| == hi - lo
  {
    seq(hi - lo, k requires 0 <= k < hi - lo => Some(ClassAt(ps, lo + k)))
  }

  /** `n` characters of one class. */
  function Uniform(n: nat, cls: string): (c: seq<Option<string>>)
    ensures |c| == n
  {
    seq(n, k requires 0 <= k < n => Some(cls))
  }

  /** A chain's classes: faded before its first passage, matched inside it, and
      after it the classes of the rest. */
  lemma ClassSplit(ps: seq<Span>, cur: int, n: int)
    requires ps != [] && ChainFrom(ps, cur, n)
    ensures Classes(ps, cur, n) ==
      Uniform(ps[0].start - cur, FadedSpanOpen) +
      (Uniform(ps[0].end - ps[0].start, MatchSpanOpen) + Classes(ps[1..], ps[0].end, n))
  {
    var p := ps[0];
    var lhs := Classes(ps, cur, n);
    var a := Uniform(p.start - cur, FadedSpanOpen);
    var b := Uniform(p.end - p.start, MatchSpanOpen);
    var c := Classes(ps[1..], p.end, n);
    ChainStarts(ps, cur, n);
    assert a + b + c == a + (b + c);
    forall k | 0 <= k < |lhs| ensures lhs[k] == (a + b + c)[k] {
      var x := cur + k;
      CoveredByChain(ps, cur, n, x);
      assert lhs[k] == Some(ClassAt(ps, x));
      if x < p.start {
        assert (a + b + c)[k] == a[k] == Some(FadedSpanOpen);
      } else if x < p.end {
        assert (a + b + c)[k] == b[x - p.start] == Some(MatchSpanOpen);
      } else {
        assert (a + b + c)[k] == c[x - p.end] == Some(ClassAt(ps[1..], x));
      }
    }
  }

  /** With no passages, every character is faded. */
  lemma NoClasses(lo: int, hi: int)
    requires lo <= hi
    ensures Classes([], lo, hi) == Uniform(hi - lo, FadedSpanOpen)
  {
    var c := Classes([], lo, hi);
    forall k | 0 <= k < |c| ensures c[k] == Some(FadedSpanOpen) {
      assert !Covered([], lo + k);
      assert c[k] == Some(ClassAt([], lo + k));
    }
  }

  /** A wrapped segment shows the segment, every character inside the wrapping
      class. */
  lemma WrappedShows(cls: string, seg: string, parts: seq<string>)
    requires ValidVariants(parts) && (cls == FadedSpanOpen || cls == MatchSpanOpen)
    ensures WellFormed(Wrapped(cls, seg, parts), PlotTags)
    ensures OpenAfter(Wrapped(cls, seg, parts), []) == []
    ensures ShowsIn(Render(Wrapped(cls, seg, parts), []), seg, Uniform(|seg|, cls))
  {
    WrappedForm(cls, seg, parts);
    ShadeShows(seg, Selected(seg, parts), cls);
  }

  lemma WrappedForm(cls: string, seg: string, parts: seq<string>)
    requires ValidVariants(parts) && (cls == FadedSpanOpen || cls == MatchSpanOpen)
    ensures WellFormed(Wrapped(cls, seg, parts), PlotTags)
    ensures OpenAfter(Wrapped(cls, seg, parts), []) == []
    ensures Render(Wrapped(cls, seg, parts), []) == Shade(seg, Selected(seg, parts), [cls], 0)
  {
    var inner := HighlightNames(seg, parts);
    HighlightShows(seg, parts, [cls]);
    WrapClass(cls, inner);
  }

  /** A passage span around markup made of inline tags. */
  lemma WrapClass(cls: string, inner: string)
    requires cls == FadedSpanOpen || cls == MatchSpanOpen
    requires WellFormed(inner, InlineTags) && OpenAfter(inner, [cls]) == [cls]
    ensures WellFormed(cls + inner + SpanClose, PlotTags)
    ensures OpenAfter(cls + inner + SpanClose, []) == []
    ensures Render(cls + inner + SpanClose, []) == Render(inner, [cls])
  {
    PlotTagsAreTags();
    WellFormedMono(inner, InlineTags, PlotTags);
    assert [] + [cls] == [cls];
    Wrap(cls, inner, PlotTags, []);
    assert PlotTags + {cls, SpanClose} == PlotTags;
  }

  /** A segment shaded inside the element `cls` shows the segment in that class. */
  lemma ShadeShows(seg: string, sel: seq<Span>, cls: string)
    ensures ShowsIn(Shade(seg, sel, [cls], 0), seg, Uniform(|seg|, cls))
  {
    var r := Shade(seg, sel, [cls], 0);
    forall k | 0 <= k < |r| ensures ShownAs(r[k], seg[k], Uniform(|seg|, cls)[k]) {
      assert r[k] == Styled(seg[k], MarkSpans(sel, [cls], k));
    }
  }

  /** A wrapped piece followed by more markup. */
  lemma ShowsThen(a: string, ta: string, ca: seq<Option<string>>, b: string, tb: string, cb: seq<Option<string>>)
    requires Shows(a, ta, ca) && Shows(b, tb, cb)
    ensures Shows(a + b, ta + tb, ca + cb)
  {
    PlotTagsAreTags();
    RenderAppend(a, b, PlotTags, []);
    WellFormedAppend(a, b, PlotTags);
    ShowsAppend(Render(a, []), ta, ca, Render(b, []), tb, cb);
  }

  /** The empty string shows nothing. */
  lemma EmptyShows()
    ensures WellFormed("", PlotTags) && OpenAfter("", []) == [] && ShowsIn(Render("", []), "", [])
  {
  }

  /** The pieces of a line from `cur` on show the rest of the line, each character
      matched exactly when a passage of the line covers it. */
  lemma {:induction false} PiecesShow(line: string, ps: seq<Span>, cur: int, parts: seq<string>)
    requires ValidVariants(parts) && 0 <= cur <= |line| && ChainFrom(ps, cur, |line|)
    ensures Shows(LinePieces(line, ps, cur, parts), line[cur..], Classes(ps, cur, |line|))
    decreases |ps|
  {
    if ps == [] {
      TailShows(line, cur, parts);
    } else {
      PiecesShow(line, ps[1..], ps[0].end, parts);
      PiecesCons(line, ps, cur, parts);
    }
  }

  /** The faded rest of a line after its last passage. */
  lemma TailShows(line: string, cur: int, parts: seq<string>)
    requires ValidVariants(parts) && 0 <= cur <= |line|
    ensures Shows(LinePieces(line, [], cur, parts), line[cur..], Classes([], cur, |line|))
  {
    NoClasses(cur, |line|);
    if cur < |line| {
      var t := line[cur..];
      assert Substring(line, cur, |line|) == t;
      assert LinePieces(line, [], cur, parts) == Wrapped(FadedSpanOpen, t, parts);
      WrappedShows(FadedSpanOpen, t, parts);
    } else {
      assert LinePieces(line, [], cur, parts) == "";
      EmptyShows();
    }
  }

  /** The faded gap before the first passage of a line. */
  lemma GapShows(line: string, cur: int, start: int, parts: seq<string>)
    requires ValidVariants(parts) && 0 <= cur <= start <= |line|
    ensures Shows(FadedGap(line, cur, start, parts), line[cur..start], Uniform(start - cur, FadedSpanOpen))
  {
    if start > cur {
      assert Substring(line, cur, start) == line[cur..start];
      WrappedShows(FadedSpanOpen, line[cur..start], parts);
    } else {
      EmptyShows();
    }
  }

  /** A passage of a line. */
  lemma MatchShows(line: string, p: Span, parts: seq<string>)
    requires ValidVariants(parts) && 0 <= p.start <= p.end <= |line|
    ensures Shows(MatchPiece(line, p, parts), line[p.start..p.end], Uniform(p.end - p.start, MatchSpanOpen))
  {
    assert Substring(line, p.start, p.end) == line[p.start..p.end];
    WrappedShows(MatchSpanOpen, line[p.start..p.end], parts);
  }

  /** The gap and the first passage, then the pieces after it. */
  lemma PiecesCons(line: string, ps: seq<Span>, cur: int, parts: seq<string>)
    requires ValidVariants(parts) && 0 <= cur <= |line| && ps != [] && ChainFrom(ps, cur, |line|)
    requires Shows(LinePieces(line, ps[1..], ps[0].end, parts), line[ps[0].end..], Classes(ps[1..], ps[0].end, |line|))
    ensures Shows(LinePieces(line, ps, cur, parts), line[cur..], Classes(ps, cur, |line|))
  {
    ChainStarts(ps, cur, |line|);
    GapShows(line, cur, ps[0].start, parts);
    MatchShows(line, ps[0], parts);
    PiecesUnfold(line, ps, cur, parts);
    SplitThree(line, cur, ps[0].start, ps[0].end);
    ClassSplit(ps, cur, |line|);
    ShowsJoin(LinePieces(line, ps, cur, parts), line[cur..], Classes(ps, cur, |line|),
      FadedGap(line, cur, ps[0].start, parts), line[cur..ps[0].start], Uniform(ps[0].start - cur, FadedSpanOpen),
      MatchPiece(line, ps[0], parts), line[ps[0].start..ps[0].end], Uniform(ps[0].end - ps[0].start, MatchSpanOpen),
      LinePieces(line, ps[1..], ps[0].end, parts), line[ps[0].end..], Classes(ps[1..], ps[0].end, |line|));
  }

  /** Markup made of three parts shows what they show, one after the other. */
  lemma ShowsJoin(h: string, t: string, c: seq<Option<string>>,
                  a: string, ta: string, ca: seq<Option<string>>, b: string, tb: string, cb: seq<Option<string>>,
                  d: string, td: string, cd: seq<Option<string>>)
    requires Shows(a, ta, ca) && Shows(b, tb, cb) && Shows(d, td, cd)
    requires h == a + (b + d) && t == ta + (tb + td) && c == ca + (cb + cd)
    ensures Shows(h, t, c)
  {
    ShowsThree(a, ta, ca, b, tb, cb, d, td, cd);
  }

  /** Markup made of three parts shows what they show, one after the other. */
  lemma ShowsThree(a: string, ta: string, ca: seq<Option<string>>, b: string, tb: string, cb: seq<Option<string>>,
                   c: string, tc: string, cc: seq<Option<string>>)
    requires Shows(a, ta, ca) && Shows(b, tb, cb) && Shows(c, tc, cc)
    ensures Shows(a + (b + c), ta + (tb + tc), ca + (cb + cc))
  {
    ShowsThen(b, tb, cb, c, tc, cc);
    ShowsThen(a, ta, ca, b + c, tb + tc, cb + cc);
  }

  lemma SplitThree(line: string, a: int, b: int, c: int)
    requires 0 <= a <= b <= c <= |line|
    ensures line[a..] == line[a..b] + (line[b..c] + line[c..])
  {
  }

  lemma PiecesUnfold(line: string, ps: seq<Span>, cur: int, parts: seq<string>)
    requires ValidVariants(parts) && ps != []
    ensures LinePieces(line, ps, cur, parts) ==
      FadedGap(line, cur, ps[0].start, parts) + (MatchPiece(line, ps[0], parts) + LinePieces(line, ps[1..], ps[0].end, parts))
  {
  }

  /** The markup of a line that is not blank shows the line, each character
      matched exactly when a passage of the line covers it. */
  lemma LineShows(line: string, ps: seq<Span>, parts: seq<string>)
    requires ValidVariants(parts) && ChainFrom(ps, 0, |line|)
    ensures WellFormed(LineHtml(line, ps, parts), PlotTags)
    ensures OpenAfter(LineHtml(line, ps, parts), []) == []
    ensures ShowsIn(Render(LineHtml(line, ps, parts), []), line, Classes(ps, 0, |line|))
  {
    if ps == [] {
      NoClasses(0, |line|);
      WrappedShows(FadedSpanOpen, line, parts);
    } else {
      PiecesShow(line, ps, 0, parts);
      assert line[0..] == line;
    }
  }

  // ---------------------------------------------------------------------------
  // The whole plot

  /** `finalHtmlSegments.join('')`. */
  function Concat(segs: seq<string>): string
    decreases |segs|
  {
    if segs == [] then "" else Concat(segs[..|segs| - 1]) + segs[|segs| - 1]
  }

  lemma ConcatSnoc(segs: seq<string>, x: string)
    ensures Concat(segs + [x]) == Concat(segs) + x
  {
    assert (segs + [x])[..|segs|] == segs;
  }

  /** What line `line`, starting at plot offset `ls`, contributes: nothing when it
      is blank, its markup otherwise. */
  function LineSegment(line: string, ls: int, styled: seq<Span>, parts: seq<string>): string
    requires ValidVariants(parts)
  {
    if Trim(line) == [] then "" else LineHtml(line, PassagesInLine(styled, ls, |line|), parts)
  }

  /** The markup of the first `i` lines, a `<br>` before every line but the first. */
  function PlotHtml(lines: seq<string>, i: nat, styled: seq<Span>, parts: seq<string>): string
    requires ValidVariants(parts) && i <= |lines|
  {
    if i == 0 then ""
    else
      PlotHtml(lines, i - 1, styled, parts) + (if i - 1 > 0 then LineBreak else "") +
      LineSegment(lines[i - 1], LineOffset(lines, i - 1), styled, parts)
  }

  /** The lines as they are shown: a blank line shows nothing. */
  function ShownLines(lines: seq<string>): (r: seq<string>)
    ensures |r| == |lines|
  {
    seq(|lines|, k requires 0 <= k < |lines| => if IsBlank(lines[k]) then "" else lines[k])
  }

  /** The classes the first `i` lines are shown with: none for the line break
      before a line, and for a line that is not blank, the match class exactly at
      the plot indices a styled passage covers. */
  function ShownClasses(lines: seq<string>, i: nat, styled: seq<Span>): seq<Option<string>>
    requires i <= |lines|
  {
    if i == 0 then []
    else
      var o := LineOffset(lines, i - 1);
      ShownClasses(lines, i - 1, styled) + (if i - 1 > 0 then [None] else []) +
      (if IsBlank(lines[i - 1]) then [] else Classes(styled, o, o + |lines[i - 1]|))
  }

  /** The classes of a line, read off its own passages or off the plot's. */
  lemma ClassesShift(ps: seq<Span>, styled: seq<Span>, ls: int, n: int)
    requires 0 <= n
    requires forall x :: 0 <= x < n ==> (Covered(ps, x) <==> Covered(styled, ls + x))
    ensures Classes(ps, 0, n) == Classes(styled, ls, ls + n)
  {
    var a, b := Classes(ps, 0, n), Classes(styled, ls, ls + n);
    forall k | 0 <= k < n ensures a[k] == b[k] {
      assert a[k] == Some(ClassAt(ps, k));
      assert b[k] == Some(ClassAt(styled, ls + k));
    }
  }

  /** A line break shows a newline with no element open. */
  lemma BreakShows()
    ensures WellFormed(LineBreak, PlotTags) && OpenAfter(LineBreak, []) == []
    ensures ShowsIn(Render(LineBreak, []), "\n", [None])
  {
    PlotTagsAreTags();
    RenderTag(LineBreak, []);
    WellFormedMono(LineBreak, {LineBreak}, PlotTags);
  }

  /** What a line contributes shows the line, or nothing when it is blank. */
  lemma SegmentShows(line: string, ls: int, styled: seq<Span>, lo: int, hi: int, parts: seq<string>)
    requires ValidVariants(parts) && ChainFrom(styled, lo, hi)
    ensures var seg := LineSegment(line, ls, styled, parts);
      WellFormed(seg, PlotTags) && OpenAfter(seg, []) == [] &&
      ShowsIn(Render(seg, []), if IsBlank(line) then "" else line,
        if IsBlank(line) then [] else Classes(styled, ls, ls + |line|))
  {
    if IsBlank(line) {
      EmptyShows();
    } else {
      assert |line| > 0;
      var ps := PassagesInLine(styled, ls, |line|);
      PassagesInLineFacts(styled, lo, hi, ls, |line|);
      LineShows(line, ps, parts);
      ClassesShift(ps, styled, ls, |line|);
    }
  }

  /** The shown text of the first `i` lines, one more line at a time. */
  lemma ShownSnoc(lines: seq<string>, i: nat)
    requires 0 < i <= |lines|
    ensures JoinLines(ShownLines(lines)[..i]) ==
      JoinLines(ShownLines(lines)[..i - 1]) + (if i - 1 > 0 then "\n" else "") + ShownLines(lines)[i - 1]
  {
    var sl := ShownLines(lines);
    TakeSnoc(sl, i);
    if i - 1 > 0 {
      JoinSnoc(sl[..i - 1], sl[i - 1]);
    } else {
      assert sl[..i] == [sl[0]];
      assert sl[..i - 1] == [];
    }
  }

  lemma {:induction false} PlotShows(lines: seq<string>, i: nat, styled: seq<Span>, lo: int, hi: int, parts: seq<string>)
    requires ValidVariants(parts) && i <= |lines| && ChainFrom(styled, lo, hi)
    ensures Shows(PlotHtml(lines, i, styled, parts), JoinLines(ShownLines(lines)[..i]), ShownClasses(lines, i, styled))
  {
    if i == 0 {
      EmptyShows();
      assert ShownLines(lines)[..0] == [];
    } else {
      PlotShows(lines, i - 1, styled, lo, hi, parts);
      PlotStep(lines, i, styled, lo, hi, parts);
    }
  }

  /** One more line of the plot. */
  lemma PlotStep(lines: seq<string>, i: nat, styled: seq<Span>, lo: int, hi: int, parts: seq<string>)
    requires ValidVariants(parts) && 0 < i <= |lines| && ChainFrom(styled, lo, hi)
    requires Shows(PlotHtml(lines, i - 1, styled, parts), JoinLines(ShownLines(lines)[..i - 1]), ShownClasses(lines, i - 1, styled))
    ensures Shows(PlotHtml(lines, i, styled, parts), JoinLines(ShownLines(lines)[..i]), ShownClasses(lines, i, styled))
  {
    var line := lines[i - 1];
    var o := LineOffset(lines, i - 1);
    var br := if i - 1 > 0 then LineBreak else "";
    var seg := LineSegment(line, o, styled, parts);
    var tBr := if i - 1 > 0 then "\n" else "";
    var cBr: seq<Option<string>> := if i - 1 > 0 then [None] else [];
    var cSeg := if IsBlank(line) then [] else Classes(styled, o, o + |line|);
    assert PlotHtml(lines, i, styled, parts) == PlotHtml(lines, i - 1, styled, parts) + br + seg;
    assert ShownClasses(lines, i, styled) == ShownClasses(lines, i - 1, styled) + cBr + cSeg;
    ShownSnoc(lines, i);
    assert ShownLines(lines)[i - 1] == if IsBlank(line) then "" else line;
    if i - 1 > 0 { BreakShows(); } else { EmptyShows(); }
    SegmentShows(line, o, styled, lo, hi, parts);
    ShowsThen(PlotHtml(lines, i - 1, styled, parts), JoinLines(ShownLines(lines)[..i - 1]), ShownClasses(lines, i - 1, styled),
      br, tBr, cBr);
    ShowsThen(PlotHtml(lines, i - 1, styled, parts) + br, JoinLines(ShownLines(lines)[..i - 1]) + tBr, ShownClasses(lines, i - 1, styled) + cBr,
      seg, ShownLines(lines)[i - 1], cSeg);
  }

  /** What `findStyledPassages` promises about the passages of a plot. */
  ghost predicate PassagesFor(plot: string, parts: seq<string>, styled: seq<Span>)
    requires ValidVariants(parts)
  {
    (styled == [] <==> plot == [] || parts == [] || AllMatches(plot, parts) == []) &&
    ChainFrom(styled, 0, |plot|) &&
    (forall p :: p in HitPassages(plot, parts) ==> ContainedIn(p, styled)) &&
    (forall x :: Covered(styled, x) <==> Covers(HitPassages(plot, parts), x)) &&
    (forall k :: 0 <= k < |styled| ==> BridgedBy(HitPassages(plot, parts), styled[k])) &&
    (forall m {:trigger ContainedIn(m, styled)} :: m in AllMatches(plot, parts) ==> ContainedIn(m, styled)) &&
    (forall k :: 0 <= k < |styled| ==> HoldsOccurrence(plot, parts, styled[k]))
  }

  /** Those promises fix the passages: the highlighted passages of a plot are
      determined by the plot and the name parts alone. */
  lemma PassagesForUnique(plot: string, parts: seq<string>, a: seq<Span>, b: seq<Span>)
    requires ValidVariants(parts) && PassagesFor(plot, parts, a) && PassagesFor(plot, parts, b)
    ensures a == b
  {
    var P := HitPassages(plot, parts);
    ChainDisjoint(a, 0, |plot|);
    ChainDisjoint(b, 0, |plot|);
    ContainedUncrossed(a, P);
    ContainedUncrossed(b, P);
    BlocksUnique(a, b, P);
  }

  /** `highlightCharacterInPlot`: the markup handed to `displayFn` and whether the
      highlight is active. Without a plot, a name, or a name part, the formatted
      original plot is shown as it is; otherwise the plot is rendered line by line
      around the passages `styled` of `findStyledPassages`. */
  method HighlightCharacterInPlot(plot: string, characterName: string, fallback: string)
    returns (html: string, active: bool, ghost styled: seq<Span>)
    ensures active <==> plot != [] && characterName != [] && GetCharacterNameParts(characterName).allUniqueParts != []
    ensures !active ==> html == fallback
    ensures active ==>
      var parts := GetCharacterNameParts(characterName).allUniqueParts;
      var lines := SplitLines(plot);
      ValidVariants(parts) && PassagesFor(plot, parts, styled) &&
      html == PlotHtml(lines, |lines|, styled, parts) &&
      WellFormed(html, PlotTags) && OpenAfter(html, []) == [] &&
      ShowsIn(Render(html, []), JoinLines(ShownLines(lines)), ShownClasses(lines, |lines|, styled))
  {
    styled := [];
    if plot == [] || characterName == [] {
      return fallback, false, styled;
    }
    var nameInfo := GetCharacterNameParts(characterName);
    var parts := nameInfo.allUniqueParts;
    if |parts| == 0 {
      return fallback, false, styled;
    }
    NamePartsValid(characterName);
    var found := FindStyledPassages(plot, parts);
    styled := found;
    var lines := SplitLines(plot);
    html := RenderPlotLines(lines, found, parts);
    active := true;
    WholePlotShows(lines, styled, 0, |plot|, parts);
  }

  /** The name parts of a name are non-empty. */
  lemma NamePartsValid(name: string)
    requires name != []
    ensures ValidVariants(GetCharacterNameParts(name).allUniqueParts)
  {
    VariantsOfName(name);
  }

  /** The markup of all the lines shows the shown lines with their classes. */
  lemma WholePlotShows(lines: seq<string>, styled: seq<Span>, lo: int, hi: int, parts: seq<string>)
    requires ValidVariants(parts) && ChainFrom(styled, lo, hi)
    ensures Shows(PlotHtml(lines, |lines|, styled, parts), JoinLines(ShownLines(lines)), ShownClasses(lines, |lines|, styled))
  {
    PlotShows(lines, |lines|, styled, lo, hi, parts);
    assert ShownLines(lines)[..|lines|] == ShownLines(lines);
  }

  /** The `plotLines.forEach` loop and the final `join('')`. */
  method RenderPlotLines(lines: seq<string>, styled: seq<Span>, parts: seq<string>) returns (html: string)
    requires ValidVariants(parts)
    ensures html == PlotHtml(lines, |lines|, styled, parts)
  {
    var segments: seq<string> := [];
    var offset := 0;
    var i := 0;
    while i < |lines|
      invariant 0 <= i <= |lines|
      invariant offset == LineOffset(lines, i)
      invariant Concat(segments) == PlotHtml(lines, i, styled, parts)
    {
      var before := segments;
      if i > 0 {
        segments := segments + [LineBreak];
        ConcatSnoc(before, LineBreak);
      }
      var line := lines[i];
      var lineStart := offset;
      offset := offset + |line| + 1;
      if Trim(line) != [] {
        var lineHtml := RenderLine(line, lineStart, styled, parts);
        ConcatSnoc(segments, lineHtml);
        segments := segments + [lineHtml];
      }
      i := i + 1;
    }
    html := Concat(segments);
  }

  // ---------------------------------------------------------------------------
  // A plot without blank lines

  /** The classes of the characters of `t`, read as a prefix of the plot: none
      for a newline, and otherwise the match class exactly where a styled passage
      covers the index. */
  function PlotClasses(t: string, styled: seq<Span>): (c: seq<Option<string>>)
    ensures |c| == |t|
  {
    seq(|t|, j requires 0 <= j < |t| => if t[j] == '\n' then None else Some(ClassAt(styled, j)))
  }

  /** The classes of a prefix, a newline, and a line without newlines. */
  lemma PlotClassesSnoc(a: string, line: string, styled: seq<Span>)
    requires '\n' !in line
    ensures PlotClasses(a + "\n" + line, styled) ==
      PlotClasses(a, styled) + [None] + Classes(styled, |a| + 1, |a| + 1 + |line|)
  {
    var t := a + "\n" + line;
    var lhs := PlotClasses(t, styled);
    var rhs := PlotClasses(a, styled) + [None] + Classes(styled, |a| + 1, |a| + 1 + |line|);
    forall j | 0 <= j < |t| ensures lhs[j] == rhs[j] {
      if j < |a| {
        assert t[j] == a[j];
      } else if j > |a| {
        assert t[j] == line[j - |a| - 1];
      }
    }
  }

  /** With no blank line, the first `i` lines show their own text, and the
      classes are those of the plot prefix they make up. */
  lemma {:induction false} ShownPrefix(lines: seq<string>, i: nat, styled: seq<Span>)
    requires 0 < i <= |lines|
    requires forall k :: 0 <= k < |lines| ==> !IsBlank(lines[k]) && '\n' !in lines[k]
    ensures |JoinLines(lines[..i])| + 1 == LineOffset(lines, i)
    ensures ShownClasses(lines, i, styled) == PlotClasses(JoinLines(lines[..i]), styled)
  {
    if i == 1 {
      ShownFirst(lines, styled);
    } else {
      ShownPrefix(lines, i - 1, styled);
      ShownNext(lines, i, styled);
    }
  }

  lemma ShownFirst(lines: seq<string>, styled: seq<Span>)
    requires 0 < |lines| && !IsBlank(lines[0]) && '\n' !in lines[0]
    ensures |JoinLines(lines[..1])| + 1 == LineOffset(lines, 1)
    ensures ShownClasses(lines, 1, styled) == PlotClasses(JoinLines(lines[..1]), styled)
  {
    var line := lines[0];
    assert lines[..1] == [line];
    assert ShownClasses(lines, 1, styled) == Classes(styled, 0, |line|);
    var c := Classes(styled, 0, |line|);
    forall j | 0 <= j < |line| ensures c[j] == PlotClasses(line, styled)[j] {
      assert line[j] in line;
    }
  }

  lemma ShownNext(lines: seq<string>, i: nat, styled: seq<Span>)
    requires 1 < i <= |lines| && !IsBlank(lines[i - 1]) && '\n' !in lines[i - 1]
    requires |JoinLines(lines[..i - 1])| + 1 == LineOffset(lines, i - 1)
    requires ShownClasses(lines, i - 1, styled) == PlotClasses(JoinLines(lines[..i - 1]), styled)
    ensures |JoinLines(lines[..i])| + 1 == LineOffset(lines, i)
    ensures ShownClasses(lines, i, styled) == PlotClasses(JoinLines(lines[..i]), styled)
  {
    var line := lines[i - 1];
    var a := JoinLines(lines[..i - 1]);
    var o := LineOffset(lines, i - 1);
    assert ShownClasses(lines, i, styled) == ShownClasses(lines, i - 1, styled) + [None] + Classes(styled, o, o + |line|);
    TakeSnoc(lines, i);
    JoinSnoc(lines[..i - 1], line);
    PlotClassesSnoc(a, line, styled);
  }

  /** When no line of the plot is blank, the rendered plot shows the plot itself:
      every newline as a line break outside any element, and every other
      character in the match class exactly when a styled passage covers it. */
  lemma PlotShownExactly(plot: string, styled: seq<Span>)
    requires forall k :: 0 <= k < |SplitLines(plot)| ==> !IsBlank(SplitLines(plot)[k])
    ensures JoinLines(ShownLines(SplitLines(plot))) == plot
    ensures ShownClasses(SplitLines(plot), |SplitLines(plot)|, styled) == PlotClasses(plot, styled)
  {
    var lines := SplitLines(plot);
    SplitLinesNoBreak(plot);
    SplitJoin(plot);
    assert ShownLines(lines) == lines;
    ShownPrefix(lines, |lines|, styled);
    assert lines[..|lines|] == lines;
  }
}

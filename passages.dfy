/** `findStyledPassages` (js/plotHighlighter.js): the sentences of the plot around
    each occurrence of the character's name, as sorted, non-overlapping ranges. */
module Passages {
  import opened Strings
  import opened Config
  import opened Intervals
  import opened NameHighlight

  // ---------------------------------------------------------------------------
  // The name hits: every occurrence of a variant not inside a longer hit

  /** The containment test `nameHitRegions.some(...)`. */
  predicate ContainedIn(m: Span, regions: seq<Span>) {
    exists k :: 0 <= k < |regions| && Inside(m, regions[k])
  }

  /** `regions` without the ones inside `m`, in order. */
  function RemoveInside(regions: seq<Span>, m: Span): (r: seq<Span>)
    ensures forall x :: x in r <==> x in regions && !Inside(x, m)
  {
    if regions == [] then []
    else (if Inside(regions[0], m) then [] else [regions[0]]) + RemoveInside(regions[1..], m)
  }

  /** The regions after the scan reports match `m`. */
  function AfterHit(regions: seq<Span>, m: Span): seq<Span> {
    if ContainedIn(m, regions) then regions else RemoveInside(regions, m) + [m]
  }

  /** The regions after the scan reports the matches `ms`, in order. */
  function ScanHits(ms: seq<Span>): seq<Span> {
    if ms == [] then [] else AfterHit(ScanHits(ms[..|ms| - 1]), ms[|ms| - 1])
  }

  /** `nameHitRegions` once sorted. */
  function Hits(plot: string, parts: seq<string>): seq<Span>
    requires ValidVariants(parts)
  {
    SortSpans(ScanHits(AllMatches(plot, parts)), false)
  }

  predicate DistinctSpans(rs: seq<Span>) {
    forall i, j :: 0 <= i < j < |rs| ==> rs[i] != rs[j]
  }

  /** No region lies inside another, and none appears twice. */
  predicate NoNesting(rs: seq<Span>) {
    DistinctSpans(rs) && forall a, b :: a in rs && b in rs && a != b ==> !Inside(a, b)
  }

  /** The backward `splice` loop. */
  method EvictContained(regions: seq<Span>, m: Span) returns (kept: seq<Span>)
    ensures kept == RemoveInside(regions, m)
  {
    kept := regions;
    var i := |regions|;
    while i > 0
      invariant 0 <= i <= |regions|
      invariant kept == regions[..i] + RemoveInside(regions[i..], m)
    {
      i := i - 1;
      ghost var prev := kept;
      EvictIndex(regions, m, i, kept);
      if Inside(kept[i], m) {
        kept := kept[..i] + kept[i + 1..];
      }
      EvictStep(regions, m, i, prev, kept);
    }
    assert regions[0..] == regions;
  }

  /** Before a turn of the backward loop, index `i` still holds `regions[i]`. */
  lemma EvictIndex(regions: seq<Span>, m: Span, i: nat, kept: seq<Span>)
    requires i < |regions| && kept == regions[..i + 1] + RemoveInside(regions[i + 1..], m)
    ensures i < |kept| && kept[i] == regions[i]
  {
  }

  /** A turn of the backward loop: the region at `i` goes when it lies inside `m`. */
  lemma EvictStep(regions: seq<Span>, m: Span, i: nat, kept: seq<Span>, next: seq<Span>)
    requires i < |regions| && kept == regions[..i + 1] + RemoveInside(regions[i + 1..], m)
    requires next == if Inside(regions[i], m) then kept[..i] + kept[i + 1..] else kept
    ensures next == regions[..i] + RemoveInside(regions[i..], m)
  {
    var rest := RemoveInside(regions[i + 1..], m);
    RemoveStep(regions, i, m);
    SeqAssoc(regions[..i], [regions[i]], rest);
    assert kept == regions[..i] + ([regions[i]] + rest);
    if Inside(regions[i], m) {
      SpliceAt(regions[..i], regions[i], rest);
      assert RemoveInside(regions[i..], m) == [] + rest;
      assert [] + rest == rest;
    } else {
      assert RemoveInside(regions[i..], m) == [regions[i]] + rest;
    }
  }

  lemma RemoveStep(regions: seq<Span>, i: nat, m: Span)
    requires i < |regions|
    ensures RemoveInside(regions[i..], m) ==
      (if Inside(regions[i], m) then [] else [regions[i]]) + RemoveInside(regions[i + 1..], m)
    ensures regions[..i + 1] == regions[..i] + [regions[i]]
  {
    assert regions[i..][1..] == regions[i + 1..];
  }

  lemma {:induction false} RemoveInsideDistinct(regions: seq<Span>, m: Span)
    requires DistinctSpans(regions)
    ensures DistinctSpans(RemoveInside(regions, m))
    decreases |regions|
  {
    if regions != [] {
      var rest := regions[1..];
      assert DistinctSpans(rest);
      RemoveInsideDistinct(rest, m);
      assert regions[0] !in rest;
      var r := RemoveInside(rest, m);
      var head := if Inside(regions[0], m) then [] else [regions[0]];
      forall i, j | 0 <= i < j < |head + r| ensures (head + r)[i] != (head + r)[j] {
        if head != [] && i == 0 {
          assert (head + r)[j] == r[j - 1];
          assert r[j - 1] in r;
        }
      }
    }
  }

  /** One reported match keeps the regions free of nesting, keeps every region
      covered and adds nothing but the match. */
  lemma AfterHitFacts(regions: seq<Span>, m: Span)
    requires NoNesting(regions)
    ensures NoNesting(AfterHit(regions, m))
    ensures forall x :: x in AfterHit(regions, m) ==> x in regions || x == m
    ensures ContainedIn(m, AfterHit(regions, m))
    ensures forall r :: r in regions ==> ContainedIn(r, AfterHit(regions, m))
  {
    var after := AfterHit(regions, m);
    if ContainedIn(m, regions) {
      forall r | r in regions ensures ContainedIn(r, after) {
        var k :| 0 <= k < |regions| && regions[k] == r;
      }
    } else {
      var kept := RemoveInside(regions, m);
      RemoveInsideDistinct(regions, m);
      assert after == kept + [m];
      assert m !in kept;
      assert DistinctSpans(after) by {
        forall i, j | 0 <= i < j < |after| ensures after[i] != after[j] {
          if j == |kept| {
            assert after[i] == kept[i];
            assert kept[i] in kept;
          } else {
            assert after[i] == kept[i] && after[j] == kept[j];
          }
        }
      }
      forall a, b | a in after && b in after && a != b ensures !Inside(a, b) {
        if a != m && b != m {
          assert a in kept && b in kept;
        } else if b == m {
          assert a in kept;
        } else {
          assert b in regions;
          var k :| 0 <= k < |regions| && regions[k] == b;
        }
      }
      assert Inside(m, after[|kept|]);
      forall r | r in regions ensures ContainedIn(r, after) {
        if Inside(r, m) {
          assert Inside(r, after[|kept|]);
        } else {
          assert r in kept;
          var k :| 0 <= k < |kept| && kept[k] == r;
          assert after[k] == r;
        }
      }
    }
  }

  /** Containment is transitive. */
  lemma ContainedInStep(m: Span, regions: seq<Span>, later: seq<Span>)
    requires ContainedIn(m, regions)
    requires forall r :: r in regions ==> ContainedIn(r, later)
    ensures ContainedIn(m, later)
  {
    var k :| 0 <= k < |regions| && Inside(m, regions[k]);
    assert regions[k] in regions;
    var l :| 0 <= l < |later| && Inside(regions[k], later[l]);
  }

  /** After the scan: the regions nest nowhere, each is a reported match, and every
      reported match lies inside one of them. */
  lemma {:induction false} ScanHitsFacts(ms: seq<Span>)
    ensures NoNesting(ScanHits(ms))
    ensures forall x :: x in ScanHits(ms) ==> x in ms
    ensures forall m {:trigger ContainedIn(m, ScanHits(ms))} :: m in ms ==> ContainedIn(m, ScanHits(ms))
    decreases |ms|
  {
    if ms != [] {
      var init := ms[..|ms| - 1];
      var m := ms[|ms| - 1];
      var prev := ScanHits(init);
      ScanHitsFacts(init);
      AfterHitFacts(prev, m);
      assert ms == init + [m];
      forall q | q in ms ensures ContainedIn(q, ScanHits(ms)) {
        if q != m {
          assert q in init;
          ContainedInStep(q, prev, ScanHits(ms));
        }
      }
    }
  }

  lemma ScanHitsSnoc(ms: seq<Span>, m: Span)
    ensures ScanHits(ms + [m]) == AfterHit(ScanHits(ms), m)
  {
    assert (ms + [m])[..|ms|] == ms;
  }

  /** Strictly increasing starts. */
  predicate StrictStarts(s: seq<Span>) {
    forall i, j :: 0 <= i < j < |s| ==> s[i].start < s[j].start
  }

  lemma {:induction false} InsertStrict(x: Span, t: seq<Span>)
    requires StrictStarts(t)
    requires forall k :: 0 <= k < |t| ==> t[k].start != x.start
    ensures StrictStarts(Insert(x, t, false))
    decreases |t|
  {
    if t != [] && !Before(x, t[0], false) {
      InsertStrict(x, t[1..]);
      var tail := Insert(x, t[1..], false);
      assert Insert(x, t, false) == [t[0]] + tail;
      forall j | 0 <= j < |tail| ensures t[0].start < tail[j].start {
        assert tail[j] in multiset(tail);
        if tail[j] != x {
          assert tail[j] in multiset(t[1..]);
          assert tail[j] in t[1..];
        }
      }
    }
  }

  /** Sorting spans whose starts differ gives strictly increasing starts. */
  lemma {:induction false} SortStrict(s: seq<Span>)
    requires forall i, j :: 0 <= i < j < |s| ==> s[i].start != s[j].start
    ensures StrictStarts(SortSpans(s, false))
    decreases |s|
  {
    if s != [] {
      var init := s[..|s| - 1];
      var x := s[|s| - 1];
      SortStrict(init);
      SortSpansMembers(init, false);
      var t := SortSpans(init, false);
      forall k | 0 <= k < |t| ensures t[k].start != x.start {
        assert t[k] in init;
      }
      InsertStrict(x, t);
    }
  }

  /** The sorted hits: each is an occurrence of a name variant; starts and ends
      both strictly increase, so no hit lies inside another; and every match the
      variant scans report lies inside a hit. */
  lemma HitsFacts(plot: string, parts: seq<string>)
    requires ValidVariants(parts)
    ensures var hits := Hits(plot, parts);
      (forall h :: h in hits ==> h in AllMatches(plot, parts)) &&
      (forall h :: h in hits ==> exists v :: v in parts && IsMatchOf(plot, v, h)) &&
      (forall i, j :: 0 <= i < j < |hits| ==> hits[i].start < hits[j].start && hits[i].end < hits[j].end) &&
      (forall m {:trigger ContainedIn(m, hits)} :: m in AllMatches(plot, parts) ==> ContainedIn(m, hits))
  {
    var ms := AllMatches(plot, parts);
    var scanned := ScanHits(ms);
    var hits := Hits(plot, parts);
    ScanHitsFacts(ms);
    AllMatchesSound(plot, parts);
    SortSpansMembers(scanned, false);
    NoNestingStarts(scanned);
    SortStrict(scanned);
    StrictEnds(scanned, hits);
    ContainedThroughSort(ms, scanned, hits);
  }

  /** Regions that nest nowhere start at different places. */
  lemma NoNestingStarts(s: seq<Span>)
    requires NoNesting(s)
    ensures forall i, j :: 0 <= i < j < |s| ==> s[i].start != s[j].start
  {
    forall i, j | 0 <= i < j < |s| ensures s[i].start != s[j].start {
      assert s[i] in s && s[j] in s && s[i] != s[j];
      if s[i].start == s[j].start {
        if s[i].end <= s[j].end {
          assert Inside(s[i], s[j]);
        } else {
          assert Inside(s[j], s[i]);
        }
      }
    }
  }

  /** Regions that nest nowhere, ordered by strictly increasing start, also end
      in strictly increasing order. */
  lemma StrictEnds(scanned: seq<Span>, hits: seq<Span>)
    requires NoNesting(scanned) && StrictStarts(hits)
    requires forall p :: p in hits <==> p in scanned
    ensures forall i, j :: 0 <= i < j < |hits| ==> hits[i].end < hits[j].end
  {
    forall i, j | 0 <= i < j < |hits| ensures hits[i].end < hits[j].end {
      assert hits[i] in scanned && hits[j] in scanned;
      assert hits[i] != hits[j];
    }
  }

  /** What lies inside some region before the sort lies inside one after it. */
  lemma ContainedThroughSort(ms: seq<Span>, scanned: seq<Span>, hits: seq<Span>)
    requires forall m {:trigger ContainedIn(m, scanned)} :: m in ms ==> ContainedIn(m, scanned)
    requires forall p :: p in scanned ==> p in hits
    ensures forall m {:trigger ContainedIn(m, hits)} :: m in ms ==> ContainedIn(m, hits)
  {
    forall m | m in ms ensures ContainedIn(m, hits) {
      assert ContainedIn(m, scanned);
      var k :| 0 <= k < |scanned| && Inside(m, scanned[k]);
      assert scanned[k] in hits;
      var l :| 0 <= l < |hits| && hits[l] == scanned[k];
    }
  }

  lemma ScanSliceStep(before: seq<Span>, found: seq<Span>, j: nat)
    requires j < |found|
    ensures ScanHits(before + found[..j + 1]) == AfterHit(ScanHits(before + found[..j]), found[j])
  {
    assert found[..j + 1] == found[..j] + [found[j]];
    assert before + found[..j + 1] == (before + found[..j]) + [found[j]];
    ScanHitsSnoc(before + found[..j], found[j]);
  }

  lemma VariantSliceStep(plot: string, parts: seq<string>, vi: nat, found: seq<Span>)
    requires ValidVariants(parts) && vi < |parts| && found == VariantMatches(plot, parts[vi])
    ensures AllMatches(plot, parts[..vi + 1]) == AllMatches(plot, parts[..vi]) + found[..|found|]
  {
    assert parts[..vi + 1][..vi] == parts[..vi];
    assert found[..|found|] == found;
  }

  /** The `forEach` over the name variants with its `exec` loops, then the sort. */
  method LocateHits(plot: string, parts: seq<string>) returns (hits: seq<Span>)
    requires ValidVariants(parts)
    ensures hits == Hits(plot, parts)
  {
    var regions: seq<Span> := [];
    var vi := 0;
    while vi < |parts|
      invariant 0 <= vi <= |parts|
      invariant regions == ScanHits(AllMatches(plot, parts[..vi]))
    {
      var found := ScanVariant(plot, parts[vi]);
      ghost var before := AllMatches(plot, parts[..vi]);
      var j := 0;
      assert before + found[..0] == before;
      while j < |found|
        invariant 0 <= j <= |found|
        invariant regions == ScanHits(before + found[..j])
      {
        var m := found[j];
        ScanSliceStep(before, found, j);
        var isContained := exists k :: 0 <= k < |regions| && Inside(m, regions[k]);
        if !isContained {
          regions := EvictContained(regions, m);
          regions := regions + [m];
        }
        j := j + 1;
      }
      VariantSliceStep(plot, parts, vi, found);
      vi := vi + 1;
    }
    assert parts[..|parts|] == parts;
    hits := SortSpans(regions, false);
  }

  // ---------------------------------------------------------------------------
  // The passage around one hit

  /** A sentence terminator `/(\.\s|[!?]\s|\n)/` matches at `j` of `w`:
      `.`, `!` or `?` with a white-space character after it, or a newline. */
  predicate IsTermAt(w: string, j: int) {
    0 <= j < |w| &&
    (((w[j] == '.' || w[j] == '!' || w[j] == '?') && j + 1 < |w| && IsSpace(w[j + 1])) || w[j] == '\n')
  }

  /** Length of that match: the newline alone, or the mark and its white space. */
  function TermLen(w: string, j: int): nat
    requires IsTermAt(w, j)
  {
    if w[j] == '\n' then 1 else 2
  }

  /** A terminator match of `w` ends exactly at `e`. */
  predicate TermEndsAt(w: string, e: int) {
    exists j :: 0 <= j < |w| && IsTermAt(w, j) && j + TermLen(w, j) == e
  }

  /** The first terminator at or after `i`, or `|w|`: one `exec` of the expression. */
  function FirstTerm(w: string, i: nat): (j: nat)
    requires i <= |w|
    ensures i <= j <= |w|
    ensures j < |w| ==> IsTermAt(w, j)
    ensures forall k :: i <= k < j ==> !IsTermAt(w, k)
    decreases |w| - i
  {
    if i == |w| then |w| else if IsTermAt(w, i) then i else FirstTerm(w, i + 1)
  }

  function Max(a: int, b: int): int { if a < b then b else a }
  function Min(a: int, b: int): int { if a < b then a else b }

  /** Start of the look-behind window of a hit starting at `hs`. */
  function WindowStart(hs: int): int { Max(0, hs - PlotHighlightMaxLookaround) }

  /** End of the look-ahead window of a hit ending at `he`. */
  function WindowEnd(plot: string, he: int): int { Min(|plot|, he + PlotHighlightMaxLookaround) }

  /** Where the passage of a hit may start: just after the last sentence terminator
      of the look-behind window (the one that ends last), or at the window's start
      when there is none. */
  ghost predicate StartsPassage(plot: string, hit: Span, s: int)
    requires 0 <= hit.start <= hit.end <= |plot|
  {
    var ws := WindowStart(hit.start); var before := plot[ws..hit.start];
    ws <= s <= hit.start &&
    (s == ws || TermEndsAt(before, s - ws)) &&
    (forall j :: IsTermAt(before, j) ==> ws + j + TermLen(before, j) <= s)
  }

  /** Where the passage of a hit may end: at the first terminator of the look-ahead
      window (before a newline, after the punctuation mark of any other terminator),
      or at the window's end when there is none. */
  ghost predicate EndsPassage(plot: string, hit: Span, e: int)
    requires 0 <= hit.start <= hit.end <= |plot|
  {
    var we := WindowEnd(plot, hit.end); var after := plot[hit.end..we];
    hit.end <= e <= we &&
    ((forall j :: !IsTermAt(after, j)) ==> e == we) &&
    (forall j :: IsTermAt(after, j) && (forall k :: 0 <= k < j ==> !IsTermAt(after, k)) ==>
      e == hit.end + j + (if after[j] == '\n' then 0 else 1))
  }

  /** `p` is the passage of `hit` in `plot`. */
  ghost predicate IsPassageOf(plot: string, hit: Span, p: Span) {
    0 <= hit.start <= hit.end <= |plot| &&
    StartsPassage(plot, hit, p.start) && EndsPassage(plot, hit, p.end)
  }

  /** A hit has one passage only. */
  lemma PassageUnique(plot: string, hit: Span, p: Span, q: Span)
    requires IsPassageOf(plot, hit, p) && IsPassageOf(plot, hit, q)
    ensures p == q
  {
    StartUnique(plot, hit, p.start, q.start);
    StartUnique(plot, hit, q.start, p.start);
    var we := WindowEnd(plot, hit.end);
    var after := plot[hit.end..we];
    var j := FirstTerm(after, 0);
    if j < |after| {
      assert IsTermAt(after, j) && forall k :: 0 <= k < j ==> !IsTermAt(after, k);
    }
  }

  /** A start the passage rules allow is no later than any other they allow. */
  lemma StartUnique(plot: string, hit: Span, s: int, t: int)
    requires 0 <= hit.start <= hit.end <= |plot|
    requires StartsPassage(plot, hit, s) && StartsPassage(plot, hit, t)
    ensures s <= t
  {
    var ws := WindowStart(hit.start);
    var before := plot[ws..hit.start];
    if s != ws {
      var j :| 0 <= j < |before| && IsTermAt(before, j) && j + TermLen(before, j) == s - ws;
      assert ws + j + TermLen(before, j) <= t;
    }
  }

  /** The passage of one hit, within 200 characters of it on each side. The two
      corrections of the source for a distant plot edge never change its bounds. */
  method ResolvePassage(plot: string, hit: Span) returns (p: Span)
    requires 0 <= hit.start <= hit.end <= |plot|
    ensures IsPassageOf(plot, hit, p)
  {
    var passageStart := PassageStart(plot, hit);
    var passageEnd := PassageEnd(plot, hit);
    p := Span(passageStart, passageEnd);
  }

  /** The state of the backward scan after the first `i` characters of `before`
      (which starts at plot index `ss`): `last` is the plot index where the last
      terminator seen ends, or -1 when there was none. */
  predicate BackScanned(before: string, ss: int, i: int, last: int) {
    (last == -1 ==> forall j :: 0 <= j < i ==> !IsTermAt(before, j)) &&
    (last != -1 ==> TermEndsAt(before, last - ss) && last <= ss + i) &&
    (forall j :: 0 <= j < i && IsTermAt(before, j) ==> ss + j + TermLen(before, j) <= last)
  }

  /** A terminator at `i`: the scan records its end and moves past it. A newline
      that follows the mark of a two-character terminator ends at the same place. */
  lemma BackScanTerm(before: string, ss: int, i: int, last: int)
    requires 0 <= ss && 0 <= i && BackScanned(before, ss, i, last) && IsTermAt(before, i)
    ensures i + TermLen(before, i) <= |before|
    ensures BackScanned(before, ss, i + TermLen(before, i), ss + i + TermLen(before, i))
  {
    var n := TermLen(before, i);
    assert TermEndsAt(before, i + n) by {
      assert 0 <= i < |before| && IsTermAt(before, i) && i + TermLen(before, i) == i + n;
    }
    if n == 2 && IsTermAt(before, i + 1) {
      assert TermLen(before, i + 1) == 1;
    }
  }

  /** Any other character: the scan moves on. */
  lemma BackScanOther(before: string, ss: int, i: int, last: int)
    requires 0 <= i && BackScanned(before, ss, i, last) && !IsTermAt(before, i)
    ensures BackScanned(before, ss, i + 1, last)
  {
  }

  /** The backward scan: the end of the last terminator in the window before the
      hit, or the start of the window. */
  method PassageStart(plot: string, hit: Span) returns (passageStart: int)
    requires 0 <= hit.start <= hit.end <= |plot|
    ensures StartsPassage(plot, hit, passageStart)
  {
    var startSearch := Max(0, hit.start - PlotHighlightMaxLookaround);
    var before := Substring(plot, startSearch, hit.start);
    var lastTerminatorBefore := -1;
    var i := 0;
    while i < |before|
      invariant 0 <= i <= |before|
      invariant BackScanned(before, startSearch, i, lastTerminatorBefore)
      decreases |before| - i
    {
      if IsTermAt(before, i) {
        var n := TermLen(before, i);
        BackScanTerm(before, startSearch, i, lastTerminatorBefore);
        lastTerminatorBefore := startSearch + i + n;
        i := i + n;
      } else {
        BackScanOther(before, startSearch, i, lastTerminatorBefore);
        i := i + 1;
      }
    }
    passageStart := if lastTerminatorBefore != -1 then lastTerminatorBefore else startSearch;
    if passageStart == 0 && hit.start > PlotHighlightMaxLookaround {
      assert false;
      passageStart := hit.start - PlotHighlightMaxLookaround;
    }
  }

  /** The forward scan: the first terminator in the window after the hit (the
      mark kept, the newline not), or the end of the window. */
  method PassageEnd(plot: string, hit: Span) returns (passageEnd: int)
    requires 0 <= hit.start <= hit.end <= |plot|
    ensures EndsPassage(plot, hit, passageEnd)
  {
    var endSearch := Min(|plot|, hit.end + PlotHighlightMaxLookaround);
    var after := Substring(plot, hit.end, endSearch);
    var j := FirstTerm(after, 0);
    if j < |after| {
      if after[j] == '\n' {
        passageEnd := hit.end + j;
      } else {
        passageEnd := hit.end + j + 1;
      }
    } else {
      passageEnd := endSearch;
    }
    if passageEnd == |plot| && |plot| - hit.end > PlotHighlightMaxLookaround {
      assert false;
      passageEnd := hit.end + PlotHighlightMaxLookaround;
    }
  }

  // ---------------------------------------------------------------------------
  // Merging overlapping passages

  lemma CoveredSnoc(ps: seq<Span>, p: Span, x: int)
    ensures Covered(ps + [p], x) <==> Covered(ps, x) || Holds(p, x)
  {
    var qs := ps + [p];
    if Covered(ps, x) {
      var k :| 0 <= k < |ps| && Holds(ps[k], x);
      assert qs[k] == ps[k];
    }
    if Holds(p, x) {
      assert Holds(qs[|ps|], x);
    }
    if Covered(qs, x) {
      var k :| 0 <= k < |qs| && Holds(qs[k], x);
      if k < |ps| {
        assert ps[k] == qs[k];
      }
    }
  }

  /** Coverage of a sequence is that of its elements. */
  lemma CoveredMembers(a: seq<Span>, b: seq<Span>, x: int)
    requires forall p :: p in a <==> p in b
    ensures Covered(a, x) <==> Covered(b, x)
  {
    if Covered(a, x) {
      var k :| 0 <= k < |a| && Holds(a[k], x);
      assert a[k] in b;
      var l :| 0 <= l < |b| && b[l] == a[k];
    }
    if Covered(b, x) {
      var k :| 0 <= k < |b| && Holds(b[k], x);
      assert b[k] in a;
      var l :| 0 <= l < |a| && a[l] == b[k];
    }
  }

  /** Extending the last passage by an overlapping one that starts no earlier
      covers exactly what the two cover. */
  lemma ExtendCovers(merged: seq<Span>, current: Span, x: int)
    requires merged != []
    requires merged[|merged| - 1].start <= current.start < merged[|merged| - 1].end
    ensures var last := merged[|merged| - 1];
      Covered(merged[..|merged| - 1] + [Span(last.start, Max(last.end, current.end))], x) <==>
      Covered(merged, x) || Holds(current, x)
  {
    var init := merged[..|merged| - 1];
    var last := merged[|merged| - 1];
    assert merged == init + [last];
    CoveredSnoc(init, last, x);
    CoveredSnoc(init, Span(last.start, Max(last.end, current.end)), x);
  }

  /** The merged passages so far are non-empty, in order and disjoint. */
  predicate Disjoint(merged: seq<Span>) {
    (forall k :: 0 <= k < |merged| - 1 ==> merged[k].end <= merged[k + 1].start) &&
    (forall k :: 0 <= k < |merged| ==> merged[k].start < merged[k].end)
  }

  /** Span `s` starts with, and contains, one of `sorted[..i]`. */
  ghost predicate OpenedBy(sorted: seq<Span>, i: nat, s: Span) {
    exists l :: 0 <= l < i && l < |sorted| && sorted[l].start == s.start && Inside(sorted[l], s)
  }

  /** Span `s` ends where one of `sorted[..i]` ends. */
  ghost predicate ClosedBy(sorted: seq<Span>, i: nat, s: Span) {
    exists l :: 0 <= l < i && l < |sorted| && sorted[l].end == s.end
  }

  /** Each merged passage starts with, and contains, one of `sorted[..i]`. */
  ghost predicate Origins(merged: seq<Span>, sorted: seq<Span>, i: nat) {
    forall k :: 0 <= k < |merged| ==> OpenedBy(sorted, i, merged[k])
  }

  /** Each merged passage ends where one of `sorted[..i]` ends. */
  ghost predicate Ends(merged: seq<Span>, sorted: seq<Span>, i: nat) {
    forall k :: 0 <= k < |merged| ==> ClosedBy(sorted, i, merged[k])
  }

  /** Each of `sorted[..i]` lies inside a merged passage. */
  ghost predicate Absorbed(merged: seq<Span>, sorted: seq<Span>, i: nat) {
    forall k {:trigger ContainedIn(sorted[k], merged)} :: 0 <= k < i && k < |sorted| ==> ContainedIn(sorted[k], merged)
  }

  /** What the merge loop keeps after taking in `sorted[..i]`. */
  ghost predicate MergeInv(merged: seq<Span>, sorted: seq<Span>, i: nat)
    requires i <= |sorted|
  {
    |merged| >= 1 && Disjoint(merged) &&
    (forall x :: Covered(merged, x) <==> Covered(sorted[..i], x)) &&
    Absorbed(merged, sorted, i) && Origins(merged, sorted, i) && Ends(merged, sorted, i)
  }

  /** One step of the merge loop: `current` overlaps the last passage, which is
      extended to its end, or it starts a new passage. */
  predicate IsStep(prev: seq<Span>, current: Span, next: seq<Span>)
    requires prev != []
  {
    var last := prev[|prev| - 1];
    next == if current.start < last.end
      then prev[..|prev| - 1] + [Span(last.start, Max(last.end, current.end))]
      else prev + [current]
  }

  lemma StepDisjoint(prev: seq<Span>, current: Span, next: seq<Span>)
    requires prev != [] && Disjoint(prev) && IsStep(prev, current, next)
    requires current.start < current.end && prev[|prev| - 1].start <= current.start
    ensures next != [] && Disjoint(next)
  {
  }

  lemma StepCovers(prev: seq<Span>, sorted: seq<Span>, i: nat, next: seq<Span>)
    requires i < |sorted| && prev != [] && IsStep(prev, sorted[i], next)
    requires prev[|prev| - 1].start <= sorted[i].start
    requires forall x :: Covered(prev, x) <==> Covered(sorted[..i], x)
    ensures forall x :: Covered(next, x) <==> Covered(sorted[..i + 1], x)
  {
    var current := sorted[i];
    assert sorted[..i + 1] == sorted[..i] + [current];
    forall x ensures Covered(next, x) <==> Covered(sorted[..i + 1], x) {
      if current.start < prev[|prev| - 1].end {
        ExtendCovers(prev, current, x);
      } else {
        CoveredSnoc(prev, current, x);
      }
      CoveredSnoc(sorted[..i], current, x);
    }
  }

  lemma StepAbsorbs(prev: seq<Span>, sorted: seq<Span>, i: nat, next: seq<Span>)
    requires i < |sorted| && prev != [] && IsStep(prev, sorted[i], next)
    requires prev[|prev| - 1].start <= sorted[i].start
    requires Absorbed(prev, sorted, i)
    ensures Absorbed(next, sorted, i + 1)
  {
    var current := sorted[i];
    var last := prev[|prev| - 1];
    forall k | 0 <= k < i + 1 ensures ContainedIn(sorted[k], next) {
      if k < i {
        assert ContainedIn(sorted[k], prev);
        var q :| 0 <= q < |prev| && Inside(sorted[k], prev[q]);
        if q < |prev| - 1 || current.start >= last.end {
          assert next[q] == prev[q];
        } else {
          assert Inside(sorted[k], next[q]);
        }
      } else {
        assert Inside(current, next[|next| - 1]);
      }
    }
  }

  lemma StepOrigins(prev: seq<Span>, sorted: seq<Span>, i: nat, next: seq<Span>)
    requires i < |sorted| && prev != [] && IsStep(prev, sorted[i], next)
    requires Origins(prev, sorted, i)
    ensures Origins(next, sorted, i + 1)
  {
    forall k | 0 <= k < |next| ensures OpenedBy(sorted, i + 1, next[k]) {
      if k < |prev| {
        var l :| 0 <= l < i && l < |sorted| && sorted[l].start == prev[k].start && Inside(sorted[l], prev[k]);
        assert Inside(sorted[l], next[k]);
      } else {
        assert Inside(sorted[i], next[k]);
      }
    }
  }

  lemma StepEnds(prev: seq<Span>, sorted: seq<Span>, i: nat, next: seq<Span>)
    requires i < |sorted| && prev != [] && IsStep(prev, sorted[i], next)
    requires Ends(prev, sorted, i)
    ensures Ends(next, sorted, i + 1)
  {
    var current := sorted[i];
    var last := prev[|prev| - 1];
    forall k | 0 <= k < |next| ensures ClosedBy(sorted, i + 1, next[k]) {
      if k < |prev| - 1 || (k == |prev| - 1 && (current.start >= last.end || last.end >= current.end)) {
        var l :| 0 <= l < i && l < |sorted| && sorted[l].end == prev[k].end;
        assert next[k] == prev[k] || next[k].end == prev[k].end;
      } else {
        assert sorted[i].end == next[k].end;
      }
    }
  }

  /** The merge loop keeps its invariant. */
  lemma MergeStep(prev: seq<Span>, sorted: seq<Span>, i: nat, next: seq<Span>)
    requires 1 <= i < |sorted| && Sorted(sorted, false)
    requires forall k :: 0 <= k < |sorted| ==> sorted[k].start < sorted[k].end
    requires MergeInv(prev, sorted, i) && IsStep(prev, sorted[i], next)
    ensures MergeInv(next, sorted, i + 1)
  {
    var last := prev[|prev| - 1];
    var l :| 0 <= l < i && l < |sorted| && sorted[l].start == last.start && Inside(sorted[l], last);
    assert !Before(sorted[i], sorted[l], false);
    StepDisjoint(prev, sorted[i], next);
    StepCovers(prev, sorted, i, next);
    StepAbsorbs(prev, sorted, i, next);
    StepOrigins(prev, sorted, i, next);
    StepEnds(prev, sorted, i, next);
  }

  lemma MergeStart(sorted: seq<Span>)
    requires sorted != [] && sorted[0].start < sorted[0].end
    ensures MergeInv([sorted[0]], sorted, 1)
  {
    var merged := [sorted[0]];
    assert sorted[..1] == merged;
    assert Inside(sorted[0], merged[0]);
  }

  /** The loop's invariant at its end, restated for the unsorted passages. */
  lemma MergeDoneCovers(merged: seq<Span>, sorted: seq<Span>, passages: seq<Span>)
    requires forall x :: Covered(merged, x) <==> Covered(sorted[..|sorted|], x)
    requires forall p :: p in sorted <==> p in passages
    ensures forall x :: Covered(merged, x) <==> Covered(passages, x)
  {
    assert sorted[..|sorted|] == sorted;
    forall x ensures Covered(merged, x) <==> Covered(passages, x) {
      CoveredMembers(sorted, passages, x);
    }
  }

  lemma MergeDoneAbsorbs(merged: seq<Span>, sorted: seq<Span>, passages: seq<Span>)
    requires Absorbed(merged, sorted, |sorted|)
    requires forall p :: p in sorted <==> p in passages
    ensures forall p {:trigger ContainedIn(p, merged)} :: p in passages ==> ContainedIn(p, merged)
  {
    forall p | p in passages ensures ContainedIn(p, merged) {
      var k :| 0 <= k < |sorted| && sorted[k] == p;
    }
  }

  lemma MergeDoneOrigins(merged: seq<Span>, sorted: seq<Span>, passages: seq<Span>)
    requires Origins(merged, sorted, |sorted|) && Ends(merged, sorted, |sorted|)
    requires forall p :: p in sorted <==> p in passages
    ensures forall k :: 0 <= k < |merged| ==> OpensWith(passages, merged[k])
    ensures forall k :: 0 <= k < |merged| ==> ClosesWith(passages, merged[k])
  {
    forall k | 0 <= k < |merged| ensures OpensWith(passages, merged[k]) {
      assert OpenedBy(sorted, |sorted|, merged[k]);
      var l :| 0 <= l < |sorted| && sorted[l].start == merged[k].start && Inside(sorted[l], merged[k]);
      assert sorted[l] in sorted;
      assert sorted[l] in passages;
    }
    forall k | 0 <= k < |merged| ensures ClosesWith(passages, merged[k]) {
      assert ClosedBy(sorted, |sorted|, merged[k]);
      var l :| 0 <= l < |sorted| && sorted[l].end == merged[k].end;
      assert sorted[l] in sorted;
      assert sorted[l] in passages;
    }
  }

  /** Span `s` starts where one of the passages starts, and that passage lies in it. */
  ghost predicate OpensWith(passages: seq<Span>, s: Span) {
    exists p :: p in passages && p.start == s.start && Inside(p, s)
  }

  /** Span `s` ends where one of the passages ends. */
  ghost predicate ClosesWith(passages: seq<Span>, s: Span) {
    exists p :: p in passages && p.end == s.end
  }

  /** The spans of a sequence, as a set. */
  ghost function Members(ps: seq<Span>): iset<Span> {
    iset p | p in ps
  }

  /** Index `x` lies in one of the spans of `P`. */
  ghost predicate Covers(P: iset<Span>, x: int) {
    exists p :: p in P && Holds(p, x)
  }

  /** Index `x` lies strictly inside one of the spans of `P`: beyond its start. */
  ghost predicate Crosses(P: iset<Span>, x: int) {
    exists p :: p in P && p.start < x < p.end
  }

  /** Every index strictly inside `s` is crossed by a span of `P`: `s` is not two
      blocks of `P` that merely touch. */
  ghost predicate BridgedBy(P: iset<Span>, s: Span) {
    forall x :: s.start < x < s.end ==> Crosses(P, x)
  }

  lemma BridgedStart(sorted: seq<Span>)
    requires sorted != []
    ensures BridgedBy(Members(sorted), sorted[0])
  {
    assert sorted[0] in Members(sorted);
  }

  /** The first of the merged passages is bridged by itself; an extension of the
      last one by `current` is bridged by the old passage below its end and by
      `current` above it, since `current` starts before that end. */
  lemma StepBridged(prev: seq<Span>, sorted: seq<Span>, i: nat, next: seq<Span>)
    requires i < |sorted| && prev != [] && IsStep(prev, sorted[i], next)
    requires forall k :: 0 <= k < |prev| ==> BridgedBy(Members(sorted), prev[k])
    ensures forall k :: 0 <= k < |next| ==> BridgedBy(Members(sorted), next[k])
  {
    var P := Members(sorted);
    var current := sorted[i];
    var last := prev[|prev| - 1];
    assert current in P;
    forall k | 0 <= k < |next| ensures BridgedBy(P, next[k]) {
      if k < |prev| - 1 {
        assert next[k] == prev[k];
      } else if k == |prev| - 1 && current.start < last.end {
        assert BridgedBy(P, last);
        forall x | next[k].start < x < next[k].end ensures Crosses(P, x) {
          if x >= last.end {
            assert current.start < x < current.end;
          }
        }
      } else if k == |prev| - 1 {
        assert next[k] == prev[k];
      } else {
        assert next[k] == current;
      }
    }
  }

  lemma MembersSame(a: seq<Span>, b: seq<Span>)
    requires forall p :: p in a <==> p in b
    ensures Members(a) == Members(b)
  {
  }

  /** A chain is a disjoint run. */
  lemma ChainDisjoint(sel: seq<Span>, lo: int, hi: int)
    requires ChainFrom(sel, lo, hi)
    ensures Disjoint(sel)
  {
    ChainStarts(sel, lo, hi);
    ChainOrdered(sel, lo, hi);
  }

  /** Coverage by a sequence is coverage by its set of spans. */
  lemma CoversMembers(ps: seq<Span>, x: int)
    ensures Covered(ps, x) <==> Covers(Members(ps), x)
  {
    if Covers(Members(ps), x) {
      var p :| p in Members(ps) && Holds(p, x);
      var k :| 0 <= k < |ps| && ps[k] == p;
    }
    if Covered(ps, x) {
      var k :| 0 <= k < |ps| && Holds(ps[k], x);
      assert ps[k] in Members(ps);
    }
  }

  /** Each of a disjoint run of spans ends no later than any later one starts. */
  lemma {:induction false} DisjointOrdered(sel: seq<Span>)
    requires Disjoint(sel)
    ensures forall i, j :: 0 <= i < j < |sel| ==> sel[i].end <= sel[j].start
    decreases |sel|
  {
    if sel != [] {
      var rest := sel[1..];
      assert forall k :: 0 <= k < |rest| ==> rest[k] == sel[k + 1];
      DisjointOrdered(rest);
      forall j | 0 < j < |sel| ensures sel[0].end <= sel[j].start {
        if j > 1 {
          assert rest[0].end <= rest[j - 1].start;
        }
      }
    }
  }

  /** The rest of a disjoint run covers what the run covers past its first span. */
  lemma CoveredTail(sel: seq<Span>, x: int)
    requires sel != [] && Disjoint(sel)
    ensures Covered(sel[1..], x) <==> Covered(sel, x) && x >= sel[0].end
  {
    DisjointOrdered(sel);
    var rest := sel[1..];
    if Covered(rest, x) {
      var k :| 0 <= k < |rest| && Holds(rest[k], x);
      assert rest[k] == sel[k + 1];
    }
    if Covered(sel, x) && x >= sel[0].end {
      var k :| 0 <= k < |sel| && Holds(sel[k], x);
      assert k > 0 && rest[k - 1] == sel[k];
    }
  }

  /** No span of `P` that lies inside one of a disjoint run crosses the end of
      any span of the run. */
  lemma ContainedUncrossed(sel: seq<Span>, P: iset<Span>)
    requires Disjoint(sel)
    requires forall p :: p in P ==> ContainedIn(p, sel)
    ensures forall k :: 0 <= k < |sel| ==> !Crosses(P, sel[k].end)
  {
    DisjointOrdered(sel);
    forall k, p | 0 <= k < |sel| && p in P ensures p.end <= sel[k].end || sel[k].end <= p.start {
      var q :| 0 <= q < |sel| && Inside(p, sel[q]);
      if q < k {
        assert sel[q].end <= sel[k].start;
      } else if q > k {
        assert sel[k].end <= sel[q].start;
      }
    }
  }

  /** A disjoint run whose spans are bridged by `P` and whose ends no span of `P`
      crosses: the blocks `P` forms. */
  ghost predicate BlocksOf(sel: seq<Span>, P: iset<Span>) {
    Disjoint(sel) && forall k :: 0 <= k < |sel| ==> BridgedBy(P, sel[k]) && !Crosses(P, sel[k].end)
  }

  /** Two runs of blocks of `P` that cover the same indices are the same run. */
  lemma {:induction false} BlocksUnique(a: seq<Span>, b: seq<Span>, P: iset<Span>)
    requires BlocksOf(a, P) && BlocksOf(b, P)
    requires forall x :: Covered(a, x) <==> Covered(b, x)
    ensures a == b
    decreases |a| + |b|
  {
    EmptyAlike(a, b);
    if a == [] {
      return;
    }
    SameFirst(a, b, P);
    SameFirst(b, a, P);
    BlocksTail(a, P);
    BlocksTail(b, P);
    TailsCover(a, b);
    BlocksUnique(a[1..], b[1..], P);
    assert a == [a[0]] + a[1..] && b == [b[0]] + b[1..];
  }

  /** Runs covering the same indices are both empty or both not. */
  lemma EmptyAlike(a: seq<Span>, b: seq<Span>)
    requires Disjoint(a) && Disjoint(b)
    requires forall x :: Covered(a, x) <==> Covered(b, x)
    ensures a == [] <==> b == []
  {
    if a != [] {
      assert Holds(a[0], a[0].start) && Covered(a, a[0].start);
    }
    if b != [] {
      assert Holds(b[0], b[0].start) && Covered(b, b[0].start);
    }
  }

  lemma BlocksTail(a: seq<Span>, P: iset<Span>)
    requires a != [] && BlocksOf(a, P)
    ensures BlocksOf(a[1..], P)
  {
    assert forall k :: 0 <= k < |a| - 1 ==> a[1..][k] == a[k + 1];
  }

  /** Runs with the same first span that cover the same indices have tails that
      cover the same indices. */
  lemma TailsCover(a: seq<Span>, b: seq<Span>)
    requires a != [] && b != [] && Disjoint(a) && Disjoint(b) && a[0] == b[0]
    requires forall x :: Covered(a, x) <==> Covered(b, x)
    ensures forall x :: Covered(a[1..], x) <==> Covered(b[1..], x)
  {
    forall x ensures Covered(a[1..], x) <==> Covered(b[1..], x) {
      CoveredTail(a, x);
      CoveredTail(b, x);
    }
  }

  /** The first span of `a` starts no later and ends no later than that of `b`. */
  lemma SameFirst(a: seq<Span>, b: seq<Span>, P: iset<Span>)
    requires a != [] && b != [] && Disjoint(a) && Disjoint(b)
    requires forall x :: Covered(a, x) <==> Covered(b, x)
    requires BridgedBy(P, a[0]) && !Crosses(P, b[0].end)
    ensures a[0].start <= b[0].start && a[0].end <= b[0].end
  {
    DisjointOrdered(a);
    assert Holds(b[0], b[0].start) && Covered(b, b[0].start);
    var j :| 0 <= j < |a| && Holds(a[j], b[0].start);
    assert a[0].start <= a[j].start;
    assert !(a[0].start < b[0].end < a[0].end);
  }

  /** The merge loop over passages sorted by start. */
  method MergeSorted(sorted: seq<Span>) returns (merged: seq<Span>)
    requires sorted != [] && Sorted(sorted, false)
    requires forall k :: 0 <= k < |sorted| ==> sorted[k].start < sorted[k].end
    ensures MergeInv(merged, sorted, |sorted|)
    ensures forall k :: 0 <= k < |merged| ==> BridgedBy(Members(sorted), merged[k])
  {
    MergeStart(sorted);
    merged := [sorted[0]];
    BridgedStart(sorted);
    var i := 1;
    while i < |sorted|
      invariant 1 <= i <= |sorted|
      invariant MergeInv(merged, sorted, i)
      invariant forall k :: 0 <= k < |merged| ==> BridgedBy(Members(sorted), merged[k])
    {
      ghost var prev := merged;
      merged := MergeOne(merged, sorted[i]);
      MergeStep(prev, sorted, i, merged);
      StepBridged(prev, sorted, i, merged);
      i := i + 1;
    }
  }

  /** One turn of the merge loop: widen the last merged passage when `current`
      overlaps it, and otherwise append `current`. */
  method MergeOne(merged: seq<Span>, current: Span) returns (next: seq<Span>)
    requires merged != []
    ensures IsStep(merged, current, next)
  {
    var last := merged[|merged| - 1];
    if current.start < last.end {
      last := Span(last.start, Max(last.end, current.end));
      next := merged[..|merged| - 1] + [last];
    } else {
      next := merged + [current];
    }
  }

  /** `passages.sort(...)` and the merge of overlapping passages: the result is
      sorted and disjoint, covers exactly the indices the passages cover, holds
      every passage inside one of its own, joins only passages that overlap (every
      index strictly inside a merged passage is strictly inside an input passage,
      so passages that only touch stay apart), and each of its passages starts with
      an input passage and ends where one ends. */
  method MergePassages(passages: seq<Span>) returns (merged: seq<Span>)
    requires forall k :: 0 <= k < |passages| ==> passages[k].start < passages[k].end
    ensures merged == [] <==> passages == []
    ensures forall k :: 0 <= k < |merged| - 1 ==> merged[k].end <= merged[k + 1].start
    ensures forall k :: 0 <= k < |merged| ==> merged[k].start < merged[k].end
    ensures forall x :: Covered(merged, x) <==> Covered(passages, x)
    ensures forall p {:trigger ContainedIn(p, merged)} :: p in passages ==> ContainedIn(p, merged)
    ensures forall k :: 0 <= k < |merged| ==> OpensWith(passages, merged[k])
    ensures forall k :: 0 <= k < |merged| ==> ClosesWith(passages, merged[k])
    ensures forall k :: 0 <= k < |merged| ==> BridgedBy(Members(passages), merged[k])
  {
    if |passages| == 0 {
      return [];
    }
    var sorted := SortSpans(passages, false);
    SortSpansSorted(passages, false);
    SortSpansMembers(passages, false);
    assert passages[0] in sorted;
    forall k | 0 <= k < |sorted| ensures sorted[k].start < sorted[k].end {
      assert sorted[k] in passages;
    }
    merged := MergeSorted(sorted);
    MergeDoneCovers(merged, sorted, passages);
    MergeDoneAbsorbs(merged, sorted, passages);
    MergeDoneOrigins(merged, sorted, passages);
    MembersSame(sorted, passages);
  }

  /** What the contract of `MergePassages` says of its result. */
  ghost predicate MergeOf(passages: seq<Span>, merged: seq<Span>) {
    Disjoint(merged) &&
    (forall x :: Covered(merged, x) <==> Covered(passages, x)) &&
    (forall p {:trigger ContainedIn(p, merged)} :: p in passages ==> ContainedIn(p, merged)) &&
    (forall k :: 0 <= k < |merged| ==> BridgedBy(Members(passages), merged[k]))
  }

  /** That contract leaves one result only. */
  lemma MergeUnique(passages: seq<Span>, a: seq<Span>, b: seq<Span>)
    requires MergeOf(passages, a) && MergeOf(passages, b)
    ensures a == b
  {
    ContainedUncrossed(a, Members(passages));
    ContainedUncrossed(b, Members(passages));
    BlocksUnique(a, b, Members(passages));
  }

  /** Passages that only touch are not merged. */
  lemma TouchingStayApart(merged: seq<Span>)
    requires MergeOf([Span(0, 5), Span(5, 10)], merged)
    ensures merged == [Span(0, 5), Span(5, 10)]
  {
    var ps := [Span(0, 5), Span(5, 10)];
    assert Inside(ps[0], ps[0]) && Inside(ps[1], ps[1]);
    assert ps[0] in Members(ps) && ps[1] in Members(ps);
    MergeUnique(ps, ps, merged);
  }

  /** Passages that overlap are. */
  lemma OverlappingJoin(merged: seq<Span>)
    requires MergeOf([Span(0, 5), Span(4, 10)], merged)
    ensures merged == [Span(0, 10)]
  {
    var ps := [Span(0, 5), Span(4, 10)];
    var joined := [Span(0, 10)];
    assert Inside(ps[0], joined[0]) && Inside(ps[1], joined[0]);
    assert ps[0] in Members(ps) && ps[1] in Members(ps);
    forall x ensures Covered(joined, x) <==> Covered(ps, x) {
      if 0 <= x < 5 {
        assert Holds(ps[0], x);
      } else if 5 <= x < 10 {
        assert Holds(ps[1], x);
      }
    }
    MergeUnique(ps, joined, merged);
  }

  // ---------------------------------------------------------------------------
  // The whole search

  /** Ordered disjoint spans within `[lo, hi]` form a chain. */
  lemma {:induction false} ChainOfOrdered(ms: seq<Span>, lo: int, hi: int)
    requires forall k :: 0 <= k < |ms| - 1 ==> ms[k].end <= ms[k + 1].start
    requires forall k :: 0 <= k < |ms| ==> ms[k].start < ms[k].end <= hi
    requires ms != [] ==> lo <= ms[0].start
    ensures ChainFrom(ms, lo, hi)
    decreases |ms|
  {
    if ms != [] {
      var rest := ms[1..];
      assert forall k :: 0 <= k < |rest| ==> rest[k] == ms[k + 1];
      ChainOfOrdered(rest, ms[0].end, hi);
    }
  }

  /** `p` is the passage of one of the hits of the variants. */
  ghost predicate HitPassage(plot: string, parts: seq<string>, p: Span)
    requires ValidVariants(parts)
  {
    exists h :: h in Hits(plot, parts) && IsPassageOf(plot, h, p)
  }

  /** The passages of the hits, before they are merged. */
  ghost function HitPassages(plot: string, parts: seq<string>): iset<Span>
    requires ValidVariants(parts)
  {
    iset p | HitPassage(plot, parts, p)
  }

  /** `findStyledPassages(rawPlot, nameInfo)` for the variants `parts`: the styled
      passages are sorted, disjoint, non-empty ranges of the plot; they are the
      passages of the hits merged where they overlap: each hit's passage lies in
      one of them, they cover exactly what those passages cover, and every index
      strictly inside one of them is strictly inside a hit's passage; every
      passage holds an occurrence of a variant; every match the variant scans
      report lies inside a passage; and there are none exactly when nothing
      matches. */
  method FindStyledPassages(plot: string, parts: seq<string>) returns (styled: seq<Span>)
    requires ValidVariants(parts)
    ensures styled == [] <==> plot == [] || parts == [] || AllMatches(plot, parts) == []
    ensures ChainFrom(styled, 0, |plot|)
    ensures forall p :: p in HitPassages(plot, parts) ==> ContainedIn(p, styled)
    ensures forall x :: Covered(styled, x) <==> Covers(HitPassages(plot, parts), x)
    ensures forall k :: 0 <= k < |styled| ==> BridgedBy(HitPassages(plot, parts), styled[k])
    ensures forall m {:trigger ContainedIn(m, styled)} :: m in AllMatches(plot, parts) ==> ContainedIn(m, styled)
    ensures forall k :: 0 <= k < |styled| ==> HoldsOccurrence(plot, parts, styled[k])
  {
    if plot == [] || parts == [] {
      AllMatchesSound(plot, parts);
      NoHits(plot, parts);
      return [];
    }
    var hits := LocateHits(plot, parts);
    HitsInPlot(plot, parts);
    var passages := ResolveAll(plot, hits);
    if |passages| == 0 {
      return [];
    }
    styled := MergePassages(passages);
    StyledFacts(plot, parts, hits, passages, styled);
  }

  /** The hits lie inside the plot, and there are some exactly when there is a
      match. */
  lemma HitsInPlot(plot: string, parts: seq<string>)
    requires ValidVariants(parts)
    ensures var hits := Hits(plot, parts);
      (forall l :: 0 <= l < |hits| ==> 0 <= hits[l].start < hits[l].end <= |plot|) &&
      (hits == [] <==> AllMatches(plot, parts) == [])
  {
    var hits := Hits(plot, parts);
    HitsFacts(plot, parts);
    forall l | 0 <= l < |hits| ensures 0 <= hits[l].start < hits[l].end <= |plot| {
      assert hits[l] in hits;
      var v :| v in parts && IsMatchOf(plot, v, hits[l]);
      var iv :| 0 <= iv < |parts| && parts[iv] == v;
    }
    if hits != [] {
      assert hits[0] in hits;
    }
    if AllMatches(plot, parts) != [] {
      assert ContainedIn(AllMatches(plot, parts)[0], hits);
    }
  }

  /** The merge of the hits' passages has every property `FindStyledPassages`
      promises. */
  lemma StyledFacts(plot: string, parts: seq<string>, hits: seq<Span>, passages: seq<Span>, styled: seq<Span>)
    requires ValidVariants(parts) && hits == Hits(plot, parts) && |passages| == |hits|
    requires forall l :: 0 <= l < |hits| ==> IsPassageOf(plot, hits[l], passages[l])
    requires forall l :: 0 <= l < |hits| ==>
      Inside(hits[l], passages[l]) && 0 <= passages[l].start < passages[l].end <= |plot|
    requires MergeOf(passages, styled)
    requires forall k :: 0 <= k < |styled| ==> OpensWith(passages, styled[k])
    requires forall k :: 0 <= k < |styled| ==> ClosesWith(passages, styled[k])
    ensures ChainFrom(styled, 0, |plot|)
    ensures forall p :: p in HitPassages(plot, parts) ==> ContainedIn(p, styled)
    ensures forall x :: Covered(styled, x) <==> Covers(HitPassages(plot, parts), x)
    ensures forall k :: 0 <= k < |styled| ==> BridgedBy(HitPassages(plot, parts), styled[k])
    ensures forall m {:trigger ContainedIn(m, styled)} :: m in AllMatches(plot, parts) ==> ContainedIn(m, styled)
    ensures forall k :: 0 <= k < |styled| ==> HoldsOccurrence(plot, parts, styled[k])
  {
    HitsFacts(plot, parts);
    HitPassagesAre(plot, parts, hits, passages);
    StyledOfHits(plot, parts, passages, styled);
    MergedStarts(passages, styled);
    MergedEnds(passages, styled, |plot|);
    ChainOfOrdered(styled, 0, |plot|);
    MergedContains(AllMatches(plot, parts), hits, passages, styled);
    MergedOrigins(plot, parts, hits, passages, styled);
  }

  /** Without a plot or a variant there is no hit. */
  lemma NoHits(plot: string, parts: seq<string>)
    requires ValidVariants(parts) && (plot == [] || parts == [])
    ensures forall h :: h !in Hits(plot, parts)
  {
    HitsFacts(plot, parts);
  }

  /** The passages the loop resolves are the passages of the hits. */
  lemma HitPassagesAre(plot: string, parts: seq<string>, hits: seq<Span>, passages: seq<Span>)
    requires ValidVariants(parts) && hits == Hits(plot, parts) && |passages| == |hits|
    requires forall l :: 0 <= l < |hits| ==> IsPassageOf(plot, hits[l], passages[l])
    ensures HitPassages(plot, parts) == Members(passages)
  {
    forall p | p in HitPassages(plot, parts) ensures p in passages {
      var h :| h in hits && IsPassageOf(plot, h, p);
      var l :| 0 <= l < |hits| && hits[l] == h;
      PassageUnique(plot, h, p, passages[l]);
    }
    forall p | p in passages ensures p in HitPassages(plot, parts) {
      var l :| 0 <= l < |passages| && passages[l] == p;
      assert hits[l] in hits;
    }
  }

  /** The merge of the hits' passages, restated for their set. */
  lemma StyledOfHits(plot: string, parts: seq<string>, passages: seq<Span>, styled: seq<Span>)
    requires ValidVariants(parts) && HitPassages(plot, parts) == Members(passages)
    requires forall x :: Covered(styled, x) <==> Covered(passages, x)
    requires forall p {:trigger ContainedIn(p, styled)} :: p in passages ==> ContainedIn(p, styled)
    ensures forall p :: p in HitPassages(plot, parts) ==> ContainedIn(p, styled)
    ensures forall x :: Covered(styled, x) <==> Covers(HitPassages(plot, parts), x)
  {
    forall x ensures Covered(styled, x) <==> Covers(HitPassages(plot, parts), x) {
      CoversMembers(passages, x);
    }
  }

  /** Span `s` holds an occurrence of one of the variants. */
  ghost predicate HoldsOccurrence(plot: string, parts: seq<string>, s: Span) {
    exists v, h :: v in parts && IsMatchOf(plot, v, h) && Inside(h, s)
  }

  /** The passage of every hit, in hit order (the `forEach` over the hits): each
      is that hit's passage, holds the hit and lies inside the plot. */
  method ResolveAll(plot: string, hits: seq<Span>) returns (passages: seq<Span>)
    requires forall l :: 0 <= l < |hits| ==> 0 <= hits[l].start < hits[l].end <= |plot|
    ensures |passages| == |hits|
    ensures forall l :: 0 <= l < |hits| ==> IsPassageOf(plot, hits[l], passages[l])
    ensures forall l :: 0 <= l < |hits| ==>
      Inside(hits[l], passages[l]) && 0 <= passages[l].start < passages[l].end <= |plot|
  {
    passages := [];
    var k := 0;
    while k < |hits|
      invariant 0 <= k <= |hits| && |passages| == k
      invariant forall l :: 0 <= l < k ==> IsPassageOf(plot, hits[l], passages[l])
      invariant forall l :: 0 <= l < k ==>
        Inside(hits[l], passages[l]) && 0 <= passages[l].start < passages[l].end <= |plot|
    {
      var p := ResolvePassage(plot, hits[k]);
      ghost var prev := passages;
      passages := passages + [p];
      assert forall l :: 0 <= l < k ==> passages[l] == prev[l];
      k := k + 1;
    }
  }

  /** A merged passage starts where one of the passages it merges starts. */
  lemma MergedStarts(passages: seq<Span>, styled: seq<Span>)
    requires forall l :: 0 <= l < |passages| ==> 0 <= passages[l].start
    requires forall q :: 0 <= q < |styled| ==> OpensWith(passages, styled[q])
    ensures forall q :: 0 <= q < |styled| ==> 0 <= styled[q].start
  {
    forall q | 0 <= q < |styled| ensures 0 <= styled[q].start {
      var p :| p in passages && p.start == styled[q].start && Inside(p, styled[q]);
      assert exists l :: 0 <= l < |passages| && passages[l] == p;
      var l :| 0 <= l < |passages| && passages[l] == p;
    }
  }

  /** A merged passage ends where one of the passages it merges ends. */
  lemma MergedEnds(passages: seq<Span>, styled: seq<Span>, n: int)
    requires forall l :: 0 <= l < |passages| ==> passages[l].end <= n
    requires forall q :: 0 <= q < |styled| ==> ClosesWith(passages, styled[q])
    ensures forall q :: 0 <= q < |styled| ==> styled[q].end <= n
  {
    forall q | 0 <= q < |styled| ensures styled[q].end <= n {
      var p :| p in passages && p.end == styled[q].end;
      assert exists l :: 0 <= l < |passages| && passages[l] == p;
      var l :| 0 <= l < |passages| && passages[l] == p;
    }
  }

  /** Every merged passage holds a hit, and every hit is an occurrence of a variant. */
  lemma MergedOrigins(plot: string, parts: seq<string>, hits: seq<Span>, passages: seq<Span>, styled: seq<Span>)
    requires |passages| == |hits|
    requires forall h :: h in hits ==> exists v :: v in parts && IsMatchOf(plot, v, h)
    requires forall l :: 0 <= l < |hits| ==> Inside(hits[l], passages[l])
    requires forall q :: 0 <= q < |styled| ==> OpensWith(passages, styled[q])
    ensures forall q :: 0 <= q < |styled| ==> HoldsOccurrence(plot, parts, styled[q])
  {
    forall q | 0 <= q < |styled| ensures HoldsOccurrence(plot, parts, styled[q]) {
      var p :| p in passages && p.start == styled[q].start && Inside(p, styled[q]);
      var l :| 0 <= l < |passages| && passages[l] == p;
      assert hits[l] in hits;
      var v :| v in parts && IsMatchOf(plot, v, hits[l]);
      assert Inside(hits[l], styled[q]);
    }
  }

  /** A match inside a hit, inside its passage, inside a merged passage. */
  lemma MergedContains(ms: seq<Span>, hits: seq<Span>, passages: seq<Span>, styled: seq<Span>)
    requires |passages| == |hits|
    requires forall m {:trigger ContainedIn(m, hits)} :: m in ms ==> ContainedIn(m, hits)
    requires forall l :: 0 <= l < |hits| ==> Inside(hits[l], passages[l])
    requires forall p {:trigger ContainedIn(p, styled)} :: p in passages ==> ContainedIn(p, styled)
    ensures forall m {:trigger ContainedIn(m, styled)} :: m in ms ==> ContainedIn(m, styled)
  {
    forall m | m in ms ensures ContainedIn(m, styled) {
      assert ContainedIn(m, hits);
      var l :| 0 <= l < |hits| && Inside(m, hits[l]);
      assert passages[l] in passages;
      assert ContainedIn(passages[l], styled);
      var q :| 0 <= q < |styled| && Inside(passages[l], styled[q]);
      assert Inside(m, styled[q]);
    }
  }
}

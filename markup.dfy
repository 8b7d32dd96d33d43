/** What the highlighter's HTML output means: the characters a browser shows and
    the `<span>` elements each character sits in. `Render` reads a string of HTML
    left to right: a tag `<...>` either opens an element (pushed on the stack of open
    elements), closes the innermost one (`</span>`) or is a line break (`<br>`,
    shown as a newline); an entity shows its character; any other character shows
    itself. `WellFormed` is the safety property of escaped output: every `<` starts
    one of an allowed set of tags, every `&` starts one of the five entities, and
    no raw `>`, `"` or `'` appears. */
module Markup {
  import opened Strings

  const CharSpanOpen: string := "<span class=\"highlighted-character\">"
  const FadedSpanOpen: string := "<span class=\"sentence-faded\">"
  const MatchSpanOpen: string := "<span class=\"sentence-highlight-match\">"
  const SpanClose: string := "</span>"
  const LineBreak: string := "<br>"

  /** The tags a name-part highlight may contain. */
  const InlineTags: set<string> := {CharSpanOpen, SpanClose}
  /** The tags the rendered plot may contain. */
  const PlotTags: set<string> := {CharSpanOpen, FadedSpanOpen, MatchSpanOpen, SpanClose, LineBreak}

  /** A tag: `<`, then no `>` until the final `>`. */
  predicate IsTag(t: string) {
    |t| >= 2 && t[0] == '<' && t[|t| - 1] == '>' &&
    forall k :: 0 <= k < |t| - 1 ==> t[k] != '>'
  }

  ghost predicate AllTags(tags: set<string>) {
    forall t :: t in tags ==> IsTag(t)
  }

  lemma PlotTagsAreTags()
    ensures AllTags(PlotTags) && AllTags(InlineTags)
    ensures InlineTags <= PlotTags
  {
    assert IsTag(CharSpanOpen);
    assert IsTag(FadedSpanOpen);
    assert IsTag(MatchSpanOpen);
    assert IsTag(SpanClose);
    assert IsTag(LineBreak);
  }

  /** Length of the tag at the front of `s`: through the first `>`, or all of `s`. */
  function TagLength(s: string): (n: nat)
    requires s != [] && s[0] == '<'
    ensures 1 <= n <= |s|
  {
    var j := IndexOf(s, '>', 0);
    if j < |s| then j + 1 else |s|
  }

  lemma TagAtFront(t: string, rest: string)
    requires IsTag(t)
    ensures TagLength(t + rest) == |t|
    ensures (t + rest)[..|t|] == t && (t + rest)[|t|..] == rest
  {
    var s := t + rest;
    assert forall k :: 0 <= k < |t| - 1 ==> s[k] == t[k];
    assert s[|t| - 1] == '>';
  }

  /** Length of the entity at the front of `s`, or 0 when `&` starts none. */
  function EntityLength(s: string): nat
    requires s != [] && s[0] == '&'
  {
    if |s| < 2 then 0
    else if s[1] == 'a' then (if StartsWith(s, "&amp;") then 5 else 0)
    else if s[1] == 'l' then (if StartsWith(s, "&lt;") then 4 else 0)
    else if s[1] == 'g' then (if StartsWith(s, "&gt;") then 4 else 0)
    else if s[1] == 'q' then (if StartsWith(s, "&quot;") then 6 else 0)
    else if s[1] == '#' then (if StartsWith(s, "&#039;") then 6 else 0)
    else 0
  }

  /** The character an entity at the front of `s` stands for. */
  function EntityChar(s: string): char
    requires s != [] && s[0] == '&' && EntityLength(s) > 0
  {
    if s[1] == 'a' then '&' else if s[1] == 'l' then '<' else if s[1] == 'g' then '>'
    else if s[1] == 'q' then '"' else '\''
  }

  /** A shown character and the opening tags of the elements it is inside,
      outermost first. */
  datatype Styled = Styled(ch: char, spans: seq<string>)

  function Pop(open: seq<string>): seq<string> {
    if open == [] then [] else open[..|open| - 1]
  }

  /** The open elements after tag `t`. */
  function AfterTag(t: string, open: seq<string>): seq<string> {
    if t == SpanClose then Pop(open) else if t == LineBreak then open else open + [t]
  }

  /** What `s` shows, read with the elements `open` already open. */
  function Render(s: string, open: seq<string>): seq<Styled>
    decreases |s|
  {
    if s == [] then []
    else if s[0] == '<' then
      var n := TagLength(s);
      (if s[..n] == LineBreak then [Styled('\n', open)] else []) + Render(s[n..], AfterTag(s[..n], open))
    else if s[0] == '&' && EntityLength(s) > 0 then
      [Styled(EntityChar(s), open)] + Render(s[EntityLength(s)..], open)
    else [Styled(s[0], open)] + Render(s[1..], open)
  }

  /** The elements still open after reading `s`. */
  function OpenAfter(s: string, open: seq<string>): seq<string>
    decreases |s|
  {
    if s == [] then open
    else if s[0] == '<' then
      var n := TagLength(s);
      OpenAfter(s[n..], AfterTag(s[..n], open))
    else if s[0] == '&' && EntityLength(s) > 0 then OpenAfter(s[EntityLength(s)..], open)
    else OpenAfter(s[1..], open)
  }

  /** The characters of a rendering: the text content. */
  function Chars(r: seq<Styled>): (t: string)
    ensures |t| == |r|
    ensures forall k :: 0 <= k < |r| ==> t[k] == r[k].ch
  {
    seq(|r|, k requires 0 <= k < |r| => r[k].ch)
  }

  /** The text content of `s`. */
  function Text(s: string): string {
    Chars(Render(s, []))
  }

  /** Every element `s` opens it also closes. */
  ghost predicate Balanced(s: string) {
    forall open :: OpenAfter(s, open) == open
  }

  /** Text shown as itself, inside the elements `open`. */
  function Plain(t: string, open: seq<string>): (r: seq<Styled>)
    ensures |r| == |t|
    ensures Chars(r) == t
  {
    seq(|t|, k requires 0 <= k < |t| => Styled(t[k], open))
  }

  /** Escaped, safe markup: `<` only as one of `tags`, `&` only as an entity, and no
      raw `>`, `"` or `'`. */
  predicate WellFormed(s: string, tags: set<string>)
    decreases |s|
  {
    if s == [] then true
    else if s[0] == '<' then s[..TagLength(s)] in tags && WellFormed(s[TagLength(s)..], tags)
    else if s[0] == '&' then EntityLength(s) > 0 && WellFormed(s[EntityLength(s)..], tags)
    else s[0] != '>' && s[0] != '"' && s[0] != '\'' && WellFormed(s[1..], tags)
  }

  lemma {:induction false} WellFormedMono(s: string, tags: set<string>, more: set<string>)
    requires WellFormed(s, tags) && tags <= more
    ensures WellFormed(s, more)
    decreases |s|
  {
    if s == [] {
    } else if s[0] == '<' {
      WellFormedMono(s[TagLength(s)..], tags, more);
    } else if s[0] == '&' {
      WellFormedMono(s[EntityLength(s)..], tags, more);
    } else {
      WellFormedMono(s[1..], tags, more);
    }
  }

  /** The entity at the front of well-formed text is unaffected by what follows. */
  lemma EntityAtFront(a: string, b: string)
    requires a != [] && a[0] == '&' && EntityLength(a) > 0
    ensures EntityLength(a + b) == EntityLength(a) && EntityChar(a + b) == EntityChar(a)
    ensures (a + b)[EntityLength(a)..] == a[EntityLength(a)..] + b
  {
    var n := EntityLength(a);
    assert (a + b)[..n] == a[..n];
  }

  /** Reading well-formed markup followed by anything: the front is read exactly
      as it would be on its own, and the rest continues from the elements it left
      open. */
  lemma {:induction false} RenderAppend(a: string, b: string, tags: set<string>, open: seq<string>)
    requires AllTags(tags) && WellFormed(a, tags)
    ensures Render(a + b, open) == Render(a, open) + Render(b, OpenAfter(a, open))
    ensures OpenAfter(a + b, open) == OpenAfter(b, OpenAfter(a, open))
    decreases |a|
  {
    if a == [] {
      assert a + b == b;
    } else {
      var n, o, x;
      if a[0] == '<' {
        n := TagLength(a);
        var t := a[..n];
        assert IsTag(t);
        assert a == t + a[n..];
        TagAtFront(t, a[n..] + b);
        assert a + b == t + (a[n..] + b);
        o := AfterTag(t, open);
        x := if t == LineBreak then [Styled('\n', open)] else [];
      } else if a[0] == '&' {
        n := EntityLength(a);
        EntityAtFront(a, b);
        o := open;
        x := [Styled(EntityChar(a), open)];
      } else {
        n := 1;
        assert (a + b)[1..] == a[1..] + b;
        o := open;
        x := [Styled(a[0], open)];
      }
      assert Render(a, open) == x + Render(a[n..], o);
      assert Render(a + b, open) == x + Render(a[n..] + b, o);
      assert OpenAfter(a, open) == OpenAfter(a[n..], o);
      assert OpenAfter(a + b, open) == OpenAfter(a[n..] + b, o);
      RenderAppend(a[n..], b, tags, o);
      SeqAssoc(x, Render(a[n..], o), Render(b, OpenAfter(a[n..], o)));
    }
  }

  lemma {:induction false} WellFormedAppend(a: string, b: string, tags: set<string>)
    requires AllTags(tags) && WellFormed(a, tags) && WellFormed(b, tags)
    ensures WellFormed(a + b, tags)
    decreases |a|
  {
    if a == [] {
      assert a + b == b;
    } else if a[0] == '<' {
      var n := TagLength(a);
      var t := a[..n];
      assert a == t + a[n..];
      TagAtFront(t, a[n..] + b);
      assert a + b == t + (a[n..] + b);
      WellFormedAppend(a[n..], b, tags);
    } else if a[0] == '&' {
      EntityAtFront(a, b);
      WellFormedAppend(a[EntityLength(a)..], b, tags);
    } else {
      assert (a + b)[1..] == a[1..] + b;
      WellFormedAppend(a[1..], b, tags);
    }
  }

  /** A single tag read on its own. */
  lemma RenderTag(t: string, open: seq<string>)
    requires IsTag(t)
    ensures Render(t, open) == (if t == LineBreak then [Styled('\n', open)] else [])
    ensures OpenAfter(t, open) == AfterTag(t, open)
    ensures WellFormed(t, {t})
  {
    TagAtFront(t, []);
    assert t + [] == t;
  }

  lemma CloseIsTag()
    ensures IsTag(SpanClose)
  {
  }

  /** An element wrapped around balanced well-formed content: the content is shown
      inside it, and nothing is left open. */
  lemma Wrap(t: string, inner: string, tags: set<string>, open: seq<string>)
    requires IsTag(t) && t != SpanClose && t != LineBreak
    requires AllTags(tags) && WellFormed(inner, tags)
    requires OpenAfter(inner, open + [t]) == open + [t]
    ensures Render(t + inner + SpanClose, open) == Render(inner, open + [t])
    ensures OpenAfter(t + inner + SpanClose, open) == open
    ensures WellFormed(t + inner + SpanClose, tags + {t, SpanClose})
  {
    CloseIsTag();
    var all := tags + {t, SpanClose};
    assert AllTags(all);
    WellFormedMono(inner, tags, all);
    WrapRender(t, inner, all, open);
    WrapWellFormed(t, inner, SpanClose, all);
  }

  lemma WrapRender(t: string, inner: string, all: set<string>, open: seq<string>)
    requires IsTag(t) && IsTag(SpanClose) && t != SpanClose && t != LineBreak
    requires AllTags(all) && t in all && SpanClose in all && WellFormed(inner, all)
    requires OpenAfter(inner, open + [t]) == open + [t]
    ensures Render(t + inner + SpanClose, open) == Render(inner, open + [t])
    ensures OpenAfter(t + inner + SpanClose, open) == open
  {
    RenderTag(t, open);
    RenderTag(SpanClose, open + [t]);
    assert Pop(open + [t]) == open;
    WellFormedMono(t, {t}, all);
    RenderAppend(t, inner + SpanClose, all, open);
    RenderAppend(inner, SpanClose, all, open + [t]);
    SeqAssoc(t, inner, SpanClose);
  }

  /** Two tags around well-formed content are well-formed when both are allowed. */
  lemma WrapWellFormed(t: string, inner: string, c: string, all: set<string>)
    requires IsTag(t) && IsTag(c)
    requires AllTags(all) && t in all && c in all && WellFormed(inner, all)
    ensures WellFormed(t + inner + c, all)
  {
    RenderTag(t, []);
    RenderTag(c, []);
    WellFormedMono(t, {t}, all);
    WellFormedMono(c, {c}, all);
    WellFormedAppend(inner, c, all);
    WellFormedAppend(t, inner + c, all);
    SeqAssoc(t, inner, c);
  }
}

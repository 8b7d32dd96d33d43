/** The deterministic helpers of js/utils.js: HTML escaping, regular-expression
    escaping, slugs, edge widths and node label sizes. */
module Utils {
  import opened Strings
  import opened Markup
  import Config

  // ---------------------------------------------------------------------------
  // htmlEscape

  /** `s.replace(/c/g, repl)` for a single character `c`. */
  function ReplaceAll(s: string, c: char, repl: string): string
  {
    if s == [] then [] else (if s[0] == c then repl else [s[0]]) + ReplaceAll(s[1..], c, repl)
  }

  /** `htmlEscape`: the empty string stays empty; otherwise the chain of five global
      replacements, `&` first, which amounts to escaping each character on its own. */
  function HtmlEscape(s: string): (r: string)
    ensures r == EscapeChars(s)
  {
    if s == [] then ""
    else
      ChainIsPerChar(s);
      Chain(s)
  }

  predicate IsHtmlSpecial(c: char) {
    c == '&' || c == '<' || c == '>' || c == '"' || c == '\''
  }

  /** The escape of one character. */
  function EscapeChar(c: char): string {
    if c == '&' then "&amp;" else if c == '<' then "&lt;" else if c == '>' then "&gt;"
    else if c == '"' then "&quot;" else if c == '\'' then "&#039;" else [c]
  }

  /** Escaping character by character. */
  function EscapeChars(s: string): string {
    if s == [] then [] else EscapeChar(s[0]) + EscapeChars(s[1..])
  }

  lemma {:induction false} ReplaceAllAppend(a: string, b: string, c: char, repl: string)
    ensures ReplaceAll(a + b, c, repl) == ReplaceAll(a, c, repl) + ReplaceAll(b, c, repl)
    decreases |a|
  {
    if a == [] {
      assert a + b == b;
    } else {
      assert (a + b)[1..] == a[1..] + b;
      ReplaceAllAppend(a[1..], b, c, repl);
    }
  }

  lemma {:induction false} ReplaceAllAbsent(s: string, c: char, repl: string)
    requires c !in s
    ensures ReplaceAll(s, c, repl) == s
    decreases |s|
  {
    if s != [] {
      ReplaceAllAbsent(s[1..], c, repl);
    }
  }

  /** The five replacements, applied in the source's order. */
  function Chain(s: string): string {
    ReplaceAll(ReplaceAll(ReplaceAll(ReplaceAll(ReplaceAll(
      s, '&', "&amp;"), '<', "&lt;"), '>', "&gt;"), '"', "&quot;"), '\'', "&#039;")
  }

  lemma ChainAppend(a: string, b: string)
    ensures Chain(a + b) == Chain(a) + Chain(b)
  {
    var a1, b1 := ReplaceAll(a, '&', "&amp;"), ReplaceAll(b, '&', "&amp;");
    ReplaceAllAppend(a, b, '&', "&amp;");
    var a2, b2 := ReplaceAll(a1, '<', "&lt;"), ReplaceAll(b1, '<', "&lt;");
    ReplaceAllAppend(a1, b1, '<', "&lt;");
    var a3, b3 := ReplaceAll(a2, '>', "&gt;"), ReplaceAll(b2, '>', "&gt;");
    ReplaceAllAppend(a2, b2, '>', "&gt;");
    var a4, b4 := ReplaceAll(a3, '"', "&quot;"), ReplaceAll(b3, '"', "&quot;");
    ReplaceAllAppend(a3, b3, '"', "&quot;");
    ReplaceAllAppend(a4, b4, '\'', "&#039;");
  }

  /** The chain sends each character to its own escape: no later replacement
      touches what an earlier one wrote. */
  lemma ReplaceAllOne(c: char, x: char, repl: string)
    ensures ReplaceAll([c], x, repl) == if c == x then repl else [c]
  {
    assert [c][1..] == [];
  }

  /** What the last replacements do to an escape an earlier one wrote: nothing. */
  lemma ChainTail(e: string, cs: seq<char>)
    requires forall k :: 0 <= k < |cs| ==> cs[k] !in e
    ensures ReplaceAllSteps(e, cs) == e
    decreases |cs|
  {
    if cs != [] {
      ReplaceAllAbsent(e, cs[0], Entity(cs[0]));
      ChainTail(e, cs[1..]);
    }
  }

  /** The entity `htmlEscape` writes for a special character. */
  function Entity(c: char): string {
    if c == '&' then "&amp;" else if c == '<' then "&lt;" else if c == '>' then "&gt;"
    else if c == '"' then "&quot;" else "&#039;"
  }

  /** Replacing each character of `cs` in turn by its entity. */
  function ReplaceAllSteps(s: string, cs: seq<char>): string
    decreases |cs|
  {
    if cs == [] then s else ReplaceAllSteps(ReplaceAll(s, cs[0], Entity(cs[0])), cs[1..])
  }

  const EscapeOrder: seq<char> := ['&', '<', '>', '"', '\'']

  lemma ChainIsSteps(s: string)
    ensures Chain(s) == ReplaceAllSteps(s, EscapeOrder)
  {
    var cs := EscapeOrder;
    assert cs[1..] == ['<', '>', '"', '\''];
    assert cs[1..][1..] == ['>', '"', '\''];
    assert cs[1..][1..][1..] == ['"', '\''];
    assert cs[1..][1..][1..][1..] == ['\''];
    assert cs[1..][1..][1..][1..][1..] == [];
  }

  /** One character through the steps from position `i` of the order on: it is
      replaced at its own step and left alone by every other step. */
  lemma {:induction false} StepsOneChar(c: char, i: nat)
    requires i <= 5
    requires forall k :: 0 <= k < i ==> EscapeOrder[k] != c
    ensures ReplaceAllSteps([c], EscapeOrder[i..]) == EscapeChar(c)
    decreases 5 - i
  {
    var cs := EscapeOrder[i..];
    if i == 5 {
      assert cs == [];
      assert EscapeOrder[0] != c && EscapeOrder[1] != c && EscapeOrder[2] != c;
      assert EscapeOrder[3] != c && EscapeOrder[4] != c;
    } else {
      assert cs[1..] == EscapeOrder[i + 1..];
      ReplaceAllOne(c, cs[0], Entity(cs[0]));
      if c == cs[0] {
        assert EscapeChar(c) == Entity(c);
        forall k | 0 <= k < |cs[1..]| ensures cs[1..][k] !in Entity(c) {
          assert cs[1..][k] == EscapeOrder[i + 1 + k];
        }
        ChainTail(Entity(c), cs[1..]);
      } else {
        StepsOneChar(c, i + 1);
      }
    }
  }

  lemma ChainOneChar(c: char)
    ensures Chain([c]) == EscapeChar(c)
  {
    ChainIsSteps([c]);
    assert EscapeOrder[0..] == EscapeOrder;
    StepsOneChar(c, 0);
  }

  /** The chained replacements of `htmlEscape` escape character by character. */
  lemma {:induction false} ChainIsPerChar(s: string)
    ensures Chain(s) == EscapeChars(s)
    decreases |s|
  {
    if s != [] {
      assert s == [s[0]] + s[1..];
      ChainAppend([s[0]], s[1..]);
      ChainOneChar(s[0]);
      ChainIsPerChar(s[1..]);
    }
  }

  lemma EscapeCharShows(c: char, open: seq<string>)
    ensures WellFormed(EscapeChar(c), {})
    ensures Render(EscapeChar(c), open) == [Styled(c, open)]
    ensures OpenAfter(EscapeChar(c), open) == open
  {
    var e := EscapeChar(c);
    if IsHtmlSpecial(c) {
      assert e[0] == '&';
      assert StartsWith(e, e);
      assert e[|e|..] == [];
    }
  }

  lemma {:induction false} EscapeCharsShow(s: string, open: seq<string>)
    ensures WellFormed(EscapeChars(s), {})
    ensures Render(EscapeChars(s), open) == Plain(s, open)
    ensures OpenAfter(EscapeChars(s), open) == open
    decreases |s|
  {
    if s != [] {
      EscapeCharShows(s[0], open);
      EscapeCharsShow(s[1..], open);
      RenderAppend(EscapeChar(s[0]), EscapeChars(s[1..]), {}, open);
      WellFormedAppend(EscapeChar(s[0]), EscapeChars(s[1..]), {});
      assert Plain(s, open) == [Styled(s[0], open)] + Plain(s[1..], open);
    }
  }

  /** Escaped text is safe markup (no raw `<`, `>`, `"` or `'`, and every `&`
      begins one of the five entities) that shows exactly the input, inside
      whatever elements are open, and leaves no element open. */
  lemma HtmlEscapeShows(s: string, open: seq<string>)
    ensures WellFormed(HtmlEscape(s), {})
    ensures Render(HtmlEscape(s), open) == Plain(s, open)
    ensures OpenAfter(HtmlEscape(s), open) == open
  {
    if s != [] {
      EscapeCharsShow(s, open);
    }
  }

  /** Decoding the entities of escaped text gives the text back. */
  lemma HtmlEscapeRoundTrip(s: string)
    ensures Text(HtmlEscape(s)) == s
    ensures Balanced(HtmlEscape(s))
  {
    HtmlEscapeShows(s, []);
    forall open ensures OpenAfter(HtmlEscape(s), open) == open {
      HtmlEscapeShows(s, open);
    }
  }

  /** Escaped text contains none of the raw characters `<`, `>`, `"`, `'`. */
  lemma {:induction false} EscapeCharsNoRaw(s: string)
    ensures forall k :: 0 <= k < |EscapeChars(s)| ==> var c := EscapeChars(s)[k];
      c != '<' && c != '>' && c != '"' && c != '\''
    decreases |s|
  {
    if s != [] {
      EscapeCharsNoRaw(s[1..]);
      var e := EscapeChar(s[0]);
      assert forall k :: 0 <= k < |e| ==> e[k] != '<' && e[k] != '>' && e[k] != '"' && e[k] != '\'';
    }
  }

  lemma HtmlEscapeNoRaw(s: string)
    ensures forall k :: 0 <= k < |HtmlEscape(s)| ==> var c := HtmlEscape(s)[k];
      c != '<' && c != '>' && c != '"' && c != '\''
  {
    EscapeCharsNoRaw(s);
  }

  /** Text with none of `&<>"'` is left as it is. */
  lemma {:induction false} HtmlEscapeIdentity(s: string)
    requires forall k :: 0 <= k < |s| ==> !IsHtmlSpecial(s[k])
    ensures HtmlEscape(s) == s
  {
    EscapeCharsIdentity(s);
  }

  lemma {:induction false} EscapeCharsIdentity(s: string)
    requires forall k :: 0 <= k < |s| ==> !IsHtmlSpecial(s[k])
    ensures EscapeChars(s) == s
    decreases |s|
  {
    if s != [] {
      EscapeCharsIdentity(s[1..]);
    }
  }

  // ---------------------------------------------------------------------------
  // escapeRegExp

  /** The characters `escapeRegExp` puts a backslash before. */
  predicate IsRegExpSpecial(c: char) {
    c == '.' || c == '*' || c == '+' || c == '?' || c == '^' || c == '$' || c == '{' ||
    c == '}' || c == '(' || c == ')' || c == '|' || c == '[' || c == ']' || c == '\\'
  }

  /** `escapeRegExp`: a backslash before every special character. */
  function EscapeRegExp(s: string): (r: string)
    ensures |r| >= |s|
  {
    if s == [] then []
    else (if IsRegExpSpecial(s[0]) then ['\\', s[0]] else [s[0]]) + EscapeRegExp(s[1..])
  }

  /** The literal text a pattern stands for, if it is made only of ordinary
      characters and backslash-escaped special characters; `None` for any pattern
      with an operator, class or other escape in it. */
  function PatternLiteral(p: string): Option<string>
  {
    if p == [] then Some([])
    else if p[0] == '\\' then
      if |p| >= 2 && IsRegExpSpecial(p[1]) then
        match PatternLiteral(p[2..])
        case Some(t) => Some([p[1]] + t)
        case None => None
      else None
    else if IsRegExpSpecial(p[0]) then None
    else
      match PatternLiteral(p[1..])
      case Some(t) => Some([p[0]] + t)
      case None => None
  }

  /** The escaped pattern is a plain literal for exactly the input: deleting the
      inserted backslashes gives the input back, and no character of it keeps a
      regular-expression meaning. */
  lemma {:induction false} EscapeRegExpIsLiteral(s: string)
    ensures PatternLiteral(EscapeRegExp(s)) == Some(s)
    decreases |s|
  {
    if s != [] {
      EscapeRegExpIsLiteral(s[1..]);
      var r := EscapeRegExp(s);
      if IsRegExpSpecial(s[0]) {
        assert r[2..] == EscapeRegExp(s[1..]);
      } else {
        assert r[0] == s[0] && r[0] != '\\';
        assert r[1..] == EscapeRegExp(s[1..]);
      }
      assert s == [s[0]] + s[1..];
    }
  }

  /** Strings without special characters are left as they are. */
  lemma {:induction false} EscapeRegExpIdentity(s: string)
    requires forall k :: 0 <= k < |s| ==> !IsRegExpSpecial(s[k])
    ensures EscapeRegExp(s) == s
    decreases |s|
  {
    if s != [] {
      EscapeRegExpIdentity(s[1..]);
    }
  }

  // ---------------------------------------------------------------------------
  // slugify

  function LowerAll(s: string): (r: string)
    ensures |r| == |s| && forall k :: 0 <= k < |s| ==> r[k] == Lower(s[k])
  {
    if s == [] then [] else [Lower(s[0])] + LowerAll(s[1..])
  }

  predicate IsSlugChar(c: char) {
    ('a' <= c <= 'z') || ('0' <= c <= '9') || c == '-'
  }

  /** `.replace(/[^a-z0-9\s-]/g, '')`. */
  function KeepSlugChars(s: string): (r: string)
    ensures forall k :: 0 <= k < |r| ==> IsSlugChar(r[k]) || IsSpace(r[k])
  {
    if s == [] then []
    else (if IsSlugChar(s[0]) || IsSpace(s[0]) then [s[0]] else []) + KeepSlugChars(s[1..])
  }

  predicate IsSeparator(c: char) {
    IsSpace(c) || c == '_' || c == '-'
  }

  /** Length of the run of separators at the front of `s`. */
  function SeparatorRun(s: string): (n: nat)
    ensures n <= |s|
    ensures n < |s| ==> !IsSeparator(s[n])
  {
    if s == [] || !IsSeparator(s[0]) then 0 else 1 + SeparatorRun(s[1..])
  }

  /** `.replace(/[\s_-]+/g, '-')`: each maximal run of separators becomes one `-`. */
  function CollapseSeparators(s: string): string
    decreases |s|
  {
    if s == [] then []
    else if IsSeparator(s[0]) then "-" + CollapseSeparators(s[SeparatorRun(s)..])
    else [s[0]] + CollapseSeparators(s[1..])
  }

  /** `.replace(/^-+|-+$/g, '')`. */
  function StripHyphens(s: string): string {
    DropTrailingHyphens(DropLeadingHyphens(s))
  }

  function DropLeadingHyphens(s: string): (r: string)
    ensures |r| <= |s| && (r != [] ==> r[0] != '-') && r == s[|s| - |r|..]
  {
    if s != [] && s[0] == '-' then DropLeadingHyphens(s[1..]) else s
  }

  function DropTrailingHyphens(s: string): (r: string)
    ensures |r| <= |s| && (r != [] ==> r[|r| - 1] != '-') && r == s[..|r|]
  {
    if s != [] && s[|s| - 1] == '-' then DropTrailingHyphens(s[..|s| - 1]) else s
  }

  /** `slugify`. */
  function Slugify(text: string): string
  {
    if text == [] then "unknown"
    else
      var r := StripHyphens(CollapseSeparators(KeepSlugChars(Trim(LowerAll(text)))));
      if r == [] then "slug_error" else r
  }

  /** A well-formed slug: non-empty, only `a-z`, `0-9` and `-`, no `-` at either
      end and never two in a row. */
  predicate IsSlug(s: string) {
    s != [] && (forall k :: 0 <= k < |s| ==> IsSlugChar(s[k])) &&
    s[0] != '-' && s[|s| - 1] != '-' &&
    forall k :: 0 < k < |s| ==> !(s[k - 1] == '-' && s[k] == '-')
  }

  /** After collapsing: slug characters only, and no two hyphens in a row. */
  predicate Collapsed(s: string) {
    (forall k :: 0 <= k < |s| ==> IsSlugChar(s[k])) &&
    forall k :: 0 < k < |s| ==> !(s[k - 1] == '-' && s[k] == '-')
  }

  lemma {:induction false} CollapseGivesCollapsed(s: string)
    requires forall k :: 0 <= k < |s| ==> IsSlugChar(s[k]) || IsSpace(s[k])
    ensures Collapsed(CollapseSeparators(s))
    ensures CollapseSeparators(s) != [] && CollapseSeparators(s)[0] == '-' ==> s != [] && IsSeparator(s[0])
    decreases |s|
  {
    if s != [] {
      if IsSeparator(s[0]) {
        var n := SeparatorRun(s);
        var rest := s[n..];
        CollapseGivesCollapsed(rest);
        var c := CollapseSeparators(rest);
        assert c != [] ==> c[0] != '-';
        assert CollapseSeparators(s) == "-" + c;
      } else {
        CollapseGivesCollapsed(s[1..]);
        assert CollapseSeparators(s) == [s[0]] + CollapseSeparators(s[1..]);
      }
    }
  }

  lemma CollapsedSuffix(s: string, i: nat)
    requires Collapsed(s) && i <= |s|
    ensures Collapsed(s[i..])
  {
    var t := s[i..];
    assert forall k :: 0 <= k < |t| ==> t[k] == s[i + k];
  }

  lemma CollapsedPrefix(s: string, j: nat)
    requires Collapsed(s) && j <= |s|
    ensures Collapsed(s[..j])
  {
    var t := s[..j];
    assert forall k :: 0 <= k < |t| ==> t[k] == s[k];
  }

  lemma StripKeepsCollapsed(s: string)
    requires Collapsed(s)
    ensures var r := StripHyphens(s); r == [] || IsSlug(r)
  {
    CollapsedSuffix(s, |s| - |DropLeadingHyphens(s)|);
    CollapsedPrefix(DropLeadingHyphens(s), |StripHyphens(s)|);
    if StripHyphens(s) != [] {
      assert StripHyphens(s)[0] == DropLeadingHyphens(s)[0];
    }
  }

  /** The three outcomes of `slugify`: `"unknown"` exactly for a falsy input,
      `"slug_error"` when nothing is left, and otherwise a well-formed slug. */
  lemma SlugifyOutcomes(text: string)
    ensures text == [] ==> Slugify(text) == "unknown"
    ensures text != [] ==> Slugify(text) == "slug_error" || IsSlug(Slugify(text))
  {
    if text != [] {
      var k := KeepSlugChars(Trim(LowerAll(text)));
      CollapseGivesCollapsed(k);
      StripKeepsCollapsed(CollapseSeparators(k));
    }
  }

  lemma {:induction false} KeepSlugCharsIdentity(s: string)
    requires forall k :: 0 <= k < |s| ==> IsSlugChar(s[k])
    ensures KeepSlugChars(s) == s
    decreases |s|
  {
    if s != [] { KeepSlugCharsIdentity(s[1..]); }
  }

  lemma {:induction false} LowerAllIdentity(s: string)
    requires forall k :: 0 <= k < |s| ==> !('A' <= s[k] <= 'Z')
    ensures LowerAll(s) == s
  {
  }

  lemma {:induction false} CollapseIdentity(s: string)
    requires Collapsed(s)
    ensures CollapseSeparators(s) == s
    decreases |s|
  {
    if s != [] {
      if IsSeparator(s[0]) {
        assert s[0] == '-';
        assert SeparatorRun(s) == 1 by {
          assert |s| > 1 ==> !IsSeparator(s[1]);
        }
        CollapseIdentity(s[1..]);
      } else {
        CollapseIdentity(s[1..]);
      }
    }
  }

  /** A well-formed slug is a fixed point of `slugify`. */
  lemma SlugIsFixedPoint(s: string)
    requires IsSlug(s)
    ensures Slugify(s) == s
  {
    LowerAllIdentity(s);
    assert !HasSpace(s);
    TrimNoSpace(s);
    KeepSlugCharsIdentity(s);
    CollapseIdentity(s);
  }

  /** `slugify` is idempotent except on its `"slug_error"` fallback. */
  lemma SlugifyIdempotent(text: string)
    requires Slugify(text) != "slug_error"
    ensures Slugify(Slugify(text)) == Slugify(text)
  {
    SlugifyOutcomes(text);
    if text == [] {
      assert IsSlug("unknown");
      SlugIsFixedPoint("unknown");
    } else {
      SlugIsFixedPoint(Slugify(text));
    }
  }

  // ---------------------------------------------------------------------------
  // getEdgeWidth, calculateNodeFontSize

  /** `getEdgeWidth`: the relationship strength's line width; only the strengths 2
      to 5 are wider than 1. A strength that is not one of these integers (absent,
      text, fractional) is modelled by any other integer and gets width 1. */
  function GetEdgeWidth(strength: int): (w: int)
    ensures 1 <= w <= 25
    ensures w > 1 <==> 2 <= strength <= 5
  {
    if strength == 5 then 25
    else if strength == 4 then 15
    else if strength == 3 then 6
    else if strength == 2 then 2
    else 1
  }

  /** A stronger relationship of strength 1 to 5 is drawn no thinner. */
  lemma EdgeWidthMonotone(a: int, b: int)
    requires 1 <= a <= b <= 5
    ensures GetEdgeWidth(a) <= GetEdgeWidth(b)
  {
  }

  /** `calculateNodeFontSize`: `min(20 + 5 * degree, 44)`. */
  function CalculateNodeFontSize(degree: int): (size: int)
    ensures degree >= 0 ==> Config.MinNodeLabelSize <= size <= Config.MaxNodeLabelSize
    ensures size <= Config.MaxNodeLabelSize
    ensures size == Config.MaxNodeLabelSize <==> degree >= 5
  {
    var grown := Config.MinNodeLabelSize + degree * Config.NodeLabelDegreeScaleFactor;
    if grown < Config.MaxNodeLabelSize then grown else Config.MaxNodeLabelSize
  }

  /** More connections never shrink a node's label. */
  lemma NodeFontSizeMonotone(a: int, b: int)
    requires a <= b
    ensures CalculateNodeFontSize(a) <= CalculateNodeFontSize(b)
  {
  }
}

module Strings {

  datatype Option<T> = None | Some(value: T)

  /** JavaScript's white space and line terminators: what `\s` matches and what
      `String.prototype.trim` removes. */
  predicate IsSpace(c: char) {
    var n := c as int;
    n == 9 || n == 10 || n == 11 || n == 12 || n == 13 || n == 32 || n == 0xA0 ||
    n == 0x1680 || (0x2000 <= n <= 0x200A) || n == 0x2028 || n == 0x2029 ||
    n == 0x202F || n == 0x205F || n == 0x3000 || n == 0xFEFF
  }

  /** The characters a regular-expression `.` does not match. */
  predicate IsLineTerminator(c: char) {
    c == '\n' || c == '\r' || c as int == 0x2028 || c as int == 0x2029
  }

  predicate IsBlank(s: string) {
    forall k :: 0 <= k < |s| ==> IsSpace(s[k])
  }

  predicate StartsWith(s: string, p: string) {
    |p| <= |s| && s[..|p|] == p
  }

  lemma StartsWithAppend(p: string, rest: string)
    ensures StartsWith(p + rest, p)
  {
    assert (p + rest)[..|p|] == p;
  }

  /** Concatenation regrouped; stated once so that long literal operands are not
      expanded when it is needed. */
  lemma SeqAssoc<T>(x: seq<T>, y: seq<T>, z: seq<T>)
    ensures x + (y + z) == x + y + z
  {
  }

  /** The parts around one element of a concatenation. */
  lemma SpliceAt<T>(a: seq<T>, x: T, b: seq<T>)
    ensures (a + ([x] + b))[|a|] == x
    ensures (a + ([x] + b))[..|a|] == a && (a + ([x] + b))[|a| + 1..] == b
  {
  }

  /** A prefix one element longer. */
  lemma TakeSnoc<T>(s: seq<T>, i: nat)
    requires 0 < i <= |s|
    ensures s[..i] == s[..i - 1] + [s[i - 1]]
  {
  }

  /** Indexing into three concatenated sequences. */
  lemma IndexThree<T>(a: seq<T>, b: seq<T>, c: seq<T>, k: int)
    requires 0 <= k < |a| + |b| + |c|
    ensures k < |a| ==> (a + b + c)[k] == a[k]
    ensures |a| <= k < |a| + |b| ==> (a + b + c)[k] == b[k - |a|]
    ensures |a| + |b| <= k ==> (a + b + c)[k] == c[k - |a| - |b|]
  {
  }

  /** The same for four strings. */
  lemma ConcatAssoc(a: string, b: string, c: string, d: string)
    ensures a + (b + c + d) == a + b + c + d
  {
  }

  /** Number of white-space characters at the front of `s`. */
  function LeadingSpaces(s: string): (n: nat)
    ensures n <= |s|
    ensures forall k :: 0 <= k < n ==> IsSpace(s[k])
    ensures n < |s| ==> !IsSpace(s[n])
  {
    if s == [] || !IsSpace(s[0]) then 0 else 1 + LeadingSpaces(s[1..])
  }

  /** Number of white-space characters at the end of `s`. */
  function TrailingSpaces(s: string): (n: nat)
    ensures n <= |s|
    ensures forall k :: |s| - n <= k < |s| ==> IsSpace(s[k])
    ensures n < |s| ==> !IsSpace(s[|s| - n - 1])
  {
    if s == [] || !IsSpace(s[|s| - 1]) then 0 else 1 + TrailingSpaces(s[..|s| - 1])
  }

  /** `s.trim()`: what is left once leading and trailing white space is removed.
      The result is a piece of `s` with only white space before and after it, and
      with none at either of its own ends. */
  function Trim(s: string): (r: string)
    ensures |r| <= |s|
    ensures exists a, b :: 0 <= a <= b <= |s| && r == s[a..b] && SpacesOutside(s, a, b, |s|)
    ensures r != [] ==> !IsSpace(r[0]) && !IsSpace(r[|r| - 1])
    ensures r == [] <==> IsBlank(s)
  {
    var a := LeadingSpaces(s);
    if a == |s| then
      assert SpacesOutside(s, a, a, |s|);
      []
    else
      var b := |s| - TrailingSpaces(s);
      assert a < b && SpacesOutside(s, a, b, |s|);
      s[a..b]
  }

  /** Only white space in `s` before `a` and from `b` up to `e`. */
  predicate SpacesOutside(s: string, a: int, b: int, e: int)
    requires 0 <= a <= b <= e <= |s|
  {
    (forall k :: 0 <= k < a ==> IsSpace(s[k])) && (forall k :: b <= k < e ==> IsSpace(s[k]))
  }

  /** Trimming a prefix of `s` leaves a piece of `s` with only white space
      between it and either end of the prefix. */
  lemma TrimPrefix(s: string, e: nat)
    requires e <= |s|
    ensures exists a, b :: 0 <= a <= b <= e && Trim(s[..e]) == s[a..b] && SpacesOutside(s, a, b, e)
  {
    var t := s[..e];
    var a, b :| 0 <= a <= b <= |t| && Trim(t) == t[a..b] && SpacesOutside(t, a, b, |t|);
    PieceOfPrefix(s, e, a, b);
  }

  /** A piece of a prefix of `s` is the same piece of `s`, with the same
      characters around it. */
  lemma PieceOfPrefix(s: string, e: nat, a: nat, b: nat)
    requires a <= b <= e <= |s| && SpacesOutside(s[..e], a, b, e)
    ensures s[..e][a..b] == s[a..b] && SpacesOutside(s, a, b, e)
  {
    var t := s[..e];
    forall k | 0 <= k < a || b <= k < e ensures IsSpace(s[k]) {
      assert t[k] == s[k];
    }
  }

  /** Trimming leaves a string without white space unchanged. */
  lemma TrimNoSpace(s: string)
    requires !HasSpace(s)
    ensures Trim(s) == s
  {
    if s != [] {
      assert !IsSpace(s[0]) && !IsSpace(s[|s| - 1]);
    }
  }

  /** ASCII lower-casing of one character. */
  function Lower(c: char): (d: char)
    ensures 'A' <= c <= 'Z' ==> 'a' <= d <= 'z'
    ensures !('A' <= c <= 'Z') ==> d == c
  {
    if 'A' <= c <= 'Z' then (c as int + 32) as char else c
  }

  /** Equality of two characters when case is ignored, as the `i` flag does. */
  predicate SameIgnoringCase(a: char, b: char) {
    Lower(a) == Lower(b)
  }

  /** `pat` occurs at position `i` of `text`, ignoring case. */
  predicate MatchesAt(text: string, pat: string, i: nat) {
    i + |pat| <= |text| &&
    forall k :: 0 <= k < |pat| ==> SameIgnoringCase(text[i + k], pat[k])
  }

  /** The start positions that repeated `exec` calls of a global, case-insensitive
      regular expression for the literal `pat` report in `text` from index `i` on:
      the leftmost occurrence, then the leftmost one starting at or after its end,
      and so on. */
  function Occurrences(text: string, pat: string, i: nat): seq<nat>
    requires |pat| > 0 && i <= |text|
    decreases |text| - i
  {
    if i + |pat| > |text| then []
    else if MatchesAt(text, pat, i) then [i] + Occurrences(text, pat, i + |pat|)
    else Occurrences(text, pat, i + 1)
  }

  /** Every reported position is an occurrence at or after `i`, and consecutive
      reports do not overlap. */
  lemma {:induction false} OccurrencesSound(text: string, pat: string, i: nat)
    requires |pat| > 0 && i <= |text|
    ensures forall k :: 0 <= k < |Occurrences(text, pat, i)| ==>
      var p := Occurrences(text, pat, i)[k]; i <= p && MatchesAt(text, pat, p)
    ensures forall k :: 0 < k < |Occurrences(text, pat, i)| ==>
      Occurrences(text, pat, i)[k - 1] + |pat| <= Occurrences(text, pat, i)[k]
    decreases |text| - i
  {
    if i + |pat| > |text| {
    } else if MatchesAt(text, pat, i) {
      OccurrencesSound(text, pat, i + |pat|);
    } else {
      OccurrencesSound(text, pat, i + 1);
    }
  }

  /** No occurrence is missed: each one at or after `i` overlaps a reported one
      that starts no later than it. */
  lemma {:induction false} OccurrencesComplete(text: string, pat: string, i: nat, q: nat)
    requires |pat| > 0 && i <= q && MatchesAt(text, pat, q)
    ensures exists p :: p in Occurrences(text, pat, i) && p <= q < p + |pat|
    decreases |text| - i
  {
    assert i + |pat| <= |text|;
    if MatchesAt(text, pat, i) {
      if q >= i + |pat| {
        OccurrencesComplete(text, pat, i + |pat|, q);
        var p :| p in Occurrences(text, pat, i + |pat|) && p <= q < p + |pat|;
        assert p in Occurrences(text, pat, i);
      } else {
        assert i in Occurrences(text, pat, i);
      }
    } else {
      assert Occurrences(text, pat, i) == Occurrences(text, pat, i + 1);
      OccurrencesComplete(text, pat, i + 1, q);
    }
  }

  /** Length of the run of non-white-space characters at the front of `s`. */
  function WordLength(s: string): (n: nat)
    ensures n <= |s|
    ensures forall k :: 0 <= k < n ==> !IsSpace(s[k])
    ensures n < |s| ==> IsSpace(s[n])
  {
    if s == [] || IsSpace(s[0]) then 0 else 1 + WordLength(s[1..])
  }

  /** `s.split(/\s+/).filter(p => p.length > 0)`: the maximal runs of
      non-white-space characters, in order. */
  function Tokens(s: string): (ts: seq<string>)
    ensures forall k :: 0 <= k < |ts| ==> ts[k] != [] && !HasSpace(ts[k])
    ensures ts == [] <==> IsBlank(s)
    decreases |s|
  {
    if s == [] then []
    else if IsSpace(s[0]) then Tokens(s[1..])
    else
      var n := WordLength(s);
      [s[..n]] + Tokens(s[n..])
  }

  /** `s.split(/\s/)`: the pieces between single white-space characters, empty
      ones included. */
  function SpacePieces(s: string): (ps: seq<string>)
    ensures |ps| >= 1
    decreases |s|
  {
    var n := WordLength(s);
    if n == |s| then [s] else [s[..n]] + SpacePieces(s[n + 1..])
  }

  /** `pieces.filter(p => p.length > 0)`. */
  function NonEmpty(ps: seq<string>): (r: seq<string>)
    ensures forall k :: 0 <= k < |r| ==> r[k] != []
  {
    if ps == [] then [] else (if ps[0] == [] then [] else [ps[0]]) + NonEmpty(ps[1..])
  }

  /** The tokens are the non-empty pieces between white-space characters: runs of
      white space only make empty pieces, which the filter drops. */
  lemma {:induction false} TokensAreSplit(s: string)
    ensures Tokens(s) == NonEmpty(SpacePieces(s))
    decreases |s|
  {
    var n := WordLength(s);
    var ps := SpacePieces(s);
    if s == [] {
      assert ps == [[]];
      assert ps[1..] == [];
    } else if n == |s| {
      assert s[n..] == [] && s[..n] == s;
      assert ps == [s] && ps[1..] == [];
    } else {
      var rest := SpacePieces(s[n + 1..]);
      assert ps == [s[..n]] + rest && ps[1..] == rest;
      TokensAreSplit(s[n + 1..]);
      if n == 0 {
        assert s[1..] == s[n + 1..];
      } else {
        assert s[n..][0] == s[n] && s[n..][1..] == s[n + 1..];
      }
    }
  }

  predicate HasSpace(s: string) {
    exists k :: 0 <= k < |s| && IsSpace(s[k])
  }

  /** The first token of a string that starts with a non-space character is its
      leading word. */
  lemma FirstToken(s: string)
    requires s != [] && !IsSpace(s[0])
    ensures Tokens(s) != [] && Tokens(s)[0] == s[..WordLength(s)]
  {
  }

  /** `s.substring(a, b)`: both bounds clamped to `[0, |s|]`, and swapped when
      the first is the larger. */
  function Substring(s: string, a: int, b: int): (r: string)
    ensures 0 <= a <= b <= |s| ==> r == s[a..b]
    ensures |r| <= |s|
  {
    var x := if a < 0 then 0 else if a > |s| then |s| else a;
    var y := if b < 0 then 0 else if b > |s| then |s| else b;
    if x <= y then s[x..y] else s[y..x]
  }

  /** Index of the first `c` in `s` at or after `i`, or `|s|`. */
  function IndexOf(s: string, c: char, i: nat): (j: nat)
    requires i <= |s|
    ensures i <= j <= |s|
    ensures j < |s| ==> s[j] == c
    ensures forall k :: i <= k < j ==> s[k] != c
    decreases |s| - i
  {
    if i == |s| then |s| else if s[i] == c then i else IndexOf(s, c, i + 1)
  }

  /** `s.split('\n')`: the pieces between newlines; one more piece than newlines. */
  function SplitLines(s: string): (lines: seq<string>)
    ensures |lines| >= 1
    decreases |s|
  {
    var j := IndexOf(s, '\n', 0);
    if j == |s| then [s] else [s[..j]] + SplitLines(s[j + 1..])
  }

  /** `lines.join('\n')`. */
  function JoinLines(lines: seq<string>): string
  {
    if lines == [] then []
    else if |lines| == 1 then lines[0]
    else lines[0] + "\n" + JoinLines(lines[1..])
  }

  /** Splitting on newlines and joining with newlines gives the text back. */
  lemma {:induction false} SplitJoin(s: string)
    ensures JoinLines(SplitLines(s)) == s
    decreases |s|
  {
    var j := IndexOf(s, '\n', 0);
    if j < |s| {
      SplitJoin(s[j + 1..]);
      assert SplitLines(s) == [s[..j]] + SplitLines(s[j + 1..]);
      assert s == s[..j] + "\n" + s[j + 1..];
    }
  }

  /** No piece of the split holds a newline. */
  lemma {:induction false} SplitLinesNoBreak(s: string)
    ensures forall k :: 0 <= k < |SplitLines(s)| ==> '\n' !in SplitLines(s)[k]
    decreases |s|
  {
    var j := IndexOf(s, '\n', 0);
    if j < |s| {
      SplitLinesNoBreak(s[j + 1..]);
      var lines := SplitLines(s);
      assert lines == [s[..j]] + SplitLines(s[j + 1..]);
      forall k | 0 <= k < |lines| ensures '\n' !in lines[k] {
        if k > 0 {
          assert lines[k] == SplitLines(s[j + 1..])[k - 1];
        } else {
          assert forall q :: 0 <= q < j ==> s[..j][q] == s[q];
        }
      }
    } else {
      assert SplitLines(s) == [s];
    }
  }

  /** Joining one more line adds a newline and the line. */
  lemma {:induction false} JoinSnoc(lines: seq<string>, line: string)
    requires lines != []
    ensures JoinLines(lines + [line]) == JoinLines(lines) + "\n" + line
    decreases |lines|
  {
    if |lines| > 1 {
      JoinSnoc(lines[1..], line);
      assert (lines + [line])[1..] == lines[1..] + [line];
    } else {
      assert lines + [line] == [lines[0], line];
      assert [lines[0], line][1..] == [line];
    }
  }

  /** Offset of line `k` in the text the lines were split from: the lengths of the
      lines before it, plus one newline after each. */
  function LineOffset(lines: seq<string>, k: nat): nat
    requires k <= |lines|
  {
    if k == 0 then 0 else LineOffset(lines, k - 1) + |lines[k - 1]| + 1
  }

  /** Line `k` of `SplitLines(s)` is the slice of `s` at its offset, and a newline
      follows it unless it is the last line. */
  lemma {:induction false} LineAtOffset(s: string, k: nat)
    requires k < |SplitLines(s)|
    ensures LineSlice(s, SplitLines(s), k)
    decreases |s|
  {
    var j := IndexOf(s, '\n', 0);
    if j == |s| {
      assert SplitLines(s) == [s];
      assert s[0..|s|] == s;
    } else {
      var rest := s[j + 1..];
      var tail := SplitLines(rest);
      assert SplitLines(s) == [s[..j]] + tail;
      if k == 0 {
        assert s[0..j] == s[..j];
      } else {
        LineAtOffset(rest, k - 1);
        LineSliceShift(s, j, tail, k);
      }
    }
  }

  /** Line `k` of `lines` sits in `s` at its offset, followed by a newline unless it
      is the last one. */
  ghost predicate LineSlice(s: string, lines: seq<string>, k: nat)
    requires k < |lines|
  {
    var o := LineOffset(lines, k);
    o + |lines[k]| <= |s| && s[o..o + |lines[k]|] == lines[k] &&
    (k + 1 < |lines| ==> o + |lines[k]| < |s| && s[o + |lines[k]|] == '\n')
  }

  lemma LineSliceShift(s: string, j: nat, tail: seq<string>, k: nat)
    requires j < |s| && 0 < k <= |tail|
    requires LineSlice(s[j + 1..], tail, k - 1)
    ensures LineSlice(s, [s[..j]] + tail, k)
  {
    OffsetShift(s[..j], tail, k);
    var rest := s[j + 1..];
    var o := LineOffset(tail, k - 1);
    var line := tail[k - 1];
    assert ([s[..j]] + tail)[k] == line;
    assert s[j + 1 + o..j + 1 + o + |line|] == rest[o..o + |line|];
  }

  lemma {:induction false} OffsetShift(first: string, rest: seq<string>, k: nat)
    requires 0 < k <= |rest| + 1
    ensures LineOffset([first] + rest, k) == |first| + 1 + LineOffset(rest, k - 1)
  {
    if k > 1 {
      OffsetShift(first, rest, k - 1);
      assert ([first] + rest)[k - 1] == rest[k - 2];
    }
  }

  /** Decimal digits of a natural number, as a template literal writes it. */
  function NatToString(n: nat): (s: string)
    ensures s != [] && forall k :: 0 <= k < |s| ==> '0' <= s[k] <= '9'
    decreases n
  {
    if n < 10 then [DigitChar(n)] else NatToString(n / 10) + [DigitChar(n % 10)]
  }

  function DigitChar(d: nat): (c: char)
    requires d < 10
    ensures '0' <= c <= '9'
  {
    ('0' as int + d) as char
  }

  /** Reads back a string of decimal digits. */
  function DigitsValue(s: string): nat
    requires forall k :: 0 <= k < |s| ==> '0' <= s[k] <= '9'
  {
    if s == [] then 0 else DigitsValue(s[..|s| - 1]) * 10 + (s[|s| - 1] as int - '0' as int)
  }

  /** The decimal form of a number reads back as that number, so it is injective. */
  lemma {:induction false} NatToStringRoundTrip(n: nat)
    ensures DigitsValue(NatToString(n)) == n
    decreases n
  {
    if n >= 10 {
      NatToStringRoundTrip(n / 10);
      var s := NatToString(n);
      assert s[..|s| - 1] == NatToString(n / 10);
    }
  }
}

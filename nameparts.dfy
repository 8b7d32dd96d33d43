/** `getCharacterNameParts` (js/plotHighlighter.js): the forms of a character's name
    that the highlighter looks for in the plot. */
module NameParts {
  import opened Strings

  datatype NameInfo = NameInfo(
    fullName: string,
    cleanedFullName: string,
    firstName: string,
    lastName: string,
    allUniqueParts: seq<string>)

  // ---------------------------------------------------------------------------
  // The parenthesised suffix `/\s*\(.*?\)\s*$/`

  /** From index `j` on, a `)` that only white space follows, with no line
      terminator before it: what `.*?\)\s*$` accepts after an opening `(`. */
  function CloseParenFrom(s: string, j: nat): (b: bool)
    requires j <= |s|
    ensures b <==> exists q :: j <= q < |s| && ClosesAt(s, j, q)
    decreases |s| - j
  {
    if j == |s| then false
    else if s[j] == ')' && IsBlank(s[j + 1..]) then (assert ClosesAt(s, j, j); true)
    else if IsLineTerminator(s[j]) then
      assert forall q :: j <= q < |s| ==> !ClosesAt(s, j, q);
      false
    else
      var b := CloseParenFrom(s, j + 1);
      assert b ==> exists q :: j <= q < |s| && ClosesAt(s, j, q) by {
        if b {
          var q :| j + 1 <= q < |s| && ClosesAt(s, j + 1, q);
          assert ClosesAt(s, j, q);
        }
      }
      assert (exists q :: j <= q < |s| && ClosesAt(s, j, q)) ==> b by {
        if exists q :: j <= q < |s| && ClosesAt(s, j, q) {
          var q :| j <= q < |s| && ClosesAt(s, j, q);
          assert q != j;
          assert ClosesAt(s, j + 1, q);
        }
      }
      b
  }

  /** `)` at `q`, only white space after it, and no line terminator in `[j, q)`. */
  predicate ClosesAt(s: string, j: nat, q: nat)
    requires j <= q < |s|
  {
    s[q] == ')' && IsBlank(s[q + 1..]) && forall k :: j <= k < q ==> !IsLineTerminator(s[k])
  }

  /** The suffix pattern matches from index `p` to the end of `s`: white space,
      `(`, then a closing `)` as above. */
  predicate ParenSuffixAt(s: string, p: nat)
    requires p <= |s|
  {
    var a := LeadingSpaces(s[p..]);
    p + a < |s| && s[p + a] == '(' && CloseParenFrom(s, p + a + 1)
  }

  /** Where the leftmost match of the suffix pattern at or after `p` begins, or
      `|s|` when there is none. */
  function ParenSuffixStart(s: string, p: nat): (r: nat)
    requires p <= |s|
    ensures p <= r <= |s|
    ensures r < |s| ==> ParenSuffixAt(s, r)
    ensures forall q :: p <= q < r ==> !ParenSuffixAt(s, q)
    decreases |s| - p
  {
    if p == |s| then |s| else if ParenSuffixAt(s, p) then p else ParenSuffixStart(s, p + 1)
  }

  /** `fullName.replace(/\s*\(.*?\)\s*$/, '').trim()`. */
  function CleanName(fullName: string): string {
    Trim(fullName[..ParenSuffixStart(fullName, 0)])
  }

  // ---------------------------------------------------------------------------
  // Candidates, de-duplication and the longest-first sort

  /** `Set.prototype.add`: insertion order, no repeats. */
  function AddIfNew(added: seq<string>, x: string): (r: seq<string>)
    ensures forall y :: y in r <==> y in added || y == x
    ensures Distinct(added) ==> Distinct(r)
  {
    if x in added then added else added + [x]
  }

  /** The four conditional additions to `uniqueParts`, in the source's order. */
  function Candidates(fullName: string, cleaned: string, first: string, last: string): seq<string>
  {
    var s0: seq<string> := [];
    var s1 := if |cleaned| > 2 then AddIfNew(s0, cleaned) else s0;
    var s2 := if |first| > 2 then AddIfNew(s1, first) else s1;
    var s3 := if |last| > 2 && last != first then AddIfNew(s2, last) else s2;
    if fullName != cleaned && |fullName| > 2 then AddIfNew(s3, fullName) else s3
  }

  /** Insert `x` after every element at least as long. */
  function InsertByLength(x: string, t: seq<string>): (r: seq<string>)
    ensures multiset(r) == multiset(t) + multiset{x}
  {
    if t == [] then [x]
    else if |x| > |t[0]| then [x] + t
    else
      assert t == [t[0]] + t[1..];
      [t[0]] + InsertByLength(x, t[1..])
  }

  /** `sort((a, b) => b.length - a.length)`, stable. */
  function SortLongestFirst(s: seq<string>): seq<string>
  {
    if s == [] then [] else InsertByLength(s[|s| - 1], SortLongestFirst(s[..|s| - 1]))
  }

  /** `getCharacterNameParts`. A falsy name (modelled as the empty string) gives
      empty forms and no variants. */
  function GetCharacterNameParts(fullName: string): (info: NameInfo)
    ensures fullName == [] ==> info == NameInfo("", "", "", "", [])
    ensures fullName != [] ==> info.fullName == fullName
  {
    if fullName == [] then NameInfo("", "", "", "", [])
    else
      var cleaned := CleanName(fullName);
      var parts := Tokens(cleaned);
      var first := if |parts| > 0 then parts[0] else "";
      var last := if |parts| > 1 then parts[|parts| - 1] else "";
      Assemble(fullName, cleaned, first, last)
  }

  /** The returned record, the variants being the candidates sorted longest first. */
  function Assemble(fullName: string, cleaned: string, first: string, last: string): NameInfo {
    NameInfo(fullName, cleaned, first, last, SortLongestFirst(Candidates(fullName, cleaned, first, last)))
  }

  // ---------------------------------------------------------------------------
  // Properties

  predicate Distinct(s: seq<string>) {
    forall i, j :: 0 <= i < j < |s| ==> s[i] != s[j]
  }

  predicate LongestFirst(s: seq<string>) {
    forall i, j :: 0 <= i < j < |s| ==> |s[i]| >= |s[j]|
  }

  /** The elements of `s` of length `n`, in order. */
  function OfLength(s: seq<string>, n: nat): seq<string>
  {
    if s == [] then [] else (if |s[0]| == n then [s[0]] else []) + OfLength(s[1..], n)
  }

  lemma {:induction false} InsertByLengthSorted(x: string, t: seq<string>)
    requires LongestFirst(t)
    ensures LongestFirst(InsertByLength(x, t))
    decreases |t|
  {
    if t != [] && |x| <= |t[0]| {
      InsertByLengthSorted(x, t[1..]);
      var tail := InsertByLength(x, t[1..]);
      forall k | 0 <= k < |tail| ensures |tail[k]| <= |t[0]| {
        assert tail[k] in multiset(tail);
        if tail[k] != x {
          assert tail[k] in multiset(t[1..]);
          assert tail[k] in t[1..];
        }
      }
    }
  }

  lemma {:induction false} SortLongestFirstSorted(s: seq<string>)
    ensures LongestFirst(SortLongestFirst(s))
    ensures multiset(SortLongestFirst(s)) == multiset(s)
    decreases |s|
  {
    if s != [] {
      SortLongestFirstSorted(s[..|s| - 1]);
      InsertByLengthSorted(s[|s| - 1], SortLongestFirst(s[..|s| - 1]));
      assert s == s[..|s| - 1] + [s[|s| - 1]];
    }
  }

  lemma {:induction false} OfLengthAppend(a: seq<string>, b: seq<string>, n: nat)
    ensures OfLength(a + b, n) == OfLength(a, n) + OfLength(b, n)
    decreases |a|
  {
    if a == [] {
      assert a + b == b;
    } else {
      assert (a + b)[1..] == a[1..] + b;
      OfLengthAppend(a[1..], b, n);
    }
  }

  /** Inserting by length into a list sorted longest first adds `x` at the end
      of the elements as long as it. */
  lemma {:induction false} InsertByLengthStable(x: string, t: seq<string>, n: nat)
    requires LongestFirst(t)
    ensures OfLength(InsertByLength(x, t), n) == OfLength(t, n) + OfLength([x], n)
    decreases |t|
  {
    OfLengthOne(x, n);
    if t == [] {
      assert InsertByLength(x, t) == [x];
    } else if |x| > |t[0]| {
      assert InsertByLength(x, t) == [x] + t;
      OfLengthAppend([x], t, n);
      if |x| == n {
        assert forall k :: 0 <= k < |t| ==> |t[k]| <= |t[0]|;
        OfLengthNone(t, n);
      }
    } else {
      var rest := t[1..];
      assert LongestFirst(rest);
      InsertByLengthStable(x, rest, n);
      var head: seq<string> := if |t[0]| == n then [t[0]] else [];
      assert OfLength(t, n) == head + OfLength(rest, n);
      assert InsertByLength(x, t) == [t[0]] + InsertByLength(x, rest);
      assert OfLength(InsertByLength(x, t), n) == head + OfLength(InsertByLength(x, rest), n);
      SeqAssoc(head, OfLength(rest, n), OfLength([x], n));
    }
  }

  lemma OfLengthOne(x: string, n: nat)
    ensures OfLength([x], n) == if |x| == n then [x] else []
  {
    assert [x][1..] == [];
  }

  lemma {:induction false} OfLengthNone(t: seq<string>, n: nat)
    requires forall k :: 0 <= k < |t| ==> |t[k]| != n
    ensures OfLength(t, n) == []
    decreases |t|
  {
    if t != [] { OfLengthNone(t[1..], n); }
  }

  /** The sort is stable: the elements of each length keep their order. */
  lemma {:induction false} SortLongestFirstStable(s: seq<string>, n: nat)
    ensures OfLength(SortLongestFirst(s), n) == OfLength(s, n)
    decreases |s|
  {
    if s != [] {
      var init := s[..|s| - 1];
      SortLongestFirstStable(init, n);
      SortLongestFirstSorted(init);
      InsertByLengthStable(s[|s| - 1], SortLongestFirst(init), n);
      assert s == init + [s[|s| - 1]];
      OfLengthAppend(init, [s[|s| - 1]], n);
    }
  }

  lemma {:induction false} InsertByLengthDistinct(x: string, t: seq<string>)
    requires Distinct(t) && x !in t
    ensures Distinct(InsertByLength(x, t))
    decreases |t|
  {
    if t != [] && |x| <= |t[0]| {
      InsertByLengthDistinct(x, t[1..]);
      var tail := InsertByLength(x, t[1..]);
      assert multiset(tail) == multiset(t[1..]) + multiset{x};
      assert t[0] !in t[1..];
      assert t[0] !in multiset(tail);
    }
  }

  lemma {:induction false} SortLongestFirstDistinct(s: seq<string>)
    requires Distinct(s)
    ensures Distinct(SortLongestFirst(s))
    decreases |s|
  {
    if s != [] {
      var init := s[..|s| - 1];
      SortLongestFirstDistinct(init);
      SortLongestFirstSorted(init);
      assert s[|s| - 1] !in init;
      assert s[|s| - 1] !in multiset(SortLongestFirst(init));
      InsertByLengthDistinct(s[|s| - 1], SortLongestFirst(init));
    }
  }

  /** Which forms become variants: the cleaned name, the first name, a last name
      different from the first name, and the full name when it differs from the
      cleaned one, each only when longer than two characters. */
  predicate IsVariant(x: string, fullName: string, cleaned: string, first: string, last: string) {
    (x == cleaned && |x| > 2) ||
    (x == first && |x| > 2) ||
    (x == last && |x| > 2 && last != first) ||
    (x == fullName && fullName != cleaned && |x| > 2)
  }

  lemma CandidatesFacts(fullName: string, cleaned: string, first: string, last: string)
    ensures var c := Candidates(fullName, cleaned, first, last);
      Distinct(c) && forall x :: x in c <==> IsVariant(x, fullName, cleaned, first, last)
  {
  }

  /** What the longest-first sort keeps of a list of distinct strings. */
  lemma SortFacts(c: seq<string>)
    requires Distinct(c)
    ensures var parts := SortLongestFirst(c);
      (forall x :: x in parts <==> x in c) &&
      Distinct(parts) && LongestFirst(parts) &&
      forall n: nat :: OfLength(parts, n) == OfLength(c, n)
  {
    var parts := SortLongestFirst(c);
    SortLongestFirstSorted(c);
    SortLongestFirstDistinct(c);
    forall x ensures x in parts <==> x in c {
      assert x in parts <==> x in multiset(parts);
      assert x in c <==> x in multiset(c);
    }
    forall n: nat ensures OfLength(parts, n) == OfLength(c, n) {
      SortLongestFirstStable(c, n);
    }
  }

  lemma AssembleFacts(fullName: string, cleaned: string, first: string, last: string)
    ensures var parts := Assemble(fullName, cleaned, first, last).allUniqueParts;
      (forall x :: x in parts <==> IsVariant(x, fullName, cleaned, first, last)) &&
      Distinct(parts) && LongestFirst(parts) &&
      (forall k :: 0 <= k < |parts| ==> |parts[k]| > 2) &&
      forall n: nat :: OfLength(parts, n) == OfLength(Candidates(fullName, cleaned, first, last), n)
  {
    var c := Candidates(fullName, cleaned, first, last);
    CandidatesFacts(fullName, cleaned, first, last);
    SortFacts(c);
    var parts := SortLongestFirst(c);
    forall x ensures x in parts <==> IsVariant(x, fullName, cleaned, first, last) {
      assert x in parts <==> x in c;
    }
    forall k | 0 <= k < |parts| ensures |parts[k]| > 2 {
      assert parts[k] in parts;
      assert IsVariant(parts[k], fullName, cleaned, first, last);
    }
  }

  /** The variants of a name: exactly the qualifying forms, each once and each
      longer than two characters, longest first, and ties in the order cleaned
      name, first name, last name, full name. */
  lemma VariantsOfName(fullName: string)
    requires fullName != []
    ensures var info := GetCharacterNameParts(fullName);
      var parts := info.allUniqueParts;
      (forall x :: x in parts <==>
        IsVariant(x, fullName, info.cleanedFullName, info.firstName, info.lastName)) &&
      Distinct(parts) && LongestFirst(parts) &&
      (forall k :: 0 <= k < |parts| ==> |parts[k]| > 2) &&
      forall n: nat :: OfLength(parts, n) ==
        OfLength(Candidates(fullName, info.cleanedFullName, info.firstName, info.lastName), n)
  {
    var info := GetCharacterNameParts(fullName);
    assert info == Assemble(fullName, info.cleanedFullName, info.firstName, info.lastName);
    AssembleFacts(fullName, info.cleanedFullName, info.firstName, info.lastName);
  }

  /** The first name is the first token of the cleaned name; a last name exists
      only when there are at least two tokens, and it is the last one. */
  lemma FirstAndLastName(fullName: string)
    ensures var info := GetCharacterNameParts(fullName);
      var parts := Tokens(info.cleanedFullName);
      (info.firstName != [] <==> |parts| >= 1) &&
      (|parts| >= 1 ==> info.firstName == parts[0]) &&
      (info.lastName != [] <==> |parts| >= 2) &&
      (|parts| >= 2 ==> info.lastName == parts[|parts| - 1])
  {
    var info := GetCharacterNameParts(fullName);
    var parts := Tokens(info.cleanedFullName);
    if fullName == [] {
      assert Tokens([]) == [];
    } else {
      assert info.firstName == (if |parts| > 0 then parts[0] else "");
      assert info.lastName == (if |parts| > 1 then parts[|parts| - 1] else "");
    }
  }

  /** The cleaned name is the part of the name before its parenthesised suffix
      (the leftmost place the suffix pattern matches, or the end when it matches
      nowhere) less the white space around it: a piece of the name with only
      white space between it and either the start or the suffix, and none at
      either of its own ends. */
  lemma CleanedName(fullName: string)
    ensures var cleaned := GetCharacterNameParts(fullName).cleanedFullName;
      var e := ParenSuffixStart(fullName, 0);
      (e < |fullName| ==> ParenSuffixAt(fullName, e)) &&
      (forall q :: 0 <= q < e ==> !ParenSuffixAt(fullName, q)) &&
      (exists a, b :: 0 <= a <= b <= e && cleaned == fullName[a..b] && SpacesOutside(fullName, a, b, e)) &&
      (cleaned != [] ==> !IsSpace(cleaned[0]) && !IsSpace(cleaned[|cleaned| - 1]))
  {
    var cleaned := GetCharacterNameParts(fullName).cleanedFullName;
    if fullName == [] {
      assert cleaned == fullName[0..0];
    } else {
      assert cleaned == CleanName(fullName);
      CleanNameAround(fullName);
    }
  }

  lemma CleanNameAround(fullName: string)
    ensures var e := ParenSuffixStart(fullName, 0);
      exists a, b :: 0 <= a <= b <= e && CleanName(fullName) == fullName[a..b] && SpacesOutside(fullName, a, b, e)
  {
    TrimPrefix(fullName, ParenSuffixStart(fullName, 0));
  }
}

/**
 * Byte-string helpers the rules share.  A PHP string is a sequence of bytes;
 * here it is a `string` whose characters each stand for one byte, so `|s|`
 * is PHP's `strlen`/`mb_strlen($s, '8bit')`.  The character classes are the
 * ones of PCRE patterns written without the `u` modifier.
 */
module Strings {

  import opened Outcomes

  /** PCRE `\s`: space, tab, line feed, vertical tab, form feed, carriage return. */
  predicate IsSpace(c: char) {
    c == ' ' || c == '\t' || c == '\n' || c == '\U{000B}' || c == '\U{000C}' || c == '\r'
  }

  /** The characters PHP's `trim()` strips by default: " \t\n\r\0\x0B". */
  predicate IsTrimChar(c: char) {
    c == ' ' || c == '\t' || c == '\n' || c == '\r' || c == '\0' || c == '\U{000B}'
  }

  /** PCRE `\d`. */
  predicate IsDigit(c: char) { '0' <= c <= '9' }

  predicate IsAsciiLetter(c: char) { 'a' <= c <= 'z' || 'A' <= c <= 'Z' }

  /** PCRE `\w`: letters, digits and underscore. */
  predicate IsWordChar(c: char) { IsAsciiLetter(c) || IsDigit(c) || c == '_' }

  predicate IsHexDigit(c: char) { IsDigit(c) || 'a' <= c <= 'f' || 'A' <= c <= 'F' }

  /** ASCII lower-casing of one byte. */
  function LowerChar(c: char): char {
    if 'A' <= c <= 'Z' then (c as int + 32) as char else c
  }

  /** `mb_strtolower` restricted to ASCII letters. */
  function ToLower(s: string): string {
    seq(|s|, i requires 0 <= i < |s| => LowerChar(s[i]))
  }

  /** Lower-casing brings in no character that is not a lower-case letter. */
  lemma ToLowerKeeps(s: string, c: char)
    requires c !in s && !('a' <= c <= 'z')
    ensures c !in ToLower(s)
  {
    forall k | 0 <= k < |s| ensures ToLower(s)[k] != c {
      assert s[k] != c;
    }
  }

  /** Case-insensitive (ASCII) test that `s` starts with `p`. */
  predicate StartsWithIgnoreCase(s: string, p: string) {
    |p| <= |s| && ToLower(s[..|p|]) == ToLower(p)
  }

  /** `str_contains($s, $sub)`. */
  predicate Contains(s: string, sub: string)
    decreases |s|
  {
    sub <= s || (s != [] && Contains(s[1..], sub))
  }

  /** Every character of `s` satisfies `p`. */
  predicate All(s: string, p: char -> bool) {
    forall i | 0 <= i < |s| :: p(s[i])
  }

  /** The characters of `s` that are not `\s`, in their order: `preg_replace('/\s+/', '', $s)`. */
  function DropSpaces(s: string): (r: string)
    ensures |r| <= |s|
    ensures forall k | 0 <= k < |r| :: !IsSpace(r[k])
  {
    if s == [] then []
    else (if IsSpace(s[0]) then [] else [s[0]]) + DropSpaces(s[1..])
  }

  lemma {:induction false} DropSpacesAppend(a: string, b: string)
    ensures DropSpaces(a + b) == DropSpaces(a) + DropSpaces(b)
    decreases |a|
  {
    if a == [] {
      assert a + b == b;
    } else {
      assert (a + b)[0] == a[0] && (a + b)[1..] == a[1..] + b;
      DropSpacesAppend(a[1..], b);
    }
  }

  lemma {:induction false} DropAllSpaces(s: string)
    requires forall k | 0 <= k < |s| :: IsSpace(s[k])
    ensures DropSpaces(s) == []
    decreases |s|
  {
    if s != [] {
      DropAllSpaces(s[1..]);
    }
  }

  /** The leading characters `trim()` strips are gone; nothing else changes. */
  function TrimStart(s: string): (r: string)
    ensures |r| <= |s| && r == s[|s| - |r|..]
    ensures r == [] || !IsTrimChar(r[0])
    ensures forall k | 0 <= k < |s| - |r| :: IsTrimChar(s[k])
  {
    if s != [] && IsTrimChar(s[0]) then TrimStart(s[1..]) else s
  }

  /** The trailing characters `trim()` strips are gone; nothing else changes. */
  function TrimEnd(s: string): (r: string)
    ensures |r| <= |s| && r == s[..|r|]
    ensures r == [] || !IsTrimChar(r[|r| - 1])
    ensures forall k | |r| <= k < |s| :: IsTrimChar(s[k])
  {
    if s != [] && IsTrimChar(s[|s| - 1]) then TrimEnd(s[..|s| - 1]) else s
  }

  /** PHP's `trim()`: a slice of `s` that neither starts nor ends with a trim character. */
  function Trim(s: string): (r: string)
    ensures |r| <= |s|
    ensures r == [] || (!IsTrimChar(r[0]) && !IsTrimChar(r[|r| - 1]))
    ensures r == [] <==> All(s, IsTrimChar)
  {
    var t := TrimStart(s);
    var r := TrimEnd(t);
    TrimSlices(s);
    r
  }

  /** When nothing is left after trimming, every character was a trim character. */
  lemma TrimSlices(s: string)
    ensures TrimEnd(TrimStart(s)) == [] ==> All(s, IsTrimChar)
  {
    var t := TrimStart(s);
    assert t != [] ==> IsTrimChar(t[0]) == false;
    assert t != [] ==> TrimEnd(t) != [];
  }

  /** Trimming adds no character. */
  lemma TrimKeeps(s: string, c: char)
    requires c !in s
    ensures c !in Trim(s)
  {
    var t := TrimStart(s);
    assert t == s[|s| - |t|..];
    assert TrimEnd(t) == t[..|TrimEnd(t)|];
  }

  /** Trimming twice is trimming once. */
  lemma TrimIdempotent(s: string)
    ensures Trim(Trim(s)) == Trim(s)
  {
    var r := Trim(s);
    assert TrimStart(r) == r;
    assert TrimEnd(r) == r;
  }

  /** A non-empty sequence is its front followed by its last element. */
  lemma FrontLast<T>(s: seq<T>)
    requires s != []
    ensures s[..|s| - 1] + [s[|s| - 1]] == s
  {
  }

  /** `s` neither starts nor ends with a character `trim()` strips: `trim()` returns it unchanged. */
  predicate IsTrimmed(s: string) {
    s != [] && !IsTrimChar(s[0]) && !IsTrimChar(s[|s| - 1])
  }

  /** Leading trim characters before a text that does not start with one are all stripped. */
  lemma {:induction false} TrimStartPrefix(pre: string, s: string)
    requires All(pre, IsTrimChar) && s != [] && !IsTrimChar(s[0])
    ensures TrimStart(pre + s) == s
    decreases |pre|
  {
    if pre != [] {
      assert (pre + s)[1..] == pre[1..] + s;
      TrimStartPrefix(pre[1..], s);
    }
  }

  /** Trimming trim characters followed by a trimmed text gives that text. */
  lemma TrimSurrounded(pre: string, s: string)
    requires All(pre, IsTrimChar) && IsTrimmed(s)
    ensures Trim(pre + s) == s
  {
    TrimStartPrefix(pre, s);
  }

  /** Lower-casing an already lower-cased text changes nothing. */
  lemma ToLowerIdempotent(s: string)
    ensures ToLower(ToLower(s)) == ToLower(s)
  {
  }

  /** Lower-casing keeps a trimmed text trimmed. */
  lemma ToLowerTrimmed(s: string)
    requires IsTrimmed(s)
    ensures IsTrimmed(ToLower(s))
  {
  }

  /** The first position of `c` in `s`. */
  function IndexOfChar(s: string, c: char): (i: nat)
    requires c in s
    ensures i < |s| && s[i] == c && c !in s[..i]
  {
    if s[0] == c then 0 else 1 + IndexOfChar(s[1..], c)
  }

  /** `implode($sep, $parts)`. */
  function Join(parts: seq<string>, sep: string): string
    decreases |parts|
  {
    if parts == [] then []
    else if |parts| == 1 then parts[0]
    else parts[0] + sep + Join(parts[1..], sep)
  }

  /** A concatenation starts with its first operand and ends with its second. */
  lemma AppendEnds(a: string, b: string)
    ensures a <= a + b
    ensures (a + b)[|a + b| - |b|..] == b
  {
    assert (a + b)[..|a|] == a;
  }

  /** The last `n` of the last `m` are the last `n`. */
  lemma SuffixOfSuffix(s: string, m: nat, n: nat)
    requires n <= m <= |s|
    ensures s[|s| - m..][m - n..] == s[|s| - n..]
  {
  }

  /** `implode` starts with the first part and ends with the last one. */
  lemma {:induction false} JoinEnds(parts: seq<string>, sep: string)
    requires parts != []
    ensures parts[0] <= Join(parts, sep)
    ensures |parts[|parts| - 1]| <= |Join(parts, sep)|
    ensures Join(parts, sep)[|Join(parts, sep)| - |parts[|parts| - 1]|..] == parts[|parts| - 1]
    decreases |parts|
  {
    if |parts| > 1 {
      JoinEnds(parts[1..], sep);
      var j := Join(parts, sep);
      var rest := Join(parts[1..], sep);
      var last := parts[|parts| - 1];
      assert parts[1..][|parts| - 2] == last;
      assert j == parts[0] + (sep + rest);
      AppendEnds(parts[0], sep + rest);
      AppendEnds(parts[0] + sep, rest);
      SuffixOfSuffix(j, |rest|, |last|);
    }
  }

  /** `explode($c, $s)` for a one-byte separator: the pieces between the separators. */
  function Split(s: string, c: char): (parts: seq<string>)
    ensures |parts| >= 1
    ensures forall i | 0 <= i < |parts| :: c !in parts[i]
    ensures Join(parts, [c]) == s
    decreases |s|
  {
    if c in s then
      var i := IndexOfChar(s, c);
      var rest := Split(s[i + 1..], c);
      assert s == s[..i] + [c] + s[i + 1..];
      [s[..i]] + rest
    else
      [s]
  }

  /** `explode($c, $s, 2)`: the text before and after the first `c`, if there is one. */
  function SplitOnce(s: string, c: char): (r: Option<(string, string)>)
    ensures r.None? <==> c !in s
    ensures r.Some? ==> c !in r.value.0 && s == r.value.0 + [c] + r.value.1
  {
    if c in s then
      var i := IndexOfChar(s, c);
      assert s == s[..i] + [c] + s[i + 1..];
      Some((s[..i], s[i + 1..]))
    else
      None
  }

  /** The first `c` is the one after a prefix without `c`. */
  lemma IndexOfCharAfter(a: string, b: string, c: char)
    requires c !in a
    ensures IndexOfChar(a + [c] + b, c) == |a|
  {
    var s := a + [c] + b;
    assert s[|a|] == c;
  }

  /** `explode` on a text whose first `c` follows `a`: `a` is the first piece. */
  lemma SplitAfter(a: string, b: string, c: char)
    requires c !in a
    ensures Split(a + [c] + b, c) == [a] + Split(b, c)
  {
    var s := a + [c] + b;
    IndexOfCharAfter(a, b, c);
    assert s[..|a|] == a && s[|a| + 1..] == b;
  }

  /** `explode` of `c`-free text in pieces: the texts after the first, each behind a space. */
  function Spaced(parts: seq<string>): (r: seq<string>)
    ensures |r| == |parts|
  {
    seq(|parts|, i requires 0 <= i < |parts| => " " + parts[i])
  }

  /** The spaced first part, then the rest spaced. */
  lemma SpacedCons(parts: seq<string>)
    requires parts != []
    ensures Spaced(parts) == [" " + parts[0]] + Spaced(parts[1..])
  {
    var r := [" " + parts[0]] + Spaced(parts[1..]);
    forall i | 0 <= i < |parts| ensures Spaced(parts)[i] == r[i] {
      if i > 0 {
        assert r[i] == Spaced(parts[1..])[i - 1];
      }
    }
  }

  /** The `i`-th piece of the first part followed by the spaced rest. */
  lemma SpacedAt(parts: seq<string>, i: nat)
    requires i < |parts|
    ensures ([parts[0]] + Spaced(parts[1..]))[i] == (if i == 0 then "" else " ") + parts[i]
  {
    if i == 0 {
      assert "" + parts[0] == parts[0];
    }
  }

  /** `explode` of a text without the separator is that text alone. */
  lemma SplitNone(s: string, c: char)
    requires c !in s
    ensures Split(s, c) == [s]
  {
  }

  /**
   * `explode(';', implode('; ', $parts))` gives the parts back, all but the
   * first with the space of the separator in front.
   */
  lemma SplitJoined(parts: seq<string>)
    requires parts != []
    requires forall i | 0 <= i < |parts| :: ';' !in parts[i]
    ensures Split(Join(parts, "; "), ';') == [parts[0]] + Spaced(parts[1..])
  {
    if |parts| == 1 {
      SplitNone(parts[0], ';');
    } else {
      var rest := Join(parts[1..], "; ");
      assert Join(parts, "; ") == parts[0] + "; " + rest;
      SemicolonSpace(parts[0], rest);
      SplitAfter(parts[0], " " + rest, ';');
      SplitSpacedJoined(parts[1..]);
    }
  }

  /** The separator `"; "` is a `;` and then a space in front of what follows. */
  lemma SemicolonSpace(a: string, rest: string)
    ensures a + "; " + rest == a + [';'] + (" " + rest)
  {
    assert "; " == [';'] + " ";
  }

  /** The pieces after the first: each part behind the space of the separator. */
  lemma {:induction false} SplitSpacedJoined(parts: seq<string>)
    requires parts != []
    requires forall i | 0 <= i < |parts| :: ';' !in parts[i]
    ensures Split(" " + Join(parts, "; "), ';') == Spaced(parts)
    decreases |parts|
  {
    SpacedCons(parts);
    if |parts| == 1 {
      assert ';' !in " " + parts[0];
      SplitNone(" " + parts[0], ';');
    } else {
      var rest := Join(parts[1..], "; ");
      assert Join(parts, "; ") == parts[0] + "; " + rest;
      SemicolonSpace(" " + parts[0], rest);
      assert " " + Join(parts, "; ") == (" " + parts[0]) + "; " + rest;
      assert ';' !in " " + parts[0];
      SplitAfter(" " + parts[0], " " + rest, ';');
      SplitSpacedJoined(parts[1..]);
    }
  }

  /** `explode($c, implode($c, $parts))` gives back parts that hold no `c`. */
  lemma {:induction false} SplitJoin(parts: seq<string>, c: char)
    requires parts != []
    requires forall i | 0 <= i < |parts| :: c !in parts[i]
    ensures Split(Join(parts, [c]), c) == parts
    decreases |parts|
  {
    if |parts| == 1 {
      SplitNone(parts[0], c);
    } else {
      var rest := Join(parts[1..], [c]);
      assert Join(parts, [c]) == parts[0] + [c] + rest;
      SplitAfter(parts[0], rest, c);
      SplitJoin(parts[1..], c);
      assert parts == [parts[0]] + parts[1..];
    }
  }

  /** `explode` brings in no character the text does not have. */
  lemma {:induction false} SplitKeeps(s: string, c: char, x: char)
    requires x !in s
    ensures forall i | 0 <= i < |Split(s, c)| :: x !in Split(s, c)[i]
    decreases |s|
  {
    if c in s {
      var i := IndexOfChar(s, c);
      assert x !in s[..i] && x !in s[i + 1..];
      SplitKeeps(s[i + 1..], c, x);
    }
  }

  /** `implode` brings in no character that neither the parts nor the separator have. */
  lemma {:induction false} JoinKeeps(parts: seq<string>, sep: string, x: char)
    requires x !in sep
    requires forall i | 0 <= i < |parts| :: x !in parts[i]
    ensures x !in Join(parts, sep)
    decreases |parts|
  {
    if |parts| > 1 {
      JoinKeeps(parts[1..], sep, x);
    }
  }

  /** Splitting at the first `c` after a `c`-free prefix gives that prefix and the rest. */
  lemma SplitOnceAt(a: string, b: string, c: char)
    requires c !in a
    ensures SplitOnce(a + [c] + b, c) == Some((a, b))
  {
    IndexOfCharAfter(a, b, c);
    var s := a + [c] + b;
    assert s[..|a|] == a && s[|a| + 1..] == b;
  }

  /** `str_replace($from, $to, $s)`: left-to-right, non-overlapping replacement. */
  function ReplaceAll(s: string, from: string, to: string): (r: string)
    ensures from == [] ==> r == s
    ensures !Contains(s, from) ==> r == s
    decreases |s|
  {
    if from == [] || s == [] then s
    else if from <= s then to + ReplaceAll(s[|from|..], from, to)
    else [s[0]] + ReplaceAll(s[1..], from, to)
  }

  /** Replacing a string by itself changes nothing. */
  lemma {:induction false} ReplaceAllSelf(s: string, from: string)
    ensures ReplaceAll(s, from, from) == s
    decreases |s|
  {
    if from == [] || s == [] {
    } else if from <= s {
      ReplaceAllSelf(s[|from|..], from);
      assert s == from + s[|from|..];
    } else {
      ReplaceAllSelf(s[1..], from);
      assert s == [s[0]] + s[1..];
    }
  }

  /** The end of the longest run of `\s` starting at `i` (a greedy `\s*`). */
  function SkipSpaces(s: string, i: nat): (j: nat)
    requires i <= |s|
    ensures i <= j <= |s|
    ensures forall k | i <= k < j :: IsSpace(s[k])
    ensures j == |s| || !IsSpace(s[j])
    decreases |s| - i
  {
    if i < |s| && IsSpace(s[i]) then SkipSpaces(s, i + 1) else i
  }

  /** A run of `\s` from `i` that stops at `e` is what `SkipSpaces` finds. */
  lemma {:induction false} SkipSpacesTo(s: string, i: nat, e: nat)
    requires i <= e <= |s|
    requires forall k | i <= k < e :: IsSpace(s[k])
    requires e == |s| || !IsSpace(s[e])
    ensures SkipSpaces(s, i) == e
    decreases e - i
  {
    if i < e {
      SkipSpacesTo(s, i + 1, e);
    }
  }

  /** Skipping spaces inside `b` is unaffected by a prefix `p`. */
  lemma {:induction false} SkipSpacesShift(p: string, b: string, k: nat)
    requires k <= |b|
    ensures SkipSpaces(p + b, |p| + k) == |p| + SkipSpaces(b, k)
    decreases |b| - k
  {
    assert forall m | k <= m < |b| :: (p + b)[|p| + m] == b[m];
    if k < |b| && IsSpace(b[k]) {
      SkipSpacesShift(p, b, k + 1);
    }
  }

  /** `a` is `b` with some characters deleted. */
  predicate IsSubsequence(a: string, b: string)
    decreases |b|
  {
    a == [] || (b != [] && ((a[0] == b[0] && IsSubsequence(a[1..], b[1..])) || IsSubsequence(a, b[1..])))
  }

  /** Deleting characters from the front of `b` keeps `a` a subsequence. */
  lemma {:induction false} SubsequenceOfLonger(a: string, p: string, b: string)
    requires IsSubsequence(a, b)
    ensures IsSubsequence(a, p + b)
    decreases |p|
  {
    if p != [] {
      SubsequenceOfLonger(a, p[1..], b);
      assert (p + b)[1..] == p[1..] + b;
      assert IsSubsequence(a, (p + b)[1..]);
    } else {
      assert p + b == b;
    }
  }

  /** Subsequences of two strings concatenate to a subsequence of their concatenation. */
  lemma {:induction false} SubsequenceAppend(a1: string, b1: string, a2: string, b2: string)
    requires IsSubsequence(a1, b1) && IsSubsequence(a2, b2)
    ensures IsSubsequence(a1 + a2, b1 + b2)
    decreases |b1|
  {
    if a1 == [] {
      assert a1 + a2 == a2;
      SubsequenceOfLonger(a2, b1, b2);
    } else {
      assert (b1 + b2)[1..] == b1[1..] + b2;
      if a1[0] == b1[0] && IsSubsequence(a1[1..], b1[1..]) {
        SubsequenceAppend(a1[1..], b1[1..], a2, b2);
        assert (a1 + a2)[1..] == a1[1..] + a2;
      } else {
        SubsequenceAppend(a1, b1[1..], a2, b2);
      }
    }
  }

  lemma {:induction false} SubsequenceReflexive(s: string)
    ensures IsSubsequence(s, s)
    decreases |s|
  {
    if s != [] {
      SubsequenceReflexive(s[1..]);
    }
  }

  lemma {:induction false} SubsequenceTransitive(a: string, b: string, c: string)
    requires IsSubsequence(a, b) && IsSubsequence(b, c)
    ensures IsSubsequence(a, c)
    decreases |c|
  {
    if a != [] {
      if IsSubsequence(b, c[1..]) {
        SubsequenceTransitive(a, b, c[1..]);
      } else if a[0] == b[0] && IsSubsequence(a[1..], b[1..]) {
        SubsequenceTransitive(a[1..], b[1..], c[1..]);
      } else {
        SubsequenceTransitive(a, b[1..], c[1..]);
      }
    }
  }

  /** A string ending in `c` has `[c]` as a subsequence. */
  lemma {:induction false} SubsequenceOfLast(c: char, m: string)
    ensures IsSubsequence([c], m + [c])
    decreases |m|
  {
    if m != [] {
      SubsequenceOfLast(c, m[1..]);
      assert (m + [c])[1..] == m[1..] + [c];
    } else {
      assert [c][1..] == [];
    }
  }

  /** The end of the longest run of `\d` starting at `i` (a greedy `\d*`). */
  function SkipDigits(s: string, i: nat): (j: nat)
    requires i <= |s|
    ensures i <= j <= |s|
    ensures forall k | i <= k < j :: IsDigit(s[k])
    ensures j == |s| || !IsDigit(s[j])
    decreases |s| - i
  {
    if i < |s| && IsDigit(s[i]) then SkipDigits(s, i + 1) else i
  }

  /** A run of digits from `i` that stops at `e` is what `SkipDigits` finds. */
  lemma {:induction false} SkipDigitsTo(s: string, i: nat, e: nat)
    requires i <= e <= |s|
    requires forall k | i <= k < e :: IsDigit(s[k])
    requires e == |s| || !IsDigit(s[e])
    ensures SkipDigits(s, i) == e
    decreases e - i
  {
    if i < e {
      SkipDigitsTo(s, i + 1, e);
    }
  }

  /** The end of the longest run of `0` starting at `i` (a greedy `0*`). */
  function SkipZeros(s: string, i: nat): (j: nat)
    requires i <= |s|
    ensures i <= j <= |s|
    ensures forall k | i <= k < j :: s[k] == '0'
    ensures j == |s| || s[j] != '0'
    decreases |s| - i
  {
    if i < |s| && s[i] == '0' then SkipZeros(s, i + 1) else i
  }

  /** A run of `0` from `i` that stops at `e` is what `SkipZeros` finds. */
  lemma {:induction false} SkipZerosTo(s: string, i: nat, e: nat)
    requires i <= e <= |s|
    requires forall k | i <= k < e :: s[k] == '0'
    requires e == |s| || s[e] != '0'
    ensures SkipZeros(s, i) == e
    decreases e - i
  {
    if i < e {
      SkipZerosTo(s, i + 1, e);
    }
  }

  /** The end of the longest run starting at `i` of characters satisfying `p`. */
  function SkipWhile(s: string, i: nat, p: char -> bool): (j: nat)
    requires i <= |s|
    ensures i <= j <= |s|
    ensures forall k | i <= k < j :: p(s[k])
    ensures j == |s| || !p(s[j])
    decreases |s| - i
  {
    if i < |s| && p(s[i]) then SkipWhile(s, i + 1, p) else i
  }

  /** A run of characters satisfying `p` from `i` that stops at `e` is what `SkipWhile` finds. */
  lemma {:induction false} SkipWhileTo(s: string, i: nat, e: nat, p: char -> bool)
    requires i <= e <= |s|
    requires forall k | i <= k < e :: p(s[k])
    requires e == |s| || !p(s[e])
    ensures SkipWhile(s, i, p) == e
    decreases e - i
  {
    if i < e {
      SkipWhileTo(s, i + 1, e, p);
    }
  }

  /** A slice of a slice is a slice. */
  lemma SliceOfSlice<T>(s: seq<T>, i: nat, e: nat, a: nat, b: nat)
    requires i <= e <= |s| && a <= b <= e - i
    ensures s[i..e][a..b] == s[i + a..i + b]
  {
    forall x | 0 <= x < b - a ensures s[i..e][a..b][x] == s[i + a..i + b][x] {
      assert s[i..e][a..b][x] == s[i..e][a + x];
    }
  }

  /** Every character of `s` from `a` to `b` satisfies `p`: the slice does. */
  lemma AllIn(s: string, a: nat, b: nat, p: char -> bool)
    requires a <= b <= |s| && forall x | a <= x < b :: p(s[x])
    ensures All(s[a..b], p)
  {
    forall x | 0 <= x < b - a ensures p(s[a..b][x]) {
      assert s[a..b][x] == s[a + x];
    }
  }

  /** A run of characters satisfying `p` that stops at `b` is what `SkipWhile` finds from `a`. */
  lemma SkipOver(s: string, a: nat, b: nat, p: char -> bool)
    requires a <= b <= |s| && All(s[a..b], p)
    requires b == |s| || !p(s[b])
    ensures SkipWhile(s, a, p) == b
  {
    forall x | a <= x < b ensures p(s[x]) {
      assert s[x] == s[a..b][x - a];
    }
    SkipWhileTo(s, a, b, p);
  }

  // ---------------------------------------------------------------------
  // Replacing every match of a pattern

  /**
   * The length of the pattern's match starting at a position, 0 when there is
   * none there.
   */
  type MatchLength = (string, nat) -> nat

  /** A match of `len` at `i` that fits in `s`. */
  predicate MatchAt(s: string, i: nat, len: MatchLength) {
    0 < len(s, i) && i + len(s, i) <= |s|
  }

  /**
   * One step of the scan at `i`: a match is replaced by what `rep` makes of
   * the matched text, any other character copied.
   */
  function ReplaceStep(s: string, i: nat, len: MatchLength, rep: string -> string): (r: (string, nat))
    requires i < |s|
    ensures i < r.1 <= |s|
    ensures MatchAt(s, i, len) ==> r == (rep(s[i..r.1]), i + len(s, i))
    ensures !MatchAt(s, i, len) ==> r == ([s[i]], i + 1)
  {
    if MatchAt(s, i, len) then (rep(s[i..i + len(s, i)]), i + len(s, i)) else ([s[i]], i + 1)
  }

  /**
   * `preg_replace_callback($pattern, $rep, $s)` from `i`: the leftmost
   * matches, without overlap, each replaced.
   */
  function ReplaceMatchesFrom(s: string, i: nat, len: MatchLength, rep: string -> string): (r: string)
    requires i <= |s|
    decreases |s| - i
  {
    if i == |s| then []
    else
      var (piece, next) := ReplaceStep(s, i, len, rep);
      piece + ReplaceMatchesFrom(s, next, len, rep)
  }

  /** `preg_match_all($pattern, $s)` from `i`: where the leftmost matches, without overlap, start. */
  function MatchStarts(s: string, i: nat, len: MatchLength): (r: seq<nat>)
    requires i <= |s|
    ensures forall k | 0 <= k < |r| :: i <= r[k] < |s| && MatchAt(s, r[k], len)
    decreases |s| - i
  {
    if i == |s| then []
    else if MatchAt(s, i, len) then [i] + MatchStarts(s, i + len(s, i), len)
    else MatchStarts(s, i + 1, len)
  }

  /** There is no match from `i` on exactly when no position from `i` on starts one. */
  lemma {:induction false} MatchStartsEmpty(s: string, i: nat, len: MatchLength)
    requires i <= |s|
    ensures MatchStarts(s, i, len) == [] <==> forall k | i <= k < |s| :: !MatchAt(s, k, len)
    decreases |s| - i
  {
    if i < |s| && !MatchAt(s, i, len) {
      MatchStartsEmpty(s, i + 1, len);
    }
  }

  /** The replacement of `preg_replace($pattern, '', $s)`: every match is deleted. */
  function Deleted(m: string): string { [] }

  /** Deleting the matches leaves `s` with some characters taken out. */
  lemma {:induction false} DeleteMatchesIsSubsequence(s: string, i: nat, len: MatchLength)
    requires i <= |s|
    ensures IsSubsequence(ReplaceMatchesFrom(s, i, len, Deleted), s[i..])
    decreases |s| - i
  {
    if i < |s| {
      var (piece, next) := ReplaceStep(s, i, len, Deleted);
      DeleteMatchesIsSubsequence(s, next, len);
      assert s[i..] == s[i..next] + s[next..];
      if piece != [] {
        assert s[i..next] == piece;
        assert IsSubsequence(piece, s[i..next]) by {
          assert piece[1..] == [] && s[i..next][1..] == [];
        }
      }
      SubsequenceAppend(piece, s[i..next], ReplaceMatchesFrom(s, next, len, Deleted), s[next..]);
    }
  }

  /** Without a match from `i` on, the text is returned as it is. */
  lemma {:induction false} ReplaceMatchesIdentity(s: string, i: nat, len: MatchLength, rep: string -> string)
    requires i <= |s|
    ensures (forall k | i <= k < |s| :: !MatchAt(s, k, len)) ==> ReplaceMatchesFrom(s, i, len, rep) == s[i..]
    decreases |s| - i
  {
    if i < |s| {
      ReplaceMatchesIdentity(s, i + 1, len, rep);
      assert s[i..] == [s[i]] + s[i + 1..];
    }
  }

  /** A replacement never longer than what it replaces never makes the text longer. */
  lemma {:induction false} ReplaceMatchesNeverLonger(s: string, i: nat, len: MatchLength, rep: string -> string)
    requires i <= |s|
    requires forall m | |m| > 0 :: |rep(m)| <= |m|
    ensures |ReplaceMatchesFrom(s, i, len, rep)| <= |s| - i
    decreases |s| - i
  {
    if i < |s| {
      var (piece, next) := ReplaceStep(s, i, len, rep);
      ReplaceMatchesNeverLonger(s, next, len, rep);
    }
  }

  /** `preg_replace($pattern, '', $s)`. */
  function DeleteMatches(s: string, len: MatchLength): (r: string)
    ensures |r| <= |s|
    ensures IsSubsequence(r, s)
    ensures (forall k | 0 <= k < |s| :: !MatchAt(s, k, len)) ==> r == s
  {
    assert s[0..] == s;
    DeleteMatchesIsSubsequence(s, 0, len);
    ReplaceMatchesIdentity(s, 0, len, Deleted);
    ReplaceMatchesNeverLonger(s, 0, len, Deleted);
    ReplaceMatchesFrom(s, 0, len, Deleted)
  }

  /** A match at the start and none from its end on: deleting leaves what follows the match. */
  lemma DeleteLeadingMatch(s: string, n: nat, len: MatchLength)
    requires 0 < n <= |s| && len(s, 0) == n
    requires forall k | n <= k < |s| :: !MatchAt(s, k, len)
    ensures DeleteMatches(s, len) == s[n..]
  {
    assert s[0..n] == s[..n];
    assert ReplaceMatchesFrom(s, 0, len, Deleted) == Deleted(s[0..n]) + ReplaceMatchesFrom(s, n, len, Deleted);
    ReplaceMatchesIdentity(s, n, len, Deleted);
  }

  // ---------------------------------------------------------------------
  // Whitespace-separated text

  /** Where the run of non-`\s` characters from `i` ends. */
  function SkipWord(s: string, i: nat): (j: nat)
    requires i <= |s|
    ensures i <= j <= |s|
    ensures forall k | i <= k < j :: !IsSpace(s[k])
    ensures j == |s| || IsSpace(s[j])
    decreases |s| - i
  {
    if i < |s| && !IsSpace(s[i]) then SkipWord(s, i + 1) else i
  }

  /** A run of non-`\s` characters from `i` that stops at `e` is what `SkipWord` finds. */
  lemma {:induction false} SkipWordTo(s: string, i: nat, e: nat)
    requires i <= e <= |s|
    requires forall k | i <= k < e :: !IsSpace(s[k])
    requires e == |s| || IsSpace(s[e])
    ensures SkipWord(s, i) == e
    decreases e - i
  {
    if i < e {
      SkipWordTo(s, i + 1, e);
    }
  }

  /** `s` without its leading and trailing `\s`. */
  function StripSpaces(s: string): string
    decreases |s|
  {
    if s != [] && IsSpace(s[0]) then StripSpaces(s[1..])
    else if s != [] && IsSpace(s[|s| - 1]) then StripSpaces(s[..|s| - 1])
    else s
  }

  /** Only `\s` before `a` and from `b` on, none at either end of `s[a..b]`: stripping leaves `s[a..b]`. */
  lemma {:induction false} StripSpacesOf(s: string, a: nat, b: nat)
    requires a <= b <= |s|
    requires forall k | 0 <= k < a :: IsSpace(s[k])
    requires forall k | b <= k < |s| :: IsSpace(s[k])
    requires a < b ==> !IsSpace(s[a]) && !IsSpace(s[b - 1])
    ensures StripSpaces(s) == s[a..b]
    decreases |s|
  {
    if s != [] && IsSpace(s[0]) {
      if a > 0 {
        StripSpacesOf(s[1..], a - 1, b - 1);
        assert s[1..][a - 1..b - 1] == s[a..b];
      } else {
        StripSpacesOf(s[1..], 0, 0);
      }
    } else if s != [] && IsSpace(s[|s| - 1]) {
      StripSpacesOf(s[..|s| - 1], a, b);
      assert s[..|s| - 1][a..b] == s[a..b];
    }
  }

  /** Where the stripped text lies in `s`. */
  lemma {:induction false} StripSpacesBounds(s: string) returns (a: nat, b: nat)
    ensures a <= b <= |s| && StripSpaces(s) == s[a..b]
    ensures forall k | 0 <= k < a :: IsSpace(s[k])
    ensures forall k | b <= k < |s| :: IsSpace(s[k])
    ensures a < b ==> !IsSpace(s[a]) && !IsSpace(s[b - 1])
    decreases |s|
  {
    if s != [] && IsSpace(s[0]) {
      var a1, b1 := StripSpacesBounds(s[1..]);
      a, b := a1 + 1, b1 + 1;
      assert s[1..][a1..b1] == s[a..b];
      forall k | b <= k < |s| ensures IsSpace(s[k]) {
        assert s[k] == s[1..][k - 1];
      }
      forall k | 0 <= k < a ensures IsSpace(s[k]) {
        if k > 0 {
          assert s[k] == s[1..][k - 1];
        }
      }
    } else if s != [] && IsSpace(s[|s| - 1]) {
      a, b := StripSpacesBounds(s[..|s| - 1]);
      assert s[..|s| - 1][a..b] == s[a..b];
      forall k | b <= k < |s| ensures IsSpace(s[k]) {
        if k < |s| - 1 {
          assert s[k] == s[..|s| - 1][k];
        }
      }
    } else {
      a, b := 0, |s|;
    }
  }

  /**
   * The maximal runs of non-`\s` characters of `s`, in order: the words of
   * a whitespace-separated list.
   */
  function Words(s: string): seq<string>
    decreases |s|
  {
    var a := SkipSpaces(s, 0);
    if a == |s| then []
    else
      var b := SkipWord(s, a);
      [s[a..b]] + Words(s[b..])
  }

  /** Spaces up to `a`, then non-spaces up to `b`, which ends `x` or is a space: `x[a..b]` is the first word. */
  lemma WordsAt(x: string, a: nat, b: nat)
    requires a < b <= |x|
    requires forall k | 0 <= k < a :: IsSpace(x[k])
    requires forall k | a <= k < b :: !IsSpace(x[k])
    requires b == |x| || IsSpace(x[b])
    ensures Words(x) == [x[a..b]] + Words(x[b..])
  {
    SkipSpacesTo(x, 0, a);
    SkipWordTo(x, a, b);
  }

  /** Spaces, then a run of non-spaces ending at `e` or before a space: that run is the first word. */
  lemma WordsAfter(s: string, j: nat, a: nat, b: nat, e: nat)
    requires j <= a < b <= e <= |s|
    requires forall k | j <= k < a :: IsSpace(s[k])
    requires forall k | a <= k < b :: !IsSpace(s[k])
    requires b == e || IsSpace(s[b])
    ensures Words(s[j..e]) == [s[a..b]] + Words(s[b..e])
  {
    var x := s[j..e];
    ShiftedRuns(s, j, a, b, e, x);
    WordsAt(x, a - j, b - j);
    WordsShift(s, j, e, a, b, x);
  }

  /** A split of the words of the slice `x == s[j..e]`, in the positions of `s`. */
  lemma WordsShift(s: string, j: nat, e: nat, a: nat, b: nat, x: string)
    requires j <= a <= b <= e <= |s| && x == s[j..e]
    requires Words(x) == [x[a - j..b - j]] + Words(x[b - j..])
    ensures Words(s[j..e]) == [s[a..b]] + Words(s[b..e])
  {
    assert x[a - j..b - j] == s[a..b] by {
      SliceOfSlice(s, j, e, a - j, b - j);
    }
    assert x[b - j..] == s[b..e] by {
      SliceOfSlice(s, j, e, b - j, e - j);
      assert x[b - j..] == x[b - j..e - j];
    }
  }

  /** The runs of `s[j..e]` seen from inside the slice `x`. */
  lemma ShiftedRuns(s: string, j: nat, a: nat, b: nat, e: nat, x: string)
    requires j <= a < b <= e <= |s| && x == s[j..e]
    requires forall k | j <= k < a :: IsSpace(s[k])
    requires forall k | a <= k < b :: !IsSpace(s[k])
    requires b == e || IsSpace(s[b])
    ensures forall k | 0 <= k < a - j :: IsSpace(x[k])
    ensures forall k | a - j <= k < b - j :: !IsSpace(x[k])
    ensures b == e || IsSpace(x[b - j])
  {
    forall k | 0 <= k < a - j ensures IsSpace(x[k]) {
      assert x[k] == s[j + k];
    }
    forall k | a - j <= k < b - j ensures !IsSpace(x[k]) {
      assert x[k] == s[j + k];
    }
    if b < e {
      assert x[b - j] == s[b];
    }
  }

  /** A text of spaces has no word. */
  lemma WordsNone(s: string, j: nat, e: nat)
    requires j <= e <= |s|
    requires forall k | j <= k < e :: IsSpace(s[k])
    ensures Words(s[j..e]) == []
  {
    SkipSpacesTo(s[j..e], 0, e - j);
  }

  /** The first word of a text that has one, and what surrounds it. */
  lemma WordsFirst(x: string) returns (a: nat, b: nat)
    requires Words(x) != []
    ensures a < b <= |x|
    ensures forall k | 0 <= k < a :: IsSpace(x[k])
    ensures forall k | a <= k < b :: !IsSpace(x[k])
    ensures b == |x| || IsSpace(x[b])
    ensures Words(x) == [x[a..b]] + Words(x[b..])
  {
    a := SkipSpaces(x, 0);
    b := SkipWord(x, a);
  }

  /** The first word of `s[j..e]`, in the positions of `s`. */
  lemma WordsHead(s: string, j: nat, e: nat) returns (a: nat, b: nat)
    requires j <= e <= |s| && Words(s[j..e]) != []
    ensures j <= a < b <= e && !IsSpace(s[a])
    ensures forall m | j <= m < a :: IsSpace(s[m])
    ensures Words(s[j..e]) == [s[a..b]] + Words(s[b..e])
    ensures b == e || IsSpace(s[b])
  {
    var x := s[j..e];
    var a', b' := WordsFirst(x);
    UnshiftedRuns(s, j, e, a', b', x);
    a, b := j + a', j + b';
    WordsShift(s, j, e, a, b, x);
  }

  /** The runs of the slice `x == s[j..e]` seen from `s`. */
  lemma UnshiftedRuns(s: string, j: nat, e: nat, a: nat, b: nat, x: string)
    requires j <= e <= |s| && x == s[j..e] && a < b <= |x|
    requires forall k | 0 <= k < a :: IsSpace(x[k])
    requires !IsSpace(x[a])
    requires b == |x| || IsSpace(x[b])
    ensures !IsSpace(s[j + a])
    ensures forall m | j <= m < j + a :: IsSpace(s[m])
    ensures j + b == e || IsSpace(s[j + b])
  {
    forall m | j <= m < j + a ensures IsSpace(s[m]) {
      assert s[m] == x[m - j];
    }
    assert s[j + a] == x[a];
    if b < |x| {
      assert s[j + b] == x[b];
    }
  }

  /** A text without words is all spaces. */
  lemma WordsEmpty(x: string)
    requires Words(x) == []
    ensures forall k | 0 <= k < |x| :: IsSpace(x[k])
  {
    assert SkipSpaces(x, 0) == |x|;
  }
}

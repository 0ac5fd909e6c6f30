/**
 * What the identity patterns of `removeIdentityTransforms` match, stated
 * without the scan: the text of a call, its arguments split at commas or
 * at whitespace, each argument a numeral, and the number that numeral
 * stands for.  Every matcher of `MinifyTransformations` is proved to
 * accept exactly such calls, at any position after a word boundary.
 */
module IdentityTransforms {

  import opened Outcomes
  import opened Strings
  import opened MinifyTransformations

  // ---------------------------------------------------------------------
  // Numerals and their values

  /** `[+-]?\d+` after the `e` of a numeral; all zeros when only a zero exponent is accepted. */
  predicate ExponentDigits(t: string, x: Exponent) {
    var d := if t != [] && (t[0] == '+' || t[0] == '-') then 1 else 0;
    d < |t| && forall k | d <= k < |t| :: if x == ZeroOnly then t[k] == '0' else IsDigit(t[k])
  }

  /** A numeral the patterns accept for `digit`: the digit, then optionally `e` (either case) and an exponent. */
  predicate NumeralText(t: string, digit: char, x: Exponent) {
    |t| >= 1 && t[0] == digit &&
    (|t| == 1 || (x != NoExponent && LowerChar(t[1]) == 'e' && ExponentDigits(t[2..], x)))
  }

  function DigitValue(c: char): nat {
    if IsDigit(c) then c as int - '0' as int else 0
  }

  /** The value of a run of decimal digits. */
  function DigitsValue(t: string): nat
    decreases |t|
  {
    if t == [] then 0 else DigitsValue(t[..|t| - 1]) * 10 + DigitValue(t[|t| - 1])
  }

  /** The value of an exponent `[+-]?\d+`. */
  function ExponentValue(t: string): int {
    if t != [] && t[0] == '-' then -(DigitsValue(t[1..]) as int)
    else if t != [] && t[0] == '+' then DigitsValue(t[1..])
    else DigitsValue(t)
  }

  function Pow10(e: int): real
    decreases if e < 0 then -e else e
  {
    if e == 0 then 1.0 else if e > 0 then 10.0 * Pow10(e - 1) else Pow10(e + 1) / 10.0
  }

  /** The number a numeral `d` or `dE` stands for: the digit times ten to the exponent. */
  function NumeralValue(t: string): real
    requires |t| >= 1
  {
    var m := DigitValue(t[0]) as real;
    if |t| == 1 then m else m * Pow10(ExponentValue(t[2..]))
  }

  lemma {:induction false} ZerosValue(t: string)
    requires forall k | 0 <= k < |t| :: t[k] == '0'
    ensures DigitsValue(t) == 0
    decreases |t|
  {
    if t != [] {
      ZerosValue(t[..|t| - 1]);
    }
  }

  /** A numeral for `0` stands for zero, whatever its exponent. */
  lemma ZeroNumeralIsZero(t: string, x: Exponent)
    requires NumeralText(t, '0', x)
    ensures NumeralValue(t) == 0.0
  {
  }

  /** A numeral for `1` with only a zero exponent stands for one. */
  lemma UnitNumeralIsOne(t: string)
    requires NumeralText(t, '1', ZeroOnly)
    ensures NumeralValue(t) == 1.0
  {
    if |t| > 1 {
      var u := t[2..];
      if u[0] == '+' || u[0] == '-' {
        ZerosValue(u[1..]);
      } else {
        ZerosValue(u);
      }
      assert ExponentValue(u) == 0;
    }
  }

  /** The numeral `1e2` that the as-written patterns accept for `1` stands for 100. */
  lemma HundredNumeral()
    ensures NumeralText("1e2", '1', AnyExponent) && NumeralValue("1e2") == 100.0
  {
    assert "1e2"[2..] == "2";
    assert DigitsValue("2") == 2 by {
      assert "2"[..0] == [];
    }
    assert Pow10(2) == 100.0 by {
      assert Pow10(1) == 10.0;
    }
  }

  /** The characters a numeral is made of. */
  predicate NumeralChar(c: char) {
    IsDigit(c) || LowerChar(c) == 'e' || c == '+' || c == '-'
  }

  lemma NumeralChars(t: string, digit: char, x: Exponent)
    requires NumeralText(t, digit, x) && IsDigit(digit)
    ensures forall k | 0 <= k < |t| :: NumeralChar(t[k])
  {
    forall k | 0 <= k < |t| ensures NumeralChar(t[k]) {
      if k >= 2 {
        assert t[k] == t[2..][k - 2];
      }
    }
  }

  // ---------------------------------------------------------------------
  // The calls

  /** The text of a call: the keyword with its `(` (any case under `/i`), the arguments, `)`. */
  predicate CallText(c: string, word: string, ci: bool) {
    |word| < |c| && c[|c| - 1] == ')' &&
    (if ci then ToLower(c[..|word|]) == word else c[..|word|] == word)
  }

  function ArgumentsOf(c: string, word: string): string
    requires |word| < |c|
  {
    c[|word|..|c| - 1]
  }

  /** A numeral with whitespace around it. */
  predicate PaddedNumeral(p: string, digit: char, x: Exponent) {
    NumeralText(StripSpaces(p), digit, x)
  }

  /** One numeral, or two separated by a comma, each with whitespace around it. */
  predicate OneOrTwoNumerals(args: string, digit: char, x: Exponent) {
    var pieces := Split(args, ',');
    |pieces| <= 2 && forall k | 0 <= k < |pieces| :: PaddedNumeral(pieces[k], digit, x)
  }

  /** A numeral for the `k`-th entry of the identity matrix. */
  predicate EntryText(t: string, k: nat, corrected: bool) {
    NumeralText(t, MatrixEntry(k), EntryExponent(MatrixEntry(k), corrected))
  }

  /** The six entries `1 0 0 1 0 0` of the identity matrix, separated by whitespace. */
  predicate MatrixEntries(args: string, corrected: bool) {
    var w := Words(args);
    |w| == 6 && forall k | 0 <= k < 6 :: EntryText(w[k], k, corrected)
  }

  /** `translate(0)` or `translate(0, 0)`, in any case, zeros with any exponent. */
  predicate TranslateCall(c: string) {
    CallText(c, "translate(", true) && OneOrTwoNumerals(ArgumentsOf(c, "translate("), '0', AnyExponent)
  }

  /** `scale(1)` or `scale(1, 1)`, in any case, ones with the exponents `x` admits. */
  predicate ScaleCall(c: string, x: Exponent) {
    CallText(c, "scale(", true) && OneOrTwoNumerals(ArgumentsOf(c, "scale("), '1', x)
  }

  /** `rotate(0)`, `skewX(0)` or `skewY(0)` as written: a bare `0`, no exponent, case-sensitive. */
  predicate ZeroAngleCall(c: string, word: string) {
    CallText(c, word, false) && PaddedNumeral(ArgumentsOf(c, word), '0', NoExponent)
  }

  /** `matrix(1 0 0 1 0 0)`, in any case. */
  predicate MatrixCall(c: string, corrected: bool) {
    CallText(c, "matrix(", true) && MatrixEntries(ArgumentsOf(c, "matrix("), corrected)
  }

  /** A translation every argument of which is zero: it moves nothing. */
  lemma TranslateCallIsIdentity(c: string)
    requires TranslateCall(c)
    ensures var pieces := Split(ArgumentsOf(c, "translate("), ',');
            forall k | 0 <= k < |pieces| :: NumeralValue(StripSpaces(pieces[k])) == 0.0
  {
  }

  /** With the corrected pattern, a scaling every factor of which is one: it changes nothing. */
  lemma ScaleCallIsIdentity(c: string)
    requires ScaleCall(c, ZeroOnly)
    ensures var pieces := Split(ArgumentsOf(c, "scale("), ',');
            forall k | 0 <= k < |pieces| :: NumeralValue(StripSpaces(pieces[k])) == 1.0
  {
    var pieces := Split(ArgumentsOf(c, "scale("), ',');
    forall k | 0 <= k < |pieces| ensures NumeralValue(StripSpaces(pieces[k])) == 1.0 {
      UnitNumeralIsOne(StripSpaces(pieces[k]));
    }
  }

  /** A rotation or skew by the angle `0`. */
  lemma ZeroAngleCallIsIdentity(c: string, word: string)
    requires |word| < |c| && ZeroAngleCall(c, word)
    ensures StripSpaces(ArgumentsOf(c, word)) == "0"
  {
  }

  /** With the corrected pattern, the matrix entries are the numbers 1, 0, 0, 1, 0, 0. */
  lemma MatrixCallIsIdentity(c: string)
    requires MatrixCall(c, true)
    ensures var w := Words(ArgumentsOf(c, "matrix("));
            forall k | 0 <= k < 6 :: NumeralValue(w[k]) == if k == 0 || k == 3 then 1.0 else 0.0
  {
    var w := Words(ArgumentsOf(c, "matrix("));
    forall k | 0 <= k < 6 ensures NumeralValue(w[k]) == if k == 0 || k == 3 then 1.0 else 0.0 {
      if k == 0 || k == 3 {
        UnitNumeralIsOne(w[k]);
      }
    }
  }

  // ---------------------------------------------------------------------
  // Numerals in the scan

  /** What may follow a numeral inside a call: the end, whitespace, `,` or `)`. */
  predicate Delimits(s: string, b: nat) {
    b >= |s| || IsSpace(s[b]) || s[b] == ',' || s[b] == ')'
  }

  /** What `Numeral` reads is a numeral. */
  lemma NumeralSound(s: string, a: nat, digit: char, x: Exponent)
    requires a <= |s| && Numeral(s, a, digit, x).Some?
    ensures NumeralText(s[a..Numeral(s, a, digit, x).value], digit, x)
  {
    var b := Numeral(s, a, digit, x).value;
    var t := s[a..b];
    if b > a + 1 {
      assert t[1] == s[a + 1];
      var u := t[2..];
      assert u == s[a + 2..b];
      assert forall k | 0 <= k < |u| :: u[k] == s[a + 2 + k];
    }
  }

  /** A numeral followed by a delimiter is read whole by `Numeral`. */
  lemma NumeralComplete(s: string, a: nat, b: nat, digit: char, x: Exponent)
    requires a < b <= |s| && NumeralText(s[a..b], digit, x) && Delimits(s, b)
    ensures Numeral(s, a, digit, x) == Some(b)
  {
    var t := s[a..b];
    assert s[a] == t[0];
    if b > a + 1 {
      assert s[a + 1] == t[1];
      var u := t[2..];
      assert u == s[a + 2..b];
      var d := if a + 2 < |s| && (s[a + 2] == '+' || s[a + 2] == '-') then a + 3 else a + 2;
      assert forall k | d <= k < b :: s[k] == u[k - a - 2];
      if x == AnyExponent {
        SkipDigitsTo(s, d, b);
      } else {
        SkipZerosTo(s, d, b);
      }
    }
  }

  /** A numeral with whitespace around it holds no `,` and no `)`. */
  lemma PaddedPlain(p: string, digit: char, x: Exponent)
    requires PaddedNumeral(p, digit, x) && IsDigit(digit)
    ensures ',' !in p && ')' !in p
  {
    var a, b := StripSpacesBounds(p);
    NumeralChars(p[a..b], digit, x);
    forall k | 0 <= k < |p| ensures p[k] != ',' && p[k] != ')' {
      if a <= k < b {
        assert p[k] == p[a..b][k - a];
      }
    }
  }

  /** `\s*D\s*` read from `j`: the text up to the whitespace's end is a padded numeral. */
  lemma PaddedSound(s: string, j: nat, c: nat, digit: char, x: Exponent)
    requires j <= |s| && Numeral(s, SkipSpaces(s, j), digit, x).Some? && IsDigit(digit)
    requires c == SkipSpaces(s, Numeral(s, SkipSpaces(s, j), digit, x).value)
    ensures PaddedNumeral(s[j..c], digit, x)
  {
    var a := SkipSpaces(s, j);
    var b := Numeral(s, a, digit, x).value;
    NumeralSound(s, a, digit, x);
    PaddedBetween(s, j, a, b, c, digit, x);
  }

  /** A numeral at `a..b` with only whitespace from `j` to it and from it to `c`. */
  lemma PaddedBetween(s: string, j: nat, a: nat, b: nat, c: nat, digit: char, x: Exponent)
    requires j <= a < b <= c <= |s| && IsDigit(digit)
    requires forall k | j <= k < a :: IsSpace(s[k])
    requires forall k | b <= k < c :: IsSpace(s[k])
    requires NumeralText(s[a..b], digit, x)
    ensures PaddedNumeral(s[j..c], digit, x)
  {
    var p := s[j..c];
    NumeralChars(s[a..b], digit, x);
    assert s[a] == s[a..b][0] && s[b - 1] == s[a..b][b - 1 - a];
    forall k | 0 <= k < a - j ensures IsSpace(p[k]) {
      assert p[k] == s[j + k];
    }
    forall k | b - j <= k < |p| ensures IsSpace(p[k]) {
      assert p[k] == s[j + k];
    }
    assert p[a - j] == s[a] && p[b - j - 1] == s[b - 1];
    StripSpacesOf(p, a - j, b - j);
    SliceOfSlice(s, j, c, a - j, b - j);
  }

  lemma PaddedComplete(s: string, j: nat, c: nat, p: string, digit: char, x: Exponent)
    requires j <= c < |s| && (s[c] == ',' || s[c] == ')') && IsDigit(digit)
    requires p == s[j..c] && PaddedNumeral(p, digit, x)
    ensures Numeral(s, SkipSpaces(s, j), digit, x).Some?
    ensures SkipSpaces(s, Numeral(s, SkipSpaces(s, j), digit, x).value) == c
  {
    var a', b' := StripSpacesBounds(p);
    var a, b := j + a', j + b';
    SliceOfSlice(s, j, c, a', b');
    assert a < b && s[a] == p[a'];
    forall m | j <= m < a ensures IsSpace(s[m]) {
      assert s[m] == p[m - j];
    }
    SkipSpacesTo(s, j, a);
    assert Delimits(s, b) by {
      if b < c {
        assert s[b] == p[b'];
      }
    }
    NumeralComplete(s, a, b, digit, x);
    forall m | b <= m < c ensures IsSpace(s[m]) {
      assert s[m] == p[m - j];
    }
    SkipSpacesTo(s, b, c);
  }

  // ---------------------------------------------------------------------
  // Argument lists in the scan

  /** What `\s*D\s*\)` reads from `j` is a padded numeral and its `)`. */
  lemma LastArgumentSound(s: string, j: nat, e: nat, digit: char, x: Exponent)
    requires j <= |s| && LastArgument(s, j, digit, x) == Some(e + 1) && IsDigit(digit)
    ensures j <= e && s[e] == ')' && PaddedNumeral(s[j..e], digit, x)
  {
    PaddedSound(s, j, e, digit, x);
  }

  lemma LastArgumentComplete(s: string, j: nat, e: nat, args: string, digit: char, x: Exponent)
    requires j <= e < |s| && s[e] == ')' && IsDigit(digit)
    requires args == s[j..e] && PaddedNumeral(args, digit, x)
    ensures LastArgument(s, j, digit, x) == Some(e + 1)
  {
    PaddedComplete(s, j, e, args, digit, x);
  }

  /** What `\s*D\s*(,\s*D\s*)?\)` reads from `j` is one or two padded numerals and the `)`. */
  lemma OneOrTwoSound(s: string, j: nat, digit: char, x: Exponent)
    requires j <= |s| && OneOrTwoArguments(s, j, digit, x).Some? && IsDigit(digit)
    ensures var e := OneOrTwoArguments(s, j, digit, x).value - 1;
            j <= e && s[e] == ')' && OneOrTwoNumerals(s[j..e], digit, x)
  {
    OneOrTwoRead(s, j, OneOrTwoArguments(s, j, digit, x).value - 1, digit, x);
  }

  /** The same, for the call that ends at `e + 1`. */
  lemma OneOrTwoRead(s: string, j: nat, e: nat, digit: char, x: Exponent)
    requires j <= |s| && IsDigit(digit) && OneOrTwoArguments(s, j, digit, x) == Some(e + 1)
    ensures j <= e && s[e] == ')' && OneOrTwoNumerals(s[j..e], digit, x)
  {
    var c := OneOrTwoStep(s, j, e, digit, x);
    if c == e {
      OneArgumentRead(s, j, e, digit, x);
    } else {
      TwoArgumentsRead(s, j, c, e, digit, x);
    }
  }

  /** A first argument closed by `)`: the one argument. */
  lemma OneArgumentRead(s: string, j: nat, c: nat, digit: char, x: Exponent)
    requires j <= |s| && IsDigit(digit) && Numeral(s, SkipSpaces(s, j), digit, x).Some?
    requires c == SkipSpaces(s, Numeral(s, SkipSpaces(s, j), digit, x).value)
    ensures OneOrTwoNumerals(s[j..c], digit, x)
  {
    PaddedSound(s, j, c, digit, x);
    OneArgumentSound(s, j, c, digit, x);
  }

  /** A first argument closed by a comma at `c`, then the last argument up to the `)` at `e`. */
  lemma TwoArgumentsRead(s: string, j: nat, c: nat, e: nat, digit: char, x: Exponent)
    requires j <= |s| && IsDigit(digit) && Numeral(s, SkipSpaces(s, j), digit, x).Some?
    requires c == SkipSpaces(s, Numeral(s, SkipSpaces(s, j), digit, x).value)
    requires c < |s| && s[c] == ',' && LastArgument(s, c + 1, digit, x) == Some(e + 1)
    ensures j <= e && OneOrTwoNumerals(s[j..e], digit, x)
  {
    PaddedSound(s, j, c, digit, x);
    LastArgumentSound(s, c + 1, e, digit, x);
    TwoArgumentsSound(s, j, c, e, digit, x);
  }

  /** Where the first argument's padding ends, and how the call goes on from there. */
  lemma OneOrTwoStep(s: string, j: nat, e: nat, digit: char, x: Exponent) returns (c: nat)
    requires j <= |s| && OneOrTwoArguments(s, j, digit, x) == Some(e + 1)
    ensures Numeral(s, SkipSpaces(s, j), digit, x).Some?
    ensures c == SkipSpaces(s, Numeral(s, SkipSpaces(s, j), digit, x).value)
    ensures c == e || (c < |s| && s[c] == ',' && LastArgument(s, c + 1, digit, x) == Some(e + 1))
  {
    c := SkipSpaces(s, Numeral(s, SkipSpaces(s, j), digit, x).value);
  }

  /** One padded numeral is one of the one or two arguments. */
  lemma OneArgumentSound(s: string, j: nat, c: nat, digit: char, x: Exponent)
    requires j <= c <= |s| && IsDigit(digit) && PaddedNumeral(s[j..c], digit, x)
    ensures OneOrTwoNumerals(s[j..c], digit, x)
  {
    PaddedPlain(s[j..c], digit, x);
    SplitNone(s[j..c], ',');
  }

  /** Two padded numerals around the comma at `c` are the two arguments. */
  lemma TwoArgumentsSound(s: string, j: nat, c: nat, e: nat, digit: char, x: Exponent)
    requires j <= c < e <= |s| && s[c] == ',' && IsDigit(digit)
    requires PaddedNumeral(s[j..c], digit, x) && PaddedNumeral(s[c + 1..e], digit, x)
    ensures OneOrTwoNumerals(s[j..e], digit, x)
  {
    PaddedPlain(s[j..c], digit, x);
    PaddedPlain(s[c + 1..e], digit, x);
    assert s[j..e] == s[j..c] + [','] + s[c + 1..e];
    SplitAfter(s[j..c], s[c + 1..e], ',');
    SplitNone(s[c + 1..e], ',');
  }


  /** A text with a comma that splits into at most two pieces: the pieces around its first comma. */
  lemma SplitTwo(args: string)
    requires ',' in args && |Split(args, ',')| <= 2
    ensures var m := IndexOfChar(args, ',');
            ',' !in args[m + 1..] && Split(args, ',') == [args[..m], args[m + 1..]]
  {
    var m := IndexOfChar(args, ',');
    var rest := args[m + 1..];
    assert args == args[..m] + [','] + rest;
    SplitAfter(args[..m], rest, ',');
    SplitNone(rest, ',');
  }

  lemma OneOrTwoComplete(s: string, j: nat, e: nat, args: string, digit: char, x: Exponent)
    requires j <= e < |s| && s[e] == ')' && IsDigit(digit)
    requires args == s[j..e] && OneOrTwoNumerals(args, digit, x)
    ensures OneOrTwoArguments(s, j, digit, x) == Some(e + 1)
  {
    if ',' !in args {
      SplitNone(args, ',');
      OneArgumentComplete(s, j, e, args, digit, x);
    } else {
      var m := TwoPieces(args, digit, x);
      var c := j + m;
      assert args[..m] == s[j..c] && args[m + 1..] == s[c + 1..e] && s[c] == ',' by {
        SliceOfSlice(s, j, e, 0, m);
        SliceOfSlice(s, j, e, m + 1, e - j);
        assert args[..m] == args[0..m] && args[m + 1..] == args[m + 1..e - j];
      }
      TwoArgumentsComplete(s, j, c, e, args[..m], args[m + 1..], digit, x);
    }
  }

  lemma OneArgumentComplete(s: string, j: nat, e: nat, args: string, digit: char, x: Exponent)
    requires j <= e < |s| && s[e] == ')' && IsDigit(digit)
    requires args == s[j..e] && PaddedNumeral(args, digit, x)
    ensures OneOrTwoArguments(s, j, digit, x) == Some(e + 1)
  {
    PaddedComplete(s, j, e, args, digit, x);
  }

  /** Padded numerals at `j..c` and `c + 1..e`, around a comma, closed by `)`: the call is read to the end. */
  lemma TwoArgumentsComplete(s: string, j: nat, c: nat, e: nat, p: string, q: string, digit: char, x: Exponent)
    requires j <= c < e < |s| && s[c] == ',' && s[e] == ')' && IsDigit(digit)
    requires p == s[j..c] && q == s[c + 1..e] && PaddedNumeral(p, digit, x) && PaddedNumeral(q, digit, x)
    ensures OneOrTwoArguments(s, j, digit, x) == Some(e + 1)
  {
    PaddedComplete(s, j, c, p, digit, x);
    LastArgumentComplete(s, c + 1, e, q, digit, x);
    CommaThenLast(s, j, c, digit, x);
  }

  /** The two pieces of a two-argument list, around its first comma. */
  lemma TwoPieces(args: string, digit: char, x: Exponent) returns (m: nat)
    requires ',' in args && OneOrTwoNumerals(args, digit, x)
    ensures m < |args| && args[m] == ','
    ensures PaddedNumeral(args[..m], digit, x) && PaddedNumeral(args[m + 1..], digit, x)
  {
    SplitTwo(args);
    m := IndexOfChar(args, ',');
    var pieces := Split(args, ',');
    assert pieces[0] == args[..m] && pieces[1] == args[m + 1..];
  }

  /** A first argument closed by a comma at `c`: the call goes on with the last argument after it. */
  lemma CommaThenLast(s: string, j: nat, c: nat, digit: char, x: Exponent)
    requires j <= c < |s| && s[c] == ','
    requires Numeral(s, SkipSpaces(s, j), digit, x).Some?
    requires SkipSpaces(s, Numeral(s, SkipSpaces(s, j), digit, x).value) == c
    ensures OneOrTwoArguments(s, j, digit, x) == LastArgument(s, c + 1, digit, x)
  {
  }

  /** The matrix entries from the `k`-th on, one word each. */
  predicate EntriesFrom(w: seq<string>, k: nat, corrected: bool)
    decreases |w|
  {
    if w == [] then k == 6
    else k < 6 && EntryText(w[0], k, corrected) && EntriesFrom(w[1..], k + 1, corrected)
  }

  /** The entries from the `k`-th on are the last `6 - k` entries of the identity matrix. */
  lemma {:induction false} EntriesFromEach(w: seq<string>, k: nat, corrected: bool)
    ensures EntriesFrom(w, k, corrected) <==>
            k <= 6 && |w| == 6 - k && forall m | 0 <= m < |w| :: EntryText(w[m], k + m, corrected)
    decreases |w|
  {
    if w != [] {
      EntriesFromEach(w[1..], k + 1, corrected);
      if k < 6 && EntryText(w[0], k, corrected) && EntriesFrom(w[1..], k + 1, corrected) {
        forall m | 0 <= m < |w| ensures EntryText(w[m], k + m, corrected) {
          if m > 0 {
            assert w[m] == w[1..][m - 1];
          }
        }
      }
      if k <= 6 && |w| == 6 - k && forall m | 0 <= m < |w| :: EntryText(w[m], k + m, corrected) {
        forall m | 0 <= m < |w[1..]| ensures EntryText(w[1..][m], k + 1 + m, corrected) {
          assert w[1..][m] == w[m + 1];
        }
      }
    }
  }

  /** What the matrix arguments read from `j` are the remaining entries and the `)`. */
  lemma {:induction false} MatrixArgumentsSound(s: string, j: nat, e: nat, k: nat, corrected: bool)
    requires j <= |s| && k <= 6 && MatrixArguments(s, j, k, corrected) == Some(e + 1)
    ensures j <= e < |s| && s[e] == ')' && EntriesFrom(Words(s[j..e]), k, corrected)
    ensures k > 0 ==> j == e || IsSpace(s[j])
    decreases 6 - k
  {
    var a := SkipSpaces(s, j);
    if k == 6 {
      WordsNone(s, j, a);
    } else {
      var b := MatrixStep(s, j, k, corrected);
      MatrixArgumentsSound(s, b, e, k + 1, corrected);
      EntriesStep(s, j, SkipSpaces(s, j), b, e, k, corrected);
    }
  }

  /** One entry read by the matrix arguments: a numeral after whitespace, ending at `b`. */
  lemma MatrixStep(s: string, j: nat, k: nat, corrected: bool) returns (b: nat)
    requires j <= |s| && k < 6 && MatrixArguments(s, j, k, corrected).Some?
    ensures var a := SkipSpaces(s, j);
            a < b <= |s| && (k > 0 ==> j < a) &&
            EntryText(s[a..b], k, corrected) &&
            MatrixArguments(s, j, k, corrected) == MatrixArguments(s, b, k + 1, corrected)
  {
    var a := SkipSpaces(s, j);
    var digit := MatrixEntry(k);
    var xp := EntryExponent(digit, corrected);
    b := Numeral(s, a, digit, xp).value;
    NumeralSound(s, a, digit, xp);
  }

  /** A numeral for the `k`-th entry, after whitespace, heads the entries from the `k`-th on. */
  lemma EntriesStep(s: string, j: nat, a: nat, b: nat, e: nat, k: nat, corrected: bool)
    requires j <= a < b <= e <= |s| && k < 6
    requires forall m | j <= m < a :: IsSpace(s[m])
    requires EntryText(s[a..b], k, corrected)
    requires b == e || IsSpace(s[b])
    ensures EntriesFrom(Words(s[j..e]), k, corrected) <==> EntriesFrom(Words(s[b..e]), k + 1, corrected)
  {
    NumeralChars(s[a..b], MatrixEntry(k), EntryExponent(MatrixEntry(k), corrected));
    forall m | a <= m < b ensures !IsSpace(s[m]) {
      assert s[m] == s[a..b][m - a];
    }
    WordsAfter(s, j, a, b, e);
    var w := Words(s[j..e]);
    assert w[0] == s[a..b] && w[1..] == Words(s[b..e]);
  }

  lemma {:induction false} MatrixArgumentsComplete(s: string, j: nat, e: nat, k: nat, corrected: bool)
    requires j <= e < |s| && s[e] == ')' && k <= 6
    requires EntriesFrom(Words(s[j..e]), k, corrected)
    requires 0 < k < 6 ==> IsSpace(s[j])
    ensures MatrixArguments(s, j, k, corrected) == Some(e + 1)
    decreases 6 - k
  {
    if k == 6 {
      NoWordsSkipped(s, j, e);
    } else {
      var a, b := EntriesHead(s, j, e, k, corrected);
      EntryRead(s, j, a, b, k, corrected);
      MatrixArgumentsComplete(s, b, e, k + 1, corrected);
    }
  }

  /** The `k`-th entry at `a..b`, after the whitespace from `j`: the scan goes on after it. */
  lemma EntryRead(s: string, j: nat, a: nat, b: nat, k: nat, corrected: bool)
    requires j <= a < b <= |s| && k < 6 && a == SkipSpaces(s, j) && (k > 0 ==> j < a)
    requires EntryText(s[a..b], k, corrected) && Delimits(s, b)
    ensures MatrixArguments(s, j, k, corrected) == MatrixArguments(s, b, k + 1, corrected)
  {
    NumeralComplete(s, a, b, MatrixEntry(k), EntryExponent(MatrixEntry(k), corrected));
  }

  /** Between `j` and `e` there is no word: the whitespace skipped from `j` ends at `e`. */
  lemma NoWordsSkipped(s: string, j: nat, e: nat)
    requires j <= e < |s| && !IsSpace(s[e]) && Words(s[j..e]) == []
    ensures SkipSpaces(s, j) == e
  {
    var x := s[j..e];
    WordsEmpty(x);
    forall m | j <= m < e ensures IsSpace(s[m]) {
      assert s[m] == x[m - j];
    }
    SkipSpacesTo(s, j, e);
  }

  /** The first of the entries from the `k`-th on: where it lies, and what follows it. */
  lemma EntriesHead(s: string, j: nat, e: nat, k: nat, corrected: bool) returns (a: nat, b: nat)
    requires j <= e < |s| && s[e] == ')' && k < 6
    requires EntriesFrom(Words(s[j..e]), k, corrected)
    ensures a == SkipSpaces(s, j) && a < b <= e
    ensures EntryText(s[a..b], k, corrected) && Delimits(s, b)
    ensures EntriesFrom(Words(s[b..e]), k + 1, corrected)
    ensures 0 < k + 1 < 6 ==> IsSpace(s[b])
  {
    a, b := WordsHead(s, j, e);
    SkipSpacesTo(s, j, a);
    var w := Words(s[j..e]);
    assert w[0] == s[a..b] && w[1..] == Words(s[b..e]);
    if k + 1 < 6 && b == e {
      WordsNone(s, b, e);
    }
  }



  // ---------------------------------------------------------------------
  // The matchers accept exactly the identity calls


  /** `OneOrTwoRead`, for the arguments that end just before `f`. */
  lemma OneOrTwoReadTo(s: string, j: nat, f: nat, digit: char, x: Exponent)
    requires j <= |s| && IsDigit(digit) && OneOrTwoArguments(s, j, digit, x) == Some(f)
    ensures j < f <= |s| && s[f - 1] == ')' && OneOrTwoNumerals(s[j..f - 1], digit, x)
  {
    OneOrTwoRead(s, j, f - 1, digit, x);
  }

  /** `LastArgumentSound`, for the argument that ends just before `f`. */
  lemma LastArgumentSoundTo(s: string, j: nat, f: nat, digit: char, x: Exponent)
    requires j <= |s| && IsDigit(digit) && LastArgument(s, j, digit, x) == Some(f)
    ensures j < f <= |s| && s[f - 1] == ')' && PaddedNumeral(s[j..f - 1], digit, x)
  {
    LastArgumentSound(s, j, f - 1, digit, x);
  }

  /** The six identity entries, read from the first one, for the arguments that end just before `f`. */
  lemma MatrixArgumentsSoundTo(s: string, j: nat, f: nat, corrected: bool)
    requires j <= |s| && MatrixArguments(s, j, 0, corrected) == Some(f)
    ensures j < f <= |s| && s[f - 1] == ')' && MatrixEntries(s[j..f - 1], corrected)
  {
    MatrixArgumentsSound(s, j, f - 1, 0, corrected);
    AllEntries(s[j..f - 1], s[j..f - 1], corrected);
  }

  /** A keyword at `i` and a `)` just before `f` frame a call whose arguments lie between them. */
  lemma KeywordFramesCall(s: string, i: nat, f: nat, word: string, ci: bool)
    requires Keyword(s, i, word, ci) && i + |word| < f <= |s| && s[f - 1] == ')'
    ensures CallText(s[i..f], word, ci) && ArgumentsOf(s[i..f], word) == s[i + |word|..f - 1]
  {
    SliceOfSlice(s, i, f, 0, |word|);
    SliceOfSlice(s, i, f, |word|, f - 1 - i);
  }

  /** A call found at `i` after a word boundary begins with its keyword there. */
  lemma CallHasKeyword(s: string, i: nat, c: string, word: string, ci: bool)
    requires i + |c| <= |s| && s[i..i + |c|] == c && WordStart(s, i) && CallText(c, word, ci)
    ensures Keyword(s, i, word, ci) && s[i + |c| - 1] == ')'
    ensures ArgumentsOf(c, word) == s[i + |word|..i + |c| - 1]
  {
    SliceOfSlice(s, i, i + |c|, 0, |word|);
    SliceOfSlice(s, i, i + |c|, |word|, |c| - 1);
    assert c[|c| - 1] == s[i + |c| - 1];
  }

  /** What `CallLength` matches, when the arguments end at `e + 1`. */
  lemma CallMatch(s: string, i: nat, word: string, ci: bool, args: Option<nat>, e: nat)
    requires i + |word| <= e < |s| && Keyword(s, i, word, ci) && args == Some(e + 1)
    ensures CallLength(s, i, word, ci, args) == e + 1 - i
  {
  }

  /** The entries from the first on, of the same arguments, are the six matrix entries. */
  lemma AllEntries(args: string, args': string, corrected: bool)
    requires args == args'
    ensures EntriesFrom(Words(args), 0, corrected) <==> MatrixEntries(args', corrected)
  {
    EntriesFromEach(Words(args), 0, corrected);
  }

  /** What a one-or-two-argument call pattern matches is such a call. */
  lemma OneOrTwoMatchSound(s: string, i: nat, n: nat, word: string, digit: char, x: Exponent)
    requires IsDigit(digit) && i + |word| <= |s|
    requires n == CallLength(s, i, word, true, OneOrTwoArguments(s, i + |word|, digit, x)) && n > 0
    ensures WordStart(s, i) && i + n <= |s| && CallText(s[i..i + n], word, true) &&
            OneOrTwoNumerals(ArgumentsOf(s[i..i + n], word), digit, x)
  {
    OneOrTwoCallRead(s, i, n, word, digit, x);
  }


  /** The same, for the call of length `n`. */
  lemma OneOrTwoCallRead(s: string, i: nat, n: nat, word: string, digit: char, x: Exponent)
    requires IsDigit(digit) && Keyword(s, i, word, true) && n > 0
    requires OneOrTwoArguments(s, i + |word|, digit, x) == Some(i + n)
    ensures |word| < n && i + n <= |s| && CallText(s[i..i + n], word, true)
    ensures OneOrTwoNumerals(ArgumentsOf(s[i..i + n], word), digit, x)
  {
    var j, f := i + |word|, i + n;
    OneOrTwoReadTo(s, j, f, digit, x);
    KeywordFramesCall(s, i, f, word, true);
  }

  /** Such a call, after a word boundary, is matched whole. */
  lemma OneOrTwoMatchComplete(s: string, i: nat, c: string, word: string, digit: char, x: Exponent)
    requires i + |c| <= |s| && s[i..i + |c|] == c && WordStart(s, i) && IsDigit(digit)
    requires CallText(c, word, true) && OneOrTwoNumerals(ArgumentsOf(c, word), digit, x)
    ensures CallLength(s, i, word, true, OneOrTwoArguments(s, i + |word|, digit, x)) == |c|
  {
    var e := i + |c| - 1;
    CallHasKeyword(s, i, c, word, true);
    OneOrTwoComplete(s, i + |word|, e, ArgumentsOf(c, word), digit, x);
    CallMatch(s, i, word, true, OneOrTwoArguments(s, i + |word|, digit, x), e);
  }

  /** What a one-argument call pattern matches is such a call. */
  lemma OneArgumentMatchSound(s: string, i: nat, n: nat, word: string, digit: char, x: Exponent)
    requires IsDigit(digit) && i + |word| <= |s|
    requires n == CallLength(s, i, word, false, LastArgument(s, i + |word|, digit, x)) && n > 0
    ensures WordStart(s, i) && i + n <= |s| && CallText(s[i..i + n], word, false) &&
            PaddedNumeral(ArgumentsOf(s[i..i + n], word), digit, x)
  {
    OneArgumentCallRead(s, i, n, word, digit, x);
  }


  /** The same, for the call of length `n`. */
  lemma OneArgumentCallRead(s: string, i: nat, n: nat, word: string, digit: char, x: Exponent)
    requires IsDigit(digit) && Keyword(s, i, word, false) && n > 0
    requires LastArgument(s, i + |word|, digit, x) == Some(i + n)
    ensures |word| < n && i + n <= |s| && CallText(s[i..i + n], word, false)
    ensures PaddedNumeral(ArgumentsOf(s[i..i + n], word), digit, x)
  {
    var j, f := i + |word|, i + n;
    LastArgumentSoundTo(s, j, f, digit, x);
    KeywordFramesCall(s, i, f, word, false);
  }

  /** Such a call, after a word boundary, is matched whole. */
  lemma OneArgumentMatchComplete(s: string, i: nat, c: string, word: string, digit: char, x: Exponent)
    requires i + |c| <= |s| && s[i..i + |c|] == c && WordStart(s, i) && IsDigit(digit)
    requires CallText(c, word, false) && PaddedNumeral(ArgumentsOf(c, word), digit, x)
    ensures CallLength(s, i, word, false, LastArgument(s, i + |word|, digit, x)) == |c|
  {
    var e := i + |c| - 1;
    CallHasKeyword(s, i, c, word, false);
    LastArgumentComplete(s, i + |word|, e, ArgumentsOf(c, word), digit, x);
    CallMatch(s, i, word, false, LastArgument(s, i + |word|, digit, x), e);
  }

  /** What a matrix call pattern matches is a call with the six identity entries. */
  lemma MatrixCallMatchSound(s: string, i: nat, n: nat, word: string, corrected: bool)
    requires i + |word| <= |s|
    requires n == CallLength(s, i, word, true, MatrixArguments(s, i + |word|, 0, corrected)) && n > 0
    ensures WordStart(s, i) && i + n <= |s| && CallText(s[i..i + n], word, true) &&
            MatrixEntries(ArgumentsOf(s[i..i + n], word), corrected)
  {
    MatrixCallRead(s, i, n, word, corrected);
  }


  /** The same, for the call of length `n`. */
  lemma MatrixCallRead(s: string, i: nat, n: nat, word: string, corrected: bool)
    requires Keyword(s, i, word, true) && n > 0 && MatrixArguments(s, i + |word|, 0, corrected) == Some(i + n)
    ensures |word| < n && i + n <= |s| && CallText(s[i..i + n], word, true)
    ensures MatrixEntries(ArgumentsOf(s[i..i + n], word), corrected)
  {
    var j, f := i + |word|, i + n;
    MatrixArgumentsSoundTo(s, j, f, corrected);
    KeywordFramesCall(s, i, f, word, true);
  }

  /** Such a call, after a word boundary, is matched whole. */
  lemma MatrixCallMatchComplete(s: string, i: nat, c: string, word: string, corrected: bool)
    requires i + |c| <= |s| && s[i..i + |c|] == c && WordStart(s, i)
    requires CallText(c, word, true) && MatrixEntries(ArgumentsOf(c, word), corrected)
    ensures CallLength(s, i, word, true, MatrixArguments(s, i + |word|, 0, corrected)) == |c|
  {
    var e := i + |c| - 1;
    var args := MatrixArguments(s, i + |word|, 0, corrected);
    CallHasKeyword(s, i, c, word, true);
    EntriesRead(s, i + |word|, e, ArgumentsOf(c, word), corrected);
    assert args == Some(e + 1);
    CallMatch(s, i, word, true, args, e);
  }

  /** The six identity entries between `j` and the `)` at `e` are read to the end. */
  lemma EntriesRead(s: string, j: nat, e: nat, args: string, corrected: bool)
    requires j <= e < |s| && s[e] == ')' && args == s[j..e] && MatrixEntries(args, corrected)
    ensures MatrixArguments(s, j, 0, corrected) == Some(e + 1)
  {
    AllEntries(s[j..e], args, corrected);
    MatrixArgumentsComplete(s, j, e, 0, corrected);
  }

  lemma TranslateMatchSound(s: string, i: nat)
    requires TranslateLength(s, i) > 0
    ensures WordStart(s, i) && TranslateCall(s[i..i + TranslateLength(s, i)])
  {
    OneOrTwoMatchSound(s, i, TranslateLength(s, i), "translate(", '0', AnyExponent);
  }

  lemma TranslateMatchComplete(s: string, i: nat, c: string)
    requires i + |c| <= |s| && s[i..i + |c|] == c && WordStart(s, i) && TranslateCall(c)
    ensures TranslateLength(s, i) == |c|
  {
    OneOrTwoMatchComplete(s, i, c, "translate(", '0', AnyExponent);
  }

  lemma ScaleMatchSound(s: string, i: nat)
    requires ScaleLength(s, i) > 0
    ensures WordStart(s, i) && ScaleCall(s[i..i + ScaleLength(s, i)], ZeroOnly)
  {
    OneOrTwoMatchSound(s, i, ScaleLength(s, i), "scale(", '1', ZeroOnly);
  }

  lemma ScaleMatchComplete(s: string, i: nat, c: string)
    requires i + |c| <= |s| && s[i..i + |c|] == c && WordStart(s, i) && ScaleCall(c, ZeroOnly)
    ensures ScaleLength(s, i) == |c|
  {
    OneOrTwoMatchComplete(s, i, c, "scale(", '1', ZeroOnly);
  }

  lemma ScaleAsWrittenMatchSound(s: string, i: nat)
    requires ScaleLengthAsWritten(s, i) > 0
    ensures WordStart(s, i) && ScaleCall(s[i..i + ScaleLengthAsWritten(s, i)], AnyExponent)
  {
    OneOrTwoMatchSound(s, i, ScaleLengthAsWritten(s, i), "scale(", '1', AnyExponent);
  }

  lemma ScaleAsWrittenMatchComplete(s: string, i: nat, c: string)
    requires i + |c| <= |s| && s[i..i + |c|] == c && WordStart(s, i) && ScaleCall(c, AnyExponent)
    ensures ScaleLengthAsWritten(s, i) == |c|
  {
    OneOrTwoMatchComplete(s, i, c, "scale(", '1', AnyExponent);
  }

  lemma RotateMatchSound(s: string, i: nat)
    requires RotateLength(s, i) > 0
    ensures WordStart(s, i) && ZeroAngleCall(s[i..i + RotateLength(s, i)], "rotate(")
  {
    OneArgumentMatchSound(s, i, RotateLength(s, i), "rotate(", '0', NoExponent);
  }

  lemma RotateMatchComplete(s: string, i: nat, c: string)
    requires i + |c| <= |s| && s[i..i + |c|] == c && WordStart(s, i) && ZeroAngleCall(c, "rotate(")
    ensures RotateLength(s, i) == |c|
  {
    OneArgumentMatchComplete(s, i, c, "rotate(", '0', NoExponent);
  }

  lemma SkewXMatchSound(s: string, i: nat)
    requires SkewXLength(s, i) > 0
    ensures WordStart(s, i) && ZeroAngleCall(s[i..i + SkewXLength(s, i)], "skewX(")
  {
    OneArgumentMatchSound(s, i, SkewXLength(s, i), "skewX(", '0', NoExponent);
  }

  lemma SkewXMatchComplete(s: string, i: nat, c: string)
    requires i + |c| <= |s| && s[i..i + |c|] == c && WordStart(s, i) && ZeroAngleCall(c, "skewX(")
    ensures SkewXLength(s, i) == |c|
  {
    OneArgumentMatchComplete(s, i, c, "skewX(", '0', NoExponent);
  }

  lemma SkewYMatchSound(s: string, i: nat)
    requires SkewYLength(s, i) > 0
    ensures WordStart(s, i) && ZeroAngleCall(s[i..i + SkewYLength(s, i)], "skewY(")
  {
    OneArgumentMatchSound(s, i, SkewYLength(s, i), "skewY(", '0', NoExponent);
  }

  lemma SkewYMatchComplete(s: string, i: nat, c: string)
    requires i + |c| <= |s| && s[i..i + |c|] == c && WordStart(s, i) && ZeroAngleCall(c, "skewY(")
    ensures SkewYLength(s, i) == |c|
  {
    OneArgumentMatchComplete(s, i, c, "skewY(", '0', NoExponent);
  }

  lemma MatrixMatchSound(s: string, i: nat)
    requires MatrixLength(s, i) > 0
    ensures WordStart(s, i) && MatrixCall(s[i..i + MatrixLength(s, i)], true)
  {
    MatrixCallMatchSound(s, i, MatrixLength(s, i), "matrix(", true);
  }

  lemma MatrixMatchComplete(s: string, i: nat, c: string)
    requires i + |c| <= |s| && s[i..i + |c|] == c && WordStart(s, i) && MatrixCall(c, true)
    ensures MatrixLength(s, i) == |c|
  {
    MatrixCallMatchComplete(s, i, c, "matrix(", true);
  }

  lemma MatrixAsWrittenMatchSound(s: string, i: nat)
    requires MatrixLengthAsWritten(s, i) > 0
    ensures WordStart(s, i) && MatrixCall(s[i..i + MatrixLengthAsWritten(s, i)], false)
  {
    MatrixCallMatchSound(s, i, MatrixLengthAsWritten(s, i), "matrix(", false);
  }

  lemma MatrixAsWrittenMatchComplete(s: string, i: nat, c: string)
    requires i + |c| <= |s| && s[i..i + |c|] == c && WordStart(s, i) && MatrixCall(c, false)
    ensures MatrixLengthAsWritten(s, i) == |c|
  {
    MatrixCallMatchComplete(s, i, c, "matrix(", false);
  }

  // ---------------------------------------------------------------------
  // Deletion

  /** A text its pattern matches from start to end is deleted whole. */
  lemma LoneMatchDeleted(c: string, len: MatchLength)
    requires 0 < |c| && len(c, 0) == |c|
    ensures DeleteMatches(c, len) == ""
  {
    DeleteLeadingMatch(c, |c|, len);
  }

  /** An identity `translate` call, written alone, is deleted by its pattern. */
  lemma TranslateCallDeleted(c: string)
    requires TranslateCall(c)
    ensures DeleteMatches(c, TranslateLength) == ""
  {
    assert c[0..0 + |c|] == c;
    TranslateMatchComplete(c, 0, c);
    LoneMatchDeleted(c, TranslateLength);
  }

  /** An identity `scale` call of the corrected pattern, written alone, is deleted by its pattern. */
  lemma ScaleCallDeleted(c: string)
    requires ScaleCall(c, ZeroOnly)
    ensures DeleteMatches(c, ScaleLength) == ""
  {
    assert c[0..0 + |c|] == c;
    ScaleMatchComplete(c, 0, c);
    LoneMatchDeleted(c, ScaleLength);
  }

  /** An identity `rotate(0)`, written alone, is deleted by its pattern. */
  lemma RotateCallDeleted(c: string)
    requires ZeroAngleCall(c, "rotate(")
    ensures DeleteMatches(c, RotateLength) == ""
  {
    assert c[0..0 + |c|] == c;
    RotateMatchComplete(c, 0, c);
    LoneMatchDeleted(c, RotateLength);
  }

  /** An identity `skewX(0)`, written alone, is deleted by its pattern. */
  lemma SkewXCallDeleted(c: string)
    requires ZeroAngleCall(c, "skewX(")
    ensures DeleteMatches(c, SkewXLength) == ""
  {
    assert c[0..0 + |c|] == c;
    SkewXMatchComplete(c, 0, c);
    LoneMatchDeleted(c, SkewXLength);
  }

  /** An identity `skewY(0)`, written alone, is deleted by its pattern. */
  lemma SkewYCallDeleted(c: string)
    requires ZeroAngleCall(c, "skewY(")
    ensures DeleteMatches(c, SkewYLength) == ""
  {
    assert c[0..0 + |c|] == c;
    SkewYMatchComplete(c, 0, c);
    LoneMatchDeleted(c, SkewYLength);
  }

  /** An identity `matrix` call of the corrected pattern, written alone, is deleted by its pattern. */
  lemma MatrixCallDeleted(c: string)
    requires MatrixCall(c, true)
    ensures DeleteMatches(c, MatrixLength) == ""
  {
    assert c[0..0 + |c|] == c;
    MatrixMatchComplete(c, 0, c);
    LoneMatchDeleted(c, MatrixLength);
  }
}

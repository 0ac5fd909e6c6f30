/**
 * `MinifyTransformations`: every `transform` attribute is rewritten:
 * percentages become numbers, identity transformations are deleted,
 * whitespace and commas are normalised, and an attribute left with nothing
 * that transforms is removed.
 */
module MinifyTransformations {

  import opened Outcomes
  import opened Strings
  import opened Dom
  import opened Platform

  const PERCENTAGE_REGEX: string := "/(\\d+)%/"
  const TRANSLATE_REGEX: string := "/\\btranslate\\(\\s*0(?:e[+-]?\\d+)?\\s*(,\\s*0(?:e[+-]?\\d+)?\\s*)?\\)/i"
  const SCALE_REGEX: string := "/\\bscale\\(\\s*1(?:e[+-]?\\d+)?\\s*(,\\s*1(?:e[+-]?\\d+)?\\s*)?\\)/i"
  const ROTATE_REGEX: string := "/\\brotate\\(\\s*0\\s*\\)/"
  const SKEW_X_REGEX: string := "/\\bskewX\\(\\s*0\\s*\\)/"
  const SKEW_Y_REGEX: string := "/\\bskewY\\(\\s*0\\s*\\)/"
  const MULTIPLE_SPACES_REGEX: string := "/\\s+/"
  const REDUNDANT_COMMAS_REGEX: string := "/\\s*,\\s*/"
  const MATRIX_IDENTITY_REGEX: string :=
    "/\\bmatrix\\(\\s*1(?:e[+-]?\\d+)?\\s+0(?:e[+-]?\\d+)?\\s+0(?:e[+-]?\\d+)?\\s+1(?:e[+-]?\\d+)?\\s+0(?:e[+-]?\\d+)?\\s+0(?:e[+-]?\\d+)?\\s*\\)/i"

  // ---------------------------------------------------------------------
  // convertPercentagesToNumbers

  /** The match of `(\d+)%` at `i`: a run of digits closed by `%`. */
  function PercentLength(s: string, i: nat): (n: nat)
    ensures n > 0 ==> 2 <= n && i + n <= |s| && s[i + n - 1] == '%'
    ensures n > 0 ==> forall k | i <= k < i + n - 1 :: IsDigit(s[k])
  {
    if i <= |s| then
      var j := SkipDigits(s, i);
      if i < j < |s| && s[j] == '%' then j + 1 - i else 0
    else 0
  }

  /** The callback: the digits before the `%`, divided by 100 and printed by PHP. */
  function PercentReplacement(env: Env): string -> string {
    m => if m == [] then [] else env.percentValue(m[..|m| - 1])
  }

  /** `convertPercentagesToNumbers`, with `?? $transform` when PCRE fails. */
  function ConvertPercentagesToNumbers(env: Env, t: string): (r: string)
    ensures env.pcreFails(PERCENTAGE_REGEX, t) || '%' !in t ==> r == t
  {
    if env.pcreFails(PERCENTAGE_REGEX, t) then t
    else
      assert t[0..] == t;
      ReplaceMatchesIdentity(t, 0, PercentLength, PercentReplacement(env));
      ReplaceMatchesFrom(t, 0, PercentLength, PercentReplacement(env))
  }

  /** A lone percentage is replaced by the value of its digits. */
  lemma PercentageConverted(env: Env, digits: string)
    requires digits != [] && All(digits, IsDigit)
    requires !env.pcreFails(PERCENTAGE_REGEX, digits + "%")
    ensures ConvertPercentagesToNumbers(env, digits + "%") == env.percentValue(digits)
  {
    var t := digits + "%";
    SkipDigitsTo(t, 0, |digits|);
    assert PercentLength(t, 0) == |t|;
    var rep := PercentReplacement(env);
    assert ReplaceStep(t, 0, PercentLength, rep) == (rep(t[0..|t|]), |t|);
    assert t[0..|t|] == t && t[..|t| - 1] == digits;
    assert ReplaceMatchesFrom(t, 0, PercentLength, rep) == rep(t) + ReplaceMatchesFrom(t, |t|, PercentLength, rep);
  }

  // ---------------------------------------------------------------------
  // The identity patterns of removeIdentityTransforms

  /**
   * How the exponent `(?:e[+-]?\d+)?` after a numeral is read. `ZeroOnly`
   * is `(?:e[+-]?0+)?`: an exponent that leaves the numeral's value as it is.
   */
  datatype Exponent = NoExponent | AnyExponent | ZeroOnly

  /** Where an optional exponent starting at `j` ends (`e` in either case, as under `/i`). */
  function ExponentEnd(s: string, j: nat, x: Exponent): (k: nat)
    requires j <= |s|
    ensures j <= k <= |s|
    ensures k > j ==> x != NoExponent && LowerChar(s[j]) == 'e' && IsDigit(s[k - 1])
  {
    if x != NoExponent && j < |s| && LowerChar(s[j]) == 'e' then
      var d := if j + 1 < |s| && (s[j + 1] == '+' || s[j + 1] == '-') then j + 2 else j + 1;
      var e := if x == AnyExponent then SkipDigits(s, d) else SkipZeros(s, d);
      if d < e then e else j
    else j
  }

  /** The numeral `digit` with its optional exponent at `j`: where it ends. */
  function Numeral(s: string, j: nat, digit: char, x: Exponent): (r: Option<nat>)
    requires j <= |s|
    ensures r.Some? ==> j < r.value <= |s| && s[j] == digit
  {
    if j < |s| && s[j] == digit then Some(ExponentEnd(s, j + 1, x)) else None
  }

  /** `\b` before a word character at `i`. */
  predicate WordStart(s: string, i: nat)
    requires i <= |s|
  {
    i == 0 || !IsWordChar(s[i - 1])
  }

  /** The call name and its `(` at `i`, after a word boundary; `ci` for a pattern with `/i`. */
  predicate Keyword(s: string, i: nat, word: string, ci: bool) {
    i + |word| <= |s| && WordStart(s, i) &&
    (if ci then ToLower(s[i..i + |word|]) == word else s[i..i + |word|] == word)
  }

  /** `\s*D\s*\)` from `j`, the numeral with exponent `x`: where the call ends. */
  function LastArgument(s: string, j: nat, digit: char, x: Exponent): (r: Option<nat>)
    requires j <= |s|
    ensures r.Some? ==> j < r.value <= |s| && s[r.value - 1] == ')'
  {
    match Numeral(s, SkipSpaces(s, j), digit, x)
    case None => None
    case Some(b) =>
      var c := SkipSpaces(s, b);
      if c < |s| && s[c] == ')' then Some(c + 1) else None
  }

  /** `\s*D\s*(,\s*D\s*)?\)` from `j`: where the call ends. */
  function OneOrTwoArguments(s: string, j: nat, digit: char, x: Exponent): (r: Option<nat>)
    requires j <= |s|
    ensures r.Some? ==> j < r.value <= |s| && s[r.value - 1] == ')'
  {
    var first := Numeral(s, SkipSpaces(s, j), digit, x);
    if first.None? then None
    else
      var c := SkipSpaces(s, first.value);
      if c < |s| && s[c] == ')' then Some(c + 1)
      else if c < |s| && s[c] == ',' then LastArgument(s, c + 1, digit, x)
      else None
  }

  /** The entries of the identity matrix `a b c d e f` = `1 0 0 1 0 0`. */
  function MatrixEntry(k: nat): char {
    if k == 0 || k == 3 then '1' else '0'
  }

  /**
   * Matrix entries `k` to 5, the first after `\s*`, each other after `\s+`,
   * then `\s*\)`: where the call ends.
   */
  function MatrixArguments(s: string, j: nat, k: nat, corrected: bool): (r: Option<nat>)
    requires j <= |s|
    ensures r.Some? ==> j < r.value <= |s| && s[r.value - 1] == ')'
    decreases |s| - j
  {
    var a := SkipSpaces(s, j);
    if k >= 6 then
      if a < |s| && s[a] == ')' then Some(a + 1) else None
    else if k > 0 && a == j then None
    else
      var entry := Numeral(s, a, MatrixEntry(k), EntryExponent(MatrixEntry(k), corrected));
      if entry.None? then None else MatrixArguments(s, entry.value, k + 1, corrected)
  }

  /**
   * The exponent accepted after a numeral: as written, any; corrected, only
   * one that keeps a `1` equal to 1.
   */
  function EntryExponent(digit: char, corrected: bool): Exponent {
    if corrected && digit == '1' then ZeroOnly else AnyExponent
  }

  /** The match length of a call to `word` at `i` whose arguments `args` reads from after the `(`. */
  function CallLength(s: string, i: nat, word: string, ci: bool, args: Option<nat>): (n: nat)
    requires Keyword(s, i, word, ci) ==> args.None? || args.value <= |s|
    ensures n > 0 ==> Keyword(s, i, word, ci) && args.Some? && n == args.value - i
  {
    if Keyword(s, i, word, ci) && args.Some? && args.value > i then args.value - i else 0
  }

  function TranslateLength(s: string, i: nat): (n: nat)
    ensures n > 0 ==> 10 < n && i + n <= |s| && ToLower(s[i..i + 10]) == "translate("
  {
    if i + 10 <= |s| then CallLength(s, i, "translate(", true, OneOrTwoArguments(s, i + 10, '0', AnyExponent)) else 0
  }

  /** `SCALE_REGEX` as written: `scale(1e2)`, a scaling by 100, is taken for the identity. */
  function ScaleLengthAsWritten(s: string, i: nat): (n: nat)
    ensures n > 0 ==> 6 < n && i + n <= |s| && ToLower(s[i..i + 6]) == "scale("
  {
    if i + 6 <= |s| then CallLength(s, i, "scale(", true, OneOrTwoArguments(s, i + 6, '1', AnyExponent)) else 0
  }

  /** `SCALE_REGEX` as intended: only a factor equal to 1 is an identity. */
  function ScaleLength(s: string, i: nat): (n: nat)
    ensures n > 0 ==> 6 < n && i + n <= |s| && ToLower(s[i..i + 6]) == "scale("
  {
    if i + 6 <= |s| then CallLength(s, i, "scale(", true, OneOrTwoArguments(s, i + 6, '1', ZeroOnly)) else 0
  }

  function RotateLength(s: string, i: nat): (n: nat)
    ensures n > 0 ==> 7 < n && i + n <= |s| && s[i..i + 7] == "rotate("
  {
    if i + 7 <= |s| then CallLength(s, i, "rotate(", false, LastArgument(s, i + 7, '0', NoExponent)) else 0
  }

  function SkewXLength(s: string, i: nat): (n: nat)
    ensures n > 0 ==> 6 < n && i + n <= |s| && s[i..i + 6] == "skewX("
  {
    if i + 6 <= |s| then CallLength(s, i, "skewX(", false, LastArgument(s, i + 6, '0', NoExponent)) else 0
  }

  function SkewYLength(s: string, i: nat): (n: nat)
    ensures n > 0 ==> 6 < n && i + n <= |s| && s[i..i + 6] == "skewY("
  {
    if i + 6 <= |s| then CallLength(s, i, "skewY(", false, LastArgument(s, i + 6, '0', NoExponent)) else 0
  }

  /** `MATRIX_IDENTITY_REGEX` as written: its `1` entries take any exponent. */
  function MatrixLengthAsWritten(s: string, i: nat): (n: nat)
    ensures n > 0 ==> 7 < n && i + n <= |s| && ToLower(s[i..i + 7]) == "matrix("
  {
    if i + 7 <= |s| then CallLength(s, i, "matrix(", true, MatrixArguments(s, i + 7, 0, false)) else 0
  }

  /** `MATRIX_IDENTITY_REGEX` as intended: its `1` entries equal 1. */
  function MatrixLength(s: string, i: nat): (n: nat)
    ensures n > 0 ==> 7 < n && i + n <= |s| && ToLower(s[i..i + 7]) == "matrix("
  {
    if i + 7 <= |s| then CallLength(s, i, "matrix(", true, MatrixArguments(s, i + 7, 0, true)) else 0
  }

  /** The identity patterns in the order `preg_replace` applies them, each with its match. */
  const IDENTITY_PATTERNS: seq<(string, MatchLength)> := [
    (TRANSLATE_REGEX, TranslateLength), (SCALE_REGEX, ScaleLength), (ROTATE_REGEX, RotateLength),
    (SKEW_X_REGEX, SkewXLength), (SKEW_Y_REGEX, SkewYLength), (MATRIX_IDENTITY_REGEX, MatrixLength)
  ]

  /**
   * `preg_replace` with an array of patterns: each deletes its matches from
   * what the previous one left; `None` when PCRE fails on any of them.
   */
  function DeleteEach(env: Env, t: string, patterns: seq<(string, MatchLength)>): (r: Option<string>)
    ensures r.Some? ==> IsSubsequence(r.value, t)
    ensures r.Some? && (forall p | p in patterns :: forall k | 0 <= k < |t| :: !MatchAt(t, k, p.1)) ==> r.value == t
    ensures (forall p, x :: !env.pcreFails(p, x)) ==> r.Some?
    decreases |patterns|
  {
    if patterns == [] then
      SubsequenceReflexive(t);
      Some(t)
    else if env.pcreFails(patterns[0].0, t) then None
    else
      var once := DeleteMatches(t, patterns[0].1);
      match DeleteEach(env, once, patterns[1..])
      case None => None
      case Some(r) =>
        SubsequenceTransitive(r, once, t);
        Some(r)
  }

  /** `removeIdentityTransforms`, with `?? $transform` when PCRE fails. */
  function RemoveIdentityTransforms(env: Env, t: string): (r: string)
    ensures IsSubsequence(r, t) && |r| <= |t|
  {
    match DeleteEach(env, t, IDENTITY_PATTERNS)
    case None =>
      SubsequenceReflexive(t);
      t
    case Some(r) =>
      SubsequenceShorter(r, t);
      r
  }

  lemma {:induction false} SubsequenceShorter(a: string, b: string)
    requires IsSubsequence(a, b)
    ensures |a| <= |b|
    decreases |b|
  {
    if a != [] {
      if a[0] == b[0] && IsSubsequence(a[1..], b[1..]) {
        SubsequenceShorter(a[1..], b[1..]);
      } else {
        SubsequenceShorter(a, b[1..]);
      }
    }
  }

  // ---------------------------------------------------------------------
  // normalizeSpacesAndCommas

  /** The match of `\s+` at `i`. */
  function SpaceRunLength(s: string, i: nat): nat {
    if i <= |s| then SkipSpaces(s, i) - i else 0
  }

  function OneSpace(m: string): string { " " }

  /** Every run of `\s` replaced by one space, from `i`. */
  function CollapseSpacesFrom(s: string, i: nat): string
    requires i <= |s|
  {
    ReplaceMatchesFrom(s, i, SpaceRunLength, OneSpace)
  }

  /** The only whitespace left is single spaces. */
  predicate SingleSpaced(r: string) {
    (forall k | 0 <= k < |r| :: IsSpace(r[k]) ==> r[k] == ' ') &&
    (forall k | 0 <= k < |r| - 1 :: !(r[k] == ' ' && r[k + 1] == ' '))
  }

  lemma {:induction false} CollapseSpacesFromSingleSpaced(s: string, i: nat)
    requires i <= |s|
    ensures SingleSpaced(CollapseSpacesFrom(s, i))
    ensures CollapseSpacesFrom(s, i) != [] ==>
              i < |s| && (IsSpace(CollapseSpacesFrom(s, i)[0]) <==> IsSpace(s[i]))
    decreases |s| - i
  {
    if i < |s| {
      var (piece, next) := ReplaceStep(s, i, SpaceRunLength, OneSpace);
      CollapseSpacesFromSingleSpaced(s, next);
      var rest := CollapseSpacesFrom(s, next);
      var r := piece + rest;
      assert r == CollapseSpacesFrom(s, i);
      if rest != [] && IsSpace(s[i]) {
        assert !IsSpace(s[next]);
      }
      forall k | 0 <= k < |r| - 1 ensures !(r[k] == ' ' && r[k + 1] == ' ') {
        if k >= 1 {
          assert r[k] == rest[k - 1] && r[k + 1] == rest[k];
        }
      }
    }
  }

  /** The match of `\s*,\s*` at `i`: spaces, a comma, spaces. */
  function CommaLength(s: string, i: nat): (n: nat)
    ensures n > 0 ==> i + n <= |s|
  {
    if i <= |s| then
      var j := SkipSpaces(s, i);
      if j < |s| && s[j] == ',' then SkipSpaces(s, j + 1) - i else 0
    else 0
  }

  function Comma(m: string): string { "," }

  /** Every `\s*,\s*` replaced by a comma, from `i`. */
  function TightenCommasFrom(s: string, i: nat): string
    requires i <= |s|
  {
    ReplaceMatchesFrom(s, i, CommaLength, Comma)
  }

  /** No whitespace on either side of a comma. */
  predicate TightCommas(r: string) {
    forall k | 0 <= k < |r| - 1 :: !(IsSpace(r[k]) && r[k + 1] == ',') && !(r[k] == ',' && IsSpace(r[k + 1]))
  }

  lemma {:induction false} TightenCommasFromTight(s: string, i: nat)
    requires i <= |s|
    ensures TightCommas(TightenCommasFrom(s, i))
    ensures TightenCommasFrom(s, i) != [] ==>
              i < |s| && TightenCommasFrom(s, i)[0] == (if MatchAt(s, i, CommaLength) then ',' else s[i])
    decreases |s| - i
  {
    if i < |s| {
      var (piece, next) := ReplaceStep(s, i, CommaLength, Comma);
      TightenCommasFromTight(s, next);
      var rest := TightenCommasFrom(s, next);
      var r := piece + rest;
      assert r == TightenCommasFrom(s, i);
      if rest != [] {
        if MatchAt(s, i, CommaLength) {
          assert !IsSpace(rest[0]);
        } else if IsSpace(s[i]) {
          assert SkipSpaces(s, i) == SkipSpaces(s, i + 1);
          assert rest[0] != ',';
        }
      }
      forall k | 0 <= k < |r| - 1
        ensures !(IsSpace(r[k]) && r[k + 1] == ',') && !(r[k] == ',' && IsSpace(r[k + 1]))
      {
        if k >= 1 {
          assert r[k] == rest[k - 1] && r[k + 1] == rest[k];
        }
      }
    }
  }

  /** `normalizeSpacesAndCommas`, each replacement with `?? $transform` when PCRE fails. */
  function NormalizeSpacesAndCommas(env: Env, t: string): (r: string)
    ensures !env.pcreFails(REDUNDANT_COMMAS_REGEX, if env.pcreFails(MULTIPLE_SPACES_REGEX, t) then t else CollapseSpacesFrom(t, 0)) ==>
              TightCommas(r)
  {
    var spaced := if env.pcreFails(MULTIPLE_SPACES_REGEX, t) then t else CollapseSpacesFrom(t, 0);
    if env.pcreFails(REDUNDANT_COMMAS_REGEX, spaced) then spaced
    else
      TightenCommasFromTight(spaced, 0);
      TightenCommasFrom(spaced, 0)
  }

  /** Whitespace is collapsed to single spaces when PCRE does not fail. */
  lemma CollapsedToSingleSpaces(env: Env, t: string)
    requires !env.pcreFails(MULTIPLE_SPACES_REGEX, t)
    ensures SingleSpaced(CollapseSpacesFrom(t, 0))
  {
    CollapseSpacesFromSingleSpaced(t, 0);
  }

  // ---------------------------------------------------------------------
  // isEmptyTransform and optimize

  predicate IsEmptyTransformChar(c: char) { c == ';' || c == ',' || c == ' ' }

  /**
   * `isEmptyTransform`: `""`, `"0"`, or only `;`, `,` and spaces (`$` would
   * also let a final line feed through, which `trim` has already removed).
   */
  predicate IsEmptyTransform(t: string) {
    t == "" || t == "0" || All(t, IsEmptyTransformChar)
  }

  /**
   * A text is judged empty only when no transform function is left in it:
   * no letter and no parenthesis; and a text of separators alone is empty.
   */
  lemma EmptyTransformHasNoCall(t: string)
    ensures IsEmptyTransform(t) ==> forall k | 0 <= k < |t| :: !IsAsciiLetter(t[k]) && t[k] != '(' && t[k] != ')'
    ensures All(t, IsEmptyTransformChar) ==> IsEmptyTransform(t)
  {
  }

  /** The transform text the loop computes before deciding. */
  function MinifiedTransform(env: Env, t: string): string {
    Trim(NormalizeSpacesAndCommas(env, RemoveIdentityTransforms(env, ConvertPercentagesToNumbers(env, t))))
  }

  /**
   * One element of the loop: an element with a `transform` attribute gets
   * the minified value, or loses the attribute when nothing is left.
   */
  function MinifyElement(env: Env, attrs: Attributes): (r: Attributes)
    ensures "transform" !in attrs ==> r == attrs
    ensures forall k | k != "transform" :: (k in r <==> k in attrs) && (k in r ==> r[k] == attrs[k])
    ensures "transform" in attrs ==>
              var t := MinifiedTransform(env, attrs["transform"].value);
              if IsEmptyTransform(t) then "transform" !in r
              else "transform" in r && r["transform"] == attrs["transform"].(value := t)
  {
    if "transform" in attrs then
      var t := MinifiedTransform(env, attrs["transform"].value);
      if IsEmptyTransform(t) then attrs - {"transform"}
      else attrs["transform" := attrs["transform"].(value := t)]
    else attrs
  }

  function Optimized(env: Env, doc: Document): Document {
    Document(MapAttributes(doc.nodes, (name, uri, attrs) => MinifyElement(env, attrs)))
  }

  /** `optimize`. */
  method Optimize(env: Env, dom: DomDocument)
    modifies dom
    ensures dom.doc == Optimized(env, old(dom.doc))
  {
    dom.doc := Document(MapAttributes(dom.doc.nodes, (name, uri, attrs) => MinifyElement(env, attrs)));
  }

  /** The rule only rewrites `transform` attributes; the tree and every other attribute stay. */
  lemma OptimizedKeepsTree(env: Env, doc: Document)
    ensures Erase(Optimized(env, doc).nodes) == Erase(doc.nodes)
  {
    MapAttributesKeepsTree(doc.nodes, (name, uri, attrs) => MinifyElement(env, attrs));
  }

  // ---------------------------------------------------------------------
  // Which calls are identities

  /** A keyword spelled in lower case is found by either kind of match. */
  lemma LowerKeyword(s: string, i: nat, word: string)
    requires i + |word| <= |s| && WordStart(s, i) && s[i..i + |word|] == word
    requires forall k | 0 <= k < |word| :: !('A' <= word[k] <= 'Z')
    ensures Keyword(s, i, word, true) && Keyword(s, i, word, false)
  {
    assert ToLower(word) == word;
  }

  /** No whitespace at `j`: `\s*` matches nothing there. */
  lemma NoSpaceAt(s: string, j: nat)
    requires j < |s| && !IsSpace(s[j])
    ensures SkipSpaces(s, j) == j
  {
    SkipSpacesTo(s, j, j);
  }

  /** As written, `scale(1e2)` (a scaling by 100) is deleted as if it were the identity. */
  lemma ScaleAsWrittenTakesHundredForOne()
    ensures ScaleLengthAsWritten("scale(1e2)", 0) == 10
  {
    var s := "scale(1e2)";
    LowerKeyword(s, 0, "scale(");
    NoSpaceAt(s, 6);
    SkipDigitsTo(s, 8, 9);
    assert ExponentEnd(s, 7, AnyExponent) == 9;
    NoSpaceAt(s, 9);
    assert OneOrTwoArguments(s, 6, '1', AnyExponent) == Some(10);
  }

  /** With the corrected pattern `scale(1e2)` stays. */
  lemma CorrectedScaleKeepsHundred()
    ensures ScaleLength("scale(1e2)", 0) == 0
  {
    var s := "scale(1e2)";
    NoSpaceAt(s, 6);
    assert SkipZeros(s, 8) == 8;
    assert ExponentEnd(s, 7, ZeroOnly) == 7;
    NoSpaceAt(s, 7);
    assert OneOrTwoArguments(s, 6, '1', ZeroOnly) == None;
  }

  /** The corrected pattern still deletes a `1` written with a zero exponent. */
  lemma CorrectedScaleTakesZeroExponent()
    ensures ScaleLength("scale(1e0)", 0) == 10
  {
    var s := "scale(1e0)";
    LowerKeyword(s, 0, "scale(");
    NoSpaceAt(s, 6);
    assert SkipZeros(s, 8) == 9;
    assert ExponentEnd(s, 7, ZeroOnly) == 9;
    NoSpaceAt(s, 9);
    assert OneOrTwoArguments(s, 6, '1', ZeroOnly) == Some(10);
  }

  /** A `1` the corrected patterns accept denotes 1: its exponent, if any, is zero. */
  predicate DenotesOne(t: string) {
    t == "1" ||
    (2 < |t| && t[0] == '1' && LowerChar(t[1]) == 'e' &&
     var d := if t[2] == '+' || t[2] == '-' then 3 else 2;
     d < |t| && forall k | d <= k < |t| :: t[k] == '0')
  }

  lemma CorrectedNumeralDenotesOne(s: string, j: nat)
    requires j <= |s| && Numeral(s, j, '1', ZeroOnly).Some?
    ensures DenotesOne(s[j..Numeral(s, j, '1', ZeroOnly).value])
  {
    var k := Numeral(s, j, '1', ZeroOnly).value;
    var t := s[j..k];
    if k > j + 1 {
      assert t[1] == s[j + 1] && t[2] == s[j + 2];
      var d := if s[j + 2] == '+' || s[j + 2] == '-' then j + 3 else j + 2;
      assert forall m | d <= m < k :: s[m] == '0';
    } else {
      assert t == [s[j]];
    }
  }

  /** The numeral the as-written pattern accepts in `scale(1e2)` does not denote 1. */
  lemma AsWrittenNumeralNotOne()
    ensures Numeral("1e2", 0, '1', AnyExponent) == Some(3) && !DenotesOne("1e2")
  {
    SkipDigitsTo("1e2", 2, 3);
  }

  lemma TranslateZeroMatched()
    ensures TranslateLength("translate(0)", 0) == 12
  {
    var s := "translate(0)";
    LowerKeyword(s, 0, "translate(");
    NoSpaceAt(s, 10);
    NoSpaceAt(s, 11);
    assert OneOrTwoArguments(s, 10, '0', AnyExponent) == Some(12);
  }

  lemma TranslateZeroZeroMatched()
    ensures TranslateLength("translate(0, 0)", 0) == 15
  {
    var s := "translate(0, 0)";
    LowerKeyword(s, 0, "translate(");
    NoSpaceAt(s, 10);
    NoSpaceAt(s, 11);
    SkipSpacesTo(s, 12, 13);
    NoSpaceAt(s, 14);
    assert OneOrTwoArguments(s, 10, '0', AnyExponent) == Some(15);
  }

  /** Under `/i` the keyword may be written in upper case. */
  lemma TranslateUpperCaseMatched()
    ensures TranslateLength("TRANSLATE(0)", 0) == 12
  {
    var s := "TRANSLATE(0)";
    assert ToLower(s[0..10]) == "translate(";
    NoSpaceAt(s, 10);
    NoSpaceAt(s, 11);
    assert OneOrTwoArguments(s, 10, '0', AnyExponent) == Some(12);
  }

  lemma ScaleOneOneMatched()
    ensures ScaleLength("scale(1,1)", 0) == 10
  {
    var s := "scale(1,1)";
    LowerKeyword(s, 0, "scale(");
    NoSpaceAt(s, 6);
    NoSpaceAt(s, 7);
    NoSpaceAt(s, 8);
    NoSpaceAt(s, 9);
    assert OneOrTwoArguments(s, 6, '1', ZeroOnly) == Some(10);
  }

  lemma RotateZeroMatched()
    ensures RotateLength("rotate(0)", 0) == 9
  {
    var s := "rotate(0)";
    LowerKeyword(s, 0, "rotate(");
    NoSpaceAt(s, 7);
    NoSpaceAt(s, 8);
    assert LastArgument(s, 7, '0', NoExponent) == Some(9);
  }

  /** `rotate` has no `/i`: a capital `R` is not matched. */
  lemma RotateCapitalKept()
    ensures RotateLength("Rotate(0)", 0) == 0
  {
    assert "Rotate(0)"[0..7][0] == 'R';
  }

  lemma SkewZeroMatched()
    ensures SkewXLength("skewX(0)", 0) == 8
    ensures SkewYLength("skewY(0)", 0) == 8
  {
    var s := "skewX(0)";
    assert s[0..6] == "skewX(";
    NoSpaceAt(s, 6);
    NoSpaceAt(s, 7);
    assert LastArgument(s, 6, '0', NoExponent) == Some(8);
    var t := "skewY(0)";
    assert t[0..6] == "skewY(";
    NoSpaceAt(t, 6);
    NoSpaceAt(t, 7);
    assert LastArgument(t, 6, '0', NoExponent) == Some(8);
  }

  /** A rotation by a non-zero angle is kept. */
  lemma RotateNinetyKept()
    ensures RotateLength("rotate(90)", 0) == 0
  {
    NoSpaceAt("rotate(90)", 7);
  }

  /** A name that only ends in `scale` is not preceded by `\b` and is kept. */
  lemma InsideWordKept()
    ensures ScaleLength("xscale(1)", 1) == 0
  {
  }

  /** One space and a bare digit: matrix entry `k` is read and the rest follows it. */
  lemma MatrixEntryStep(s: string, j: nat, k: nat, corrected: bool)
    requires 0 < k < 6 && j + 2 < |s| && s[j] == ' ' && s[j + 1] == MatrixEntry(k)
    requires LowerChar(s[j + 2]) != 'e'
    ensures MatrixArguments(s, j, k, corrected) == MatrixArguments(s, j + 2, k + 1, corrected)
  {
    SkipSpacesTo(s, j, j + 1);
  }

  /** From `j`, entries `k` to 5 written as single digits after single spaces, then `)`. */
  predicate CanonicalTail(s: string, j: nat, k: nat)
    decreases 6 - k
  {
    j < |s| &&
    if k >= 6 then s[j] == ')'
    else s[j] == ' ' && j + 1 < |s| && s[j + 1] == MatrixEntry(k) && CanonicalTail(s, j + 2, k + 1)
  }

  /** Entries `k` to 5 written canonically, then `)`, are matched. */
  lemma {:induction false} MatrixCanonicalTail(s: string, j: nat, k: nat, corrected: bool)
    requires 0 < k <= 6 && CanonicalTail(s, j, k)
    ensures MatrixArguments(s, j, k, corrected) == Some(j + 2 * (6 - k) + 1)
    decreases 6 - k
  {
    if k == 6 {
      MatrixClose(s, j, corrected);
    } else {
      MatrixCanonicalStep(s, j, k, corrected);
      MatrixCanonicalTail(s, j + 2, k + 1, corrected);
    }
  }

  /** A canonical entry is read, and the rest follows it. */
  lemma MatrixCanonicalStep(s: string, j: nat, k: nat, corrected: bool)
    requires 0 < k < 6 && CanonicalTail(s, j, k)
    ensures CanonicalTail(s, j + 2, k + 1)
    ensures MatrixArguments(s, j, k, corrected) == MatrixArguments(s, j + 2, k + 1, corrected)
  {
    assert s[j + 2] == ' ' || s[j + 2] == ')';
    MatrixEntryStep(s, j, k, corrected);
  }

  /** After the last entry, a `)` with no space before it closes the call. */
  lemma MatrixClose(s: string, j: nat, corrected: bool)
    requires j < |s| && s[j] == ')'
    ensures MatrixArguments(s, j, 6, corrected) == Some(j + 1)
  {
    NoSpaceAt(s, j);
  }

  /** The first entry needs no space before it: a bare `1` is read and the rest follows it. */
  lemma MatrixFirstEntry(s: string, j: nat, corrected: bool)
    requires j + 1 < |s| && s[j] == '1' && LowerChar(s[j + 1]) != 'e'
    ensures MatrixArguments(s, j, 0, corrected) == MatrixArguments(s, j + 1, 1, corrected)
  {
    NoSpaceAt(s, j);
    BareNumeral(s, j, '1', EntryExponent('1', corrected));
  }

  lemma MatrixIdentityMatched(s: string)
    requires s == "matrix(1 0 0 1 0 0)"
    ensures MatrixLength(s, 0) == 19
  {
    IdentityKeyword(s);
    MatrixIdentityArguments(s);
  }

  /** The identity starts with the keyword `matrix(`. */
  lemma IdentityKeyword(s: string)
    requires s == "matrix(1 0 0 1 0 0)"
    ensures Keyword(s, 0, "matrix(", true)
  {
    LowerKeyword(s, 0, "matrix(");
  }

  /** The six entries of the identity, then `)`, end the call at its last character. */
  lemma MatrixIdentityArguments(s: string)
    requires s == "matrix(1 0 0 1 0 0)"
    ensures MatrixArguments(s, 7, 0, true) == Some(19)
  {
    IdentityTail(s, 8);
    MatrixFirstEntry(s, 7, true);
    MatrixCanonicalTail(s, 8, 1, true);
  }

  /** The entries ` 0 0 1 0 0)` after the first form a canonical tail. */
  lemma IdentityTail(s: string, j: nat)
    requires j + 10 < |s| && s[j] == ' ' && s[j + 1] == '0' && s[j + 2] == ' ' && s[j + 3] == '0'
    requires s[j + 4] == ' ' && s[j + 5] == '1' && s[j + 6] == ' ' && s[j + 7] == '0'
    requires s[j + 8] == ' ' && s[j + 9] == '0' && s[j + 10] == ')'
    ensures CanonicalTail(s, j, 1)
  {
    assert CanonicalTail(s, j + 10, 6);
    assert CanonicalTail(s, j + 8, 5);
    assert CanonicalTail(s, j + 6, 4);
    assert CanonicalTail(s, j + 4, 3);
    assert CanonicalTail(s, j + 2, 2);
  }

  // ---------------------------------------------------------------------
  // A transform made only of identities is removed

  /** A digit followed by anything but `e` is a numeral of one character. */
  lemma BareNumeral(s: string, j: nat, digit: char, x: Exponent)
    requires j + 1 < |s| && s[j] == digit && LowerChar(s[j + 1]) != 'e'
    ensures Numeral(s, j, digit, x) == Some(j + 1)
  {
  }

  /** The first stage deletes the leading `translate(0,0)`. */
  lemma TranslateStage(t: string)
    requires t == "translate(0,0) scale(1)"
    ensures DeleteMatches(t, TranslateLength) == " scale(1)"
  {
    LeadingTranslateMatched(t);
    NoTranslateAfter(t);
    DeleteLeadingMatch(t, 14, TranslateLength);
    ExampleTail(t);
  }

  /** No call to `translate` fits in the last nine characters. */
  lemma NoTranslateAfter(t: string)
    requires |t| == 23
    ensures forall k | 14 <= k < |t| :: !MatchAt(t, k, TranslateLength)
  {
    forall k | 14 <= k < |t| ensures !MatchAt(t, k, TranslateLength) {
      var n := TranslateLength(t, k);
      assert n == 0 || k + n > |t|;
    }
  }

  /** What follows the translate call. */
  lemma ExampleTail(t: string)
    requires t == "translate(0,0) scale(1)"
    ensures t[14..] == " scale(1)"
  {
    var a, b := "translate(0,0)", " scale(1)";
    assert t == a + b;
    assert (a + b)[|a|..] == b;
  }

  lemma LeadingTranslateMatched(t: string)
    requires t == "translate(0,0) scale(1)"
    ensures TranslateLength(t, 0) == 14
  {
    TwoBareArguments(t, 10, '0', AnyExponent);
    LeadingTranslateKeyword(t);
  }

  lemma LeadingTranslateKeyword(t: string)
    requires t == "translate(0,0) scale(1)"
    ensures Keyword(t, 0, "translate(", true)
  {
    LowerKeyword(t, 0, "translate(");
  }

  /** `D,D)` with no spaces: both arguments are read and the call ends after `)`. */
  lemma TwoBareArguments(s: string, j: nat, digit: char, x: Exponent)
    requires IsDigit(digit) && j + 3 < |s|
    requires s[j] == digit && s[j + 1] == ',' && s[j + 2] == digit && s[j + 3] == ')'
    ensures OneOrTwoArguments(s, j, digit, x) == Some(j + 4)
  {
    NoSpaceAt(s, j);
    NoSpaceAt(s, j + 1);
    NoSpaceAt(s, j + 2);
    NoSpaceAt(s, j + 3);
    BareNumeral(s, j, digit, x);
    BareNumeral(s, j + 2, digit, x);
  }

  /** The second stage deletes `scale(1)` and keeps the space before it. */
  lemma ScaleStage(u: string)
    requires u == " scale(1)"
    ensures DeleteMatches(u, ScaleLength) == " "
  {
    LowerKeyword(u, 1, "scale(");
    NoSpaceAt(u, 7);
    NoSpaceAt(u, 8);
    assert OneOrTwoArguments(u, 7, '1', ZeroOnly) == Some(9);
    assert ScaleLength(u, 1) == 8;
    assert ScaleLength(u, 0) == 0;
    assert u[0..] == u;
    assert ReplaceMatchesFrom(u, 0, ScaleLength, Deleted) == [' '] + ReplaceMatchesFrom(u, 1, ScaleLength, Deleted);
  }

  /** A single space holds no call to delete. */
  lemma LastStages(env: Env, v: string)
    requires v == " " && forall p, x :: !env.pcreFails(p, x)
    ensures DeleteEach(env, v, IDENTITY_PATTERNS[2..]) == Some(v)
  {
    assert forall k | 0 <= k < 1 :: RotateLength(v, k) == 0 && SkewXLength(v, k) == 0;
    assert forall k | 0 <= k < 1 :: SkewYLength(v, k) == 0 && MatrixLength(v, k) == 0;
    assert DeleteMatches(v, RotateLength) == v;
    assert DeleteMatches(v, SkewXLength) == v;
    assert DeleteMatches(v, SkewYLength) == v;
    assert DeleteMatches(v, MatrixLength) == v;
  }

  /** Both identities are deleted, and the space between them is left. */
  lemma IdentitiesDeleted(env: Env, t: string)
    requires forall p, x :: !env.pcreFails(p, x)
    requires t == "translate(0,0) scale(1)"
    ensures RemoveIdentityTransforms(env, t) == " "
  {
    TranslateStage(t);
    ScaleStage(" scale(1)");
    LastStages(env, " ");
    assert DeleteEach(env, t, IDENTITY_PATTERNS) == DeleteEach(env, " scale(1)", IDENTITY_PATTERNS[1..]);
    assert IDENTITY_PATTERNS[1..][1..] == IDENTITY_PATTERNS[2..];
  }

  /** A lone space normalises to itself and trims to nothing. */
  lemma LoneSpaceTrimmed(env: Env, v: string)
    requires forall p, x :: !env.pcreFails(p, x)
    requires v == " "
    ensures Trim(NormalizeSpacesAndCommas(env, v)) == ""
  {
    assert SpaceRunLength(v, 0) == 1;
    assert CollapseSpacesFrom(v, 0) == v;
    assert CommaLength(v, 0) == 0;
    assert TightenCommasFrom(v, 0) == v;
    assert Trim(v) == "";
  }

  /** Without a `%` the percentage stage changes nothing. */
  lemma MinifiedWithoutPercent(env: Env, t: string)
    requires '%' !in t
    ensures MinifiedTransform(env, t) == Trim(NormalizeSpacesAndCommas(env, RemoveIdentityTransforms(env, t)))
  {
  }

  /** `"translate(0,0) scale(1)"` leaves nothing that transforms, and the attribute is removed. */
  lemma TranslateAndScaleRemoved(env: Env, attrs: Attributes)
    requires forall p, x :: !env.pcreFails(p, x)
    requires "transform" in attrs && attrs["transform"].value == "translate(0,0) scale(1)"
    ensures "transform" !in MinifyElement(env, attrs)
  {
    var t := attrs["transform"].value;
    MinifiedWithoutPercent(env, t);
    IdentitiesDeleted(env, t);
    LoneSpaceTrimmed(env, " ");
  }
}

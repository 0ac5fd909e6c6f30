/**
 * The ConvertColorsToHex rule: `rgb(r, g, b)` colours become `#rrggbb`, or
 * `#rgb` when that says the same, and hexadecimal colours are lower-cased,
 * both in the colour attributes and inside `style`.
 */
module ConvertColorsToHex {

  import opened Outcomes
  import opened Strings
  import opened Dom
  import opened Platform

  /** The attributes holding a colour, in the order the rule visits them. */
  const COLOR_ATTRIBUTES: seq<string> := [
    "fill", "stroke", "color", "stop-color", "flood-color",
    "lighting-color", "solid-color", "background-color", "border-color"
  ]

  const MAX_RGB_VALUE: nat := 255

  const HEX_REGEX: string := "/^#([a-fA-F0-9]{3,6})$/"

  datatype Rgb = Rgb(r: nat, g: nat, b: nat)

  // ---------------------------------------------------------------------
  // Recognising `rgb(R, G, B)`

  function DigitValue(c: char): nat
    requires IsDigit(c)
  {
    c as int - '0' as int
  }

  /** `intval` of a run of decimal digits. */
  function DigitsValue(d: string): nat
    requires forall k | 0 <= k < |d| :: IsDigit(d[k])
  {
    if d == [] then 0 else DigitsValue(d[..|d| - 1]) * 10 + DigitValue(d[|d| - 1])
  }

  /**
   * `(\d{1,3})` at `i`: one to three digits, the next character not a digit
   * (every pattern position after a component needs a non-digit).  The value
   * and the position after the digits.
   */
  function Component(s: string, i: nat): (r: Option<(nat, nat)>)
    requires i <= |s|
    ensures r.Some? ==> i < r.value.1 <= |s| && r.value.0 < 1000
  {
    var j := SkipDigits(s, i);
    if i < j <= i + 3 then
      assert DigitsValue(s[i..j]) < 1000 by { DigitsBound(s[i..j]); }
      Some((DigitsValue(s[i..j]), j))
    else None
  }

  lemma {:induction false} DigitsBound(d: string)
    requires forall k | 0 <= k < |d| :: IsDigit(d[k])
    requires |d| <= 3
    ensures DigitsValue(d) < 1000
    ensures |d| <= 2 ==> DigitsValue(d) < 100
    ensures |d| <= 1 ==> DigitsValue(d) < 10
  {
    if d != [] {
      DigitsBound(d[..|d| - 1]);
    }
  }

  /** `\s*` followed by the character `c` at or after `i`: the position after `c`. */
  function Punctuation(s: string, i: nat, c: char): (r: Option<nat>)
    requires i <= |s|
    ensures r.Some? ==> i < r.value <= |s| && s[r.value - 1] == c
  {
    var j := SkipSpaces(s, i);
    if j < |s| && s[j] == c then Some(j + 1) else None
  }

  /** The components of `s` when all of it is `rgb\s*\(\s*C\s*,\s*C\s*,\s*C\s*\)`. */
  function ParseRgbExact(s: string): (r: Option<Rgb>)
    ensures r.Some? ==> "rgb" <= s
  {
    if !("rgb" <= s) then None
    else match Punctuation(s, 3, '(')
      case None => None
      case Some(p0) =>
        match Component(s, SkipSpaces(s, p0))
        case None => None
        case Some((r, p1)) =>
          match Punctuation(s, p1, ',')
          case None => None
          case Some(p2) =>
            match Component(s, SkipSpaces(s, p2))
            case None => None
            case Some((g, p3)) =>
              match Punctuation(s, p3, ',')
              case None => None
              case Some(p4) =>
                match Component(s, SkipSpaces(s, p4))
                case None => None
                case Some((b, p5)) =>
                  match Punctuation(s, p5, ')')
                  case None => None
                  case Some(p6) => if p6 == |s| then Some(Rgb(r, g, b)) else None
  }

  /** `RGB_REGEX`: anchored at both ends, `$` also matching before a final line feed. */
  function MatchRgb(s: string): Option<Rgb> {
    if ParseRgbExact(s).Some? then ParseRgbExact(s)
    else if s != [] && s[|s| - 1] == '\n' then ParseRgbExact(s[..|s| - 1])
    else None
  }

  /** `isRgbColor`. */
  predicate IsRgbColor(s: string) {
    MatchRgb(s).Some?
  }

  // ---------------------------------------------------------------------
  // Writing hexadecimal

  /** One lower-case hexadecimal digit (`%x`). */
  function HexDigit(v: nat): (c: char)
    requires v < 16
    ensures IsHexDigit(c) && !('A' <= c <= 'Z')
  {
    if v < 10 then ('0' as int + v) as char else ('a' as int + v - 10) as char
  }

  /** The value of a hexadecimal digit, either case. */
  function HexDigitValue(c: char): nat
    requires IsHexDigit(c)
  {
    if IsDigit(c) then c as int - '0' as int
    else if 'a' <= c <= 'f' then c as int - 'a' as int + 10
    else c as int - 'A' as int + 10
  }

  /** `%02x` of a component. */
  function Hex2(v: nat): string
    requires v <= MAX_RGB_VALUE
  {
    [HexDigit(v / 16), HexDigit(v % 16)]
  }

  /** `sprintf('#%02x%02x%02x', r, g, b)`. */
  function FullHex(c: Rgb): (h: string)
    requires c.r <= MAX_RGB_VALUE && c.g <= MAX_RGB_VALUE && c.b <= MAX_RGB_VALUE
    ensures |h| == 7
  {
    "#" + Hex2(c.r) + Hex2(c.g) + Hex2(c.b)
  }

  /** `canBeShortened`: both digits of each pair are equal. */
  predicate CanBeShortened(hex: string)
    requires |hex| == 7
  {
    hex[1] == hex[2] && hex[3] == hex[4] && hex[5] == hex[6]
  }

  predicate InRange(c: Rgb) {
    c.r <= MAX_RGB_VALUE && c.g <= MAX_RGB_VALUE && c.b <= MAX_RGB_VALUE
  }

  /** `#%1x%1x%1x` of the components shifted right by four bits. */
  function ShortHex(c: Rgb): (h: string)
    requires InRange(c)
    ensures |h| == 4
  {
    ['#', HexDigit(c.r / 16), HexDigit(c.g / 16), HexDigit(c.b / 16)]
  }

  /** The hexadecimal form of an in-range colour: short when it can be, lower-cased otherwise. */
  function HexForm(c: Rgb): string
    requires InRange(c)
  {
    var hex := FullHex(c);
    if CanBeShortened(hex) then ShortHex(c) else ToLower(hex)
  }

  /**
   * `convertRgbToHex`: a value with a component above 255 is returned as it
   * is; an in-range one becomes a hexadecimal colour with no upper-case letter.
   */
  function ConvertRgbToHex(v: string): (r: string)
    requires IsRgbColor(v)
    ensures InRange(MatchRgb(v).value) ==> IsHexBody(r) && NoUpperCase(r)
  {
    var c := MatchRgb(v).value;
    if !InRange(c) then v else HexFormIsLowerHex(c); HexForm(c)
  }

  /** No character is an upper-case ASCII letter. */
  predicate NoUpperCase(s: string) {
    forall k | 0 <= k < |s| :: !('A' <= s[k] <= 'Z')
  }

  /** Both forms are `#` and hexadecimal digits, none of them upper-case. */
  lemma HexFormIsLowerHex(c: Rgb)
    requires InRange(c)
    ensures IsHexBody(HexForm(c)) && NoUpperCase(HexForm(c))
  {
    FullHexRoundTrip(c);
  }

  /** The value a two-digit hexadecimal pair stands for. */
  function PairValue(h: string, i: nat): nat
    requires i + 1 < |h| && IsHexDigit(h[i]) && IsHexDigit(h[i + 1])
  {
    HexDigitValue(h[i]) * 16 + HexDigitValue(h[i + 1])
  }

  lemma HexDigitRoundTrip(v: nat)
    requires v < 16
    ensures HexDigitValue(HexDigit(v)) == v
  {
  }

  lemma HexDigitInjective(a: nat, b: nat)
    requires a < 16 && b < 16 && HexDigit(a) == HexDigit(b)
    ensures a == b
  {
    HexDigitRoundTrip(a);
    HexDigitRoundTrip(b);
  }

  /** A written component reads back as itself. */
  lemma Hex2RoundTrip(v: nat)
    requires v <= MAX_RGB_VALUE
    ensures PairValue(Hex2(v), 0) == v
  {
    HexDigitRoundTrip(v / 16);
    HexDigitRoundTrip(v % 16);
  }

  /** `#rrggbb` is lower-case and reads back as the three components. */
  lemma FullHexRoundTrip(c: Rgb)
    requires InRange(c)
    ensures var h := FullHex(c);
            ToLower(h) == h && h[0] == '#' && (forall k | 1 <= k < 7 :: IsHexDigit(h[k])) &&
            PairValue(h, 1) == c.r && PairValue(h, 3) == c.g && PairValue(h, 5) == c.b
  {
    var h := FullHex(c);
    Hex2RoundTrip(c.r);
    Hex2RoundTrip(c.g);
    Hex2RoundTrip(c.b);
    assert h[1..3] == Hex2(c.r) && h[3..5] == Hex2(c.g) && h[5..7] == Hex2(c.b);
    assert forall k | 0 <= k < 7 :: !('A' <= h[k] <= 'Z');
  }

  /** When `#rrggbb` repeats each digit, `#rgb` doubled back reads as the three components. */
  lemma ShortHexRoundTrip(c: Rgb)
    requires InRange(c) && CanBeShortened(FullHex(c))
    ensures var h := ShortHex(c);
            h[0] == '#' && (forall k | 1 <= k < 4 :: IsHexDigit(h[k]) && !('A' <= h[k] <= 'Z')) &&
            PairValue([h[1], h[1]], 0) == c.r && PairValue([h[2], h[2]], 0) == c.g &&
            PairValue([h[3], h[3]], 0) == c.b
  {
    var hex := FullHex(c);
    assert hex[1..3] == Hex2(c.r) && hex[3..5] == Hex2(c.g) && hex[5..7] == Hex2(c.b);
    HexDigitInjective(c.r / 16, c.r % 16);
    HexDigitInjective(c.g / 16, c.g % 16);
    HexDigitInjective(c.b / 16, c.b % 16);
    HexDigitRoundTrip(c.r / 16);
    HexDigitRoundTrip(c.g / 16);
    HexDigitRoundTrip(c.b / 16);
  }

  /**
   * An in-range colour becomes a lower-case `#rrggbb` that reads back as the
   * same three components, or, exactly when each pair of that repeats one
   * digit, the `#rgb` form whose doubled digits read back the same.
   */
  lemma ConvertRgbToHexRoundTrip(v: string)
    requires IsRgbColor(v) && InRange(MatchRgb(v).value)
    ensures var c, h := MatchRgb(v).value, ConvertRgbToHex(v);
            h[0] == '#' && (forall k | 1 <= k < |h| :: IsHexDigit(h[k]) && !('A' <= h[k] <= 'Z')) &&
            (|h| == 4 <==> CanBeShortened(FullHex(c))) &&
            (|h| == 7 ==> PairValue(h, 1) == c.r && PairValue(h, 3) == c.g && PairValue(h, 5) == c.b) &&
            (|h| == 4 ==> PairValue([h[1], h[1]], 0) == c.r && PairValue([h[2], h[2]], 0) == c.g &&
                          PairValue([h[3], h[3]], 0) == c.b)
  {
    var c := MatchRgb(v).value;
    FullHexRoundTrip(c);
    if CanBeShortened(FullHex(c)) {
      ShortHexRoundTrip(c);
    }
  }

  /** A component above 255 leaves the value as it was. */
  lemma ConvertRgbToHexOutOfRange(v: string)
    requires IsRgbColor(v) && !InRange(MatchRgb(v).value)
    ensures ConvertRgbToHex(v) == v
  {
  }

  lemma RedComponents()
    ensures Component("rgb(255,0,0)", 4) == Some((255, 7))
    ensures Component("rgb(255,0,0)", 8) == Some((0, 9))
    ensures Component("rgb(255,0,0)", 10) == Some((0, 11))
  {
    var s := "rgb(255,0,0)";
    SkipDigitsTo(s, 4, 7);
    SkipDigitsTo(s, 8, 9);
    SkipDigitsTo(s, 10, 11);
    assert s[4..7] == "255" && s[8..9] == "0" && s[10..11] == "0";
    assert DigitsValue("255") == 255 by {
      assert "255"[..2] == "25" && "25"[..1] == "2" && "2"[..0] == "";
    }
    assert DigitsValue("0") == 0 by {
      assert "0"[..0] == "";
    }
  }

  lemma RedParses()
    ensures MatchRgb("rgb(255,0,0)") == Some(Rgb(255, 0, 0))
  {
    var s := "rgb(255,0,0)";
    RedComponents();
    assert SkipSpaces(s, 3) == 3 && SkipSpaces(s, 4) == 4 && SkipSpaces(s, 7) == 7;
    assert SkipSpaces(s, 8) == 8 && SkipSpaces(s, 9) == 9 && SkipSpaces(s, 10) == 10 && SkipSpaces(s, 11) == 11;
    assert Punctuation(s, 3, '(') == Some(4);
    assert Punctuation(s, 7, ',') == Some(8);
    assert Punctuation(s, 9, ',') == Some(10);
    assert Punctuation(s, 11, ')') == Some(12);
    assert "rgb" <= s;
  }

  lemma DivMod16(v: nat, q: nat, r: nat)
    requires v == q * 16 + r && r < 16
    ensures v / 16 == q && v % 16 == r
  {
  }

  /** The six digits of `#rrggbb`. */
  lemma FullHexDigits(c: Rgb)
    requires InRange(c)
    ensures var h := FullHex(c);
            h[1] == HexDigit(c.r / 16) && h[2] == HexDigit(c.r % 16) &&
            h[3] == HexDigit(c.g / 16) && h[4] == HexDigit(c.g % 16) &&
            h[5] == HexDigit(c.b / 16) && h[6] == HexDigit(c.b % 16)
  {
  }

  /** `rgb(255,0,0)` is written `#f00`. */
  lemma RedExample()
    ensures IsRgbColor("rgb(255,0,0)") && ConvertRgbToHex("rgb(255,0,0)") == "#f00"
  {
    RedParses();
    var c := Rgb(255, 0, 0);
    DivMod16(255, 15, 15);
    DivMod16(0, 0, 0);
    FullHexDigits(c);
    assert CanBeShortened(FullHex(c));
    assert HexDigit(15) == 'f' && HexDigit(0) == '0';
    assert ShortHex(c) == ['#', 'f', '0', '0'];
  }

  /** `rgba(...)` is not an `rgb` colour. */
  lemma RgbaIsNotRgb()
    ensures !IsRgbColor("rgba(0,0,0,1)")
  {
    var s := "rgba(0,0,0,1)";
    assert s[3] == 'a' && s[|s| - 1] == ')';
    assert SkipSpaces(s, 3) == 3;
    assert Punctuation(s, 3, '(') == None;
  }

  // ---------------------------------------------------------------------
  // Hexadecimal colours

  /** `HEX_REGEX` without its final line feed: `#` and three to six hexadecimal digits. */
  predicate IsHexBody(s: string) {
    4 <= |s| <= 7 && s[0] == '#' && forall k | 1 <= k < |s| :: IsHexDigit(s[k])
  }

  /** `isHexColor`: `HEX_REGEX` matches, `$` also before a final line feed. */
  predicate IsHexColor(s: string) {
    IsHexBody(s) || (s != [] && s[|s| - 1] == '\n' && IsHexBody(s[..|s| - 1]))
  }

  // ---------------------------------------------------------------------
  // Colour attributes

  /**
   * `processNodeList` on one attribute value: the trimmed value is converted
   * when it is an `rgb` colour, lower-cased when it is a hexadecimal colour,
   * and otherwise the value stays as it was, untrimmed.
   */
  function ConvertColorValue(value: string): string {
    var v := Trim(value);
    if IsRgbColor(v) then ConvertRgbToHex(v)
    else if IsHexColor(v) then ToLower(v)
    else value
  }

  /** The colour attribute `name` of one element, converted. */
  function ConvertColorAttribute(name: string, attrs: Attributes): (r: Attributes)
    ensures r.Keys == attrs.Keys
    ensures forall k | k in attrs && k != name :: r[k] == attrs[k]
  {
    if name in attrs then attrs[name := attrs[name].(value := ConvertColorValue(attrs[name].value))] else attrs
  }

  /** A value that is neither an `rgb` nor a hexadecimal colour is untouched; a hexadecimal one is lower-cased. */
  lemma ConvertColorValueCases(value: string)
    ensures !IsRgbColor(Trim(value)) && !IsHexColor(Trim(value)) ==> ConvertColorValue(value) == value
    ensures !IsRgbColor(Trim(value)) && IsHexColor(Trim(value)) ==> ConvertColorValue(value) == ToLower(Trim(value))
    ensures IsRgbColor(Trim(value)) ==> ConvertColorValue(value) == ConvertRgbToHex(Trim(value))
  {
  }

  /** An `rgb` colour starts with `rgb`, so it is never a hexadecimal colour. */
  lemma RgbColorShape(s: string)
    requires IsRgbColor(s)
    ensures "rgb" <= s && !IsHexColor(s)
  {
    if ParseRgbExact(s).None? {
      var t := s[..|s| - 1];
      assert "rgb" <= t;
      assert s[0] == t[0];
    }
  }

  /** A value starting with `#` is not an `rgb` colour. */
  lemma HashNotRgb(h: string)
    requires h != [] && h[0] == '#'
    ensures !IsRgbColor(h)
  {
    if IsRgbColor(h) {
      RgbColorShape(h);
    }
  }

  /** A text with no upper-case letter is its own lower-case form. */
  lemma LowerOfLower(s: string)
    requires NoUpperCase(s)
    ensures ToLower(s) == s
  {
    forall k | 0 <= k < |s|
      ensures ToLower(s)[k] == s[k]
    {
    }
  }

  /** A pair of hex digits repeats one digit exactly when the component is a multiple of 17 (0x11). */
  lemma PairRepeats(v: nat)
    requires v <= MAX_RGB_VALUE
    ensures HexDigit(v / 16) == HexDigit(v % 16) <==> v % 17 == 0
  {
    if HexDigit(v / 16) == HexDigit(v % 16) {
      HexDigitInjective(v / 16, v % 16);
      assert v == 17 * (v / 16);
    }
    if v % 17 == 0 {
      var k := v / 17;
      DivMod16(v, k, k);
    }
  }

  /** `#rrggbb` can be shortened exactly when every component is a multiple of 17. */
  lemma ShortenedExactly(c: Rgb)
    requires InRange(c)
    ensures CanBeShortened(FullHex(c)) <==> c.r % 17 == 0 && c.g % 17 == 0 && c.b % 17 == 0
  {
    FullHexDigits(c);
    PairRepeats(c.r);
    PairRepeats(c.g);
    PairRepeats(c.b);
  }

  lemma HexBodyLowered(s: string)
    requires IsHexBody(s)
    ensures IsHexBody(ToLower(s)) && NoUpperCase(ToLower(s))
  {
  }

  /** Lower-casing a hexadecimal colour leaves a hexadecimal colour without upper-case letters. */
  lemma HexColorLowered(s: string)
    requires IsHexColor(s)
    ensures IsHexColor(ToLower(s)) && NoUpperCase(ToLower(s))
  {
    if IsHexBody(s) {
      HexBodyLowered(s);
    } else {
      HexBodyLowered(s[..|s| - 1]);
      assert ToLower(s)[..|s| - 1] == ToLower(s[..|s| - 1]);
    }
  }

  /** A lower-case hexadecimal colour is left as it is. */
  lemma LowerHexFixed(h: string)
    requires IsHexBody(h) && NoUpperCase(h)
    ensures ConvertColorValue(h) == h
  {
    HashNotRgb(h);
    TrimSurrounded("", h);
    assert "" + h == h;
    LowerOfLower(h);
  }

  /** A trimmed `rgb` colour with a component above 255 is left as it is. */
  lemma OutOfRangeFixed(v: string)
    requires IsRgbColor(v) && !InRange(MatchRgb(v).value) && Trim(v) == v
    ensures ConvertColorValue(v) == v
  {
  }

  /** Converting a converted value again changes nothing: the rule is idempotent on one value. */
  lemma ConvertColorValueIdempotent(value: string)
    ensures ConvertColorValue(ConvertColorValue(value)) == ConvertColorValue(value)
  {
    var v := Trim(value);
    if IsRgbColor(v) {
      if InRange(MatchRgb(v).value) {
        LowerHexFixed(ConvertRgbToHex(v));
      } else {
        TrimIdempotent(value);
        OutOfRangeFixed(v);
      }
    } else if IsHexColor(v) {
      assert IsHexBody(v);
      HexBodyLowered(v);
      LowerHexFixed(ToLower(v));
    }
  }

  // ---------------------------------------------------------------------
  // Colours inside `style`

  predicate NotSemicolon(c: char) { c != ';' }

  /**
   * The first match of `\bATTR\s*:\s*([^;]+)` at or after `i`: the captured
   * text.  A capture that would be empty takes back one `\s` from before it.
   */
  function FirstDeclarationValue(s: string, attr: string, i: nat): (r: Option<string>)
    requires i <= |s| && attr != []
    ensures r.Some? ==> r.value != [] && ';' !in r.value
    decreases |s| - i
  {
    if i == |s| then None
    else if (i == 0 || !IsWordChar(s[i - 1])) && attr <= s[i..] then
      var j := SkipSpaces(s, i + |attr|);
      var k := if j < |s| && s[j] == ':' then SkipSpaces(s, j + 1) else j;
      var e := SkipWhile(s, k, NotSemicolon);
      if j < |s| && s[j] == ':' && e > k then
        assert forall m | 0 <= m < e - k :: s[k..e][m] == s[k + m];
        Some(s[k..e])
      else if j < |s| && s[j] == ':' && k > j + 1 then
        Some([s[k - 1]])
      else FirstDeclarationValue(s, attr, i + 1)
    else FirstDeclarationValue(s, attr, i + 1)
  }

  /**
   * One round of `processColorAttributesInStyle`: when `attr` is declared,
   * every occurrence of its trimmed value is replaced by the converted colour
   * if it is an `rgb` colour, then by its lower-case form.
   */
  function StyleStep(style: string, attr: string): string
    requires attr != []
  {
    match FirstDeclarationValue(style, attr, 0)
    case None => style
    case Some(captured) =>
      var v := Trim(captured);
      var converted := if IsRgbColor(v) then ReplaceAll(style, v, ConvertRgbToHex(v)) else style;
      ReplaceAll(converted, v, ToLower(v))
  }

  /** The style after the rounds for the first `n` colour attributes. */
  function ColorsInStyle(style: string, n: nat): string
    requires n <= |COLOR_ATTRIBUTES|
  {
    if n == 0 then style else StyleStep(ColorsInStyle(style, n - 1), COLOR_ATTRIBUTES[n - 1])
  }

  /** `processColorAttributesInStyle`. */
  method ProcessColorAttributesInStyle(style: string) returns (r: string)
    ensures r == ColorsInStyle(style, |COLOR_ATTRIBUTES|)
  {
    r := style;
    for i := 0 to |COLOR_ATTRIBUTES|
      invariant r == ColorsInStyle(style, i)
    {
      r := StyleStep(r, COLOR_ATTRIBUTES[i]);
    }
  }

  /** A style declaring none of the colour properties is left as it was. */
  lemma {:induction false} ColorsInStyleWithoutDeclarations(style: string, n: nat)
    requires n <= |COLOR_ATTRIBUTES|
    requires forall m | 0 <= m < n :: FirstDeclarationValue(style, COLOR_ATTRIBUTES[m], 0).None?
    ensures ColorsInStyle(style, n) == style
  {
    if n > 0 {
      ColorsInStyleWithoutDeclarations(style, n - 1);
    }
  }

  /** Whether `processStyleAttributes` visits the element: its `style` mentions a colour attribute. */
  predicate HasColorStyle(attrs: Attributes) {
    "style" in attrs && exists m | 0 <= m < |COLOR_ATTRIBUTES| :: Contains(attrs["style"].value, COLOR_ATTRIBUTES[m])
  }

  /**
   * `processStyleAttributes` on one element: the colours are converted, then a
   * style that is all one hexadecimal colour is lower-cased; when that last
   * step fails in the regular expression engine, `style` is not written.
   */
  function ConvertStyle(env: Env, attrs: Attributes): (r: Attributes)
    ensures r.Keys == attrs.Keys
    ensures forall k | k in attrs && k != "style" :: r[k] == attrs[k]
  {
    if !HasColorStyle(attrs) then attrs
    else
      var s := ColorsInStyle(attrs["style"].value, |COLOR_ATTRIBUTES|);
      if env.pcreFails(HEX_REGEX, s) then attrs
      else SetAttribute(attrs, "style", if IsHexColor(s) then ToLower(s) else s)
  }

  /** The first `n` colour attributes of one element converted, after its style. */
  function ConvertElementUpTo(env: Env, attrs: Attributes, n: nat): (r: Attributes)
    requires n <= |COLOR_ATTRIBUTES|
    ensures r.Keys == attrs.Keys
    ensures forall k | k in attrs && k != "style" && k !in COLOR_ATTRIBUTES[..n] :: r[k] == attrs[k]
  {
    if n == 0 then ConvertStyle(env, attrs)
    else ConvertColorAttribute(COLOR_ATTRIBUTES[n - 1], ConvertElementUpTo(env, attrs, n - 1))
  }

  function ConvertElement(env: Env): AttributeRewrite {
    (name, uri, attrs) => ConvertElementUpTo(env, attrs, |COLOR_ATTRIBUTES|)
  }

  function Optimized(env: Env, doc: Document): Document {
    Document(MapAttributes(doc.nodes, ConvertElement(env)))
  }

  /**
   * `optimize`: the styles first, then the attributes of each colour name in
   * turn, throughout the document.
   */
  method Optimize(env: Env, dom: DomDocument)
    modifies dom
    ensures dom.doc == Optimized(env, old(dom.doc))
  {
    var start := dom.doc.nodes;
    dom.doc := Document(MapAttributes(dom.doc.nodes, (name, uri, attrs) => ConvertElementUpTo(env, attrs, 0)));
    for i := 0 to |COLOR_ATTRIBUTES|
      invariant dom.doc.nodes == MapAttributes(start, (name, uri, attrs) => ConvertElementUpTo(env, attrs, i))
    {
      var attribute := COLOR_ATTRIBUTES[i];
      MapAttributesCompose(start, (name, uri, attrs) => ConvertElementUpTo(env, attrs, i),
        (name, uri, attrs) => ConvertColorAttribute(attribute, attrs),
        (name, uri, attrs) => ConvertElementUpTo(env, attrs, i + 1));
      dom.doc := Document(MapAttributes(dom.doc.nodes, (name, uri, attrs) => ConvertColorAttribute(attribute, attrs)));
    }
  }

  /** Only `style` and the nine colour attributes can change; no attribute appears or disappears. */
  lemma ConvertElementScope(env: Env, attrs: Attributes)
    ensures var r := ConvertElement(env)("", "", attrs);
            r.Keys == attrs.Keys &&
            forall k | k in attrs && k != "style" && k !in COLOR_ATTRIBUTES :: r[k] == attrs[k]
  {
    assert COLOR_ATTRIBUTES[..|COLOR_ATTRIBUTES|] == COLOR_ATTRIBUTES;
  }

  /** The rule changes attribute values only: every node, name and text stays. */
  lemma OptimizedKeepsTree(env: Env, doc: Document)
    ensures Erase(Optimized(env, doc).nodes) == Erase(doc.nodes)
  {
    MapAttributesKeepsTree(doc.nodes, ConvertElement(env));
  }
}

/**
 * `RemoveEnableBackgroundAttribute`: an `enable-background` value of the form
 * `new 0 0 W H` whose `W` and `H` repeat the element's own `width` and
 * `height` says nothing new and is removed.
 */
module RemoveEnableBackgroundAttribute {

  import opened Outcomes
  import opened Strings
  import opened Dom
  import opened Platform

  const ENABLE_BACKGROUND_REGEX: string :=
    "/^new\\s0\\s0\\s([-+]?\\d*\\.?\\d+([eE][-+]?\\d+)?)\\s([-+]?\\d*\\.?\\d+([eE][-+]?\\d+)?)$/"

  const ENABLE_BACKGROUND_ATTRIBUTE: string := "enable-background"

  predicate IsSign(c: char) { c == '+' || c == '-' }

  predicate IsExponentMark(c: char) { c == 'e' || c == 'E' }

  /** Every character a number of the pattern can hold; none is whitespace. */
  predicate IsNumberChar(c: char) { IsDigit(c) || IsSign(c) || c == '.' || IsExponentMark(c) }

  /** `\d*\.?\d+` matches all of `m`: digits, or digits, a point and at least one digit. */
  predicate IsMantissa(m: string) {
    if '.' in m then
      var p := IndexOfChar(m, '.');
      All(m[..p], IsDigit) && p + 1 < |m| && All(m[p + 1..], IsDigit)
    else m != [] && All(m, IsDigit)
  }

  /** `[-+]?\d+` matches all of `x`. */
  predicate IsExponentDigits(x: string) {
    var a := SignLength(x);
    a < |x| && All(x[a..], IsDigit)
  }

  /** The length of an optional leading sign. */
  function SignLength(t: string): (a: nat)
    ensures a <= 1 && a <= |t|
    ensures a == 1 <==> t != [] && IsSign(t[0])
  {
    if t != [] && IsSign(t[0]) then 1 else 0
  }

  /** The index of the first `e` or `E`, or `|s|` when there is none. */
  function ExponentMarkIndex(s: string): (e: nat)
    ensures e <= |s| && (e < |s| ==> IsExponentMark(s[e]))
    ensures forall k | 0 <= k < e :: !IsExponentMark(s[k])
  {
    if s == [] then 0
    else if IsExponentMark(s[0]) then 0
    else 1 + ExponentMarkIndex(s[1..])
  }

  /**
   * `[-+]?\d*\.?\d+([eE][-+]?\d+)?` matches all of `t`. The mantissa holds no
   * `e`, so the exponent, when present, starts at the first one.
   */
  predicate IsNumber(t: string) {
    var rest := t[SignLength(t)..];
    var e := ExponentMarkIndex(rest);
    IsMantissa(rest[..e]) && (e == |rest| || IsExponentDigits(rest[e + 1..]))
  }

  lemma MantissaChars(m: string)
    requires IsMantissa(m)
    ensures m != [] && All(m, IsNumberChar)
  {
    if '.' in m {
      var p := IndexOfChar(m, '.');
      forall k | 0 <= k < |m| ensures IsNumberChar(m[k]) {
        if k < p {
          assert m[k] == m[..p][k];
        } else if k > p {
          assert m[k] == m[p + 1..][k - p - 1];
        }
      }
    }
  }

  lemma ExponentChars(x: string)
    requires IsExponentDigits(x)
    ensures All(x, IsNumberChar)
  {
    var a := SignLength(x);
    forall k | a <= k < |x| ensures IsNumberChar(x[k]) {
      assert x[k] == x[a..][k - a];
    }
  }

  lemma AllConcat(s: string, t: string)
    requires All(s, IsNumberChar) && All(t, IsNumberChar)
    ensures All(s + t, IsNumberChar)
  {
    forall k | 0 <= k < |s + t| ensures IsNumberChar((s + t)[k]) {
      if k >= |s| {
        assert (s + t)[k] == t[k - |s|];
      }
    }
  }

  /** The unsigned part of a number. */
  lemma UnsignedChars(rest: string, e: nat)
    requires e <= |rest| && (e < |rest| ==> IsExponentMark(rest[e]))
    requires IsMantissa(rest[..e]) && (e == |rest| || IsExponentDigits(rest[e + 1..]))
    ensures rest != [] && All(rest, IsNumberChar)
  {
    var m := rest[..e];
    MantissaChars(m);
    if e == |rest| {
      assert rest == m;
    } else {
      var x := rest[e + 1..];
      ExponentChars(x);
      assert All([rest[e]], IsNumberChar);
      AllConcat(m, [rest[e]]);
      assert m + [rest[e]] == rest[..e + 1];
      AllConcat(rest[..e + 1], x);
      assert rest[..e + 1] + x == rest;
    }
  }

  /** A number is not empty and holds no whitespace. */
  lemma NumberChars(t: string)
    requires IsNumber(t)
    ensures t != [] && All(t, IsNumberChar)
  {
    var a := SignLength(t);
    UnsignedChars(t[a..], ExponentMarkIndex(t[a..]));
    AllConcat(t[..a], t[a..]);
    assert t == t[..a] + t[a..];
  }

  /** The first whitespace character of `s`, if any. */
  function FirstSpace(s: string): (r: Option<nat>)
    ensures r.None? ==> forall k | 0 <= k < |s| :: !IsSpace(s[k])
    ensures r.Some? ==> r.value < |s| && IsSpace(s[r.value]) && forall k | 0 <= k < r.value :: !IsSpace(s[k])
  {
    if s == [] then None
    else if IsSpace(s[0]) then Some(0)
    else
      match FirstSpace(s[1..])
      case None => None
      case Some(k) => Some(k + 1)
  }

  /** `^new\s0\s0\s`: the eight characters before the two numbers. */
  predicate HasLead(v: string) {
    |v| >= 8 && v[0] == 'n' && v[1] == 'e' && v[2] == 'w' && IsSpace(v[3]) && v[4] == '0' && IsSpace(v[5])
    && v[6] == '0' && IsSpace(v[7])
  }

  /** What `$` leaves before the end: the text without one final line feed. */
  function BeforeEnd(s: string): (r: string)
    ensures r == s || (r + "\n" == s)
  {
    if s != [] && s[|s| - 1] == '\n' then s[..|s| - 1] else s
  }

  /**
   * The two captured numbers (`$matches[1]` and `$matches[3]`) when the
   * whole value matches the pattern. The numbers hold no whitespace, so the
   * single `\s` between them is the first one; `$` also matches before a
   * final line feed, which no number can hold.
   */
  function ParseEnableBackground(v: string): (r: Option<(string, string)>)
    ensures r.Some? ==> IsNumber(r.value.0) && IsNumber(r.value.1)
  {
    if !HasLead(v) then None
    else
      var body := BeforeEnd(v[8..]);
      match FirstSpace(body)
      case None => None
      case Some(k) =>
        if IsNumber(body[..k]) && IsNumber(body[k + 1..]) then Some((body[..k], body[k + 1..])) else None
  }

  lemma LeadWritten(tail: string)
    ensures HasLead("new 0 0 " + tail) && ("new 0 0 " + tail)[8..] == tail
  {
  }

  /** The first whitespace of `w + " " + h` is the one after `w` when `w` holds none. */
  lemma FirstSpaceAfter(w: string, h: string)
    requires All(w, IsNumberChar)
    ensures FirstSpace(w + " " + h) == Some(|w|)
  {
    var s := w + " " + h;
    assert IsSpace(s[|w|]);
    forall k | 0 <= k < |w| ensures !IsSpace(s[k]) {
      assert s[k] == w[k];
    }
  }

  /** A value whose tail after the lead splits at its first whitespace into two numbers. */
  lemma ParseSplit(v: string, w: string, h: string)
    requires HasLead(v) && BeforeEnd(v[8..]) == w + " " + h
    requires FirstSpace(w + " " + h) == Some(|w|)
    requires IsNumber(w) && IsNumber(h)
    ensures ParseEnableBackground(v) == Some((w, h))
  {
    var body := w + " " + h;
    assert body[..|w|] == w && body[|w| + 1..] == h;
  }

  /** Two numbers written after `new 0 0` are read back as the two captures. */
  lemma ParseWrittenValue(w: string, h: string)
    requires IsNumber(w) && IsNumber(h)
    ensures ParseEnableBackground("new 0 0 " + w + " " + h) == Some((w, h))
  {
    var rest := w + " " + h;
    var v := "new 0 0 " + w + " " + h;
    assert v == "new 0 0 " + rest;
    LeadWritten(rest);
    assert BeforeEnd(rest) == rest by {
      NumberChars(h);
      assert rest[|rest| - 1] == h[|h| - 1];
      assert IsNumberChar(h[|h| - 1]);
    }
    assert FirstSpace(rest) == Some(|w|) by {
      NumberChars(w);
      FirstSpaceAfter(w, h);
    }
    ParseSplit(v, w, h);
  }

  /**
   * `cleanupEnableBackgroundValue`: `""` when the value matches and repeats
   * the width and height as written; the value itself otherwise, also when
   * PCRE fails (`false` is treated like no match).
   */
  function CleanupEnableBackgroundValue(env: Env, value: string, width: string, height: string): (r: string)
    ensures r == "" || r == value
    ensures r == "" <==>
              value == "" || (!env.pcreFails(ENABLE_BACKGROUND_REGEX, value) && ParseEnableBackground(value) == Some((width, height)))
  {
    if env.pcreFails(ENABLE_BACKGROUND_REGEX, value) then value
    else match ParseEnableBackground(value)
      case None => value
      case Some((w, h)) =>
        if w == width && h == height then "" else value
  }

  /** `getAttribute`: the value, or `""` when the attribute is absent. */
  function AttributeValue(attrs: Attributes, name: string): string {
    if name in attrs then attrs[name].value else ""
  }

  /** The value matches and repeats the element's width and height as written. */
  predicate Redundant(env: Env, v: string, attrs: Attributes) {
    !env.pcreFails(ENABLE_BACKGROUND_REGEX, v) &&
    ParseEnableBackground(v) == Some((AttributeValue(attrs, "width"), AttributeValue(attrs, "height")))
  }

  /** The element carries an `enable-background` that is blank or redundant. */
  predicate Removable(env: Env, attrs: Attributes) {
    ENABLE_BACKGROUND_ATTRIBUTE in attrs &&
    var v := attrs[ENABLE_BACKGROUND_ATTRIBUTE].value;
    Trim(v) == "" || Redundant(env, v, attrs)
  }

  /**
   * One element of `processEnableBackgroundAttributes`: the attribute is
   * removed when the cleaned value trims to nothing; otherwise the cleaned
   * value is the value itself, so writing it back changes nothing.
   */
  function CleanElement(env: Env, attrs: Attributes): (r: Attributes)
    ensures Removable(env, attrs) ==> r == attrs - {ENABLE_BACKGROUND_ATTRIBUTE}
    ensures !Removable(env, attrs) ==> r == attrs
  {
    if ENABLE_BACKGROUND_ATTRIBUTE in attrs then
      var v := attrs[ENABLE_BACKGROUND_ATTRIBUTE].value;
      var cleaned := CleanupEnableBackgroundValue(env, v, AttributeValue(attrs, "width"), AttributeValue(attrs, "height"));
      if Trim(cleaned) == "" then
        assert Removable(env, attrs) by {
          assert Trim("") == "";
        }
        attrs - {ENABLE_BACKGROUND_ATTRIBUTE}
      else
        // `setAttribute` writes back the cleaned value, which is the value itself
        assert cleaned == v && !Removable(env, attrs);
        attrs
    else attrs
  }

  function Optimized(env: Env, doc: Document): Document {
    Document(MapAttributes(doc.nodes, (name, uri, attrs) => CleanElement(env, attrs)))
  }

  /** `optimize`. */
  method Optimize(env: Env, dom: DomDocument)
    modifies dom
    ensures dom.doc == Optimized(env, old(dom.doc))
  {
    dom.doc := Document(MapAttributes(dom.doc.nodes, (name, uri, attrs) => CleanElement(env, attrs)));
  }

  /** The rule removes attributes and nothing else: the tree keeps its shape. */
  lemma OptimizedKeepsTree(env: Env, doc: Document)
    ensures Erase(Optimized(env, doc).nodes) == Erase(doc.nodes)
  {
    MapAttributesKeepsTree(doc.nodes, (name, uri, attrs) => CleanElement(env, attrs));
  }

  /** Running the rule on an element twice removes nothing more. */
  lemma CleanElementIdempotent(env: Env, attrs: Attributes)
    ensures CleanElement(env, CleanElement(env, attrs)) == CleanElement(env, attrs)
  {
    var once := CleanElement(env, attrs);
    assert !Removable(env, once) by {
      if Removable(env, attrs) {
        assert ENABLE_BACKGROUND_ATTRIBUTE !in once;
      }
    }
  }

  /** A number written in digits only. */
  lemma DigitsAreNumber(t: string)
    requires t != [] && All(t, IsDigit)
    ensures IsNumber(t)
  {
    assert SignLength(t) == 0;
    assert t[0..] == t;
    var e := ExponentMarkIndex(t);
    assert '.' !in t;
    assert t[..e] == t;
  }

  /** The comparison is textual: `new 0 0 100 50` against a width of `100.0` is kept. */
  lemma TextualComparison(env: Env)
    requires !env.pcreFails(ENABLE_BACKGROUND_REGEX, "new 0 0 " + "100" + " " + "50")
    ensures CleanupEnableBackgroundValue(env, "new 0 0 " + "100" + " " + "50", "100.0", "50") != ""
  {
    DigitsAreNumber("100");
    DigitsAreNumber("50");
    ParseWrittenValue("100", "50");
  }

  /** With the width and height written the same way the value is cleaned away. */
  lemma MatchingSizeCleaned(env: Env)
    requires !env.pcreFails(ENABLE_BACKGROUND_REGEX, "new 0 0 " + "100" + " " + "50")
    ensures CleanupEnableBackgroundValue(env, "new 0 0 " + "100" + " " + "50", "100", "50") == ""
  {
    DigitsAreNumber("100");
    DigitsAreNumber("50");
    ParseWrittenValue("100", "50");
  }

  /** A blank value is removed even though it matches nothing. */
  lemma BlankRemoved(env: Env, attrs: Attributes)
    requires ENABLE_BACKGROUND_ATTRIBUTE in attrs && attrs[ENABLE_BACKGROUND_ATTRIBUTE].value == " "
    ensures ENABLE_BACKGROUND_ATTRIBUTE !in CleanElement(env, attrs)
  {
    assert All(" ", IsTrimChar);
  }
}

/**
 * The MinifySvgCoordinates rule: shortens the numbers in `d` of `<path>` and
 * in the geometry attributes of the basic shapes.
 *
 * Each of the four regular expressions is a left-to-right scan over the
 * original value, as `preg_replace` performs it: a match consumes its
 * characters, and a look-behind looks at the original text.
 */
module MinifySvgCoordinates {

  import opened Strings
  import opened Dom

  /** `^0(\.0+)?$`: "0" or "0." followed by zeros, `$` also matching before a final line feed. */
  predicate IsZeroValue(v: string) {
    IsZeroNumeral(v) || (v != [] && v[|v| - 1] == '\n' && IsZeroNumeral(v[..|v| - 1]))
  }

  predicate IsZeroNumeral(z: string) {
    z == "0" || (|z| >= 3 && z[..2] == "0." && forall i | 2 <= i < |z| :: z[i] == '0')
  }

  /** The digits of `d` without its trailing zeros (what the lazy `\d*?` keeps). */
  function DropTrailingZeros(d: string): (r: string)
    ensures r <= d && (r == [] || r[|r| - 1] != '0')
    ensures forall k | |r| <= k < |d| :: d[k] == '0'
  {
    if d != [] && d[|d| - 1] == '0' then DropTrailingZeros(d[..|d| - 1]) else d
  }

  /**
   * `(?<=^|\D)0(\.\d+)` replaced by `$1`, scanning `s` from `i`: a `0` at the
   * start or after a non-digit, followed by `.` and digits, is deleted.
   */
  function RemoveLeadingZeroFrom(s: string, i: nat): (r: string)
    requires i <= |s|
    ensures |r| <= |s| - i
    ensures '.' !in s[i..] ==> r == s[i..]
    decreases |s| - i
  {
    if i == |s| then []
    else if s[i] == '0' && (i == 0 || !IsDigit(s[i - 1])) && i + 2 < |s| && s[i + 1] == '.' && IsDigit(s[i + 2]) then
      var q := SkipDigits(s, i + 2);
      assert s[i + 1] in s[i..];
      s[i + 1..q] + RemoveLeadingZeroFrom(s, q)
    else
      assert s[i..] == [s[i]] + s[i + 1..];
      [s[i]] + RemoveLeadingZeroFrom(s, i + 1)
  }

  /**
   * `(\.\d*?)0+(\D|$)` replaced by `$1$2`, scanning `s` from `i`: the zeros
   * ending the digits after a `.` are deleted; the character after the digits
   * is part of the match, so scanning resumes behind it.
   */
  function RemoveTrailingZeroesFrom(s: string, i: nat): (r: string)
    requires i <= |s|
    ensures |r| <= |s| - i
    ensures '.' !in s[i..] ==> r == s[i..]
    decreases |s| - i
  {
    if i == |s| then []
    else if s[i] == '.' then
      var q := SkipDigits(s, i + 1);
      if q > i + 1 && s[q - 1] == '0' then
        var kept := DropTrailingZeros(s[i + 1..q]);
        if q < |s| then ['.'] + kept + [s[q]] + RemoveTrailingZeroesFrom(s, q + 1)
        else ['.'] + kept
      else
        ['.'] + RemoveTrailingZeroesFrom(s, i + 1)
    else
      assert s[i..] == [s[i]] + s[i + 1..];
      [s[i]] + RemoveTrailingZeroesFrom(s, i + 1)
  }

  /**
   * `(?<=\d)\.0+(\D|$)` replaced by `$1`, scanning `s` from `i`: a `.` after a
   * digit, followed only by zeros up to a non-digit or the end, is deleted
   * with those zeros.
   */
  function RemoveUnnecessaryDecimalPointFrom(s: string, i: nat): (r: string)
    requires i <= |s|
    ensures |r| <= |s| - i
    ensures '.' !in s[i..] ==> r == s[i..]
    decreases |s| - i
  {
    if i == |s| then []
    else if s[i] == '.' && i > 0 && IsDigit(s[i - 1]) && i + 1 < |s| && s[i + 1] == '0' then
      var m := SkipZeros(s, i + 1);
      if m == |s| then []
      else if !IsDigit(s[m]) then [s[m]] + RemoveUnnecessaryDecimalPointFrom(s, m + 1)
      else ['.'] + RemoveUnnecessaryDecimalPointFrom(s, i + 1)
    else
      assert s[i..] == [s[i]] + s[i + 1..];
      [s[i]] + RemoveUnnecessaryDecimalPointFrom(s, i + 1)
  }

  /**
   * `(?<=\d)\.(?=\D|$)` replaced by nothing, scanning `s` from `i`: a `.` after
   * a digit and before a non-digit or the end is deleted.
   */
  function RemoveTrailingDecimalPointFrom(s: string, i: nat): (r: string)
    requires i <= |s|
    ensures |r| <= |s| - i
    ensures '.' !in s[i..] ==> r == s[i..]
    decreases |s| - i
  {
    if i == |s| then []
    else if s[i] == '.' && i > 0 && IsDigit(s[i - 1]) && (i + 1 == |s| || !IsDigit(s[i + 1])) then
      RemoveTrailingDecimalPointFrom(s, i + 1)
    else
      assert s[i..] == [s[i]] + s[i + 1..];
      [s[i]] + RemoveTrailingDecimalPointFrom(s, i + 1)
  }

  /** `minifyCoordinates`: the four rewrites, the leading zero kept on a zero value. */
  function MinifyCoordinates(v: string): (r: string)
    ensures |r| <= |v|
    ensures '.' !in v ==> r == v
  {
    if v == "" then v
    else
      var a := if IsZeroValue(v) then v else RemoveLeadingZeroFrom(v, 0);
      assert v[0..] == v;
      var b := RemoveTrailingZeroesFrom(a, 0);
      assert a[0..] == a;
      var c := RemoveUnnecessaryDecimalPointFrom(b, 0);
      assert b[0..] == b;
      assert c[0..] == c;
      RemoveTrailingDecimalPointFrom(c, 0)
  }

  /** The geometry elements whose listed attributes are minified. */
  const COORDINATE_ELEMENTS: set<string> := {"rect", "circle", "ellipse", "line", "polyline", "polygon"}

  /** The attributes minified on a geometry element. */
  const COORDINATE_ATTRIBUTES: set<string> :=
    {"x", "x1", "x2", "y", "y1", "y2", "width", "height", "cx", "cy", "rx", "ry", "r", "points", "d"}

  /** Whether the rule rewrites attribute `k` of an element `name` in namespace `uri`. */
  predicate IsCoordinateAttribute(name: string, uri: string, k: string) {
    uri == SVG_NAMESPACE &&
      ((LocalName(name) == "path" && k == "d") ||
       (LocalName(name) in COORDINATE_ELEMENTS && !IsNamespaceDeclaration(k) && LocalName(k) in COORDINATE_ATTRIBUTES))
  }

  /** One element: its coordinate attributes minified, every other attribute as it was. */
  function MinifyElement(name: string, uri: string, attrs: Attributes): (r: Attributes)
    ensures r.Keys == attrs.Keys
    ensures forall k | k in attrs ::
              r[k] == (if IsCoordinateAttribute(name, uri, k)
                       then attrs[k].(value := MinifyCoordinates(attrs[k].value)) else attrs[k])
  {
    map k | k in attrs ::
      if IsCoordinateAttribute(name, uri, k) then attrs[k].(value := MinifyCoordinates(attrs[k].value)) else attrs[k]
  }

  /** What `optimize` leaves: every element of the document goes through `MinifyElement`. */
  function Optimized(doc: Document): Document {
    Document(MapAttributes(doc.nodes, MinifyElement))
  }

  /**
   * One element's attributes rewritten in place, in any order; the two
   * queries of `optimize` select disjoint attributes, so one pass does both.
   */
  method MinifyAttributes(name: string, uri: string, attrs: Attributes) returns (r: Attributes)
    ensures r == MinifyElement(name, uri, attrs)
  {
    r := attrs;
    var unseen := attrs.Keys;
    while unseen != {}
      invariant unseen <= attrs.Keys && r.Keys == attrs.Keys
      invariant forall k | k in attrs :: r[k] == if k in unseen then attrs[k] else MinifyElement(name, uri, attrs)[k]
      decreases unseen
    {
      var k :| k in unseen;
      if IsCoordinateAttribute(name, uri, k) {
        r := r[k := attrs[k].(value := MinifyCoordinates(attrs[k].value))];
      }
      unseen := unseen - {k};
    }
  }

  method MinifyNodes(ns: seq<Node>) returns (r: seq<Node>)
    ensures r == MapAttributes(ns, MinifyElement)
    decreases ns
  {
    if ns == [] {
      return [];
    }
    var head := MinifyNode(ns[0]);
    var tail := MinifyNodes(ns[1..]);
    r := [head] + tail;
  }

  method MinifyNode(n: Node) returns (r: Node)
    ensures r == MapAttributesIn(n, MinifyElement)
    decreases n
  {
    if !n.Element? {
      return n;
    }
    var attrs := MinifyAttributes(n.name, n.ns, n.attrs);
    var children := MinifyNodes(n.children);
    r := Element(n.name, n.ns, attrs, children);
  }

  /** `optimize`. */
  method Optimize(dom: DomDocument)
    modifies dom
    ensures dom.doc == Optimized(old(dom.doc))
  {
    var nodes := MinifyNodes(dom.doc.nodes);
    dom.doc := Document(nodes);
  }

  /** The rule changes attribute values only: every node, name and text stays. */
  lemma OptimizedKeepsTree(doc: Document)
    ensures Erase(Optimized(doc).nodes) == Erase(doc.nodes)
  {
    MapAttributesKeepsTree(doc.nodes, MinifyElement);
  }

  /** No attribute value becomes longer. */
  lemma MinifyElementNeverLonger(name: string, uri: string, attrs: Attributes)
    ensures forall k | k in attrs :: |MinifyElement(name, uri, attrs)[k].value| <= |attrs[k].value|
  {
  }

  /** Only zeros: nothing of the digits is kept. */
  lemma {:induction false} DropAllZeros(d: string)
    requires forall k | 0 <= k < |d| :: d[k] == '0'
    ensures DropTrailingZeros(d) == []
  {
    if d != [] {
      DropAllZeros(d[..|d| - 1]);
    }
  }

  /** A point followed only by zeros up to `e` loses the zeros; what follows stays. */
  lemma PointThenZeros(v: string, e: nat)
    requires 2 < e <= |v| && v[1] == '.' && v[e - 1] == '0'
    requires forall k | 2 <= k < e :: v[k] == '0'
    requires e == |v| || (e == |v| - 1 && v[e] == '\n')
    ensures RemoveTrailingZeroesFrom(v, 1) == ['.'] + v[e..]
  {
    SkipDigitsTo(v, 2, e);
    DropAllZeros(v[2..e]);
    if e < |v| {
      assert RemoveTrailingZeroesFrom(v, |v|) == [];
      assert v[e..] == [v[e]];
    }
  }

  /** On "0." and zeros, trailing-zero removal leaves "0."; a final line feed `t` stays. */
  lemma ZeroNumeralTrailingZeroes(z: string, t: string)
    requires IsZeroNumeral(z) && z != "0" && (t == "" || t == "\n")
    ensures RemoveTrailingZeroesFrom(z + t, 0) == (if t == "" then "0." else "0.\n")
  {
    var v := z + t;
    assert v[0] == '0' && v[1] == '.' && v[|z| - 1] == '0';
    assert forall k | 2 <= k < |z| :: v[k] == '0';
    PointThenZeros(v, |z|);
    assert v[|z|..] == t;
    assert RemoveTrailingZeroesFrom(v, 0) == [v[0]] + RemoveTrailingZeroesFrom(v, 1);
    assert "0." + t == (if t == "" then "0." else "0.\n");
  }

  /** The last two rewrites turn "0." into "0". */
  lemma ZeroPointBecomesZero()
    ensures RemoveTrailingDecimalPointFrom(RemoveUnnecessaryDecimalPointFrom("0.", 0), 0) == "0"
    ensures RemoveTrailingDecimalPointFrom(RemoveUnnecessaryDecimalPointFrom("0.\n", 0), 0) == "0\n"
  {
    assert RemoveUnnecessaryDecimalPointFrom("0.", 1) == ".";
    assert RemoveUnnecessaryDecimalPointFrom("0.\n", 2) == "\n";
    assert RemoveUnnecessaryDecimalPointFrom("0.\n", 1) == ".\n";
    assert RemoveTrailingDecimalPointFrom("0.", 1) == "";
    assert RemoveTrailingDecimalPointFrom("0.\n", 1) == "\n";
  }

  /**
   * A value the zero pattern accepts keeps its leading zero and loses its
   * point and zeros: "0", "0.0", "0.000" all become "0" (a final line feed stays).
   */
  lemma ZeroValueBecomesZero(v: string)
    requires IsZeroValue(v)
    ensures MinifyCoordinates(v) == (if v[|v| - 1] == '\n' then "0\n" else "0")
  {
    var nl := v[|v| - 1] == '\n';
    var z := if nl then v[..|v| - 1] else v;
    var t := if nl then "\n" else "";
    assert v == z + t;
    assert IsZeroNumeral(v) ==> v[|v| - 1] == '0';
    assert IsZeroNumeral(z);
    if z == "0" {
      assert '.' !in v;
    } else {
      ZeroNumeralTrailingZeroes(z, t);
      ZeroPointBecomesZero();
      var b := RemoveTrailingZeroesFrom(v, 0);
      assert MinifyCoordinates(v) == RemoveTrailingDecimalPointFrom(RemoveUnnecessaryDecimalPointFrom(b, 0), 0);
    }
  }

  lemma TrailingZerosExampleFirstPasses()
    ensures RemoveLeadingZeroFrom("10.00", 0) == "10.00"
    ensures RemoveTrailingZeroesFrom("10.00", 0) == "10."
  {
    var v := "10.00";
    assert RemoveLeadingZeroFrom(v, 2) == ".00";
    assert SkipDigits(v, 3) == 5;
    assert RemoveTrailingZeroesFrom(v, 2) == ".";
  }

  lemma TrailingZerosExampleLastPasses()
    ensures RemoveTrailingDecimalPointFrom(RemoveUnnecessaryDecimalPointFrom("10.", 0), 0) == "10"
  {
    assert RemoveUnnecessaryDecimalPointFrom("10.", 2) == ".";
    assert RemoveUnnecessaryDecimalPointFrom("10.", 0) == "10.";
    assert RemoveTrailingDecimalPointFrom("10.", 2) == "";
  }

  /** Trailing zeros after the point go, and then the bare point: "10.00" becomes "10". */
  lemma TrailingZerosExample()
    ensures MinifyCoordinates("10.00") == "10"
  {
    var v := "10.00";
    assert v[..2][0] == '1';
    assert !IsZeroNumeral(v) && v[|v| - 1] != '\n';
    TrailingZerosExampleFirstPasses();
    TrailingZerosExampleLastPasses();
    assert MinifyCoordinates(v) == RemoveTrailingDecimalPointFrom(RemoveUnnecessaryDecimalPointFrom(
      RemoveTrailingZeroesFrom(RemoveLeadingZeroFrom(v, 0), 0), 0), 0);
  }

  /** A leading zero goes: "0.5" becomes ".5". */
  lemma LeadingZeroExample()
    ensures MinifyCoordinates("0.5") == ".5"
  {
    var v := "0.5";
    assert !IsZeroValue(v);
    assert RemoveLeadingZeroFrom(v, 0) == ".5";
    assert RemoveTrailingZeroesFrom(".5", 0) == ".5";
    assert RemoveUnnecessaryDecimalPointFrom(".5", 0) == ".5";
    assert RemoveTrailingDecimalPointFrom(".5", 0) == ".5";
  }

  lemma ZeroListLeadingZeros()
    ensures RemoveLeadingZeroFrom("0.0 0.0", 0) == ".0 .0"
  {
    var v := "0.0 0.0";
    assert SkipDigits(v, 6) == 7;
    assert RemoveLeadingZeroFrom(v, 7) == [];
    assert RemoveLeadingZeroFrom(v, 4) == ".0";
    assert RemoveLeadingZeroFrom(v, 3) == " .0";
    assert SkipDigits(v, 2) == 3;
  }

  lemma ZeroListTrailingZeros()
    ensures RemoveTrailingZeroesFrom(".0 .0", 0) == ". ."
  {
    var a := ".0 .0";
    assert SkipDigits(a, 4) == 5 && a[4..5] == "0";
    assert DropTrailingZeros("0") == [];
    assert RemoveTrailingZeroesFrom(a, 3) == ".";
    assert SkipDigits(a, 1) == 2 && a[1..2] == "0";
  }

  lemma BarePointsStay()
    ensures RemoveTrailingDecimalPointFrom(RemoveUnnecessaryDecimalPointFrom(". .", 0), 0) == ". ."
  {
    var b := ". .";
    assert RemoveUnnecessaryDecimalPointFrom(b, 2) == ".";
    assert RemoveUnnecessaryDecimalPointFrom(b, 1) == " .";
    assert RemoveTrailingDecimalPointFrom(b, 2) == ".";
    assert RemoveTrailingDecimalPointFrom(b, 1) == " .";
  }

  /**
   * A zero written with a fraction inside a list loses every digit: the
   * zero pattern looks at the whole value, so the leading zeros go first
   * and the trailing-zero rewrite then leaves bare points.
   */
  lemma ZeroListLosesDigits()
    ensures MinifyCoordinates("0.0 0.0") == ". ."
  {
    var v := "0.0 0.0";
    assert v[..2] == "0." && v[3] != '0' && v[|v| - 1] != '\n';
    assert !IsZeroValue(v);
    ZeroListLeadingZeros();
    ZeroListTrailingZeros();
    BarePointsStay();
    assert MinifyCoordinates(v) == RemoveTrailingDecimalPointFrom(RemoveUnnecessaryDecimalPointFrom(
      RemoveTrailingZeroesFrom(RemoveLeadingZeroFrom(v, 0), 0), 0), 0);
  }
}

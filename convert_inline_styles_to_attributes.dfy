/**
 * The ConvertInlineStylesToAttributes rule: declarations of an element's
 * `style` attribute that name an SVG presentation property become attributes
 * of their own, unless the element already has that attribute; the rest of
 * the style is kept, rewritten as `prop:value` entries joined by `"; "`.
 */
module ConvertInlineStylesToAttributes {

  import opened Outcomes
  import opened Strings
  import opened Dom
  import opened Platform
  import opened SvgPropertiesTrait

  const PROPERTY_NAME_REGEX: string := "/^[a-z_-][a-z0-9_-]*$/i"

  const STYLE: string := "style"

  predicate IsNameStart(c: char) { IsAsciiLetter(c) || c == '_' || c == '-' }

  predicate IsNameChar(c: char) { IsNameStart(c) || IsDigit(c) }

  /** `[a-z_-][a-z0-9_-]*`, case-insensitively, matches all of `s`. */
  predicate IsPlainName(s: string) {
    s != [] && IsNameStart(s[0]) && All(s[1..], IsNameChar)
  }

  /**
   * `isValidPropertyName`: the pattern matches, `$` also before a final line
   * feed; a PCRE failure is not `1` and so counts as invalid.
   */
  predicate IsValidPropertyName(env: Env, prop: string) {
    !env.pcreFails(PROPERTY_NAME_REGEX, prop) &&
    (IsPlainName(prop) || (prop != [] && prop[|prop| - 1] == '\n' && IsPlainName(prop[..|prop| - 1])))
  }

  /**
   * A valid name is not empty, holds none of the characters that end a
   * property or a declaration, and has no white space before its last
   * character.
   */
  lemma ValidPropertyNameHasNoDelimiter(env: Env, prop: string)
    requires IsValidPropertyName(env, prop)
    ensures prop != [] && !IsSpace(prop[0])
    ensures forall k | 0 <= k < |prop| :: prop[k] != ':' && prop[k] != ';'
    ensures forall k | 0 <= k < |prop| - 1 :: !IsSpace(prop[k])
  {
    var body := if IsPlainName(prop) then prop else prop[..|prop| - 1];
    assert IsPlainName(body);
    forall k | 0 <= k < |body|
      ensures IsNameChar(body[k])
    {
      if k > 0 {
        assert body[1..][k - 1] == body[k];
      }
    }
  }

  /** Every attribute of `a` is in `b`, unchanged. */
  predicate Keeps(a: Attributes, b: Attributes) {
    forall k | k in a :: k in b && b[k] == a[k]
  }

  /** A declaration of a presentation property, which moves to an attribute. */
  predicate Convertible(env: Env, prop: string) {
    IsValidPropertyName(env, prop) && IsSvgProperty(prop)
  }

  /**
   * The property (lower-cased) and value of a declaration, both trimmed, when
   * it has a `:` and neither side is empty.
   */
  function Declaration(declaration: string): (r: Option<(string, string)>)
    ensures r.Some? ==> r.value.0 != "" && r.value.1 != "" && ':' !in r.value.0
  {
    TrimmedDeclaration(Trim(declaration))
  }

  /** `Declaration` once the declaration is trimmed. */
  function TrimmedDeclaration(d: string): (r: Option<(string, string)>)
    ensures r.Some? ==> r.value.0 != "" && r.value.1 != "" && ':' !in r.value.0
  {
    if d == "" then None
    else match SplitOnce(d, ':')
      case None => None
      case Some((p, v)) =>
        var prop, value := Trim(p), Trim(v);
        if prop == "" || value == "" then None
        else
          TrimKeeps(p, ':');
          ToLowerKeeps(prop, ':');
          Some((ToLower(prop), value))
  }

  /**
   * `b` is `a` plus the declared property, which is a presentation property
   * the element did not have, set to the declared value.
   */
  predicate AddsProperty(env: Env, declaration: string, a: Attributes, b: Attributes) {
    match Declaration(declaration)
    case None => false
    case Some((prop, value)) =>
      Convertible(env, prop) && prop !in a && b == SetAttribute(a, prop, value)
  }

  /**
   * `processDeclaration`: the element's attributes afterwards and the entry
   * to keep in the style, `""` for none.
   */
  function ProcessDeclaration(env: Env, declaration: string, attrs: Attributes): (r: (Attributes, string))
    ensures r.0 == attrs || AddsProperty(env, declaration, attrs, r.0)
    ensures r.1 == "" <==> Declaration(declaration).None? || Convertible(env, Declaration(declaration).value.0)
    ensures r.1 != "" ==>
              r.0 == attrs && r.1 == Declaration(declaration).value.0 + ":" + Declaration(declaration).value.1
  {
    match Declaration(declaration)
    case None => (attrs, "")
    case Some((prop, value)) =>
      if !Convertible(env, prop) then (attrs, prop + ":" + value)
      else if prop in attrs then (attrs, "")
      else (SetAttribute(attrs, prop, value), "")
  }

  /** The declarations processed in order: the attributes afterwards and the entries kept. */
  function ProcessAll(env: Env, decls: seq<string>, attrs: Attributes): (r: (Attributes, seq<string>))
    decreases |decls|
  {
    if decls == [] then (attrs, [])
    else
      var p := ProcessAll(env, decls[..|decls| - 1], attrs);
      var q := ProcessDeclaration(env, decls[|decls| - 1], p.0);
      (q.0, if q.1 == "" then p.1 else p.1 + [q.1])
  }

  /**
   * The fold keeps every attribute the element had, adds only presentation
   * properties.
   */
  lemma {:induction false} ProcessAllKeeps(env: Env, decls: seq<string>, attrs: Attributes)
    ensures Keeps(attrs, ProcessAll(env, decls, attrs).0)
    ensures forall k | k in ProcessAll(env, decls, attrs).0 && k !in attrs :: Convertible(env, k)
    decreases |decls|
  {
    if decls != [] {
      var p := ProcessAll(env, decls[..|decls| - 1], attrs);
      ProcessAllKeeps(env, decls[..|decls| - 1], attrs);
      var q := ProcessDeclaration(env, decls[|decls| - 1], p.0);
      assert ProcessAll(env, decls, attrs) == (q.0, if q.1 == "" then p.1 else p.1 + [q.1]);
    }
  }

  /** A style that is blank or holds no `:` is left exactly as it is. */
  predicate Untouched(attrs: Attributes) {
    var style := Trim(GetAttribute(attrs, STYLE));
    style == "" || ':' !in style
  }

  /** The kept entries written back: no `style` when none is left. */
  function WithStyle(a: Attributes, kept: seq<string>): (r: Attributes)
    ensures kept == [] <==> STYLE !in r
    ensures forall k | k in a && k != STYLE :: k in r && r[k] == a[k]
    ensures forall k | k in r :: k in a || k == STYLE
  {
    if kept == [] then a - {STYLE} else SetAttribute(a, STYLE, Join(kept, "; "))
  }

  /**
   * One element of the rule: its declarations processed in order; `style`
   * removed when no entry is kept, or set to the kept entries otherwise.
   */
  function Converted(env: Env, attrs: Attributes): (r: Attributes)
    ensures forall k | k in attrs && k != STYLE :: k in r && r[k] == attrs[k]
    ensures forall k | k in r && k !in attrs :: Convertible(env, k)
    ensures Untouched(attrs) ==> r == attrs
    ensures !Untouched(attrs) ==>
              (STYLE in r <==> ProcessAll(env, Split(Trim(GetAttribute(attrs, STYLE)), ';'), attrs).1 != [])
  {
    var style := Trim(GetAttribute(attrs, STYLE));
    if style == "" || ':' !in style then attrs
    else
      var p := ProcessAll(env, Split(style, ';'), attrs);
      ProcessAllKeeps(env, Split(style, ';'), attrs);
      WithStyle(p.0, p.1)
  }

  /** `convertStyles`: a blank style or one without `:` is left alone. */
  method ConvertStyles(env: Env, attrs: Attributes) returns (r: Attributes)
    ensures r == Converted(env, attrs)
  {
    var style := Trim(GetAttribute(attrs, STYLE));
    if style == "" || ':' !in style {
      return attrs;
    }
    var remaining;
    r, remaining := ProcessDeclarations(env, Split(style, ';'), attrs);
    r := WithStyle(r, remaining);
  }

  /** The loop of `convertStyles`, which collects the entries that stay. */
  method ProcessDeclarations(env: Env, decls: seq<string>, attrs: Attributes)
    returns (r: Attributes, remaining: seq<string>)
    ensures (r, remaining) == ProcessAll(env, decls, attrs)
  {
    r, remaining := attrs, [];
    var i := 0;
    while i < |decls|
      invariant 0 <= i <= |decls|
      invariant (r, remaining) == ProcessAll(env, decls[..i], attrs)
    {
      ProcessAllStep(env, decls, i, attrs);
      var q := ProcessDeclaration(env, decls[i], r);
      r := q.0;
      if q.1 != "" {
        remaining := remaining + [q.1];
      }
      i := i + 1;
    }
    assert decls[..i] == decls;
  }

  /** One more declaration through the fold. */
  lemma ProcessAllStep(env: Env, decls: seq<string>, i: nat, attrs: Attributes)
    requires i < |decls|
    ensures var p := ProcessAll(env, decls[..i], attrs);
            var q := ProcessDeclaration(env, decls[i], p.0);
            ProcessAll(env, decls[..i + 1], attrs) == (q.0, if q.1 == "" then p.1 else p.1 + [q.1])
  {
    assert decls[..i + 1][..i] == decls[..i];
  }

  function Optimized(env: Env, doc: Document): Document {
    Document(MapAttributes(doc.nodes, (name, uri, attrs) => Converted(env, attrs)))
  }

  /** `optimize`: every element with a `style` attribute, each on its own. */
  method Optimize(env: Env, dom: DomDocument)
    modifies dom
    ensures dom.doc == Optimized(env, old(dom.doc))
  {
    dom.doc := Document(MapAttributes(dom.doc.nodes, (name, uri, attrs) => Converted(env, attrs)));
  }

  /** Only attributes change: the tree keeps its shape. */
  lemma OptimizedKeepsTree(env: Env, doc: Document)
    ensures Erase(Optimized(env, doc).nodes) == Erase(doc.nodes)
  {
    MapAttributesKeepsTree(doc.nodes, (name, uri, attrs) => Converted(env, attrs));
  }

  /** The two halves of a declaration come back trimmed, and the property lower-cased. */
  lemma DeclarationCanonical(declaration: string)
    ensures Declaration(declaration).Some? ==>
              IsTrimmed(Declaration(declaration).value.0) && IsTrimmed(Declaration(declaration).value.1) &&
              ToLower(Declaration(declaration).value.0) == Declaration(declaration).value.0
  {
    var d := Trim(declaration);
    if d != "" && ':' in d {
      var (p, v) := SplitOnce(d, ':').value;
      var prop := Trim(p);
      if prop != "" && Trim(v) != "" {
        ToLowerTrimmed(prop);
        ToLowerIdempotent(prop);
      }
    }
  }

  /** A character the declaration lacks, other than a lower-case letter, is in neither half. */
  lemma DeclarationKeeps(declaration: string, c: char)
    requires c !in declaration && !('a' <= c <= 'z')
    ensures Declaration(declaration).Some? ==>
              c !in Declaration(declaration).value.0 && c !in Declaration(declaration).value.1
  {
    var d := Trim(declaration);
    TrimKeeps(declaration, c);
    if d != "" && ':' in d {
      var (p, v) := SplitOnce(d, ':').value;
      assert c !in p && c !in v;
      TrimKeeps(p, c);
      TrimKeeps(v, c);
      ToLowerKeeps(Trim(p), c);
    }
  }

  /** Leading trim characters do not change how a trimmed declaration reads. */
  lemma DeclarationIgnoresLead(pre: string, e: string)
    requires All(pre, IsTrimChar) && IsTrimmed(e)
    ensures Declaration(pre + e) == Declaration(e)
  {
    TrimSurrounded(pre, e);
    TrimSurrounded([], e);
    assert [] + e == e;
    assert Trim(pre + e) == Trim(e);
  }

  /** An entry written as `prop:value` from a declaration reads back as that declaration. */
  lemma EntryReadsBack(p: string, v: string)
    requires IsTrimmed(p) && IsTrimmed(v) && ':' !in p && ToLower(p) == p
    ensures Declaration(p + ":" + v) == Some((p, v))
  {
    EntryTrimmed(p, v);
    TrimmedUnchanged(p + ":" + v);
    EntryParsed(p, v);
  }

  /** A trimmed text is its own `trim()`. */
  lemma TrimmedUnchanged(s: string)
    requires IsTrimmed(s)
    ensures Trim(s) == s
  {
    TrimSurrounded([], s);
    assert [] + s == s;
  }

  /** The halves of a trimmed `prop:value` are found again. */
  lemma EntryParsed(p: string, v: string)
    requires IsTrimmed(p) && IsTrimmed(v) && ':' !in p && ToLower(p) == p
    ensures TrimmedDeclaration(p + ":" + v) == Some((p, v))
  {
    assert p + ":" + v == p + [':'] + v;
    SplitOnceAt(p, v, ':');
    TrimmedUnchanged(p);
    TrimmedUnchanged(v);
  }

  /** `prop:value` of trimmed halves is trimmed. */
  lemma EntryTrimmed(p: string, v: string)
    requires IsTrimmed(p) && IsTrimmed(v)
    ensures IsTrimmed(p + ":" + v)
  {
    var e := p + ":" + v;
    assert e[0] == p[0] && e[|e| - 1] == v[|v| - 1];
  }

  /**
   * An entry that stays in the style: trimmed, free of `;`, a declaration of a
   * property that does not move, written as `prop:value`.
   */
  predicate Stays(env: Env, e: string) {
    ';' !in e && IsTrimmed(e) && Declaration(e).Some? &&
    !Convertible(env, Declaration(e).value.0) &&
    e == Declaration(e).value.0 + ":" + Declaration(e).value.1
  }

  /** Every entry stays. */
  predicate AllStay(env: Env, kept: seq<string>) {
    forall i {:trigger Stays(env, kept[i])} | 0 <= i < |kept| :: Stays(env, kept[i])
  }

  /** What one declaration without `;` leaves in the style stays there. */
  lemma KeptEntryStays(env: Env, declaration: string, attrs: Attributes)
    requires ';' !in declaration
    ensures ProcessDeclaration(env, declaration, attrs).1 != "" ==>
              Stays(env, ProcessDeclaration(env, declaration, attrs).1)
  {
    var e := ProcessDeclaration(env, declaration, attrs).1;
    if e != "" {
      var (p, v) := Declaration(declaration).value;
      DeclarationCanonical(declaration);
      DeclarationKeeps(declaration, ';');
      EntryReadsBack(p, v);
      EntryShape(p, v);
    }
  }

  /** `prop:value` of trimmed halves without `;` is trimmed and without `;`. */
  lemma EntryShape(p: string, v: string)
    requires IsTrimmed(p) && IsTrimmed(v) && ';' !in p && ';' !in v
    ensures IsTrimmed(p + ":" + v) && ';' !in p + ":" + v
  {
    EntryTrimmed(p, v);
  }

  /** An entry that stays is processed again into itself, whatever trim characters lead it. */
  lemma StaysAgain(env: Env, pre: string, e: string, attrs: Attributes)
    requires All(pre, IsTrimChar) && Stays(env, e)
    ensures ProcessDeclaration(env, pre + e, attrs) == (attrs, e)
  {
    DeclarationIgnoresLead(pre, e);
  }

  /** Every entry the fold keeps from `;`-free declarations stays. */
  lemma {:induction false} ProcessAllEntriesStay(env: Env, decls: seq<string>, attrs: Attributes)
    requires forall i | 0 <= i < |decls| :: ';' !in decls[i]
    ensures AllStay(env, ProcessAll(env, decls, attrs).1)
    decreases |decls|
  {
    if decls != [] {
      var n := |decls| - 1;
      var p := ProcessAll(env, decls[..n], attrs);
      ProcessAllEntriesStay(env, decls[..n], attrs);
      var q := ProcessDeclaration(env, decls[n], p.0);
      KeptEntryStays(env, decls[n], p.0);
      assert ProcessAll(env, decls, attrs).1 == if q.1 == "" then p.1 else p.1 + [q.1];
      if q.1 != "" {
        StayingAppend(env, p.1, q.1);
      }
    }
  }

  /** One more staying entry after staying entries. */
  lemma StayingAppend(env: Env, kept: seq<string>, e: string)
    requires AllStay(env, kept)
    requires Stays(env, e)
    ensures AllStay(env, kept + [e])
  {
    forall i | 0 <= i < |kept + [e]| ensures Stays(env, (kept + [e])[i]) {
      if i < |kept| {
        assert (kept + [e])[i] == kept[i];
      }
    }
  }

  /**
   * Declarations that each leave the attributes alone and keep their own entry
   * are kept, in order, by the fold.
   */
  lemma {:induction false} ProcessAllUnchanged(env: Env, decls: seq<string>, kept: seq<string>, attrs: Attributes)
    requires |decls| == |kept|
    requires forall i | 0 <= i < |decls| :: ProcessDeclaration(env, decls[i], attrs) == (attrs, kept[i]) && kept[i] != ""
    ensures ProcessAll(env, decls, attrs) == (attrs, kept)
    decreases |decls|
  {
    if decls != [] {
      var n := |decls| - 1;
      ProcessAllUnchanged(env, decls[..n], kept[..n], attrs);
      FrontLast(kept);
    }
  }

  /** Entries that stay, joined by `"; "`, are trimmed and hold a `:`. */
  lemma JoinedEntries(env: Env, kept: seq<string>)
    requires kept != [] && AllStay(env, kept)
    ensures IsTrimmed(Join(kept, "; ")) && ':' in Join(kept, "; ")
  {
    var first, last := kept[0], kept[|kept| - 1];
    assert Stays(env, first) && Stays(env, last);
    var j := Join(kept, "; ");
    JoinEnds(kept, "; ");
    assert j[0] == first[0];
    assert j[|j| - 1] == last[|last| - 1] by {
      assert j[|j| - |last|..][|last| - 1] == last[|last| - 1];
    }
    var d := Declaration(first).value;
    assert first[|d.0|] == ':';
    assert j[|d.0|] == ':';
  }

  /** Entries that stay, joined by `"; "` and split at `;` again. */
  lemma EntriesSplitBack(env: Env, kept: seq<string>)
    requires kept != [] && AllStay(env, kept)
    ensures Split(Join(kept, "; "), ';') == [kept[0]] + Spaced(kept[1..])
  {
    forall i | 0 <= i < |kept| ensures ';' !in kept[i] {
      assert Stays(env, kept[i]);
    }
    SplitJoined(kept);
  }

  /** Each entry that stays, read again with or without the space before it, is kept. */
  lemma EntriesReadEach(env: Env, kept: seq<string>, attrs: Attributes)
    requires kept != [] && AllStay(env, kept)
    ensures forall i | 0 <= i < |kept| ::
              ProcessDeclaration(env, ([kept[0]] + Spaced(kept[1..]))[i], attrs) == (attrs, kept[i]) && kept[i] != ""
  {
    var decls := [kept[0]] + Spaced(kept[1..]);
    forall i | 0 <= i < |kept|
      ensures ProcessDeclaration(env, decls[i], attrs) == (attrs, kept[i]) && kept[i] != ""
    {
      assert Stays(env, kept[i]);
      SpacedAt(kept, i);
      StaysAgain(env, if i == 0 then "" else " ", kept[i], attrs);
    }
  }

  /** Entries that stay, written back and read again, are kept as they are and move nothing. */
  lemma ReadAgain(env: Env, kept: seq<string>, attrs: Attributes)
    requires kept != [] && AllStay(env, kept)
    ensures ProcessAll(env, Split(Join(kept, "; "), ';'), attrs) == (attrs, kept)
  {
    EntriesSplitBack(env, kept);
    EntriesReadEach(env, kept, attrs);
    ProcessAllUnchanged(env, [kept[0]] + Spaced(kept[1..]), kept, attrs);
  }

  /** A second pass over an element whose style kept entries changes nothing. */
  lemma KeptIdempotent(env: Env, attrs: Attributes, kept: seq<string>)
    requires kept != [] && AllStay(env, kept)
    requires GetAttribute(attrs, STYLE) == Join(kept, "; ")
    ensures Converted(env, attrs) == attrs
  {
    var j := Join(kept, "; ");
    JoinedEntries(env, kept);
    TrimmedUnchanged(j);
    ReadAgain(env, kept, attrs);
    SetAttributeSame(attrs, STYLE);
  }

  /** The rule is idempotent on an element: a second pass changes nothing. */
  lemma ConvertedIdempotent(env: Env, attrs: Attributes)
    ensures Converted(env, Converted(env, attrs)) == Converted(env, attrs)
  {
    if !Untouched(attrs) {
      var decls := Split(Trim(GetAttribute(attrs, STYLE)), ';');
      var p := ProcessAll(env, decls, attrs);
      var a1 := Converted(env, attrs);
      assert a1 == WithStyle(p.0, p.1);
      if p.1 == [] {
        assert GetAttribute(a1, STYLE) == "";
        assert Untouched(a1);
      } else {
        ProcessAllEntriesStay(env, decls, attrs);
        KeptIdempotent(env, a1, p.1);
      }
    }
  }

  /** The rule is idempotent on a whole document. */
  lemma OptimizedIdempotent(env: Env, doc: Document)
    ensures Optimized(env, Optimized(env, doc)) == Optimized(env, doc)
  {
    var f: AttributeRewrite := (name, uri, attrs) => Converted(env, attrs);
    forall name, uri, attrs ensures f(name, uri, f(name, uri, attrs)) == f(name, uri, attrs) {
      ConvertedIdempotent(env, attrs);
    }
    MapAttributesIdempotent(doc.nodes, f);
  }

  /**
   * Every presentation property the style declares ends up as an attribute:
   * the one the element had, or the declared value.
   */
  lemma {:induction false} DeclaredPropertiesLand(env: Env, decls: seq<string>, attrs: Attributes, i: nat)
    requires i < |decls| && Declaration(decls[i]).Some? && Convertible(env, Declaration(decls[i]).value.0)
    ensures Declaration(decls[i]).value.0 in ProcessAll(env, decls, attrs).0
    decreases |decls|, 1
  {
    if i == |decls| - 1 {
      LastLands(env, decls, attrs);
    } else {
      EarlierLands(env, decls, attrs, i);
    }
  }

  /** A presentation property declared before the last declaration is an attribute after the fold. */
  lemma {:induction false} EarlierLands(env: Env, decls: seq<string>, attrs: Attributes, i: nat)
    requires i < |decls| - 1 && Declaration(decls[i]).Some? && Convertible(env, Declaration(decls[i]).value.0)
    ensures Declaration(decls[i]).value.0 in ProcessAll(env, decls, attrs).0
    decreases |decls|, 0
  {
    var front := decls[..|decls| - 1];
    assert front[i] == decls[i];
    DeclaredPropertiesLand(env, front, attrs, i);
    LaterKeepsKey(env, decls, attrs, Declaration(decls[i]).value.0);
  }

  /** The last declaration removes no attribute the fold had before it. */
  lemma LaterKeepsKey(env: Env, decls: seq<string>, attrs: Attributes, k: string)
    requires decls != [] && k in ProcessAll(env, decls[..|decls| - 1], attrs).0
    ensures k in ProcessAll(env, decls, attrs).0
  {
    ProcessAllLast(env, decls, attrs);
    DeclarationKeepsKey(env, decls[|decls| - 1], ProcessAll(env, decls[..|decls| - 1], attrs).0, k);
  }

  /** A presentation property in the last declaration is an attribute after the fold. */
  lemma LastLands(env: Env, decls: seq<string>, attrs: Attributes)
    requires decls != [] && Declaration(decls[|decls| - 1]).Some?
    requires Convertible(env, Declaration(decls[|decls| - 1]).value.0)
    ensures Declaration(decls[|decls| - 1]).value.0 in ProcessAll(env, decls, attrs).0
  {
    ProcessAllLast(env, decls, attrs);
    DeclarationLands(env, decls[|decls| - 1], ProcessAll(env, decls[..|decls| - 1], attrs).0);
  }

  /** The fold's attributes after the last declaration. */
  lemma ProcessAllLast(env: Env, decls: seq<string>, attrs: Attributes)
    requires decls != []
    ensures ProcessAll(env, decls, attrs).0 ==
            ProcessDeclaration(env, decls[|decls| - 1], ProcessAll(env, decls[..|decls| - 1], attrs).0).0
  {
  }

  /** A presentation property declared is an attribute afterwards. */
  lemma DeclarationLands(env: Env, declaration: string, attrs: Attributes)
    requires Declaration(declaration).Some? && Convertible(env, Declaration(declaration).value.0)
    ensures Declaration(declaration).value.0 in ProcessDeclaration(env, declaration, attrs).0
  {
  }

  /** An attribute the element has stays. */
  lemma DeclarationKeepsKey(env: Env, declaration: string, attrs: Attributes, k: string)
    requires k in attrs
    ensures k in ProcessDeclaration(env, declaration, attrs).0
  {
  }
}

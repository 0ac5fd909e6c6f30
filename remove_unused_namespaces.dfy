/**
 * The RemoveUnusedNamespaces rule: a `xmlns:p` declaration of the document
 * element goes when the serialized document never shows `p:` before a name.
 */
module RemoveUnusedNamespaces {

  import opened Outcomes
  import opened Strings
  import opened Dom
  import opened Platform
  import opened XmlProcessor

  const NAMESPACE_PATTERN: string := "/xmlns:([a-zA-Z0-9\\-]+)=\"([^\"]+)\"/"
  const ELEMENT_PATTERN_TEMPLATE: string := "/%s:[a-zA-Z0-9\\-]+/"
  const XMLNS_COLON: string := "xmlns:"

  /** `[a-zA-Z0-9\-]`. */
  predicate IsNameChar(c: char) {
    IsAsciiLetter(c) || IsDigit(c) || c == '-'
  }

  predicate NotQuote(c: char) {
    c != '"'
  }

  /**
   * The length of the match of `NAMESPACE_PATTERN` at `i`, 0 when there is
   * none: `xmlns:`, a run of name characters, `="`, at least one character
   * other than `"`, then `"`.  Neither run can give anything back, so the
   * match is the one the greedy runs find.
   */
  function DeclarationLength(s: string, i: nat): (n: nat)
    ensures n > 0 ==> i + 6 < |s| && s[i..i + 6] == XMLNS_COLON && i + n <= |s|
    ensures n > 0 ==> var e := SkipWhile(s, i + 6, IsNameChar); i + 6 < e && e + 1 < |s| && s[e] == '=' && s[e + 1] == '"'
  {
    if i + 6 <= |s| && s[i..i + 6] == XMLNS_COLON then
      var e := SkipWhile(s, i + 6, IsNameChar);
      if i + 6 < e && e + 1 < |s| && s[e] == '=' && s[e + 1] == '"' then
        var q := SkipWhile(s, e + 2, NotQuote);
        if e + 2 < q < |s| then q + 1 - i else 0
      else 0
    else 0
  }

  /** Group 1 of the declaration matched at `i`: the prefix. */
  function PrefixAt(s: string, i: nat): (p: string)
    requires DeclarationLength(s, i) > 0
    ensures |p| > 0 && All(p, IsNameChar)
    ensures i + 6 + |p| < |s| && s[i..i + 6 + |p|] == XMLNS_COLON + p && s[i + 6 + |p|] == '='
  {
    var e := SkipWhile(s, i + 6, IsNameChar);
    AllIn(s, i + 6, e, IsNameChar);
    assert s[i..e] == s[i..i + 6] + s[i + 6..e];
    s[i + 6..e]
  }

  /** `$matches[1]`: the prefixes of every declaration in the text, in order. */
  function DeclaredPrefixes(s: string): (r: seq<string>)
    ensures forall k | 0 <= k < |r| :: |r[k]| > 0 && All(r[k], IsNameChar)
  {
    var starts := MatchStarts(s, 0, DeclarationLength);
    seq(|starts|, k requires 0 <= k < |starts| => PrefixAt(s, starts[k]))
  }

  /**
   * The length of the match of `/p:[a-zA-Z0-9\-]+/` at `j`: `p:` then the
   * longest run of name characters; 0 when there is none.
   */
  function UseLength(p: string): MatchLength {
    (s: string, j: nat) => UseLengthAt(p, s, j)
  }

  function UseLengthAt(p: string, s: string, j: nat): (n: nat)
    ensures n > 0 <==> UsedAt(s, p, j)
    ensures n > 0 ==> j + n <= |s|
  {
    if UsedAt(s, p, j) then SkipWhile(s, j + |p| + 1, IsNameChar) - j else 0
  }

  /** `p:` followed by a name character starts at `j`. */
  predicate UsedAt(s: string, p: string, j: nat) {
    j + |p| + 1 < |s| && s[j..j + |p| + 1] == p + ":" && IsNameChar(s[j + |p| + 1])
  }

  /** `count($elementMatches[0])`. */
  function UseCount(s: string, p: string): nat {
    |MatchStarts(s, 0, UseLength(p))|
  }

  /** The count is 0 exactly when `p:` followed by a name character occurs nowhere in the text. */
  lemma UseCountZero(s: string, p: string)
    ensures UseCount(s, p) == 0 <==> forall j | 0 <= j < |s| :: !UsedAt(s, p, j)
  {
    MatchStartsEmpty(s, 0, UseLength(p));
    assert forall j | 0 <= j < |s| :: MatchAt(s, j, UseLength(p)) <==> UsedAt(s, p, j);
  }

  /** A key `countNamespaceElementsWithRegex` gives the count 0. */
  predicate IsUnusedDeclaration(s: string, k: string) {
    |k| >= 6 && k[..6] == XMLNS_COLON && k[6..] in DeclaredPrefixes(s) && UseCount(s, k[6..]) == 0
  }

  /** The document element's attributes once every unused declaration is removed. */
  function Stripped(content: string, attrs: Attributes): (r: Attributes)
    ensures forall k | k in r :: k in attrs && r[k] == attrs[k]
    ensures forall k | k in attrs :: k in r <==> !IsUnusedDeclaration(content, k)
  {
    map k | k in attrs && !IsUnusedDeclaration(content, k) :: attrs[k]
  }

  function WithoutUnused(content: string): AttributeRewrite {
    (name, uri, attrs) => Stripped(content, attrs)
  }

  /** `k` is `xmlns:p` for a `p` of `prefixes` counted 0. */
  predicate RemovedBy(content: string, prefixes: seq<string>, k: string) {
    |k| >= 6 && k[..6] == XMLNS_COLON && k[6..] in prefixes && UseCount(content, k[6..]) == 0
  }

  lemma DeclarationKey(p: string)
    ensures (XMLNS_COLON + p)[..6] == XMLNS_COLON && (XMLNS_COLON + p)[6..] == p
    ensures forall k | |k| >= 6 && k[..6] == XMLNS_COLON :: k[6..] == p <==> k == XMLNS_COLON + p
  {
    forall k | |k| >= 6 && k[..6] == XMLNS_COLON
      ensures k[6..] == p <==> k == XMLNS_COLON + p
    {
      assert k == k[..6] + k[6..];
    }
  }

  /** `attrs` is `before` with the declarations of `prefixes` counted 0 removed. */
  ghost predicate RemovedFor(content: string, before: Attributes, prefixes: seq<string>, attrs: Attributes) {
    (forall k :: k in attrs <==> k in before && !RemovedBy(content, prefixes, k)) &&
    (forall k | k in attrs :: attrs[k] == before[k])
  }

  /** One turn of the `foreach`: `removeNamespaceFromSvgTags` when the count of `p` is 0. */
  method RemoveIfUnused(content: string, before: Attributes, prefixes: seq<string>, p: string, attrs: Attributes)
    returns (r: Attributes)
    requires RemovedFor(content, before, prefixes, attrs)
    ensures RemovedFor(content, before, prefixes + [p], r)
  {
    var key := XMLNS_COLON + p;
    DeclarationKey(p);
    r := attrs;
    if UseCount(content, p) == 0 && key in attrs {
      r := map k | k in attrs && k != key :: attrs[k];
    }
  }

  /**
   * The `foreach` over the counts with `removeNamespaceFromSvgTags`: each
   * key counted 0 is removed from the document element when it has it.
   * A prefix declared twice is looked at twice, which changes nothing.
   */
  method RemoveDeclarations(content: string, before: Attributes) returns (attrs: Attributes)
    ensures attrs == Stripped(content, before)
  {
    var prefixes := DeclaredPrefixes(content);
    attrs := before;
    for i := 0 to |prefixes|
      invariant RemovedFor(content, before, prefixes[..i], attrs)
    {
      assert prefixes[..i + 1] == prefixes[..i] + [prefixes[i]];
      attrs := RemoveIfUnused(content, before, prefixes[..i], prefixes[i], attrs);
    }
    assert prefixes[..|prefixes|] == prefixes;
  }

  /** `removeNamespaceFromSvgTags` for every key counted 0, on the document element. */
  method RemoveUnusedFromRoot(dom: DomDocument, content: string)
    modifies dom
    ensures dom.doc == Document(MapRootAttributes(old(dom.doc).nodes, WithoutUnused(content)))
  {
    var root := Root(dom.doc.nodes);
    if root.None? {
      return;
    }
    var attrs := RemoveDeclarations(content, root.value.attrs);
    WithRootAttributesIsMap(dom.doc.nodes, WithoutUnused(content));
    dom.doc := Document(WithRootAttributes(dom.doc.nodes, attrs));
  }

  /** The callback `static fn (string $content): string => $content`. */
  function Unchanged(): Callback {
    content => Returned(content)
  }

  /** The document after the inner `process` gave `first` and the text `content`, and the declarations went. */
  function Cleaned(first: Document, content: string): Document {
    Document(MapRootAttributes(first.nodes, WithoutUnused(content)))
  }

  /**
   * `optimize`: the outer `process` serializes the document, then runs
   * `cleanNamespaces`, which reloads the document through an inner `process`,
   * counts on the text it got, removes, and reloads through a second inner
   * `process` whose text the outer one validates and loads once more.
   */
  function Optimized(env: Env, doc: Document): (r: Result<Document>)
    ensures r.Failure? ==> r.error.XmlProcessing?
    ensures r.Success? ==>
              Process(env, doc, Unchanged()).Success? &&
              var (first, content) := Process(env, doc, Unchanged()).value;
              Process(env, Cleaned(first, content), Unchanged()).Success? &&
              r.value == Process(env, Cleaned(first, content), Unchanged()).value.0
  {
    if env.saveXml(doc).None? then Failure(XmlProcessing(SAVE_FAILED))
    else match Process(env, doc, Unchanged())
      case Failure(e) => Failure(e)
      case Success((first, content)) =>
        match Process(env, Cleaned(first, content), Unchanged())
        case Failure(e) => Failure(e)
        case Success((second, _)) => Success(second)
  }

  /**
   * The document an exception leaves: the first inner `process` changes
   * nothing when it throws, but once it has succeeded the removals stay.
   */
  function LeftOnFailure(env: Env, doc: Document): Document {
    match Process(env, doc, Unchanged())
    case Failure(_) => doc
    case Success((first, content)) => Cleaned(first, content)
  }

  method Optimize(env: Env, dom: DomDocument) returns (o: Outcome)
    modifies dom
    ensures Optimized(env, old(dom.doc)).Success? ==> o == Pass && dom.doc == Optimized(env, old(dom.doc)).value
    ensures Optimized(env, old(dom.doc)).Failure? ==>
              o == Fail(Optimized(env, old(dom.doc)).error) && dom.doc == LeftOnFailure(env, old(dom.doc))
  {
    var outer := env.saveXml(dom.doc);
    if outer.None? {
      return Fail(XmlProcessing(SAVE_FAILED));
    }
    var first := ProcessIn(env, dom, Unchanged());
    if first.Failure? {
      return Fail(first.error);
    }
    RemoveUnusedFromRoot(dom, first.value);
    var second := ProcessIn(env, dom, Unchanged());
    if second.Failure? {
      return Fail(second.error);
    }
    // The outer `process` validates and loads the very text the second inner
    // one did; both gave the document now held.
    assert env.isValidSvg(second.value) && env.loadXml(second.value) == Some(dom.doc);
    o := Pass;
  }

  /** A declaration whose prefix the text shows before a name is kept. */
  lemma UsedDeclarationKept(content: string, attrs: Attributes, p: string, j: nat)
    requires UsedAt(content, p, j)
    ensures XMLNS_COLON + p in attrs ==> XMLNS_COLON + p in Stripped(content, attrs)
  {
    UseCountZero(content, p);
    assert (XMLNS_COLON + p)[6..] == p;
  }

  /** Only namespace declarations can go. */
  lemma OtherAttributesKept(content: string, attrs: Attributes, k: string)
    requires k in attrs && !(|k| >= 6 && k[..6] == XMLNS_COLON)
    ensures k in Stripped(content, attrs) && Stripped(content, attrs)[k] == attrs[k]
  {
  }

  /**
   * A prefix that ends the word `xmlns` (`s`, `ns`, `lns`, `mlns`, `xmlns`)
   * is found in its own declaration, `xmlns:s="…"` holding `s:s`, so that
   * declaration always counts as used.
   */
  lemma DeclarationUsesItself(s: string, i: nat, u: string)
    requires DeclarationLength(s, i) > 0
    requires u + PrefixAt(s, i) == "xmlns"
    ensures UseCount(s, PrefixAt(s, i)) > 0
  {
    var p := PrefixAt(s, i);
    var j := i + |u|;
    assert s[i..i + 6 + |p|] == XMLNS_COLON + p;
    assert s[j..j + |p| + 1] == p + ":" by {
      assert s[j..j + |p| + 1] == s[i..i + 6 + |p|][|u|..6];
      assert (XMLNS_COLON + p)[|u|..6] == ("xmlns" + ":")[|u|..6] == (u + p + ":")[|u|..];
    }
    assert s[j + |p| + 1] == s[i + 6] == p[0];
    assert UsedAt(s, p, j);
    UseCountZero(s, p);
  }
}

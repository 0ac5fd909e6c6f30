/**
 * The RemoveInkscapeFootprints rule: the `xmlns:sodipodi` and
 * `xmlns:inkscape` declarations, every element in the Sodipodi or Inkscape
 * namespace, and every attribute in either namespace go; the whole sweep
 * runs twice.
 */
module RemoveInkscapeFootprints {

  import opened Outcomes
  import opened Strings
  import opened Dom

  const EXPLODE_LIMIT: nat := 2
  const OPTIMIZATION_LOOP_COUNT: nat := 2
  const ALL_NODES_XPATH_QUERY: string := "//*"

  const XMLNS_ATTRIBUTES: seq<string> := ["xmlns:sodipodi", "xmlns:inkscape"]
  const TAGS_TO_REMOVE: seq<string> := ["sodipodi:*", "inkscape:*"]
  const ATTRIBUTES_TO_REMOVE: seq<string> := ["sodipodi:*", "inkscape:*"]

  const SODIPODI_URI: string := "http://sodipodi.sourceforge.net/DTD/sodipodi-0.dtd"
  const INKSCAPE_URI: string := "http://www.inkscape.org/namespaces/inkscape"

  /** The prefixes registered with the XPath object, and their namespaces. */
  const NAMESPACE_URIS: map<string, string> := map["sodipodi" := SODIPODI_URI, "inkscape" := INKSCAPE_URI]

  // ---------------------------------------------------------------------
  // From a pattern to the namespace it selects

  /**
   * The namespace `removeTags` queries for a pattern: the part before the
   * first `:` (all of it when there is none) names a prefix, and an XPath
   * query with an unregistered prefix fails, so the pattern is skipped.
   */
  function TagNamespace(pattern: string): (r: Option<string>)
    ensures r.Some? ==> r.value in NAMESPACE_URIS.Values
  {
    var prefix := match SplitOnce(pattern, ':') case None => pattern case Some((p, _)) => p;
    if prefix in NAMESPACE_URIS then Some(NAMESPACE_URIS[prefix]) else None
  }

  /**
   * The namespace `removeNamespacedAttributes` strips for a pattern: one
   * without `:` is skipped, and so is one whose prefix is not registered.
   */
  function AttributeNamespace(pattern: string): (r: Option<string>)
    ensures r.Some? ==> ':' in pattern && r.value in NAMESPACE_URIS.Values
  {
    match SplitOnce(pattern, ':')
    case None => None
    case Some((prefix, _)) => if prefix in NAMESPACE_URIS then Some(NAMESPACE_URIS[prefix]) else None
  }

  /** A pattern `prefix:*` with a registered prefix selects that prefix's namespace in both lists. */
  lemma PatternSelects(prefix: string, pattern: string)
    requires prefix in NAMESPACE_URIS && ':' !in prefix && pattern == prefix + [':', '*']
    ensures TagNamespace(pattern) == Some(NAMESPACE_URIS[prefix])
    ensures AttributeNamespace(pattern) == Some(NAMESPACE_URIS[prefix])
  {
    assert pattern == prefix + [':'] + "*";
    SplitOnceAt(prefix, "*", ':');
  }

  /** Both patterns of each list select, in order, the Sodipodi and then the Inkscape namespace. */
  lemma PatternsSelect()
    ensures |TAGS_TO_REMOVE| == 2 && TagNamespace(TAGS_TO_REMOVE[0]) == Some(SODIPODI_URI)
    ensures TagNamespace(TAGS_TO_REMOVE[1]) == Some(INKSCAPE_URI)
    ensures ATTRIBUTES_TO_REMOVE == TAGS_TO_REMOVE
    ensures AttributeNamespace(TAGS_TO_REMOVE[0]) == Some(SODIPODI_URI)
    ensures AttributeNamespace(TAGS_TO_REMOVE[1]) == Some(INKSCAPE_URI)
  {
    assert TAGS_TO_REMOVE[0] == "sodipodi" + [':', '*'];
    assert TAGS_TO_REMOVE[1] == "inkscape" + [':', '*'];
    assert ':' !in "inkscape";
    assert "inkscape" in NAMESPACE_URIS;
    assert NAMESPACE_URIS["inkscape"] == INKSCAPE_URI;
    PatternSelects("sodipodi", TAGS_TO_REMOVE[0]);
    PatternSelects("inkscape", TAGS_TO_REMOVE[1]);
  }

  // ---------------------------------------------------------------------
  // The three steps of one sweep, on values

  /** One element's attributes once `xmlns:sodipodi` and `xmlns:inkscape` are gone. */
  function WithoutDeclarations(name: string, uri: string, attrs: Attributes): (r: Attributes)
    ensures forall k | k in r :: k in attrs && r[k] == attrs[k]
    ensures forall k | k in attrs :: k in r <==> k !in XMLNS_ATTRIBUTES
  {
    map k | k in attrs && k !in XMLNS_ATTRIBUTES :: attrs[k]
  }

  /** One element's attributes once those in namespace `uri` are gone. */
  function Unnamespaced(uri: string, attrs: Attributes): (r: Attributes)
    ensures forall k | k in r :: k in attrs && r[k] == attrs[k]
    ensures forall k | k in attrs :: k in r <==> IsNamespaceDeclaration(k) || attrs[k].ns != uri
  {
    map k | k in attrs && (IsNamespaceDeclaration(k) || attrs[k].ns != uri) :: attrs[k]
  }

  function WithoutNamespace(uri: string): AttributeRewrite {
    (name, elementUri, attrs) => Unnamespaced(uri, attrs)
  }

  /** What `//prefix:*` selects: an element whose namespace is `uri`, whatever prefix it is written with. */
  function InNamespace(uri: string): Node -> bool {
    (n: Node) => n.Element? && n.ns == uri
  }

  lemma InNamespaceHeadOnly(uri: string)
    ensures HeadOnly(InNamespace(uri))
  {
    forall n: Node ensures InNamespace(uri)(n) == InNamespace(uri)(Head(n)) {
    }
  }

  /** `removeTags`: each pattern's elements, with everything under them. */
  function RemovedTags(ns: seq<Node>, patterns: seq<string>): seq<Node>
    decreases |patterns|
  {
    if patterns == [] then ns
    else match TagNamespace(patterns[0])
      case None => RemovedTags(ns, patterns[1..])
      case Some(uri) => RemovedTags(RemoveWhere(ns, InNamespace(uri)), patterns[1..])
  }

  /** `removeNamespacedAttributes`: each pattern's attributes, on every element. */
  function StrippedAttributes(ns: seq<Node>, patterns: seq<string>): seq<Node>
    decreases |patterns|
  {
    if patterns == [] then ns
    else match AttributeNamespace(patterns[0])
      case None => StrippedAttributes(ns, patterns[1..])
      case Some(uri) => StrippedAttributes(MapAttributes(ns, WithoutNamespace(uri)), patterns[1..])
  }

  /** One iteration of the loop in `optimize`. */
  function Sweep(ns: seq<Node>): seq<Node> {
    StrippedAttributes(RemovedTags(MapAttributes(ns, WithoutDeclarations), TAGS_TO_REMOVE), ATTRIBUTES_TO_REMOVE)
  }

  function Sweeps(ns: seq<Node>, count: nat): seq<Node>
    decreases count
  {
    if count == 0 then ns else Sweep(Sweeps(ns, count - 1))
  }

  function Optimized(doc: Document): Document {
    Document(Sweeps(doc.nodes, OPTIMIZATION_LOOP_COUNT))
  }

  // ---------------------------------------------------------------------
  // The methods

  /** The inner loop of `removeNamespaceDeclarations`, on one element. */
  method RemoveDeclarationsFrom(attrs: Attributes) returns (r: Attributes)
    ensures forall k | k in r :: k in attrs && r[k] == attrs[k]
    ensures forall k | k in attrs :: k in r <==> k !in XMLNS_ATTRIBUTES
  {
    r := attrs;
    for i := 0 to |XMLNS_ATTRIBUTES|
      invariant forall k | k in r :: k in attrs && r[k] == attrs[k]
      invariant forall k | k in attrs :: k in r <==> k !in XMLNS_ATTRIBUTES[..i]
    {
      if XMLNS_ATTRIBUTES[i] in r {
        r := r - {XMLNS_ATTRIBUTES[i]};
      }
    }
  }

  /** `removeNamespaceDeclarations`: every element, at every depth. */
  method RemoveNamespaceDeclarations(ns: seq<Node>) returns (r: seq<Node>)
    ensures r == MapAttributes(ns, WithoutDeclarations)
    decreases ns
  {
    if ns == [] {
      return [];
    }
    var head := RemoveNamespaceDeclarationsIn(ns[0]);
    var tail := RemoveNamespaceDeclarations(ns[1..]);
    r := [head] + tail;
  }

  method RemoveNamespaceDeclarationsIn(n: Node) returns (r: Node)
    ensures r == MapAttributesIn(n, WithoutDeclarations)
    decreases n
  {
    if !n.Element? {
      return n;
    }
    var attrs := RemoveDeclarationsFrom(n.attrs);
    assert attrs == WithoutDeclarations(n.name, n.ns, n.attrs);
    var children := RemoveNamespaceDeclarations(n.children);
    r := Element(n.name, n.ns, attrs, children);
  }

  /** `removeTags`: the elements each query selects are detached from their parents. */
  method RemoveTags(dom: DomDocument, patterns: seq<string>)
    modifies dom
    ensures dom.doc == Document(RemovedTags(old(dom.doc).nodes, patterns))
  {
    ghost var target := RemovedTags(dom.doc.nodes, patterns);
    for i := 0 to |patterns|
      invariant RemovedTags(dom.doc.nodes, patterns[i..]) == target
    {
      assert patterns[i..][1..] == patterns[i + 1..];
      match TagNamespace(patterns[i])
      case None =>
      case Some(uri) =>
        InNamespaceHeadOnly(uri);
        RemoveMatches(dom, InNamespace(uri));
    }
  }

  /** `removeAttributeNS`: the attribute in namespace `uri` whose local name is `local`. */
  function RemoveAttributeNS(attrs: Attributes, uri: string, local: string): (r: Attributes)
    ensures forall k | k in r :: k in attrs && r[k] == attrs[k]
    ensures forall k | k in attrs :: k in r <==> !(!IsNamespaceDeclaration(k) && attrs[k].ns == uri && LocalName(k) == local)
  {
    map k | k in attrs && !(!IsNamespaceDeclaration(k) && attrs[k].ns == uri && LocalName(k) == local) :: attrs[k]
  }

  /** `getAttributesToRemove`: the local name of every attribute in namespace `uri`. */
  method AttributesToRemove(attrs: Attributes, uri: string) returns (locals: seq<string>)
    ensures forall k | k in attrs && !IsNamespaceDeclaration(k) && attrs[k].ns == uri :: LocalName(k) in locals
  {
    locals := [];
    var unseen := set k | k in attrs && !IsNamespaceDeclaration(k);
    while unseen != {}
      invariant unseen <= attrs.Keys
      invariant forall k | k in attrs && !IsNamespaceDeclaration(k) && k !in unseen && attrs[k].ns == uri :: LocalName(k) in locals
      decreases unseen
    {
      var k :| k in unseen;
      if attrs[k].ns == uri {
        locals := locals + [LocalName(k)];
      }
      unseen := unseen - {k};
    }
  }

  /** `removeNodeAttributes`: every attribute of one element in namespace `uri` goes. */
  method RemoveNodeAttributes(attrs: Attributes, uri: string) returns (r: Attributes)
    ensures r == Unnamespaced(uri, attrs)
  {
    var locals := AttributesToRemove(attrs, uri);
    r := attrs;
    ghost var done: set<string> := {};
    for i := 0 to |locals|
      invariant forall j | 0 <= j < i :: locals[j] in done
      invariant forall k | k in r :: k in attrs && r[k] == attrs[k]
      invariant forall k | k in attrs :: k in r <==> !(!IsNamespaceDeclaration(k) && attrs[k].ns == uri && LocalName(k) in done)
    {
      r := RemoveAttributeNS(r, uri, locals[i]);
      done := done + {locals[i]};
    }
  }

  /** `processNodes`: every element, at every depth. */
  method ProcessNodes(ns: seq<Node>, uri: string) returns (r: seq<Node>)
    ensures r == MapAttributes(ns, WithoutNamespace(uri))
    decreases ns
  {
    if ns == [] {
      return [];
    }
    var head := ProcessNode(ns[0], uri);
    var tail := ProcessNodes(ns[1..], uri);
    r := [head] + tail;
  }

  method ProcessNode(n: Node, uri: string) returns (r: Node)
    ensures r == MapAttributesIn(n, WithoutNamespace(uri))
    decreases n
  {
    if !n.Element? {
      return n;
    }
    var attrs := RemoveNodeAttributes(n.attrs, uri);
    var children := ProcessNodes(n.children, uri);
    r := Element(n.name, n.ns, attrs, children);
  }

  /** `removeNamespacedAttributes`. */
  method RemoveNamespacedAttributes(dom: DomDocument, patterns: seq<string>)
    modifies dom
    ensures dom.doc == Document(StrippedAttributes(old(dom.doc).nodes, patterns))
  {
    ghost var target := StrippedAttributes(dom.doc.nodes, patterns);
    for i := 0 to |patterns|
      invariant StrippedAttributes(dom.doc.nodes, patterns[i..]) == target
    {
      assert patterns[i..][1..] == patterns[i + 1..];
      match AttributeNamespace(patterns[i])
      case None =>
      case Some(uri) =>
        var nodes := ProcessNodes(dom.doc.nodes, uri);
        dom.doc := Document(nodes);
    }
  }

  /** `optimize`: the three steps, `OPTIMIZATION_LOOP_COUNT` times. */
  method Optimize(dom: DomDocument)
    modifies dom
    ensures dom.doc == Optimized(old(dom.doc))
  {
    ghost var start := dom.doc.nodes;
    for i := 0 to OPTIMIZATION_LOOP_COUNT
      invariant dom.doc == Document(Sweeps(start, i))
    {
      var nodes := RemoveNamespaceDeclarations(dom.doc.nodes);
      dom.doc := Document(nodes);
      RemoveTags(dom, TAGS_TO_REMOVE);
      RemoveNamespacedAttributes(dom, ATTRIBUTES_TO_REMOVE);
    }
  }

  // ---------------------------------------------------------------------
  // What one sweep leaves

  /** No footprint declaration on this element. */
  predicate NoDeclaration(name: string, uri: string, attrs: Attributes) {
    forall k | k in attrs :: k !in XMLNS_ATTRIBUTES
  }

  /** No footprint declaration, and no Sodipodi attribute. */
  predicate NoSodipodi(name: string, uri: string, attrs: Attributes) {
    forall k | k in attrs :: k !in XMLNS_ATTRIBUTES && (IsNamespaceDeclaration(k) || attrs[k].ns != SODIPODI_URI)
  }

  /** No footprint declaration, and no attribute in either namespace. */
  predicate Clean(name: string, uri: string, attrs: Attributes) {
    forall k | k in attrs ::
      k !in XMLNS_ATTRIBUTES && (IsNamespaceDeclaration(k) || (attrs[k].ns != SODIPODI_URI && attrs[k].ns != INKSCAPE_URI))
  }

  /** A tree with no Sodipodi or Inkscape footprint left. */
  predicate FootprintFree(ns: seq<Node>) {
    AllElements(ns, Clean) && Count(ns, InNamespace(SODIPODI_URI)) == 0 && Count(ns, InNamespace(INKSCAPE_URI)) == 0
  }

  /** With both patterns resolved, one sweep is these five steps. */
  lemma SweepSteps(ns: seq<Node>)
    ensures Sweep(ns) == MapAttributes(MapAttributes(RemoveWhere(RemoveWhere(MapAttributes(ns, WithoutDeclarations),
      InNamespace(SODIPODI_URI)), InNamespace(INKSCAPE_URI)), WithoutNamespace(SODIPODI_URI)), WithoutNamespace(INKSCAPE_URI))
  {
    PatternsSelect();
    assert TAGS_TO_REMOVE[1..][1..] == [];
    assert ATTRIBUTES_TO_REMOVE[1..][1..] == [];
  }

  /** Stripping the attributes of one namespace keeps every element, so the count of those in a namespace. */
  lemma StrippingKeepsCount(ns: seq<Node>, stripped: string, uri: string)
    ensures Count(MapAttributes(ns, WithoutNamespace(stripped)), InNamespace(uri)) == Count(ns, InNamespace(uri))
  {
    var f := WithoutNamespace(stripped);
    forall n: Node ensures InNamespace(uri)(MapAttributesIn(n, f)) == InNamespace(uri)(n) {
    }
    MapAttributesKeepsCount(ns, f, InNamespace(uri));
  }

  /** Removing the Sodipodi elements and then the Inkscape ones leaves neither. */
  lemma RemovingBothClears(ns: seq<Node>)
    ensures var r := RemoveWhere(RemoveWhere(ns, InNamespace(SODIPODI_URI)), InNamespace(INKSCAPE_URI));
      Count(r, InNamespace(SODIPODI_URI)) == 0 && Count(r, InNamespace(INKSCAPE_URI)) == 0
  {
    InNamespaceHeadOnly(SODIPODI_URI);
    InNamespaceHeadOnly(INKSCAPE_URI);
    var once := RemoveWhere(ns, InNamespace(SODIPODI_URI));
    RemoveWhereClears(ns, InNamespace(SODIPODI_URI));
    RemoveWhereNeverAdds(once, InNamespace(INKSCAPE_URI), InNamespace(SODIPODI_URI));
    RemoveWhereClears(once, InNamespace(INKSCAPE_URI));
  }

  /** After one sweep no element is in either namespace. */
  lemma SweepClearsElements(ns: seq<Node>)
    ensures Count(Sweep(ns), InNamespace(SODIPODI_URI)) == 0
    ensures Count(Sweep(ns), InNamespace(INKSCAPE_URI)) == 0
  {
    SweepSteps(ns);
    var x3 := RemoveWhere(RemoveWhere(MapAttributes(ns, WithoutDeclarations), InNamespace(SODIPODI_URI)), InNamespace(INKSCAPE_URI));
    var x4 := MapAttributes(x3, WithoutNamespace(SODIPODI_URI));
    RemovingBothClears(MapAttributes(ns, WithoutDeclarations));
    StrippingKeepsCount(x3, SODIPODI_URI, SODIPODI_URI);
    StrippingKeepsCount(x3, SODIPODI_URI, INKSCAPE_URI);
    StrippingKeepsCount(x4, INKSCAPE_URI, SODIPODI_URI);
    StrippingKeepsCount(x4, INKSCAPE_URI, INKSCAPE_URI);
  }

  /** After one sweep no element carries a footprint declaration or an attribute in either namespace. */
  lemma SweepClearsAttributes(ns: seq<Node>)
    ensures AllElements(Sweep(ns), Clean)
  {
    SweepSteps(ns);
    var x1 := MapAttributes(ns, WithoutDeclarations);
    var x2 := RemoveWhere(x1, InNamespace(SODIPODI_URI));
    var x3 := RemoveWhere(x2, InNamespace(INKSCAPE_URI));
    var x4 := MapAttributes(x3, WithoutNamespace(SODIPODI_URI));
    MapAttributesEstablishes(ns, WithoutDeclarations, NoDeclaration);
    RemoveWhereKeepsAll(x1, InNamespace(SODIPODI_URI), NoDeclaration);
    RemoveWhereKeepsAll(x2, InNamespace(INKSCAPE_URI), NoDeclaration);
    MapAttributesCarries(x3, WithoutNamespace(SODIPODI_URI), NoDeclaration, NoSodipodi);
    MapAttributesCarries(x4, WithoutNamespace(INKSCAPE_URI), NoSodipodi, Clean);
  }

  /** After one sweep no footprint is left. */
  lemma SweepCleans(ns: seq<Node>)
    ensures FootprintFree(Sweep(ns))
  {
    SweepClearsElements(ns);
    SweepClearsAttributes(ns);
  }

  /** Neither attribute step changes an element without footprints. */
  lemma CleanIsFixed()
    ensures forall name, uri, attrs | Clean(name, uri, attrs) :: WithoutDeclarations(name, uri, attrs) == attrs
    ensures forall name, uri, attrs | Clean(name, uri, attrs) :: WithoutNamespace(SODIPODI_URI)(name, uri, attrs) == attrs
    ensures forall name, uri, attrs | Clean(name, uri, attrs) :: WithoutNamespace(INKSCAPE_URI)(name, uri, attrs) == attrs
  {
    forall name, uri, attrs | Clean(name, uri, attrs)
      ensures WithoutDeclarations(name, uri, attrs) == attrs
    {
    }
    forall name, uri, attrs | Clean(name, uri, attrs)
      ensures WithoutNamespace(SODIPODI_URI)(name, uri, attrs) == attrs
    {
    }
    forall name, uri, attrs | Clean(name, uri, attrs)
      ensures WithoutNamespace(INKSCAPE_URI)(name, uri, attrs) == attrs
    {
    }
  }

  /** A sweep over a tree without footprints changes nothing. */
  lemma SweepFixes(ns: seq<Node>)
    requires FootprintFree(ns)
    ensures Sweep(ns) == ns
  {
    SweepSteps(ns);
    CleanIsFixed();
    MapAttributesFixes(ns, WithoutDeclarations, Clean);
    RemoveWhereIdentity(ns, InNamespace(SODIPODI_URI));
    RemoveWhereIdentity(ns, InNamespace(INKSCAPE_URI));
    MapAttributesFixes(ns, WithoutNamespace(SODIPODI_URI), Clean);
    MapAttributesFixes(ns, WithoutNamespace(INKSCAPE_URI), Clean);
  }

  /** The second iteration of the loop finds nothing left: the rule is one sweep. */
  lemma OptimizedIsOneSweep(doc: Document)
    ensures Optimized(doc) == Document(Sweep(doc.nodes))
  {
    SweepCleans(doc.nodes);
    SweepFixes(Sweep(doc.nodes));
  }

  /** After the rule no footprint is left, and a second run changes nothing. */
  lemma OptimizedIsFootprintFree(doc: Document)
    ensures FootprintFree(Optimized(doc).nodes)
    ensures Optimized(Optimized(doc)) == Optimized(doc)
  {
    OptimizedIsOneSweep(doc);
    SweepCleans(doc.nodes);
    OptimizedIsOneSweep(Optimized(doc));
    SweepFixes(Optimized(doc).nodes);
  }
}

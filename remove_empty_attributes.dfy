/**
 * The RemoveEmptyAttributes rule: on every element, each attribute whose
 * value is empty or only `\s` is removed by its key in the attribute array.
 * That key is the local name, and `removeAttribute` with a name without a
 * prefix finds only an attribute in no namespace. So a blank attribute in a
 * namespace stays and takes the attribute in no namespace of the same name.
 */
module RemoveEmptyAttributes {

  import opened Strings
  import opened Dom

  const MULTIPLE_SPACES_REGEX: string := "/\\s+/"

  /** `isEmptyOrWhitespace`: nothing is left once every run of `\s` is deleted. */
  predicate IsEmptyOrWhitespace(value: string) {
    DropSpaces(value) == ""
  }

  /** A value is blank exactly when every one of its characters is `\s`. */
  lemma {:induction false} IsEmptyOrWhitespaceMeans(value: string)
    ensures IsEmptyOrWhitespace(value) <==> forall k | 0 <= k < |value| :: IsSpace(value[k])
    decreases |value|
  {
    if value != [] {
      IsEmptyOrWhitespaceMeans(value[1..]);
      assert forall k | 1 <= k < |value| :: value[k] == value[1..][k - 1];
      if !IsSpace(value[0]) {
        assert DropSpaces(value) == [value[0]] + DropSpaces(value[1..]);
      }
    }
  }

  /**
   * The key `iterator_to_array` files the attribute `k` under: libxml's name
   * for it, which for an attribute in a namespace is its local name.
   */
  function ArrayKey(attrs: Attributes, k: string): (r: string)
    requires k in attrs
    ensures attrs[k].ns == "" ==> r == k
    ensures attrs[k].ns != "" ==> r == LocalName(k)
  {
    if attrs[k].ns == "" then k else LocalName(k)
  }

  /**
   * `removeAttribute(key)` for a key without a namespace: the attribute of
   * that name that is in no namespace goes, if there is one.
   */
  function RemoveAttribute(attrs: Attributes, key: string): Attributes {
    if key in attrs && attrs[key].ns == "" && !IsNamespaceDeclaration(key) then attrs - {key} else attrs
  }

  /** The blank attribute `k` makes `removeAttribute` take the attribute `j`. */
  predicate Strikes(attrs: Attributes, k: string, j: string)
    requires k in attrs
  {
    !IsNamespaceDeclaration(k) && IsEmptyOrWhitespace(attrs[k].value) && ArrayKey(attrs, k) == j
  }

  /**
   * Whether the attribute `j` survives: namespace declarations are not in
   * `attributes`, and `removeAttribute` never takes an attribute in a namespace.
   */
  predicate Kept(attrs: Attributes, j: string)
    requires j in attrs
  {
    IsNamespaceDeclaration(j) || attrs[j].ns != "" || !exists k | k in attrs :: Strikes(attrs, k, j)
  }

  /**
   * One element's attributes after `removeEmptyAttributesFromElement`. An
   * attribute in a namespace is never removed, even when blank. An attribute
   * in no namespace goes when it is blank, or when a blank attribute in a
   * namespace has its name as local name (`xlink:href=""` takes `href`).
   */
  function WithoutBlank(name: string, uri: string, attrs: Attributes): (r: Attributes)
    ensures forall j | j in r :: j in attrs && r[j] == attrs[j]
    ensures forall j | j in attrs && (IsNamespaceDeclaration(j) || attrs[j].ns != "") :: j in r
    ensures forall j | j in attrs && !IsNamespaceDeclaration(j) && attrs[j].ns == "" ::
              j in r <==> !IsEmptyOrWhitespace(attrs[j].value) &&
                          forall k | k in attrs && !IsNamespaceDeclaration(k) && attrs[k].ns != "" && LocalName(k) == j ::
                            !IsEmptyOrWhitespace(attrs[k].value)
  {
    forall j | j in attrs && !IsNamespaceDeclaration(j) && attrs[j].ns == "" && !IsEmptyOrWhitespace(attrs[j].value)
      ensures Kept(attrs, j) <==>
              forall k | k in attrs && !IsNamespaceDeclaration(k) && attrs[k].ns != "" && LocalName(k) == j ::
                !IsEmptyOrWhitespace(attrs[k].value)
    {
      assert forall k | k in attrs && attrs[k].ns == "" :: Strikes(attrs, k, j) ==> k == j;
    }
    map j | j in attrs && Kept(attrs, j) :: attrs[j]
  }

  /** A blank attribute in a namespace stays: `<use xlink:href=""/>` is left as it is. */
  lemma PrefixedBlankKept(xlink: string)
    requires xlink != ""
    ensures var attrs := map["xlink:href" := Attribute(xlink, "")];
            WithoutBlank("use", SVG_NAMESPACE, attrs) == attrs
  {
    HrefNames();
  }

  /** A blank `xlink:href` takes the attribute named by its local name: `<a href="x" xlink:href=""/>` loses `href`. */
  lemma PrefixedBlankTakesLocalName(xlink: string)
    requires xlink != ""
    ensures var attrs := map["href" := Attribute("", "x"), "xlink:href" := Attribute(xlink, "")];
            var r := WithoutBlank("a", SVG_NAMESPACE, attrs);
            "href" !in r && "xlink:href" in r && r["xlink:href"] == Attribute(xlink, "")
  {
    HrefNames();
    var attrs := map["href" := Attribute("", "x"), "xlink:href" := Attribute(xlink, "")];
    BlankLocalNameTakesPlain("a", SVG_NAMESPACE, attrs, "xlink:href", "href");
  }

  /**
   * A blank attribute in a namespace takes the attribute in no namespace
   * whose name is its local name, however that one's value reads.
   */
  lemma BlankLocalNameTakesPlain(name: string, uri: string, attrs: Attributes, k: string, j: string)
    requires k in attrs && !IsNamespaceDeclaration(k) && attrs[k].ns != "" && IsEmptyOrWhitespace(attrs[k].value)
    requires j in attrs && !IsNamespaceDeclaration(j) && attrs[j].ns == "" && LocalName(k) == j
    ensures j !in WithoutBlank(name, uri, attrs)
  {
    assert Strikes(attrs, k, j);
  }

  /** The names of the two examples above. */
  lemma HrefNames()
    ensures !IsNamespaceDeclaration("href") && !IsNamespaceDeclaration("xlink:href")
    ensures LocalName("xlink:href") == "href"
    ensures IsEmptyOrWhitespace("") && !IsEmptyOrWhitespace("x")
  {
    assert "href"[0] != "xmlns:"[0];
    assert "xlink:href"[1] != "xmlns:"[1];
    assert "xlink:href"[..5] == "xlink";
    LocalNameAfterFirstColon("xlink:href", 5);
    assert "xlink:href"[6..] == "href";
    IsEmptyOrWhitespaceMeans("x");
  }

  /** No attribute in no namespace, namespace declarations aside, is blank. */
  predicate NoBlankPlainAttribute(name: string, uri: string, attrs: Attributes) {
    forall k | k in attrs && !IsNamespaceDeclaration(k) && attrs[k].ns == "" :: !IsEmptyOrWhitespace(attrs[k].value)
  }

  /** No attribute but a namespace declaration is blank. */
  predicate NoBlankAttribute(name: string, uri: string, attrs: Attributes) {
    forall k | k in attrs && !IsNamespaceDeclaration(k) :: !IsEmptyOrWhitespace(attrs[k].value)
  }

  function Optimized(doc: Document): Document {
    Document(MapAttributes(doc.nodes, WithoutBlank))
  }

  /**
   * `removeEmptyAttributesFromElement`: the attributes are copied out first
   * (`iterator_to_array`), then for each blank one `removeAttribute` is
   * called with its key.
   */
  method RemoveEmptyAttributesFromElement(attrs: Attributes) returns (r: Attributes)
    ensures forall j :: j in r <==> j in attrs && Kept(attrs, j)
    ensures forall j | j in r :: r[j] == attrs[j]
  {
    r := attrs;
    var unseen := set k | k in attrs && !IsNamespaceDeclaration(k);
    while unseen != {}
      invariant unseen <= attrs.Keys
      invariant forall j :: j in r <==> (j in attrs &&
        (IsNamespaceDeclaration(j) || attrs[j].ns != "" || !exists k | k in attrs && k !in unseen :: Strikes(attrs, k, j)))
      invariant forall j | j in r :: r[j] == attrs[j]
      decreases unseen
    {
      var k :| k in unseen;
      if IsEmptyOrWhitespace(attrs[k].value) {
        r := RemoveAttribute(r, ArrayKey(attrs, k));
      }
      unseen := unseen - {k};
    }
  }

  /** `removeEmptyAttributes`: every element, at every depth, in document order. */
  method RemoveEmptyAttributes(ns: seq<Node>) returns (r: seq<Node>)
    ensures r == MapAttributes(ns, WithoutBlank)
    decreases ns
  {
    if ns == [] {
      return [];
    }
    var head := RemoveEmptyAttributesIn(ns[0]);
    var tail := RemoveEmptyAttributes(ns[1..]);
    r := [head] + tail;
  }

  method RemoveEmptyAttributesIn(n: Node) returns (r: Node)
    ensures r == MapAttributesIn(n, WithoutBlank)
    decreases n
  {
    if !n.Element? {
      return n;
    }
    var attrs := RemoveEmptyAttributesFromElement(n.attrs);
    assert attrs == WithoutBlank(n.name, n.ns, n.attrs);
    var children := RemoveEmptyAttributes(n.children);
    r := Element(n.name, n.ns, attrs, children);
  }

  /** `optimize`. */
  method Optimize(dom: DomDocument)
    modifies dom
    ensures dom.doc == Optimized(old(dom.doc))
  {
    var nodes := RemoveEmptyAttributes(dom.doc.nodes);
    dom.doc := Document(nodes);
  }

  /** After the rule no element has a blank attribute in no namespace left. */
  lemma OptimizedLeavesNoBlank(doc: Document)
    ensures AllElements(Optimized(doc).nodes, NoBlankPlainAttribute)
  {
    MapAttributesEstablishes(doc.nodes, WithoutBlank, NoBlankPlainAttribute);
  }

  /** The rule keeps every node, name, namespace and text; only attributes go. */
  lemma OptimizedKeepsTree(doc: Document)
    ensures Erase(Optimized(doc).nodes) == Erase(doc.nodes)
  {
    MapAttributesKeepsTree(doc.nodes, WithoutBlank);
  }

  /** A second run finds nothing left to remove. */
  lemma OptimizedIdempotent(doc: Document)
    ensures Optimized(Optimized(doc)) == Optimized(doc)
  {
    forall name, uri, attrs
      ensures WithoutBlank(name, uri, WithoutBlank(name, uri, attrs)) == WithoutBlank(name, uri, attrs)
    {
    }
    MapAttributesIdempotent(doc.nodes, WithoutBlank);
  }

  /** A document without blank attributes is left as it is. */
  lemma OptimizedIdentity(doc: Document)
    requires AllElements(doc.nodes, NoBlankAttribute)
    ensures Optimized(doc) == doc
  {
    forall name, uri, attrs | NoBlankAttribute(name, uri, attrs)
      ensures WithoutBlank(name, uri, attrs) == attrs
    {
    }
    MapAttributesFixes(doc.nodes, WithoutBlank, NoBlankAttribute);
  }
}

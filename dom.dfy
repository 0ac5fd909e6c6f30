/**
 * The part of PHP's DOM extension the rules work on, as a value tree.
 *
 * An element keeps its qualified name (`nodeName`, e.g. `svg:path`), the
 * namespace URI it was resolved to when the document was loaded, its
 * attributes keyed by qualified name, and its children in document order.
 * Namespace declarations (`xmlns`, `xmlns:p`) are kept among the attributes,
 * as `getAttribute`/`removeAttribute` see them; the `attributes` collection a
 * rule iterates over does not hold them (see `IsNamespaceDeclaration`).
 */
module Dom {

  import opened Outcomes
  import opened Strings

  const SVG_NAMESPACE: string := "http://www.w3.org/2000/svg"

  datatype Attribute = Attribute(ns: string, value: string)

  type Attributes = map<string, Attribute>

  datatype Node =
    | Element(name: string, ns: string, attrs: Attributes, children: seq<Node>)
    | Text(data: string)                                 // text and CDATA sections
    | Comment(data: string)
    | ProcessingInstruction(target: string, data: string)

  /** A `DOMDocument`: its children, the document element among them. */
  datatype Document = Document(nodes: seq<Node>)

  /** The object a rule receives and changes in place. */
  class DomDocument {
    var doc: Document

    constructor (d: Document)
      ensures doc == d
    {
      doc := d;
    }
  }

  /** Namespace declarations, which an element's `attributes` collection leaves out. */
  predicate IsNamespaceDeclaration(name: string) {
    name == "xmlns" || "xmlns:" <= name
  }

  /** The local part of a qualified name (`DOMAttr::$name`, `localName`). */
  function LocalName(qname: string): (r: string)
    ensures ':' !in qname ==> r == qname
    ensures ':' in qname ==> |r| < |qname| && qname == qname[..|qname| - |r| - 1] + [':'] + r
  {
    match SplitOnce(qname, ':')
    case None => qname
    case Some((_, local)) => local
  }

  /** The local part is everything after the first `:`. */
  lemma LocalNameAfterFirstColon(qname: string, i: nat)
    requires i < |qname| && qname[i] == ':' && ':' !in qname[..i]
    ensures LocalName(qname) == qname[i + 1..]
  {
    var j := IndexOfChar(qname, ':');
    assert j == i;
  }

  /** `getAttribute`: the value, or the empty string when there is no such attribute. */
  function GetAttribute(attrs: Attributes, name: string): string {
    if name in attrs then attrs[name].value else ""
  }

  /** `setAttribute`: an existing attribute keeps its namespace; a new one has none. */
  function SetAttribute(attrs: Attributes, name: string, value: string): (r: Attributes)
    ensures r.Keys == attrs.Keys + {name}
    ensures r[name].value == value && GetAttribute(r, name) == value
    ensures forall k | k in attrs && k != name :: r[k] == attrs[k]
  {
    attrs[name := Attribute(if name in attrs then attrs[name].ns else "", value)]
  }

  /** Setting an attribute to the value it has changes nothing. */
  lemma SetAttributeSame(attrs: Attributes, name: string)
    requires name in attrs
    ensures SetAttribute(attrs, name, attrs[name].value) == attrs
  {
    assert attrs[name := Attribute(attrs[name].ns, attrs[name].value)] == attrs;
  }

  /** The node with its children dropped: what a test on the node itself sees. */
  function Head(n: Node): Node {
    if n.Element? then n.(children := []) else n
  }

  /** `p` looks at a node's name, namespace and attributes, never at its children. */
  ghost predicate HeadOnly(p: Node -> bool) {
    forall n: Node {:trigger p(n)} :: p(n) == p(Head(n))
  }

  // ---------------------------------------------------------------------
  // textContent

  /** `textContent`: the text of every descendant text node, in document order. */
  function TextContent(n: Node): string
    decreases n
  {
    match n
    case Element(_, _, _, children) => TextContentOf(children)
    case Text(data) => data
    case _ => ""
  }

  function TextContentOf(ns: seq<Node>): string
    decreases ns
  {
    if ns == [] then "" else TextContent(ns[0]) + TextContentOf(ns[1..])
  }

  // ---------------------------------------------------------------------
  // Rewriting the attributes of every element

  /** A rewrite of one element's attributes from its name, namespace and attributes. */
  type AttributeRewrite = (string, string, Attributes) -> Attributes

  /** A test on one element's name, namespace and attributes. */
  type ElementTest = (string, string, Attributes) -> bool

  /** Applies `f` to the attributes of every element of `ns`, at every depth. */
  function MapAttributes(ns: seq<Node>, f: AttributeRewrite): (r: seq<Node>)
    ensures |r| == |ns|
    decreases ns
  {
    if ns == [] then [] else [MapAttributesIn(ns[0], f)] + MapAttributes(ns[1..], f)
  }

  function MapAttributesIn(n: Node, f: AttributeRewrite): Node
    decreases n
  {
    match n
    case Element(name, uri, attrs, children) =>
      Element(name, uri, f(name, uri, attrs), MapAttributes(children, f))
    case _ => n
  }

  /** Every element of `ns`, at every depth, passes `t`. */
  predicate AllElements(ns: seq<Node>, t: ElementTest)
    decreases ns
  {
    ns == [] || (AllElementsIn(ns[0], t) && AllElements(ns[1..], t))
  }

  predicate AllElementsIn(n: Node, t: ElementTest)
    decreases n
  {
    match n
    case Element(name, uri, attrs, children) => t(name, uri, attrs) && AllElements(children, t)
    case _ => true
  }

  /** The tree with every attribute dropped: what a rewrite of attributes must keep. */
  function Erase(ns: seq<Node>): (r: seq<Node>)
    ensures |r| == |ns|
    decreases ns
  {
    if ns == [] then [] else [EraseIn(ns[0])] + Erase(ns[1..])
  }

  function EraseIn(n: Node): Node
    decreases n
  {
    match n
    case Element(name, uri, _, children) => Element(name, uri, map[], Erase(children))
    case _ => n
  }

  /** A rewrite of attributes keeps every node, name, namespace and text. */
  lemma {:induction false} MapAttributesKeepsTree(ns: seq<Node>, f: AttributeRewrite)
    ensures Erase(MapAttributes(ns, f)) == Erase(ns)
    decreases ns
  {
    if ns != [] {
      MapAttributesKeepsTreeIn(ns[0], f);
      MapAttributesKeepsTree(ns[1..], f);
    }
  }

  lemma {:induction false} MapAttributesKeepsTreeIn(n: Node, f: AttributeRewrite)
    ensures EraseIn(MapAttributesIn(n, f)) == EraseIn(n)
    decreases n
  {
    if n.Element? {
      MapAttributesKeepsTree(n.children, f);
    }
  }

  /** Whatever `f` guarantees of one element's attributes holds of every element after the rewrite. */
  lemma {:induction false} MapAttributesEstablishes(ns: seq<Node>, f: AttributeRewrite, t: ElementTest)
    requires forall name, uri, attrs :: t(name, uri, f(name, uri, attrs))
    ensures AllElements(MapAttributes(ns, f), t)
    decreases ns
  {
    if ns != [] {
      MapAttributesEstablishesIn(ns[0], f, t);
      MapAttributesEstablishes(ns[1..], f, t);
    }
  }

  lemma {:induction false} MapAttributesEstablishesIn(n: Node, f: AttributeRewrite, t: ElementTest)
    requires forall name, uri, attrs :: t(name, uri, f(name, uri, attrs))
    ensures AllElementsIn(MapAttributesIn(n, f), t)
    decreases n
  {
    if n.Element? {
      MapAttributesEstablishes(n.children, f, t);
    }
  }

  /** A rewrite that leaves every element of `ns` as it is leaves `ns` as it is. */
  lemma {:induction false} MapAttributesIdentity(ns: seq<Node>, f: AttributeRewrite)
    requires AllElements(ns, (name, uri, attrs) => f(name, uri, attrs) == attrs)
    ensures MapAttributes(ns, f) == ns
    decreases ns
  {
    if ns != [] {
      MapAttributesIdentityIn(ns[0], f);
      MapAttributesIdentity(ns[1..], f);
    }
  }

  lemma {:induction false} MapAttributesIdentityIn(n: Node, f: AttributeRewrite)
    requires AllElementsIn(n, (name, uri, attrs) => f(name, uri, attrs) == attrs)
    ensures MapAttributesIn(n, f) == n
    decreases n
  {
    if n.Element? {
      MapAttributesIdentity(n.children, f);
    }
  }

  /** A rewrite that leaves every element passing `t` as it is leaves a tree of such elements as it is. */
  lemma {:induction false} MapAttributesFixes(ns: seq<Node>, f: AttributeRewrite, t: ElementTest)
    requires forall name, uri, attrs | t(name, uri, attrs) :: f(name, uri, attrs) == attrs
    requires AllElements(ns, t)
    ensures MapAttributes(ns, f) == ns
    decreases ns
  {
    if ns != [] {
      MapAttributesFixesIn(ns[0], f, t);
      MapAttributesFixes(ns[1..], f, t);
    }
  }

  lemma {:induction false} MapAttributesFixesIn(n: Node, f: AttributeRewrite, t: ElementTest)
    requires forall name, uri, attrs | t(name, uri, attrs) :: f(name, uri, attrs) == attrs
    requires AllElementsIn(n, t)
    ensures MapAttributesIn(n, f) == n
    decreases n
  {
    if n.Element? {
      MapAttributesFixes(n.children, f, t);
    }
  }

  /** A rewrite that takes an element passing `t` to one passing `u` does so on a whole tree. */
  lemma {:induction false} MapAttributesCarries(ns: seq<Node>, f: AttributeRewrite, t: ElementTest, u: ElementTest)
    requires forall name, uri, attrs | t(name, uri, attrs) :: u(name, uri, f(name, uri, attrs))
    requires AllElements(ns, t)
    ensures AllElements(MapAttributes(ns, f), u)
    decreases ns
  {
    if ns != [] {
      MapAttributesCarriesIn(ns[0], f, t, u);
      MapAttributesCarries(ns[1..], f, t, u);
    }
  }

  lemma {:induction false} MapAttributesCarriesIn(n: Node, f: AttributeRewrite, t: ElementTest, u: ElementTest)
    requires forall name, uri, attrs | t(name, uri, attrs) :: u(name, uri, f(name, uri, attrs))
    requires AllElementsIn(n, t)
    ensures AllElementsIn(MapAttributesIn(n, f), u)
    decreases n
  {
    if n.Element? {
      MapAttributesCarries(n.children, f, t, u);
    }
  }

  /** A test that a rewrite of attributes can only make fail counts no more nodes after it. */
  lemma {:induction false} MapAttributesNeverAdds(ns: seq<Node>, f: AttributeRewrite, p: Node -> bool)
    requires forall n: Node :: p(MapAttributesIn(n, f)) ==> p(n)
    ensures Count(MapAttributes(ns, f), p) <= Count(ns, p)
    decreases ns
  {
    if ns != [] {
      MapAttributesNeverAddsIn(ns[0], f, p);
      MapAttributesNeverAdds(ns[1..], f, p);
      assert MapAttributes(ns, f)[1..] == MapAttributes(ns[1..], f);
    }
  }

  lemma {:induction false} MapAttributesNeverAddsIn(n: Node, f: AttributeRewrite, p: Node -> bool)
    requires forall n: Node :: p(MapAttributesIn(n, f)) ==> p(n)
    ensures CountIn(MapAttributesIn(n, f), p) <= CountIn(n, p)
    decreases n
  {
    if n.Element? {
      MapAttributesNeverAdds(n.children, f, p);
    }
  }

  /** A test that does not look at attributes counts the same nodes after a rewrite of attributes. */
  lemma {:induction false} MapAttributesKeepsCount(ns: seq<Node>, f: AttributeRewrite, p: Node -> bool)
    requires forall n: Node :: p(MapAttributesIn(n, f)) == p(n)
    ensures Count(MapAttributes(ns, f), p) == Count(ns, p)
    decreases ns
  {
    if ns != [] {
      MapAttributesKeepsCountIn(ns[0], f, p);
      MapAttributesKeepsCount(ns[1..], f, p);
      assert MapAttributes(ns, f)[1..] == MapAttributes(ns[1..], f);
    }
  }

  lemma {:induction false} MapAttributesKeepsCountIn(n: Node, f: AttributeRewrite, p: Node -> bool)
    requires forall n: Node :: p(MapAttributesIn(n, f)) == p(n)
    ensures CountIn(MapAttributesIn(n, f), p) == CountIn(n, p)
    decreases n
  {
    if n.Element? {
      MapAttributesKeepsCount(n.children, f, p);
    }
  }

  /** A rewrite that is idempotent on one element is idempotent on the whole tree. */
  lemma MapAttributesIdempotent(ns: seq<Node>, f: AttributeRewrite)
    requires forall name, uri, attrs :: f(name, uri, f(name, uri, attrs)) == f(name, uri, attrs)
    ensures MapAttributes(MapAttributes(ns, f), f) == MapAttributes(ns, f)
  {
    MapAttributesEstablishes(ns, f, (name, uri, attrs) => f(name, uri, attrs) == attrs);
    MapAttributesIdentity(MapAttributes(ns, f), f);
  }

  /** Two rewrites in a row are one rewrite by their composition. */
  lemma {:induction false} MapAttributesCompose(ns: seq<Node>, f: AttributeRewrite, g: AttributeRewrite, h: AttributeRewrite)
    requires forall name, uri, attrs :: h(name, uri, attrs) == g(name, uri, f(name, uri, attrs))
    ensures MapAttributes(MapAttributes(ns, f), g) == MapAttributes(ns, h)
    decreases ns
  {
    if ns != [] {
      MapAttributesComposeIn(ns[0], f, g, h);
      MapAttributesCompose(ns[1..], f, g, h);
    }
  }

  lemma {:induction false} MapAttributesComposeIn(n: Node, f: AttributeRewrite, g: AttributeRewrite, h: AttributeRewrite)
    requires forall name, uri, attrs :: h(name, uri, attrs) == g(name, uri, f(name, uri, attrs))
    ensures MapAttributesIn(MapAttributesIn(n, f), g) == MapAttributesIn(n, h)
    decreases n
  {
    if n.Element? {
      MapAttributesCompose(n.children, f, g, h);
    }
  }

  // ---------------------------------------------------------------------
  // Removing nodes together with their subtrees

  /** The number of nodes of `ns`, at every depth, that pass `p`. */
  function Count(ns: seq<Node>, p: Node -> bool): nat
    decreases ns
  {
    if ns == [] then 0 else CountIn(ns[0], p) + Count(ns[1..], p)
  }

  function CountIn(n: Node, p: Node -> bool): nat
    decreases n
  {
    (if p(n) then 1 else 0) + (if n.Element? then Count(n.children, p) else 0)
  }

  /** Every node that passes `p` is removed with its subtree; the rest keep their order. */
  function RemoveWhere(ns: seq<Node>, p: Node -> bool): seq<Node>
    decreases ns
  {
    if ns == [] then []
    else if p(ns[0]) then RemoveWhere(ns[1..], p)
    else [RemoveWhereIn(ns[0], p)] + RemoveWhere(ns[1..], p)
  }

  function RemoveWhereIn(n: Node, p: Node -> bool): Node
    decreases n
  {
    match n
    case Element(name, uri, attrs, children) => Element(name, uri, attrs, RemoveWhere(children, p))
    case _ => n
  }

  /** After `RemoveWhere`, no node passing a test on the node itself is left. */
  lemma {:induction false} RemoveWhereClears(ns: seq<Node>, p: Node -> bool)
    requires HeadOnly(p)
    ensures Count(RemoveWhere(ns, p), p) == 0
    decreases ns
  {
    if ns != [] {
      RemoveWhereClears(ns[1..], p);
      if !p(ns[0]) {
        RemoveWhereClearsIn(ns[0], p);
        assert RemoveWhere(ns, p)[1..] == RemoveWhere(ns[1..], p);
      }
    }
  }

  lemma {:induction false} RemoveWhereClearsIn(n: Node, p: Node -> bool)
    requires HeadOnly(p) && !p(n)
    ensures CountIn(RemoveWhereIn(n, p), p) == 0
    decreases n
  {
    assert p(n) == p(Head(n)) && p(RemoveWhereIn(n, p)) == p(Head(RemoveWhereIn(n, p)));
    if n.Element? {
      RemoveWhereClears(n.children, p);
    }
  }

  /** When no node passes `p`, `RemoveWhere` changes nothing. */
  lemma {:induction false} RemoveWhereIdentity(ns: seq<Node>, p: Node -> bool)
    requires Count(ns, p) == 0
    ensures RemoveWhere(ns, p) == ns
    decreases ns
  {
    if ns != [] {
      RemoveWhereIdentityIn(ns[0], p);
      RemoveWhereIdentity(ns[1..], p);
    }
  }

  lemma {:induction false} RemoveWhereIdentityIn(n: Node, p: Node -> bool)
    requires CountIn(n, p) == 0
    ensures RemoveWhereIn(n, p) == n
    decreases n
  {
    if n.Element? {
      RemoveWhereIdentity(n.children, p);
    }
  }

  /** Removing twice is removing once. */
  lemma RemoveWhereIdempotent(ns: seq<Node>, p: Node -> bool)
    requires HeadOnly(p)
    ensures RemoveWhere(RemoveWhere(ns, p), p) == RemoveWhere(ns, p)
  {
    RemoveWhereClears(ns, p);
    RemoveWhereIdentity(RemoveWhere(ns, p), p);
  }

  /** The first node of `ns` in document order that passes `p` is removed with its subtree. */
  function RemoveFirst(ns: seq<Node>, p: Node -> bool): seq<Node>
    decreases ns
  {
    if ns == [] then []
    else if p(ns[0]) then ns[1..]
    else if ns[0].Element? && Count(ns[0].children, p) > 0 then
      [ns[0].(children := RemoveFirst(ns[0].children, p))] + ns[1..]
    else [ns[0]] + RemoveFirst(ns[1..], p)
  }

  /** Removing the first match leaves fewer matches. */
  lemma {:induction false} RemoveFirstDecreases(ns: seq<Node>, p: Node -> bool)
    requires HeadOnly(p) && Count(ns, p) > 0
    ensures Count(RemoveFirst(ns, p), p) < Count(ns, p)
    decreases ns
  {
    assert ns != [];
    var n := ns[0];
    var r := RemoveFirst(ns, p);
    if p(n) {
      assert r == ns[1..];
    } else if n.Element? && Count(n.children, p) > 0 {
      var n' := n.(children := RemoveFirst(n.children, p));
      RemoveFirstDecreases(n.children, p);
      assert p(n) == p(Head(n)) && p(n') == p(Head(n'));
      assert r[1..] == ns[1..];
      assert CountIn(n', p) < CountIn(n, p);
    } else {
      RemoveFirstDecreases(ns[1..], p);
      assert r[1..] == RemoveFirst(ns[1..], p);
    }
  }

  /** Removing the first match first does not change what removing every match leaves. */
  lemma {:induction false} RemoveFirstAbsorbed(ns: seq<Node>, p: Node -> bool)
    requires HeadOnly(p)
    ensures RemoveWhere(RemoveFirst(ns, p), p) == RemoveWhere(ns, p)
    decreases ns
  {
    if ns != [] {
      var n := ns[0];
      var r := RemoveFirst(ns, p);
      if p(n) {
      } else if n.Element? && Count(n.children, p) > 0 {
        var n' := n.(children := RemoveFirst(n.children, p));
        assert p(n) == p(Head(n)) && p(n') == p(Head(n'));
        RemoveFirstAbsorbed(n.children, p);
        assert r[1..] == ns[1..];
        assert RemoveWhereIn(n', p) == RemoveWhereIn(n, p);
      } else {
        RemoveFirstAbsorbed(ns[1..], p);
        assert r[1..] == RemoveFirst(ns[1..], p);
      }
    }
  }

  /** Removing the nodes passing `p` never adds a node passing `q`. */
  lemma {:induction false} RemoveWhereNeverAdds(ns: seq<Node>, p: Node -> bool, q: Node -> bool)
    requires HeadOnly(q)
    ensures Count(RemoveWhere(ns, p), q) <= Count(ns, q)
    decreases ns
  {
    if ns != [] {
      RemoveWhereNeverAdds(ns[1..], p, q);
      if !p(ns[0]) {
        RemoveWhereNeverAddsIn(ns[0], p, q);
        assert RemoveWhere(ns, p)[1..] == RemoveWhere(ns[1..], p);
      }
    }
  }

  lemma {:induction false} RemoveWhereNeverAddsIn(n: Node, p: Node -> bool, q: Node -> bool)
    requires HeadOnly(q)
    ensures CountIn(RemoveWhereIn(n, p), q) <= CountIn(n, q)
    decreases n
  {
    assert q(n) == q(Head(n)) && q(RemoveWhereIn(n, p)) == q(Head(RemoveWhereIn(n, p)));
    if n.Element? {
      RemoveWhereNeverAdds(n.children, p, q);
    }
  }

  /** Removing leaves that fail `q` keeps every node passing `q`. */
  lemma {:induction false} RemoveLeavesKeeps(ns: seq<Node>, p: Node -> bool, q: Node -> bool)
    requires forall n: Node :: p(n) ==> !n.Element? && !q(n)
    requires HeadOnly(q)
    ensures Count(RemoveWhere(ns, p), q) == Count(ns, q)
    decreases ns
  {
    if ns != [] {
      RemoveLeavesKeeps(ns[1..], p, q);
      if !p(ns[0]) {
        RemoveLeavesKeepsIn(ns[0], p, q);
        assert RemoveWhere(ns, p)[1..] == RemoveWhere(ns[1..], p);
      }
    }
  }

  lemma {:induction false} RemoveLeavesKeepsIn(n: Node, p: Node -> bool, q: Node -> bool)
    requires forall n: Node :: p(n) ==> !n.Element? && !q(n)
    requires HeadOnly(q)
    ensures CountIn(RemoveWhereIn(n, p), q) == CountIn(n, q)
    decreases n
  {
    assert q(n) == q(Head(n)) && q(RemoveWhereIn(n, p)) == q(Head(RemoveWhereIn(n, p)));
    if n.Element? {
      RemoveLeavesKeeps(n.children, p, q);
    }
  }

  /** No node passing `q` lies in the subtree of a node passing `p` (itself included). */
  predicate Separate(ns: seq<Node>, p: Node -> bool, q: Node -> bool)
    decreases ns
  {
    ns == [] || (SeparateIn(ns[0], p, q) && Separate(ns[1..], p, q))
  }

  predicate SeparateIn(n: Node, p: Node -> bool, q: Node -> bool)
    decreases n
  {
    if p(n) then CountIn(n, q) == 0 else n.Element? ==> Separate(n.children, p, q)
  }

  /** Removing subtrees that hold no node passing `q` keeps every node passing `q`. */
  lemma {:induction false} RemoveWhereKeeps(ns: seq<Node>, p: Node -> bool, q: Node -> bool)
    requires HeadOnly(q) && Separate(ns, p, q)
    ensures Count(RemoveWhere(ns, p), q) == Count(ns, q)
    decreases ns
  {
    if ns != [] {
      RemoveWhereKeeps(ns[1..], p, q);
      if !p(ns[0]) {
        RemoveWhereKeepsIn(ns[0], p, q);
        assert RemoveWhere(ns, p)[1..] == RemoveWhere(ns[1..], p);
      }
    }
  }

  lemma {:induction false} RemoveWhereKeepsIn(n: Node, p: Node -> bool, q: Node -> bool)
    requires HeadOnly(q) && !p(n) && SeparateIn(n, p, q)
    ensures CountIn(RemoveWhereIn(n, p), q) == CountIn(n, q)
    decreases n
  {
    assert q(n) == q(Head(n)) && q(RemoveWhereIn(n, p)) == q(Head(RemoveWhereIn(n, p)));
    if n.Element? {
      RemoveWhereKeeps(n.children, p, q);
    }
  }

  /** Removing nodes keeps a property of every element. */
  lemma {:induction false} RemoveWhereKeepsAll(ns: seq<Node>, p: Node -> bool, t: ElementTest)
    requires AllElements(ns, t)
    ensures AllElements(RemoveWhere(ns, p), t)
    decreases ns
  {
    if ns != [] {
      RemoveWhereKeepsAll(ns[1..], p, t);
      if !p(ns[0]) {
        if ns[0].Element? {
          RemoveWhereKeepsAll(ns[0].children, p, t);
        }
        assert RemoveWhere(ns, p)[1..] == RemoveWhere(ns[1..], p);
      }
    }
  }

  /** Removing the nodes passing `p` first is lost in removing every node passing the wider `q`. */
  lemma {:induction false} RemoveWhereAbsorbed(ns: seq<Node>, p: Node -> bool, q: Node -> bool)
    requires forall n: Node :: p(n) ==> q(n)
    requires HeadOnly(q)
    ensures RemoveWhere(RemoveWhere(ns, p), q) == RemoveWhere(ns, q)
    decreases ns
  {
    if ns != [] {
      RemoveWhereAbsorbed(ns[1..], p, q);
      if !p(ns[0]) {
        var n := ns[0];
        var n' := RemoveWhereIn(n, p);
        assert RemoveWhere(ns, p) == [n'] + RemoveWhere(ns[1..], p);
        assert q(n) == q(Head(n)) && q(n') == q(Head(n'));
        if n.Element? {
          RemoveWhereAbsorbed(n.children, p, q);
          assert RemoveWhereIn(n', q) == RemoveWhereIn(n, q);
        }
      }
    }
  }

  /** The document element's attributes replaced by `a`; every other node as it was. */
  function WithRootAttributes(ns: seq<Node>, a: Attributes): (r: seq<Node>)
    ensures |r| == |ns|
    ensures Root(ns).Some? ==> Root(r) == Some(Root(ns).value.(attrs := a))
    ensures forall i | 0 <= i < |ns| :: r[i] == ns[i] || (ns[i].Element? && r[i] == ns[i].(attrs := a))
    decreases ns
  {
    if ns == [] then []
    else if ns[0].Element? then [ns[0].(attrs := a)] + ns[1..]
    else [ns[0]] + WithRootAttributes(ns[1..], a)
  }

  /** Setting the attributes `f` computes for the document element is `MapRootAttributes`. */
  lemma {:induction false} WithRootAttributesIsMap(ns: seq<Node>, f: AttributeRewrite)
    requires Root(ns).Some?
    ensures var e := Root(ns).value;
            WithRootAttributes(ns, f(e.name, e.ns, e.attrs)) == MapRootAttributes(ns, f)
    decreases ns
  {
    if !ns[0].Element? {
      WithRootAttributesIsMap(ns[1..], f);
    }
  }

  /**
   * Removes, one at a time and each time the first in document order, every
   * node passing `p`, until none is left.
   */
  method RemoveMatches(dom: DomDocument, p: Node -> bool)
    requires HeadOnly(p)
    modifies dom
    ensures dom.doc == Document(RemoveWhere(old(dom.doc).nodes, p))
  {
    ghost var target := RemoveWhere(dom.doc.nodes, p);
    while Count(dom.doc.nodes, p) > 0
      invariant RemoveWhere(dom.doc.nodes, p) == target
      decreases Count(dom.doc.nodes, p)
    {
      RemoveFirstDecreases(dom.doc.nodes, p);
      RemoveFirstAbsorbed(dom.doc.nodes, p);
      dom.doc := Document(RemoveFirst(dom.doc.nodes, p));
    }
    RemoveWhereIdentity(dom.doc.nodes, p);
  }

  // ---------------------------------------------------------------------
  // Removing from the bottom up

  /**
   * Removes the nodes passing `p`, deepest first: a node is tested once its
   * children have been sifted. This is what a walk over a live list of
   * elements from its last item to its first leaves, since every descendant
   * of a node comes after it in document order.
   */
  function Sift(ns: seq<Node>, p: Node -> bool): (r: seq<Node>)
    ensures |r| <= |ns|
    ensures forall k | 0 <= k < |r| :: !p(r[k])
    decreases ns
  {
    if ns == [] then []
    else
      var n := SiftIn(ns[0], p);
      (if p(n) then [] else [n]) + Sift(ns[1..], p)
  }

  function SiftIn(n: Node, p: Node -> bool): (r: Node)
    ensures Head(r) == Head(n)
    decreases n
  {
    match n
    case Element(name, uri, attrs, children) => Element(name, uri, attrs, Sift(children, p))
    case _ => n
  }

  lemma {:induction false} CountCons(n: Node, ns: seq<Node>, p: Node -> bool)
    ensures Count([n] + ns, p) == CountIn(n, p) + Count(ns, p)
  {
    assert ([n] + ns)[1..] == ns;
  }

  /** Walks `ns` from its last node, as a removal over a live list must, sifting each node's children before judging the node. */
  method SiftNodes(ns: seq<Node>, p: Node -> bool) returns (r: seq<Node>)
    ensures r == Sift(ns, p)
    decreases ns
  {
    r := [];
    var i := |ns|;
    while i > 0
      invariant 0 <= i <= |ns| && r == Sift(ns[i..], p)
      decreases i
    {
      i := i - 1;
      assert ns[i..][1..] == ns[i + 1..];
      var n := SiftNode(ns[i], p);
      if !p(n) {
        r := [n] + r;
      }
    }
  }

  method SiftNode(n: Node, p: Node -> bool) returns (r: Node)
    ensures r == SiftIn(n, p)
    decreases n
  {
    if !n.Element? {
      return n;
    }
    var children := SiftNodes(n.children, p);
    r := n.(children := children);
  }

  /** No node passing `p` is left, whether or not `p` looks at children. */
  lemma {:induction false} SiftClears(ns: seq<Node>, p: Node -> bool)
    ensures Count(Sift(ns, p), p) == 0
    decreases ns
  {
    if ns != [] {
      var n := SiftIn(ns[0], p);
      SiftClears(ns[1..], p);
      if !p(n) {
        SiftClearsIn(ns[0], p);
        CountCons(n, Sift(ns[1..], p), p);
      } else {
        assert Sift(ns, p) == Sift(ns[1..], p);
      }
    }
  }

  lemma {:induction false} SiftClearsIn(n: Node, p: Node -> bool)
    requires !p(SiftIn(n, p))
    ensures CountIn(SiftIn(n, p), p) == 0
    decreases n
  {
    if n.Element? {
      SiftClears(n.children, p);
    }
  }

  /** When no node passes `p`, sifting changes nothing. */
  lemma {:induction false} SiftIdentity(ns: seq<Node>, p: Node -> bool)
    requires Count(ns, p) == 0
    ensures Sift(ns, p) == ns
    decreases ns
  {
    if ns != [] {
      SiftIdentityIn(ns[0], p);
      SiftIdentity(ns[1..], p);
    }
  }

  lemma {:induction false} SiftIdentityIn(n: Node, p: Node -> bool)
    requires CountIn(n, p) == 0
    ensures SiftIn(n, p) == n
    decreases n
  {
    if n.Element? {
      SiftIdentity(n.children, p);
    }
  }

  /** Sifting twice is sifting once. */
  lemma SiftIdempotent(ns: seq<Node>, p: Node -> bool)
    ensures Sift(Sift(ns, p), p) == Sift(ns, p)
  {
    SiftClears(ns, p);
    SiftIdentity(Sift(ns, p), p);
  }

  /** For a test on the node itself, sifting from the bottom is removing from the top. */
  lemma {:induction false} SiftIsRemoveWhere(ns: seq<Node>, p: Node -> bool)
    requires HeadOnly(p)
    ensures Sift(ns, p) == RemoveWhere(ns, p)
    decreases ns
  {
    if ns != [] {
      SiftIsRemoveWhereIn(ns[0], p);
      SiftIsRemoveWhere(ns[1..], p);
      assert p(SiftIn(ns[0], p)) == p(Head(SiftIn(ns[0], p))) == p(ns[0]);
    }
  }

  lemma {:induction false} SiftIsRemoveWhereIn(n: Node, p: Node -> bool)
    requires HeadOnly(p)
    ensures SiftIn(n, p) == RemoveWhereIn(n, p)
    decreases n
  {
    if n.Element? {
      SiftIsRemoveWhere(n.children, p);
    }
  }

  /** Sifting never adds a node passing a test on the node itself. */
  lemma {:induction false} SiftNeverAdds(ns: seq<Node>, p: Node -> bool, q: Node -> bool)
    requires HeadOnly(q)
    ensures Count(Sift(ns, p), q) <= Count(ns, q)
    decreases ns
  {
    if ns != [] {
      var n := SiftIn(ns[0], p);
      SiftNeverAddsIn(ns[0], p, q);
      SiftNeverAdds(ns[1..], p, q);
      if !p(n) {
        CountCons(n, Sift(ns[1..], p), q);
      } else {
        assert Sift(ns, p) == Sift(ns[1..], p);
      }
    }
  }

  lemma {:induction false} SiftNeverAddsIn(n: Node, p: Node -> bool, q: Node -> bool)
    requires HeadOnly(q)
    ensures CountIn(SiftIn(n, p), q) <= CountIn(n, q)
    decreases n
  {
    assert q(SiftIn(n, p)) == q(Head(SiftIn(n, p))) == q(n);
    if n.Element? {
      SiftNeverAdds(n.children, p, q);
    }
  }

  /** Sifting keeps a property of every element. */
  lemma {:induction false} SiftKeepsAll(ns: seq<Node>, p: Node -> bool, t: ElementTest)
    requires AllElements(ns, t)
    ensures AllElements(Sift(ns, p), t)
    decreases ns
  {
    if ns != [] {
      var n := SiftIn(ns[0], p);
      SiftKeepsAll(ns[1..], p, t);
      if !p(n) {
        if ns[0].Element? {
          SiftKeepsAll(ns[0].children, p, t);
        }
        assert Sift(ns, p)[1..] == Sift(ns[1..], p);
      } else {
        assert Sift(ns, p) == Sift(ns[1..], p);
      }
    }
  }

  // ---------------------------------------------------------------------
  // The document element

  /** The document element (`documentElement`): the first element among the document's children. */
  function Root(ns: seq<Node>): (r: Option<Node>)
    ensures r.Some? ==> r.value.Element? && r.value in ns
    ensures r.None? ==> forall i | 0 <= i < |ns| :: !ns[i].Element?
  {
    if ns == [] then None
    else if ns[0].Element? then Some(ns[0])
    else Root(ns[1..])
  }

  /** Applies `f` to the attributes of the document element only. */
  function MapRootAttributes(ns: seq<Node>, f: AttributeRewrite): (r: seq<Node>)
    ensures |r| == |ns|
    ensures Root(ns).None? ==> r == ns
    ensures Root(ns).Some? ==>
              var e := Root(ns).value;
              Root(r) == Some(e.(attrs := f(e.name, e.ns, e.attrs)))
    ensures forall i | 0 <= i < |ns| && !ns[i].Element? :: r[i] == ns[i]
  {
    if ns == [] then []
    else if ns[0].Element? then [ns[0].(attrs := f(ns[0].name, ns[0].ns, ns[0].attrs))] + ns[1..]
    else [ns[0]] + MapRootAttributes(ns[1..], f)
  }

  /** A rewrite that leaves the document element's attributes as they are changes nothing. */
  lemma {:induction false} MapRootIdentity(ns: seq<Node>, f: AttributeRewrite)
    requires Root(ns).Some? ==> var e := Root(ns).value; f(e.name, e.ns, e.attrs) == e.attrs
    ensures MapRootAttributes(ns, f) == ns
    decreases ns
  {
    if ns != [] && !ns[0].Element? {
      MapRootIdentity(ns[1..], f);
    }
  }
}

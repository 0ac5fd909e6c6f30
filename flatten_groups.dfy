/**
 * The FlattenGroups rule: every SVG `<g>` hands its attributes down to its
 * element children (a child keeps its own), and a group whose parent is an
 * element is dissolved: its transform is combined into each element child,
 * its children move up in its place, in their order, and the group goes.
 *
 * The source walks the `//svg:g` list in document order and edits the tree
 * in place; a group inside another is reached after its ancestor has been
 * processed, so it sees the attributes and transform it inherited. The
 * sibling list below is processed the same way: a dissolved group's children
 * take its place in the list still to be processed.
 */
module FlattenGroups {

  import opened Outcomes
  import opened Strings
  import opened Dom

  const TRANSFORM: string := "transform"

  /** A node `//svg:g` selects. */
  predicate IsGroup(n: Node) {
    n.Element? && n.ns == SVG_NAMESPACE && LocalName(n.name) == "g"
  }

  // ---------------------------------------------------------------------
  // Tree size, the measure the flattening decreases

  function Size(ns: seq<Node>): nat
    decreases ns
  {
    if ns == [] then 0 else SizeIn(ns[0]) + Size(ns[1..])
  }

  function SizeIn(n: Node): (r: nat)
    ensures r >= 1
    decreases n
  {
    if n.Element? then 1 + Size(n.children) else 1
  }

  lemma {:induction false} SizeAppend(a: seq<Node>, b: seq<Node>)
    ensures Size(a + b) == Size(a) + Size(b)
  {
    if a == [] {
      assert a + b == b;
    } else {
      assert (a + b)[0] == a[0] && (a + b)[1..] == a[1..] + b;
      SizeAppend(a[1..], b);
    }
  }

  // ---------------------------------------------------------------------
  // Attributes handed down

  /** The names a group's `attributes` collection holds: namespace declarations are not among them. */
  function Handed(group: Attributes): set<string> {
    set k | k in group && !IsNamespaceDeclaration(k)
  }

  /**
   * The namespace `setAttribute` gives a copied attribute on the child. A
   * name with a prefix is bound to what that prefix means in scope at the
   * child: the child's own declaration of it, otherwise the declaration the
   * group's attribute was bound to, the group being the child's parent. A
   * name without a prefix gets no namespace.
   */
  function BoundNamespace(group: Attributes, child: Attributes, name: string): (r: string)
    requires name in group
    ensures ':' !in name ==> r == ""
    ensures ':' in name && "xmlns:" + Prefix(name) !in child ==> r == group[name].ns
  {
    if ':' !in name then ""
    else if "xmlns:" + Prefix(name) in child then child["xmlns:" + Prefix(name)].value
    else group[name].ns
  }

  /** The prefix of a qualified name that has one. */
  function Prefix(name: string): (r: string)
    requires ':' in name
    ensures ':' !in r && name == r + [':'] + LocalName(name)
  {
    SplitOnce(name, ':').value.0
  }

  /** The attribute `setAttribute` creates on the child for the group's attribute `name`. */
  function Copied(group: Attributes, child: Attributes, name: string): Attribute
    requires name in group
  {
    Attribute(BoundNamespace(group, child, name), group[name].value)
  }

  /**
   * A child's attributes once the group's have been set where the child has
   * none of that name: the child's own win, and a copied one has the group's
   * value under the namespace its prefix is bound to at the child.
   */
  function Inherited(group: Attributes, child: Attributes): (r: Attributes)
    ensures r.Keys == child.Keys + Handed(group)
    ensures forall k | k in child :: r[k] == child[k]
    ensures forall k | k in r && k !in child :: k in group && r[k] == Copied(group, child, k)
  {
    map k | k in child.Keys + Handed(group) :: if k in child then child[k] else Copied(group, child, k)
  }

  /**
   * A prefixed attribute of the group that the child lacks keeps its value
   * and its namespace on the child, unless the child declares that prefix
   * itself; one without a prefix arrives with no namespace.
   */
  lemma InheritedKeepsNamespace(group: Attributes, child: Attributes, k: string)
    requires k in group && !IsNamespaceDeclaration(k) && k !in child
    ensures k in Inherited(group, child) && Inherited(group, child)[k].value == group[k].value
    ensures ':' in k && "xmlns:" + Prefix(k) !in child ==> Inherited(group, child)[k].ns == group[k].ns
    ensures ':' !in k ==> Inherited(group, child)[k].ns == ""
  {
    assert k in Handed(group);
  }

  /**
   * A group with one prefixed attribute, whose prefix the child does not
   * redeclare, hands it down unchanged, namespace included.
   */
  lemma InheritOne(k: string, a: Attribute, child: Attributes)
    requires ':' in k && !IsNamespaceDeclaration(k) && k !in child && "xmlns:" + Prefix(k) !in child
    ensures Inherited(map[k := a], child) == child[k := a]
  {
    var group := map[k := a];
    assert Handed(group) == {k};
    InheritedKeepsNamespace(group, child, k);
  }

  /**
   * `inkscape:label` handed down from a group to a `<path>` keeps the
   * namespace it had on the group, here the Inkscape namespace `uri`.
   */
  lemma InkscapeLabelHandedDown(uri: string)
    ensures Inherited(map["inkscape:label" := Attribute(uri, "L")], map["d" := Attribute("", "M0 0")]) ==
            map["d" := Attribute("", "M0 0"), "inkscape:label" := Attribute(uri, "L")]
  {
    LabelIsPrefixed();
    assert |"xmlns:" + Prefix("inkscape:label")| > 1;
    InheritOne("inkscape:label", Attribute(uri, "L"), map["d" := Attribute("", "M0 0")]);
  }

  /** `inkscape:label` is a prefixed name and not a namespace declaration. */
  lemma LabelIsPrefixed()
    ensures ':' in "inkscape:label" && !IsNamespaceDeclaration("inkscape:label")
  {
    assert "inkscape:label"[0] != "xmlns:"[0];
    assert "inkscape:label"[8] == ':';
  }

  /** `applyAttributesToChild`: `setAttributeIfNotExists` for each of the group's attributes. */
  method ApplyAttributesToChild(group: Attributes, child: Attributes) returns (r: Attributes)
    ensures r == Inherited(group, child)
  {
    var todo := Handed(group);
    r := child;
    while todo != {}
      invariant todo <= Handed(group)
      invariant r.Keys == child.Keys + (Handed(group) - todo)
      invariant forall k | k in child :: r[k] == child[k]
      invariant forall k | k in r && k !in child :: k in group && r[k] == Copied(group, child, k)
      decreases todo
    {
      var name :| name in todo;
      if name !in r {
        r := r[name := Copied(group, child, name)];
      }
      todo := todo - {name};
    }
  }

  /** The node with the group's attributes handed down, when it is an element. */
  function InheritIn(group: Attributes, n: Node): (r: Node)
    ensures EraseIn(r) == EraseIn(n) && SizeIn(r) == SizeIn(n) && IsGroup(r) == IsGroup(n)
  {
    if n.Element? then n.(attrs := Inherited(group, n.attrs)) else n
  }

  function InheritAll(group: Attributes, ns: seq<Node>): (r: seq<Node>)
    ensures |r| == |ns| && forall i | 0 <= i < |ns| :: r[i] == InheritIn(group, ns[i])
  {
    seq(|ns|, i requires 0 <= i < |ns| => InheritIn(group, ns[i]))
  }

  /** `applyGroupAttributesToChildren`. */
  method ApplyGroupAttributesToChildren(group: Attributes, children: seq<Node>) returns (r: seq<Node>)
    ensures r == InheritAll(group, children)
  {
    r := [];
    var i := 0;
    while i < |children|
      invariant 0 <= i <= |children|
      invariant r == InheritAll(group, children[..i])
    {
      var child := children[i];
      if child.Element? {
        var attrs := ApplyAttributesToChild(group, child.attrs);
        child := child.(attrs := attrs);
      }
      r := r + [child];
      i := i + 1;
    }
    assert children[..i] == children;
  }

  // ---------------------------------------------------------------------
  // Transforms

  /** `combineTransforms`: one copy of equal transforms, both in order otherwise. */
  function CombineTransforms(t1: string, t2: string): (r: string)
    ensures r == t1 <==> t1 == t2
    ensures r != t1 ==> r == t1 + " " + t2
  {
    if t1 == t2 then t1 else t1 + " " + t2
  }

  /** An element child once the group's transform is combined into its own; an empty result is not written. */
  function TransformIn(transform: string, n: Node): (r: Node)
    ensures EraseIn(r) == EraseIn(n) && SizeIn(r) == SizeIn(n) && IsGroup(r) == IsGroup(n)
  {
    if n.Element? then
      var t := CombineTransforms(transform, GetAttribute(n.attrs, TRANSFORM));
      if t != "" then n.(attrs := SetAttribute(n.attrs, TRANSFORM, t)) else n
    else n
  }

  function TransformAll(transform: string, ns: seq<Node>): (r: seq<Node>)
    ensures |r| == |ns| && forall i | 0 <= i < |ns| :: r[i] == TransformIn(transform, ns[i])
  {
    seq(|ns|, i requires 0 <= i < |ns| => TransformIn(transform, ns[i]))
  }

  /** `applyTransformsToChildren`. */
  method ApplyTransformsToChildren(transform: string, children: seq<Node>) returns (r: seq<Node>)
    ensures r == TransformAll(transform, children)
  {
    r := [];
    var i := 0;
    while i < |children|
      invariant 0 <= i <= |children|
      invariant r == TransformAll(transform, children[..i])
    {
      var child := children[i];
      if child.Element? {
        var t := CombineTransforms(transform, GetAttribute(child.attrs, TRANSFORM));
        if t != "" {
          child := child.(attrs := SetAttribute(child.attrs, TRANSFORM, t));
        }
      }
      r := r + [child];
      i := i + 1;
    }
    assert children[..i] == children;
  }

  /** Handing down keeps the tree's shape and size. */
  lemma {:induction false} ChildrenKeepShape(group: Attributes, transform: string, ns: seq<Node>)
    ensures Erase(InheritAll(group, ns)) == Erase(ns) && Size(InheritAll(group, ns)) == Size(ns)
    ensures Erase(TransformAll(transform, ns)) == Erase(ns) && Size(TransformAll(transform, ns)) == Size(ns)
    decreases |ns|
  {
    if ns != [] {
      ChildrenKeepShape(group, transform, ns[1..]);
      assert InheritAll(group, ns)[1..] == InheritAll(group, ns[1..]);
      assert TransformAll(transform, ns)[1..] == TransformAll(transform, ns[1..]);
    }
  }

  /** Dissolving a group keeps the shape of its children. */
  lemma DissolvedKeepsShape(g: Node)
    requires g.Element?
    ensures Erase(Dissolved(g)) == Erase(g.children)
  {
    var transform := GetAttribute(g.attrs, TRANSFORM);
    ChildrenKeepShape(g.attrs, transform, InheritAll(g.attrs, g.children));
    ChildrenKeepShape(g.attrs, "", g.children);
  }

  /** The children of a dissolved group: attributes handed down, then its transform combined in. */
  function Dissolved(g: Node): (r: seq<Node>)
    requires g.Element?
    ensures Size(r) == Size(g.children)
  {
    var transform := GetAttribute(g.attrs, TRANSFORM);
    ChildrenKeepShape(g.attrs, transform, InheritAll(g.attrs, g.children));
    ChildrenKeepShape(g.attrs, "", g.children);
    TransformAll(transform, InheritAll(g.attrs, g.children))
  }

  // ---------------------------------------------------------------------
  // Moving the children up

  /**
   * `moveChildrenUp` followed by `removeChild`: each child is inserted
   * before the group in turn, then the group is removed from `siblings`.
   */
  method MoveChildrenUp(children: seq<Node>, group: Node, following: seq<Node>) returns (siblings: seq<Node>)
    ensures siblings == children + following
  {
    siblings := [group] + following;
    var i := 0;
    while i < |children|
      invariant 0 <= i <= |children|
      invariant siblings == children[..i] + [group] + following
    {
      siblings := siblings[..i] + [children[i]] + siblings[i..];
      assert children[..i + 1] == children[..i] + [children[i]];
      i := i + 1;
    }
    assert children[..i] == children;
    siblings := siblings[..i] + siblings[i + 1..];
  }

  // ---------------------------------------------------------------------
  // The whole document

  /**
   * The sibling list `ns` once every group in it has been processed;
   * `underElement` says whether the parent of the list is an element. A
   * group there is dissolved and its children take its place in the list.
   */
  function Flattened(ns: seq<Node>, underElement: bool): seq<Node>
    decreases Size(ns), 1
  {
    if ns == [] then []
    else
      assert Size(ns) == SizeIn(ns[0]) + Size(ns[1..]);
      if IsGroup(ns[0]) && underElement then
        SizeAppend(Dissolved(ns[0]), ns[1..]);
        Flattened(Dissolved(ns[0]) + ns[1..], underElement)
      else [FlatHead(ns[0])] + Flattened(ns[1..], underElement)
  }

  /**
   * A node that stays where it is, with everything below it processed; a
   * group stays only at the top of the document, and still hands its
   * attributes down.
   */
  function FlatHead(n: Node): Node
    decreases SizeIn(n), 0
  {
    if IsGroup(n) then
      ChildrenKeepShape(n.attrs, "", n.children);
      n.(children := Flattened(InheritAll(n.attrs, n.children), true))
    else if n.Element? then n.(children := Flattened(n.children, true))
    else n
  }

  lemma FlattenedDissolves(ns: seq<Node>, underElement: bool)
    requires ns != [] && IsGroup(ns[0]) && underElement
    ensures Flattened(ns, underElement) == Flattened(Dissolved(ns[0]) + ns[1..], underElement)
  {
  }

  lemma FlattenedKeeps(ns: seq<Node>, underElement: bool)
    requires ns != [] && !(IsGroup(ns[0]) && underElement)
    ensures Flattened(ns, underElement) == [FlatHead(ns[0])] + Flattened(ns[1..], underElement)
  {
  }

  /** Processes a sibling list with the loops of the source. */
  method FlattenNodes(ns: seq<Node>, underElement: bool) returns (r: seq<Node>)
    ensures r == Flattened(ns, underElement)
    decreases Size(ns), 2
  {
    r := [];
    var pending := ns;
    while pending != []
      invariant Size(pending) <= Size(ns)
      invariant r + Flattened(pending, underElement) == Flattened(ns, underElement)
      decreases Size(pending)
    {
      r, pending := FlattenStep(r, pending, underElement);
    }
  }

  /**
   * One turn of the loop over the siblings: the first pending node is
   * either dissolved into the list or processed and moved to the output.
   */
  method FlattenStep(done: seq<Node>, pending: seq<Node>, underElement: bool)
    returns (done': seq<Node>, pending': seq<Node>)
    requires pending != []
    ensures Size(pending') < Size(pending)
    ensures done' + Flattened(pending', underElement) == done + Flattened(pending, underElement)
    decreases Size(pending), 1
  {
    var n := pending[0];
    assert Size(pending) == SizeIn(n) + Size(pending[1..]);
    if IsGroup(n) && underElement {
      FlattenedDissolves(pending, underElement);
      SizeAppend(Dissolved(n), pending[1..]);
      done' := done;
      pending' := DissolveGroup(n, pending[1..]);
    } else {
      FlattenedKeeps(pending, underElement);
      var head := FlattenHead(n);
      done' := done + [head];
      pending' := pending[1..];
      assert done + Flattened(pending, underElement) == done' + Flattened(pending', underElement);
    }
  }

  /** A group under an element hands its attributes and transform down and is replaced by its children. */
  method DissolveGroup(g: Node, following: seq<Node>) returns (siblings: seq<Node>)
    requires g.Element?
    ensures siblings == Dissolved(g) + following
  {
    var kids := ApplyGroupAttributesToChildren(g.attrs, g.children);
    kids := ApplyTransformsToChildren(GetAttribute(g.attrs, TRANSFORM), kids);
    siblings := MoveChildrenUp(kids, g, following);
  }

  /** `FlatHead` with the loops of the source. */
  method FlattenHead(n: Node) returns (r: Node)
    ensures r == FlatHead(n)
    decreases SizeIn(n), 0
  {
    if IsGroup(n) {
      var kids := ApplyGroupAttributesToChildren(n.attrs, n.children);
      ChildrenKeepShape(n.attrs, "", n.children);
      var children := FlattenNodes(kids, true);
      r := n.(children := children);
    } else if n.Element? {
      var children := FlattenNodes(n.children, true);
      r := n.(children := children);
    } else {
      r := n;
    }
  }

  function Optimized(doc: Document): Document {
    Document(Flattened(doc.nodes, false))
  }

  /** `optimize`. */
  method Optimize(dom: DomDocument)
    modifies dom
    ensures dom.doc == Optimized(old(dom.doc))
  {
    var nodes := FlattenNodes(dom.doc.nodes, false);
    dom.doc := Document(nodes);
  }

  // ---------------------------------------------------------------------
  // What the flattening guarantees

  /** No group anywhere in `ns`, at any depth. */
  predicate NoGroups(ns: seq<Node>)
    decreases ns
  {
    forall i | 0 <= i < |ns| :: !IsGroup(ns[i]) && (ns[i].Element? ==> NoGroups(ns[i].children))
  }

  lemma NoGroupsAppend(a: seq<Node>, b: seq<Node>)
    requires NoGroups(a) && NoGroups(b)
    ensures NoGroups(a + b)
  {
    forall i | 0 <= i < |a + b| ensures !IsGroup((a + b)[i]) && ((a + b)[i].Element? ==> NoGroups((a + b)[i].children)) {
      if i >= |a| {
        assert (a + b)[i] == b[i - |a|];
      }
    }
  }

  /** Below an element no group is left, at any depth. */
  lemma {:induction false} FlattenedHasNoGroups(ns: seq<Node>)
    ensures NoGroups(Flattened(ns, true))
    decreases Size(ns)
  {
    if ns != [] {
      var n := ns[0];
      assert Size(ns) == SizeIn(n) + Size(ns[1..]);
      if IsGroup(n) {
        SizeAppend(Dissolved(n), ns[1..]);
        FlattenedDissolves(ns, true);
        FlattenedHasNoGroups(Dissolved(n) + ns[1..]);
      } else {
        FlattenedKeeps(ns, true);
        FlattenedHasNoGroups(ns[1..]);
        if n.Element? {
          FlattenedHasNoGroups(n.children);
        }
        assert NoGroups([FlatHead(n)]);
        NoGroupsAppend([FlatHead(n)], Flattened(ns[1..], true));
      }
    }
  }

  /**
   * In the whole document a group can be left only as a child of the
   * document itself, and nothing below any node of the document is a group.
   */
  lemma {:induction false} OptimizedLeavesOnlyTopGroups(doc: Document)
    ensures forall i | 0 <= i < |Optimized(doc).nodes| ::
              Optimized(doc).nodes[i].Element? ==> NoGroups(Optimized(doc).nodes[i].children)
  {
    TopLevelChildrenFlat(doc.nodes);
  }

  lemma {:induction false} TopLevelChildrenFlat(ns: seq<Node>)
    ensures forall i | 0 <= i < |Flattened(ns, false)| ::
              Flattened(ns, false)[i].Element? ==> NoGroups(Flattened(ns, false)[i].children)
    decreases Size(ns)
  {
    if ns != [] {
      var n := ns[0];
      assert Size(ns) == SizeIn(n) + Size(ns[1..]);
      TopLevelChildrenFlat(ns[1..]);
      FlattenedKeeps(ns, false);
      if IsGroup(n) {
        ChildrenKeepShape(n.attrs, "", n.children);
        FlattenedHasNoGroups(InheritAll(n.attrs, n.children));
      } else if n.Element? {
        FlattenedHasNoGroups(n.children);
      }
      var r := Flattened(ns, false);
      forall i | 0 <= i < |r| && r[i].Element? ensures NoGroups(r[i].children) {
        if i > 0 {
          assert r[i] == Flattened(ns[1..], false)[i - 1];
        }
      }
    }
  }

  // ---------------------------------------------------------------------
  // The shape of the result

  /**
   * The reference shape: below an element, every group is replaced by its
   * own children, in their order; nothing else is added, dropped or moved.
   */
  function Ungrouped(ns: seq<Node>, underElement: bool): seq<Node>
    decreases ns
  {
    if ns == [] then [] else UngroupedIn(ns[0], underElement) + Ungrouped(ns[1..], underElement)
  }

  function UngroupedIn(n: Node, underElement: bool): seq<Node>
    decreases n
  {
    if IsGroup(n) && underElement then Ungrouped(n.children, true)
    else if n.Element? then [n.(children := Ungrouped(n.children, true))]
    else [n]
  }

  lemma {:induction false} UngroupedAppend(a: seq<Node>, b: seq<Node>, underElement: bool)
    ensures Ungrouped(a + b, underElement) == Ungrouped(a, underElement) + Ungrouped(b, underElement)
  {
    if a == [] {
      assert a + b == b;
    } else {
      assert (a + b)[0] == a[0] && (a + b)[1..] == a[1..] + b;
      UngroupedAppend(a[1..], b, underElement);
    }
  }

  lemma {:induction false} EraseAppend(a: seq<Node>, b: seq<Node>)
    ensures Erase(a + b) == Erase(a) + Erase(b)
  {
    if a == [] {
      assert a + b == b;
    } else {
      assert (a + b)[0] == a[0] && (a + b)[1..] == a[1..] + b;
      EraseAppend(a[1..], b);
    }
  }

  /**
   * Attributes aside, the result is the reference shape: the children of
   * a dissolved group stand where it stood, in their order, and every other
   * node keeps its place.
   */
  lemma {:induction false} FlattenedShape(ns: seq<Node>, underElement: bool)
    ensures Erase(Flattened(ns, underElement)) == Ungrouped(Erase(ns), underElement)
    decreases Size(ns)
  {
    if ns != [] {
      var n := ns[0];
      assert Size(ns) == SizeIn(n) + Size(ns[1..]);
      assert Erase(ns) == [EraseIn(n)] + Erase(ns[1..]);
      if IsGroup(n) && underElement {
        SizeAppend(Dissolved(n), ns[1..]);
        FlattenedShape(Dissolved(n) + ns[1..], underElement);
        ShapeDissolving(ns, underElement);
      } else {
        FlattenedShape(ns[1..], underElement);
        if IsGroup(n) {
          ChildrenKeepShape(n.attrs, "", n.children);
          FlattenedShape(InheritAll(n.attrs, n.children), true);
        } else if n.Element? {
          FlattenedShape(n.children, true);
        }
        ShapeKeeping(ns, underElement);
      }
    }
  }

  lemma ShapeDissolving(ns: seq<Node>, underElement: bool)
    requires ns != [] && IsGroup(ns[0]) && underElement
    requires Erase(Flattened(Dissolved(ns[0]) + ns[1..], underElement)) == Ungrouped(Erase(Dissolved(ns[0]) + ns[1..]), underElement)
    ensures Erase(Flattened(ns, underElement)) == Ungrouped(Erase(ns), underElement)
  {
    var n, rest := ns[0], ns[1..];
    calc {
      Erase(Flattened(ns, underElement));
      == { FlattenedDissolves(ns, underElement); }
      Erase(Flattened(Dissolved(n) + rest, underElement));
      ==
      Ungrouped(Erase(Dissolved(n) + rest), underElement);
      == { EraseAppend(Dissolved(n), rest); DissolvedKeepsShape(n); }
      Ungrouped(Erase(n.children) + Erase(rest), underElement);
      == { UngroupedAppend(Erase(n.children), Erase(rest), underElement); }
      Ungrouped(Erase(n.children), true) + Ungrouped(Erase(rest), underElement);
      == { assert UngroupedIn(EraseIn(n), underElement) == Ungrouped(Erase(n.children), true); }
      UngroupedIn(EraseIn(n), underElement) + Ungrouped(Erase(rest), underElement);
      == { assert Erase(ns) == [EraseIn(n)] + Erase(rest); }
      Ungrouped(Erase(ns), underElement);
    }
  }

  lemma ShapeKeeping(ns: seq<Node>, underElement: bool)
    requires ns != [] && !(IsGroup(ns[0]) && underElement)
    requires Erase(Flattened(ns[1..], underElement)) == Ungrouped(Erase(ns[1..]), underElement)
    requires IsGroup(ns[0]) ==>
               Erase(Flattened(InheritAll(ns[0].attrs, ns[0].children), true)) == Ungrouped(Erase(InheritAll(ns[0].attrs, ns[0].children)), true)
    requires !IsGroup(ns[0]) && ns[0].Element? ==>
               Erase(Flattened(ns[0].children, true)) == Ungrouped(Erase(ns[0].children), true)
    ensures Erase(Flattened(ns, underElement)) == Ungrouped(Erase(ns), underElement)
  {
    var n, rest := ns[0], ns[1..];
    assert UngroupedIn(EraseIn(n), underElement) == [EraseIn(FlatHead(n))] by {
      if IsGroup(n) {
        ChildrenKeepShape(n.attrs, "", n.children);
      }
    }
    calc {
      Erase(Flattened(ns, underElement));
      == { FlattenedKeeps(ns, underElement); }
      Erase([FlatHead(n)] + Flattened(rest, underElement));
      == { EraseAppend([FlatHead(n)], Flattened(rest, underElement)); }
      [EraseIn(FlatHead(n))] + Erase(Flattened(rest, underElement));
      ==
      UngroupedIn(EraseIn(n), underElement) + Ungrouped(Erase(rest), underElement);
      == { assert Erase(ns) == [EraseIn(n)] + Erase(rest); }
      Ungrouped(Erase(ns), underElement);
    }
  }

  // ---------------------------------------------------------------------
  // Transforms of dissolved groups

  /**
   * The transform a child of a dissolved group ends up with: its own
   * combined after the group's, or the group's alone when it had none. A
   * child without a transform inherits the group's first, so the two are
   * equal and the group's transform is not written twice.
   */
  lemma DissolvedTransform(g: Node, i: nat)
    requires g.Element? && i < |g.children| && g.children[i].Element?
    ensures var c, t := g.children[i], GetAttribute(g.attrs, TRANSFORM);
            GetAttribute(Dissolved(g)[i].attrs, TRANSFORM) ==
              if TRANSFORM in c.attrs then CombineTransforms(t, c.attrs[TRANSFORM].value) else t
  {
    var c, t := g.children[i], GetAttribute(g.attrs, TRANSFORM);
    var inherited := InheritAll(g.attrs, g.children)[i];
    assert inherited.attrs == Inherited(g.attrs, c.attrs);
    assert TRANSFORM !in c.attrs ==> GetAttribute(inherited.attrs, TRANSFORM) == t by {
      if TRANSFORM !in c.attrs && TRANSFORM in g.attrs {
        assert !IsNamespaceDeclaration(TRANSFORM) by {
          assert "xmlns:"[0] != TRANSFORM[0];
        }
        assert TRANSFORM in Handed(g.attrs);
      }
    }
    assert Dissolved(g)[i] == TransformIn(t, inherited);
  }

  /** Under a group without a transform, a child's transform gains a leading space. */
  lemma UntransformedGroupPrefixesSpace(g: Node, i: nat)
    requires g.Element? && TRANSFORM !in g.attrs
    requires i < |g.children| && g.children[i].Element? && TRANSFORM in g.children[i].attrs
    requires g.children[i].attrs[TRANSFORM].value != ""
    ensures GetAttribute(Dissolved(g)[i].attrs, TRANSFORM) == " " + g.children[i].attrs[TRANSFORM].value
  {
    DissolvedTransform(g, i);
  }
}

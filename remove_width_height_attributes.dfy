/** The RemoveWidthHeightAttributes rule: `width` and `height` go from the root `<svg>`. */
module RemoveWidthHeightAttributes {

  import opened Strings
  import opened Dom

  /** `width` or `height`, in any letter case. */
  predicate IsSizeAttribute(k: string) {
    ToLower(k) == "width" || ToLower(k) == "height"
  }

  /** Whether the rule acts on the document element `name`: it contains `svg`, in any case. */
  predicate IsSvgRoot(name: string) {
    Contains(ToLower(name), "svg")
  }

  /** The document element's attributes after the rule. */
  function WithoutSize(name: string, uri: string, attrs: Attributes): (r: Attributes)
    ensures IsSvgRoot(name) ==> forall k | k in r :: !IsSizeAttribute(k)
    ensures forall k | k in attrs :: k in r <==> !(IsSvgRoot(name) && IsSizeAttribute(k))
    ensures forall k | k in r :: k in attrs && r[k] == attrs[k]
  {
    if IsSvgRoot(name) then map k | k in attrs && !IsSizeAttribute(k) :: attrs[k] else attrs
  }

  function Optimized(doc: Document): Document {
    Document(MapRootAttributes(doc.nodes, WithoutSize))
  }

  /**
   * `optimize`: the names of the root's size attributes are collected first,
   * then each is removed.
   */
  method Optimize(dom: DomDocument)
    modifies dom
    ensures dom.doc == Optimized(old(dom.doc))
  {
    var root := Root(dom.doc.nodes);
    if root.None? || !IsSvgRoot(root.value.name) {
      MapRootIdentity(dom.doc.nodes, WithoutSize);
      return;
    }
    var attrs := root.value.attrs;
    var remove: seq<string> := [];
    var unseen := attrs.Keys;
    while unseen != {}
      invariant unseen <= attrs.Keys
      invariant forall k :: k in remove <==> k in attrs && k !in unseen && IsSizeAttribute(k)
      decreases unseen
    {
      var k :| k in unseen;
      if IsSizeAttribute(k) {
        remove := remove + [k];
      }
      unseen := unseen - {k};
    }
    var kept := attrs;
    for i := 0 to |remove|
      invariant kept == map k | k in attrs && k !in remove[..i] :: attrs[k]
    {
      assert remove[..i + 1] == remove[..i] + [remove[i]];
      kept := map k | k in kept && k != remove[i] :: kept[k];
    }
    assert remove[..|remove|] == remove;
    assert kept == WithoutSize(root.value.name, root.value.ns, attrs);
    WithRootAttributesIsMap(dom.doc.nodes, WithoutSize);
    dom.doc := Document(WithRootAttributes(dom.doc.nodes, kept));
  }

  /** An `<svg>` root keeps every attribute but its size; nothing else in the document changes. */
  lemma OptimizedEffect(doc: Document)
    ensures Root(doc.nodes).Some? && IsSvgRoot(Root(doc.nodes).value.name) ==>
              var before, after := Root(doc.nodes).value.attrs, Root(Optimized(doc).nodes).value.attrs;
              (forall k | k in after :: !IsSizeAttribute(k) && k in before && after[k] == before[k]) &&
              (forall k | k in before && !IsSizeAttribute(k) :: k in after)
    ensures Root(doc.nodes).Some? && !IsSvgRoot(Root(doc.nodes).value.name) ==> Optimized(doc) == doc
    ensures Root(doc.nodes).None? ==> Optimized(doc) == doc
  {
    if Root(doc.nodes).Some? && !IsSvgRoot(Root(doc.nodes).value.name) {
      MapRootIdentity(doc.nodes, WithoutSize);
    }
  }
}

/**
 * The RemoveUnusedMasks rule: `<mask>` elements nothing refers to go, then
 * `<defs>` elements without an element child go.
 */
module RemoveUnusedMasks {

  import opened Strings
  import opened Dom

  /** An element `getElementsByTagName('mask')` lists. */
  predicate IsMask(n: Node) {
    n.Element? && n.name == "mask"
  }

  /** An element `getElementsByTagName('defs')` lists. */
  predicate IsDefs(n: Node) {
    n.Element? && n.name == "defs"
  }

  /** None of `children` is an element (text, comments and instructions may be there). */
  predicate NoElementChild(children: seq<Node>) {
    forall i | 0 <= i < |children| :: !children[i].Element?
  }

  /** A `<defs>` the rule means to remove. */
  predicate IsEmptyDefs(n: Node) {
    IsDefs(n) && NoElementChild(n.children)
  }

  /** An element whose `mask` attribute contains `url(#id)`: what the XPath `contains(@mask, 'url(#id)')` over every element finds. */
  function Mentions(id: string): Node -> bool {
    (n: Node) => n.Element? && Contains(GetAttribute(n.attrs, "mask"), "url(#" + id + ")")
  }

  /**
   * Whether the XPath query for `id` finds a reference. The id is pasted
   * between apostrophes, so an id holding one makes the expression invalid:
   * `query` then returns `false`, which reads as "not referenced".
   */
  predicate IsReferenced(ns: seq<Node>, id: string) {
    '\'' !in id && Count(ns, Mentions(id)) > 0
  }

  /** A mask `removeUnusedMasks` collects, given the whole document `ns`: no id, or an id nothing refers to. */
  function UnusedIn(ns: seq<Node>): Node -> bool {
    (n: Node) => IsMask(n) && (GetAttribute(n.attrs, "id") == "" || !IsReferenced(ns, GetAttribute(n.attrs, "id")))
  }

  /** A mask the rule keeps: it has an id that some element refers to. */
  function UsedIn(ns: seq<Node>): Node -> bool {
    (n: Node) => IsMask(n) && GetAttribute(n.attrs, "id") != "" && IsReferenced(ns, GetAttribute(n.attrs, "id"))
  }

  lemma MaskTestsHeadOnly(ns: seq<Node>)
    ensures HeadOnly(UnusedIn(ns)) && HeadOnly(UsedIn(ns))
  {
    forall n: Node ensures UnusedIn(ns)(n) == UnusedIn(ns)(Head(n)) {
    }
    forall n: Node ensures UsedIn(ns)(n) == UsedIn(ns)(Head(n)) {
    }
  }

  // ---------------------------------------------------------------------
  // Empty <defs>

  /** Every `<defs>` left without an element child is removed, innermost first. */
  function Pruned(ns: seq<Node>): (r: seq<Node>)
    ensures Count(r, IsEmptyDefs) == 0
  {
    SiftClears(ns, IsEmptyDefs);
    Sift(ns, IsEmptyDefs)
  }

  /**
   * `removeEmptyDefs`, with every `<defs>` visited: each child list is swept
   * before its parent is judged.
   */
  method RemoveEmptyDefs(ns: seq<Node>) returns (r: seq<Node>)
    ensures r == Pruned(ns)
  {
    r := SiftNodes(ns, IsEmptyDefs);
  }

  /** A list of nodes with no element in it holds no element passing `q`. */
  lemma {:induction false} NoElementNoCount(ns: seq<Node>, q: Node -> bool)
    requires forall n: Node :: q(n) ==> n.Element?
    requires NoElementChild(ns)
    ensures Count(ns, q) == 0
    decreases ns
  {
    if ns != [] {
      NoElementNoCount(ns[1..], q);
    }
  }

  /** Only `<defs>` elements go: every other element is kept. */
  lemma {:induction false} PrunedKeeps(ns: seq<Node>, q: Node -> bool)
    requires HeadOnly(q)
    requires forall n: Node :: q(n) ==> n.Element? && !IsDefs(n)
    ensures Count(Sift(ns, IsEmptyDefs), q) == Count(ns, q)
    decreases ns
  {
    if ns != [] {
      var n := SiftIn(ns[0], IsEmptyDefs);
      PrunedKeeps(ns[1..], q);
      PrunedKeepsIn(ns[0], q);
      if IsEmptyDefs(n) {
        NoElementNoCount(n.children, q);
        assert Sift(ns, IsEmptyDefs) == Sift(ns[1..], IsEmptyDefs);
      } else {
        CountCons(n, Sift(ns[1..], IsEmptyDefs), q);
      }
    }
  }

  lemma {:induction false} PrunedKeepsIn(n: Node, q: Node -> bool)
    requires HeadOnly(q)
    requires forall n: Node :: q(n) ==> n.Element? && !IsDefs(n)
    ensures CountIn(SiftIn(n, IsEmptyDefs), q) == CountIn(n, q)
    decreases n
  {
    assert q(n) == q(Head(n)) && q(SiftIn(n, IsEmptyDefs)) == q(Head(SiftIn(n, IsEmptyDefs)));
    if n.Element? {
      PrunedKeeps(n.children, q);
    }
  }

  // ---------------------------------------------------------------------
  // The sweep as written

  /** The `k`-th `<defs>` (from 0) in document order: item `k` of the live list. */
  function DefsAt(ns: seq<Node>, k: nat): (r: Node)
    requires k < Count(ns, IsDefs)
    ensures IsDefs(r)
    decreases ns
  {
    var c := CountIn(ns[0], IsDefs);
    if k < c then DefsAtIn(ns[0], k) else DefsAt(ns[1..], k - c)
  }

  function DefsAtIn(n: Node, k: nat): (r: Node)
    requires k < CountIn(n, IsDefs)
    ensures IsDefs(r)
    decreases n
  {
    if IsDefs(n) && k == 0 then n else DefsAt(n.children, if IsDefs(n) then k - 1 else k)
  }

  /** The `k`-th `<defs>` removed from its parent. */
  function RemoveDefsAt(ns: seq<Node>, k: nat): (r: seq<Node>)
    requires k < Count(ns, IsDefs)
    ensures Count(r, IsDefs) < Count(ns, IsDefs)
    decreases ns
  {
    var c := CountIn(ns[0], IsDefs);
    CountCons(ns[0], ns[1..], IsDefs);
    if k >= c then
      (CountCons(ns[0], RemoveDefsAt(ns[1..], k - c), IsDefs);
       [ns[0]] + RemoveDefsAt(ns[1..], k - c))
    else if IsDefs(ns[0]) && k == 0 then
      ns[1..]
    else
      (var n := ns[0].(children := RemoveDefsAt(ns[0].children, if IsDefs(ns[0]) then k - 1 else k));
       CountCons(n, ns[1..], IsDefs);
       [n] + ns[1..])
  }

  /**
   * `removeEmptyDefs` as written: `foreach` over the live list steps its
   * index by one after each item, also after removing that item, so the
   * `<defs>` that moves into the freed place is never looked at.
   */
  function SweepAsWritten(ns: seq<Node>, i: nat): seq<Node>
    decreases Count(ns, IsDefs) - i
  {
    if i >= Count(ns, IsDefs) then ns
    else if NoElementChild(DefsAt(ns, i).children) then SweepAsWritten(RemoveDefsAt(ns, i), i + 1)
    else SweepAsWritten(ns, i + 1)
  }

  /** Two empty `<defs>` side by side: the sweep as written removes only the first. */
  lemma SweepAsWrittenSkipsNeighbour(defs: Node, svg: Node)
    requires defs == Element("defs", SVG_NAMESPACE, map[], [])
    requires svg == Element("svg", SVG_NAMESPACE, map[], [defs, defs])
    ensures SweepAsWritten([svg], 0) == [svg.(children := [defs])]
    ensures Count(SweepAsWritten([svg], 0), IsEmptyDefs) == 1
    ensures Count(Pruned([svg]), IsEmptyDefs) == 0
  {
    assert CountIn(defs, IsDefs) == 1 by {
      assert Count(defs.children, IsDefs) == 0;
    }
    assert Count([defs], IsDefs) == 1 by {
      CountCons(defs, [], IsDefs);
    }
    assert Count(svg.children, IsDefs) == 2 by {
      CountCons(defs, [defs], IsDefs);
    }
    var once := svg.(children := [defs]);
    assert Count([svg], IsDefs) == 2 by {
      CountCons(svg, [], IsDefs);
    }
    assert DefsAt(svg.children, 0) == defs;
    assert DefsAt([svg], 0) == DefsAtIn(svg, 0) == defs;
    assert RemoveDefsAt([svg], 0) == [once] by {
      assert RemoveDefsAt(svg.children, 0) == [defs];
    }
    assert Count([once], IsDefs) == 1 by {
      CountCons(once, [], IsDefs);
    }
    assert SweepAsWritten([once], 1) == [once];
    assert CountIn(defs, IsEmptyDefs) == 1 by {
      assert Count(defs.children, IsEmptyDefs) == 0;
    }
    assert Count([defs], IsEmptyDefs) == 1 by {
      CountCons(defs, [], IsEmptyDefs);
    }
    assert Count([once], IsEmptyDefs) == 1 by {
      CountCons(once, [], IsEmptyDefs);
    }
  }

  /**
   * An empty `<defs>` inside another: the sweep as written judges the outer
   * one first, while it still has an element child, and so keeps it once
   * the inner one is gone.
   */
  lemma SweepAsWrittenKeepsOuter(inner: Node, outer: Node, svg: Node)
    requires inner == Element("defs", SVG_NAMESPACE, map[], [])
    requires outer == Element("defs", SVG_NAMESPACE, map[], [inner])
    requires svg == Element("svg", SVG_NAMESPACE, map[], [outer])
    ensures SweepAsWritten([svg], 0) == [svg.(children := [inner])]
    ensures Count(SweepAsWritten([svg], 0), IsEmptyDefs) == 1
    ensures Count(Pruned([svg]), IsEmptyDefs) == 0
  {
    assert CountIn(inner, IsDefs) == 1 by {
      assert Count(inner.children, IsDefs) == 0;
    }
    assert Count([inner], IsDefs) == 1 by {
      CountCons(inner, [], IsDefs);
    }
    assert CountIn(outer, IsDefs) == 2;
    assert Count([outer], IsDefs) == 2 by {
      CountCons(outer, [], IsDefs);
    }
    assert Count([svg], IsDefs) == 2 by {
      CountCons(svg, [], IsDefs);
    }
    assert DefsAt([svg], 0) == outer by {
      assert DefsAt([outer], 0) == DefsAtIn(outer, 0) == outer;
    }
    assert !NoElementChild(outer.children);
    assert DefsAt([svg], 1) == inner by {
      assert DefsAt([inner], 0) == DefsAtIn(inner, 0) == inner;
      assert DefsAt([outer], 1) == DefsAtIn(outer, 1) == inner;
    }
    var once := svg.(children := [inner]);
    assert RemoveDefsAt([svg], 1) == [once] by {
      assert RemoveDefsAt([inner], 0) == [];
      assert RemoveDefsAt([outer], 1) == [inner];
    }
    assert Count([once], IsDefs) == 1 by {
      CountCons(once, [], IsDefs);
    }
    assert SweepAsWritten([once], 2) == [once];
    assert CountIn(inner, IsEmptyDefs) == 1 by {
      assert Count(inner.children, IsEmptyDefs) == 0;
    }
    assert Count([inner], IsEmptyDefs) == 1 by {
      CountCons(inner, [], IsEmptyDefs);
    }
    assert Count([once], IsEmptyDefs) == 1 by {
      CountCons(once, [], IsEmptyDefs);
    }
  }

  // ---------------------------------------------------------------------
  // The rule

  function Optimized(doc: Document): Document {
    Document(Pruned(RemoveWhere(doc.nodes, UnusedIn(doc.nodes))))
  }

  /**
   * `removeUnusedMasks`: every mask is judged on the document as it is
   * before any removal; the collected masks are removed afterwards.
   */
  method RemoveUnusedMasks(dom: DomDocument)
    modifies dom
    ensures dom.doc == Document(RemoveWhere(old(dom.doc).nodes, UnusedIn(old(dom.doc).nodes)))
  {
    var unused := UnusedIn(dom.doc.nodes);
    MaskTestsHeadOnly(dom.doc.nodes);
    RemoveMatches(dom, unused);
  }

  /** `optimize`: unused masks first, then empty `<defs>`. */
  method Optimize(dom: DomDocument)
    modifies dom
    ensures dom.doc == Optimized(old(dom.doc))
  {
    RemoveUnusedMasks(dom);
    var nodes := RemoveEmptyDefs(dom.doc.nodes);
    dom.doc := Document(nodes);
  }

  /** No mask without an id, and no mask nothing refers to, is left. */
  lemma OptimizedRemovesUnused(doc: Document)
    ensures Count(Optimized(doc).nodes, UnusedIn(doc.nodes)) == 0
  {
    MaskTestsHeadOnly(doc.nodes);
    RemoveWhereClears(doc.nodes, UnusedIn(doc.nodes));
    PrunedKeeps(RemoveWhere(doc.nodes, UnusedIn(doc.nodes)), UnusedIn(doc.nodes));
  }

  /** Every referenced mask is kept, unless it lies inside a mask that goes. */
  lemma OptimizedKeepsUsed(doc: Document)
    requires Separate(doc.nodes, UnusedIn(doc.nodes), UsedIn(doc.nodes))
    ensures Count(Optimized(doc).nodes, UsedIn(doc.nodes)) == Count(doc.nodes, UsedIn(doc.nodes))
  {
    MaskTestsHeadOnly(doc.nodes);
    RemoveWhereKeeps(doc.nodes, UnusedIn(doc.nodes), UsedIn(doc.nodes));
    PrunedKeeps(RemoveWhere(doc.nodes, UnusedIn(doc.nodes)), UsedIn(doc.nodes));
  }

  /** No `<defs>` without an element child is left. */
  lemma OptimizedRemovesEmptyDefs(doc: Document)
    ensures Count(Optimized(doc).nodes, IsEmptyDefs) == 0
  {
    assert Optimized(doc).nodes == Pruned(RemoveWhere(doc.nodes, UnusedIn(doc.nodes)));
  }

  /** The `<defs>` step is idempotent. */
  lemma PrunedIdempotent(ns: seq<Node>)
    ensures Pruned(Pruned(ns)) == Pruned(ns)
  {
    SiftIdempotent(ns, IsEmptyDefs);
  }
}

/** The RemoveMetadata rule: `<metadata>` elements are removed. */
module RemoveMetadata {

  import opened Dom
  import opened RemoveElementsByTagNameTrait

  function Optimized(doc: Document): Document {
    Document(RemoveWhere(doc.nodes, HasTagName("metadata")))
  }

  /** `optimize`. */
  method Optimize(dom: DomDocument)
    modifies dom
    ensures dom.doc == Optimized(old(dom.doc))
  {
    RemoveElementsByTagName(dom, "metadata");
  }

  /** No `metadata` element is left. */
  lemma OptimizedLeavesNone(doc: Document)
    ensures Count(Optimized(doc).nodes, HasTagName("metadata")) == 0
  {
    HasTagNameHeadOnly("metadata");
    RemoveWhereClears(doc.nodes, HasTagName("metadata"));
  }

  /** A second run changes nothing. */
  lemma OptimizedIdempotent(doc: Document)
    ensures Optimized(Optimized(doc)) == Optimized(doc)
  {
    HasTagNameHeadOnly("metadata");
    RemoveWhereIdempotent(doc.nodes, HasTagName("metadata"));
  }

  /** Outside the removed subtrees nothing changes: removing every element afterwards gives the same. */
  lemma OptimizedKeepsOtherElements(doc: Document)
    ensures RemoveWhere(Optimized(doc).nodes, (n: Node) => n.Element?) == RemoveWhere(doc.nodes, (n: Node) => n.Element?)
  {
    var e := (n: Node) => n.Element?;
    assert HeadOnly(e) by {
      forall n: Node ensures e(n) == e(Head(n)) {
      }
    }
    RemoveWhereAbsorbed(doc.nodes, HasTagName("metadata"), e);
  }
}

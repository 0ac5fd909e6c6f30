/** The RemoveComments rule: comments go, except those starting with `!`. */
module RemoveComments {

  import opened Dom

  /** A comment the rule removes: its text does not start with `!`. */
  predicate IsDroppedComment(n: Node) {
    n.Comment? && !("!" <= n.data)
  }

  /** A legal or license comment, which is kept. */
  predicate IsKeptComment(n: Node) {
    n.Comment? && "!" <= n.data
  }

  predicate IsComment(n: Node) {
    n.Comment?
  }

  function Optimized(doc: Document): Document {
    Document(RemoveWhere(doc.nodes, IsDroppedComment))
  }

  lemma CommentTestsHeadOnly()
    ensures HeadOnly(IsDroppedComment) && HeadOnly(IsKeptComment) && HeadOnly(IsComment)
  {
    forall n: Node ensures IsDroppedComment(n) == IsDroppedComment(Head(n)) {
    }
    forall n: Node ensures IsKeptComment(n) == IsKeptComment(Head(n)) {
    }
    forall n: Node ensures IsComment(n) == IsComment(Head(n)) {
    }
  }

  /** `optimize`: each listed comment not starting with `!` is removed from its parent. */
  method Optimize(dom: DomDocument)
    modifies dom
    ensures dom.doc == Optimized(old(dom.doc))
  {
    CommentTestsHeadOnly();
    RemoveMatches(dom, IsDroppedComment);
  }

  /** No comment without the `!` mark is left. */
  lemma OptimizedRemovesComments(doc: Document)
    ensures Count(Optimized(doc).nodes, IsDroppedComment) == 0
  {
    CommentTestsHeadOnly();
    RemoveWhereClears(doc.nodes, IsDroppedComment);
  }

  /** Every comment starting with `!` is kept. */
  lemma OptimizedKeepsMarkedComments(doc: Document)
    ensures Count(Optimized(doc).nodes, IsKeptComment) == Count(doc.nodes, IsKeptComment)
  {
    CommentTestsHeadOnly();
    RemoveLeavesKeeps(doc.nodes, IsDroppedComment, IsKeptComment);
  }

  /** Only comments change: with every comment taken out, both documents are the same. */
  lemma OptimizedTouchesOnlyComments(doc: Document)
    ensures RemoveWhere(Optimized(doc).nodes, IsComment) == RemoveWhere(doc.nodes, IsComment)
  {
    CommentTestsHeadOnly();
    RemoveWhereAbsorbed(doc.nodes, IsDroppedComment, IsComment);
  }

  /** A second run changes nothing. */
  lemma OptimizedIdempotent(doc: Document)
    ensures Optimized(Optimized(doc)) == Optimized(doc)
  {
    CommentTestsHeadOnly();
    RemoveWhereIdempotent(doc.nodes, IsDroppedComment);
  }
}

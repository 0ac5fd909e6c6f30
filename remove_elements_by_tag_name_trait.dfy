/** `RemoveElementsByTagNameTrait`: every element with a given name goes, with its subtree. */
module RemoveElementsByTagNameTrait {

  import opened Dom

  /** The elements `getElementsByTagName(tag)` lists: those whose qualified name is `tag`. */
  function HasTagName(tag: string): Node -> bool {
    (n: Node) => n.Element? && n.name == tag
  }

  lemma HasTagNameHeadOnly(tag: string)
    ensures HeadOnly(HasTagName(tag))
  {
    forall n: Node ensures HasTagName(tag)(n) == HasTagName(tag)(Head(n)) {
    }
  }

  /**
   * `removeElementsByTagName`: while the live list of matches is not empty,
   * its first item, in document order, is removed from its parent.
   */
  method RemoveElementsByTagName(dom: DomDocument, tag: string)
    modifies dom
    ensures dom.doc == Document(RemoveWhere(old(dom.doc).nodes, HasTagName(tag)))
    ensures Count(dom.doc.nodes, HasTagName(tag)) == 0
  {
    HasTagNameHeadOnly(tag);
    RemoveMatches(dom, HasTagName(tag));
    RemoveWhereClears(old(dom.doc).nodes, HasTagName(tag));
  }
}

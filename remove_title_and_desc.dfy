/** The RemoveTitleAndDesc rule: `<title>` and `<desc>` elements are removed. */
module RemoveTitleAndDesc {

  import opened Dom
  import opened RemoveElementsByTagNameTrait

  /** The document once every `title`, and then every `desc`, is gone. */
  function Optimized(doc: Document): Document {
    Document(RemoveWhere(RemoveWhere(doc.nodes, HasTagName("title")), HasTagName("desc")))
  }

  /** `optimize`. */
  method Optimize(dom: DomDocument)
    modifies dom
    ensures dom.doc == Optimized(old(dom.doc))
  {
    RemoveElementsByTagName(dom, "title");
    RemoveElementsByTagName(dom, "desc");
  }

  /** Neither a `title` nor a `desc` element is left. */
  lemma OptimizedLeavesNone(doc: Document)
    ensures Count(Optimized(doc).nodes, HasTagName("title")) == 0
    ensures Count(Optimized(doc).nodes, HasTagName("desc")) == 0
  {
    var t, d := HasTagName("title"), HasTagName("desc");
    HasTagNameHeadOnly("title");
    HasTagNameHeadOnly("desc");
    RemoveWhereClears(doc.nodes, t);
    RemoveWhereNeverAdds(RemoveWhere(doc.nodes, t), d, t);
    RemoveWhereClears(RemoveWhere(doc.nodes, t), d);
  }

  /** A second run changes nothing. */
  lemma OptimizedIdempotent(doc: Document)
    ensures Optimized(Optimized(doc)) == Optimized(doc)
  {
    var once := Optimized(doc).nodes;
    OptimizedLeavesNone(doc);
    RemoveWhereIdentity(once, HasTagName("title"));
    RemoveWhereIdentity(once, HasTagName("desc"));
  }
}

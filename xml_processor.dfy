/**
 * `AbstractXmlProcessor::process`: the document is serialized, rewritten as
 * text by a callback, validated and loaded back.
 */
module XmlProcessor {

  import opened Outcomes
  import opened Dom
  import opened Platform

  /** What a PHP callback does: returns a string, returns something else, or throws. */
  datatype CallbackResult = Returned(text: string) | NotAString | Threw(error: Error)

  type Callback = string -> CallbackResult

  const SAVE_FAILED: string := "Failed to save SVG XML content."
  const NOT_A_STRING: string := "Callback must return a string."
  const NOT_VALID: string := "Optimized SVG content is not valid."
  const CALLBACK_FAILED: string := "Failed to process the XML content."
  const LOAD_FAILED: string := "Failed to load optimized XML content."

  /**
   * `process`: on success, the document that was loaded and the text it was
   * loaded from; otherwise the exception, always an XML processing error.
   */
  function Process(env: Env, doc: Document, callback: Callback): (r: Result<(Document, string)>)
    ensures r.Failure? ==> r.error.XmlProcessing?
    ensures env.saveXml(doc).None? ==> r == Failure(XmlProcessing(SAVE_FAILED))
    ensures r.Success? <==>
              env.saveXml(doc).Some? && callback(env.saveXml(doc).value).Returned? &&
              var text := callback(env.saveXml(doc).value).text;
              env.isValidSvg(text) && env.loadXml(text).Some?
    ensures r.Success? ==>
              r.value.1 == callback(env.saveXml(doc).value).text && env.loadXml(r.value.1) == Some(r.value.0)
    ensures env.saveXml(doc).Some? && callback(env.saveXml(doc).value).NotAString? ==>
              r == Failure(XmlProcessing(NOT_A_STRING))
    ensures env.saveXml(doc).Some? && callback(env.saveXml(doc).value).Threw? ==>
              var e := callback(env.saveXml(doc).value).error;
              r == Failure(if e.XmlProcessing? then e else XmlProcessing(CALLBACK_FAILED))
    ensures env.saveXml(doc).Some? && callback(env.saveXml(doc).value).Returned? &&
            !env.isValidSvg(callback(env.saveXml(doc).value).text) ==>
              r == Failure(XmlProcessing(NOT_VALID))
  {
    match env.saveXml(doc)
    case None => Failure(XmlProcessing(SAVE_FAILED))
    case Some(content) =>
      match callback(content)
      case NotAString => Failure(XmlProcessing(NOT_A_STRING))
      case Threw(e) => Failure(if e.XmlProcessing? then e else XmlProcessing(CALLBACK_FAILED))
      case Returned(text) =>
        if !env.isValidSvg(text) then Failure(XmlProcessing(NOT_VALID))
        else match env.loadXml(text)
          case None => Failure(XmlProcessing(LOAD_FAILED))
          case Some(loaded) => Success((loaded, text))
  }

  /**
   * `process` on the document object: on success the document is the one
   * loaded from the returned text; on any failure it is left as it was.
   */
  method ProcessIn(env: Env, dom: DomDocument, callback: Callback) returns (r: Result<string>)
    modifies dom
    ensures Process(env, old(dom.doc), callback).Success? ==>
              r == Success(Process(env, old(dom.doc), callback).value.1) &&
              dom.doc == Process(env, old(dom.doc), callback).value.0
    ensures Process(env, old(dom.doc), callback).Failure? ==>
              r == Failure(Process(env, old(dom.doc), callback).error) && dom.doc == old(dom.doc)
  {
    var content := env.saveXml(dom.doc);
    if content.None? {
      return Failure(XmlProcessing(SAVE_FAILED));
    }
    var outcome := callback(content.value);
    if outcome.NotAString? {
      return Failure(XmlProcessing(NOT_A_STRING));
    }
    if outcome.Threw? {
      return Failure(if outcome.error.XmlProcessing? then outcome.error else XmlProcessing(CALLBACK_FAILED));
    }
    if !env.isValidSvg(outcome.text) {
      return Failure(XmlProcessing(NOT_VALID));
    }
    var loaded := env.loadXml(outcome.text);
    if loaded.None? {
      return Failure(XmlProcessing(LOAD_FAILED));
    }
    dom.doc := loaded.value;
    r := Success(outcome.text);
  }

  /** The document `process` leaves behind, or the exception it throws. */
  function ProcessedDocument(env: Env, doc: Document, callback: Callback): (r: Result<Document>)
    ensures r.Success? <==> Process(env, doc, callback).Success?
    ensures r.Success? ==> r.value == Process(env, doc, callback).value.0
    ensures r.Failure? ==> r.error == Process(env, doc, callback).error
  {
    match Process(env, doc, callback)
    case Success((loaded, _)) => Success(loaded)
    case Failure(e) => Failure(e)
  }

  /**
   * The `optimize` of a rule made of one `process` call whose returned text is
   * discarded: the document is replaced on success and kept on failure.
   */
  method Apply(env: Env, dom: DomDocument, callback: Callback) returns (o: Outcome)
    modifies dom
    ensures ProcessedDocument(env, old(dom.doc), callback).Success? ==>
              o == Pass && dom.doc == ProcessedDocument(env, old(dom.doc), callback).value
    ensures ProcessedDocument(env, old(dom.doc), callback).Failure? ==>
              o == Fail(ProcessedDocument(env, old(dom.doc), callback).error) && dom.doc == old(dom.doc)
  {
    var r := ProcessIn(env, dom, callback);
    o := if r.Success? then Pass else Fail(r.error);
  }
}

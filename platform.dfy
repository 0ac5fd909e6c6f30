/**
 * What the optimizer takes from PHP and from code outside this model, as
 * parameters.  Each field stands for one foreign operation; nothing is
 * assumed about it beyond its type.
 */
module Platform {

  import opened Outcomes
  import opened Dom
  import opened RuleType

  datatype Env = Env(
    /** `DOMDocument::saveXML()`; `None` is its `false`. */
    saveXml: Document -> Option<string>,
    /** `DOMDocument::loadXML()`: the parsed document, or `None` when it returns `false`. */
    loadXml: string -> Option<Document>,
    /** `DomDocumentWrapper::saveToString()`. */
    saveToString: Document -> string,
    /** The provider's `loadContent()`: its input parsed into a document. */
    loadContent: string -> Document,
    /** `SvgValidator::isValid()`. */
    isValidSvg: string -> bool,
    /** Whether PCRE gives up (backtrack limit, malformed UTF-8) on pattern `.0` and subject `.1`. */
    pcreFails: (string, string) -> bool,
    /** `(string) ((float) $digits / 100)`: PHP's float division and float-to-string conversion. */
    percentValue: string -> string,
    /** The `optimize` of the rules whose source is not part of this model. */
    externalRule: (Rule, Document) -> Result<Document>,
    /** Their `shouldCheckSize`. */
    externalChecksSize: Rule -> bool
  )
}

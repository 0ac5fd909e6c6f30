/**
 * `RemoveInvisibleCharacters`: hexadecimal character references to
 * zero-width, line-separating, soft-hyphen and control characters are cut
 * out of the serialized document, which is then loaded back.
 */
module RemoveInvisibleCharacters {

  import opened Outcomes
  import opened Strings
  import opened Dom
  import opened Platform
  import opened XmlProcessor

  /** `INVISIBLE_CHARACTERS_REGEX`. */
  const INVISIBLE_CHARACTERS_REGEX: string := "/&#x(?:200B|200C|200D|2028|2029|AD|0A|0D|09|D);/u"

  /** The alternatives of the pattern's group, in the order PCRE tries them. */
  const CODES: seq<string> := ["200B", "200C", "200D", "2028", "2029", "AD", "0A", "0D", "09", "D"]

  /** The reference `&#x` + `code` + `;`. */
  function Reference(code: string): (r: string)
    ensures |r| == |code| + 4
  {
    "&#x" + code + ";"
  }

  lemma CodesHoldNoSemicolon()
    ensures forall c | c in CODES :: ';' !in c
  {
  }

  /**
   * The length of the pattern's match at `i`: `&#x`, then the text up to the
   * next `;`, which must be one of the codes; 0 when there is no match. No
   * code holds a `;`, so which alternative PCRE tries first does not matter.
   */
  function InvisibleLength(s: string, i: nat): (n: nat)
    ensures n > 0 ==> 4 <= n && i + n <= |s| && s[i..i + n] == Reference(s[i + 3..i + n - 1]) && s[i + 3..i + n - 1] in CODES
    ensures (exists c | c in CODES :: i <= |s| && Reference(c) <= s[i..]) ==> n > 0
  {
    if i + 3 <= |s| && s[i..i + 3] == "&#x" && ';' in s[i + 3..] then
      var j := IndexOfChar(s[i + 3..], ';');
      var code := s[i + 3..i + 3 + j];
      assert s[i..i + j + 4] == "&#x" + code + ";";
      ReferenceDeterminesCode(s, i);
      if code in CODES then j + 4 else 0
    else
      ReferenceDeterminesCode(s, i);
      0
  }

  /** A reference to one of the codes at `i` ends at the first `;` after its `&#x`. */
  lemma ReferenceDeterminesCode(s: string, i: nat)
    ensures forall c | c in CODES && i <= |s| && Reference(c) <= s[i..] ::
              i + 3 <= |s| && s[i..i + 3] == "&#x" && ';' in s[i + 3..] &&
              s[i + 3..i + 3 + IndexOfChar(s[i + 3..], ';')] == c
  {
    CodesHoldNoSemicolon();
    forall c | c in CODES && i <= |s| && Reference(c) <= s[i..]
      ensures i + 3 <= |s| && s[i..i + 3] == "&#x" && ';' in s[i + 3..] &&
              s[i + 3..i + 3 + IndexOfChar(s[i + 3..], ';')] == c
    {
      ReferenceAt(s, i, c);
    }
  }

  /** A reference to a code without `;` at `i`: its code is the text up to the first `;` after `&#x`. */
  lemma ReferenceAt(s: string, i: nat, c: string)
    requires i <= |s| && ';' !in c && Reference(c) <= s[i..]
    ensures i + 3 <= |s| && s[i..i + 3] == "&#x" && ';' in s[i + 3..] &&
            s[i + 3..i + 3 + IndexOfChar(s[i + 3..], ';')] == c
  {
    var r := Reference(c);
    assert s[i..][..|r|] == r;
    assert s[i..i + |r|] == r;
    assert s[i..i + 3] == r[..3];
    var t := s[i + 3..];
    var rest := t[|c| + 1..];
    assert t[..|c| + 1] == s[i + 3..i + |r|] == r[3..];
    assert r[3..] == c + ";";
    assert t == t[..|c| + 1] + rest;
    assert t == c + [';'] + rest;
    IndexOfCharAfter(c, rest, ';');
    assert t[..|c|] == c;
  }

  /**
   * `removeInvisibleCharacters`: when `preg_replace` fails (malformed UTF-8
   * under `/u`, for one) `?? $content` keeps the text as it was.
   */
  function RemoveInvisibleText(env: Env, content: string): (r: string)
    ensures env.pcreFails(INVISIBLE_CHARACTERS_REGEX, content) ==> r == content
    ensures IsSubsequence(r, content) && |r| <= |content|
    ensures (forall k | 0 <= k < |content| :: InvisibleLength(content, k) == 0) ==> r == content
  {
    if env.pcreFails(INVISIBLE_CHARACTERS_REGEX, content) then
      SubsequenceReflexive(content);
      content
    else DeleteMatches(content, InvisibleLength)
  }

  function Callback(env: Env): XmlProcessor.Callback {
    content => Returned(RemoveInvisibleText(env, content))
  }

  /** The rule's effect: the document loaded from the serialized text with the references cut out. */
  function Optimized(env: Env, doc: Document): (r: Result<Document>)
    ensures r.Failure? ==> r.error.XmlProcessing?
    ensures r.Success? ==>
              env.saveXml(doc).Some? &&
              var text := RemoveInvisibleText(env, env.saveXml(doc).value);
              env.isValidSvg(text) && env.loadXml(text) == Some(r.value)
  {
    ProcessedDocument(env, doc, Callback(env))
  }

  /** `optimize`. */
  method Optimize(env: Env, dom: DomDocument) returns (o: Outcome)
    modifies dom
    ensures Optimized(env, old(dom.doc)).Success? ==> o == Pass && dom.doc == Optimized(env, old(dom.doc)).value
    ensures Optimized(env, old(dom.doc)).Failure? ==>
              o == Fail(Optimized(env, old(dom.doc)).error) && dom.doc == old(dom.doc)
  {
    o := Apply(env, dom, Callback(env));
  }

  /** The pattern has no `/i`: a reference written in lower case is not matched. */
  lemma LowerCaseSoftHyphenKept()
    ensures InvisibleLength("&#xad;", 0) == 0
    ensures InvisibleLength("&#xAD;", 0) == 6
  {
    var s := "&#xad;";
    assert s[3..][2] == ';' && s[3..][..2] == "ad";
    assert IndexOfChar(s[3..], ';') == 2;
    var t := "&#xAD;";
    assert t[3..][2] == ';' && t[3..][..2] == "AD";
    assert IndexOfChar(t[3..], ';') == 2;
    assert t[3..5] == "AD";
  }

  /** A text holding no `&#x` keeps every character. */
  lemma WithoutReferencesUnchanged(env: Env, content: string)
    requires forall k | 0 <= k <= |content| :: !("&#x" <= content[k..])
    ensures RemoveInvisibleText(env, content) == content
  {
    forall k | 0 <= k < |content| ensures InvisibleLength(content, k) == 0 {
      assert !("&#x" <= content[k..]);
    }
  }
}

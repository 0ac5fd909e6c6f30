/**
 * `AbstractProvider`: where the optimizer's input comes from and where its
 * output text is kept.  The output is the serialized document with a
 * leading XML declaration cut off and the ends trimmed.
 */
module SvgProvider {

  import opened Outcomes
  import opened Strings
  import opened Dom
  import opened Platform

  /** `XML_DECLARATION_REGEX`. */
  const XML_DECLARATION_REGEX: string := "/^\\s*<\\?xml[^>]*\\?>\\s*/"

  const XML_DECLARATION_OPEN: string := "<?xml"

  const XML_PROCESSING_FAILED: string := "Failed to process XML content."

  /** `<?xml` starts at `i`. */
  predicate OpensAt(s: string, i: nat) {
    i + 5 <= |s| && s[i] == '<' && s[i + 1] == '?' && s[i + 2] == 'x' && s[i + 3] == 'm' && s[i + 4] == 'l'
  }

  /** The first position from `k` on that holds `c`, or `|s|`. */
  function FirstFrom(s: string, c: char, k: nat): (j: nat)
    requires k <= |s|
    ensures k <= j <= |s| && (j < |s| ==> s[j] == c)
    ensures forall m | k <= m < j :: s[m] != c
    decreases |s| - k
  {
    if k == |s| || s[k] == c then k else FirstFrom(s, c, k + 1)
  }

  /** A `c` at `j` with none before it from `k` on is what `FirstFrom` finds. */
  lemma {:induction false} FirstFromTo(s: string, c: char, k: nat, j: nat)
    requires k <= j < |s| && s[j] == c
    requires forall m | k <= m < j :: s[m] != c
    ensures FirstFrom(s, c, k) == j
    decreases j - k
  {
    if k < j {
      FirstFromTo(s, c, k + 1, j);
    }
  }

  /**
   * Where the match of `^\s*<\?xml[^>]*\?>\s*` ends, if the text has one: the
   * spaces, `<?xml`, everything up to the first `>`, which must follow a `?`
   * that is not part of `<?xml`, and the spaces after it.
   */
  function XmlDeclarationEnd(s: string): (e: Option<nat>)
    ensures e.Some? ==> SkipSpaces(s, 0) + 7 <= e.value <= |s| && OpensAt(s, SkipSpaces(s, 0))
    ensures e.Some? ==> e.value == |s| || !IsSpace(s[e.value])
    ensures !OpensAt(s, SkipSpaces(s, 0)) ==> e.None?
  {
    var i := SkipSpaces(s, 0);
    if OpensAt(s, i) then
      var j := FirstFrom(s, '>', i + 5);
      if j < |s| && j - 1 >= i + 5 && s[j - 1] == '?' then Some(SkipSpaces(s, j + 1)) else None
    else None
  }

  /** `preg_replace` of the declaration by nothing: the text after the match, or all of it. */
  function StripXmlDeclaration(s: string): (r: string)
    ensures |r| <= |s| && r == s[|s| - |r|..]
    ensures XmlDeclarationEnd(s).None? ==> r == s
    ensures XmlDeclarationEnd(s).Some? ==> |r| + 7 <= |s| && (r == [] || !IsSpace(r[0]))
  {
    match XmlDeclarationEnd(s)
    case None => s
    case Some(e) => s[e..]
  }

  /**
   * Spaces, a declaration `<?xml` + `body` + `?>` whose body holds no `>`, and
   * spaces are cut off the front of a text, whatever follows them.
   */
  lemma LeadingDeclarationStripped(pre: string, body: string, post: string, rest: string)
    requires All(pre, IsSpace) && All(post, IsSpace) && '>' !in body
    requires rest == [] || !IsSpace(rest[0])
    ensures StripXmlDeclaration(pre + (XML_DECLARATION_OPEN + body + "?>" + (post + rest))) == rest
  {
    var decl := XML_DECLARATION_OPEN + body + "?>";
    var s := pre + (decl + (post + rest));
    assert decl + (post + rest) == XML_DECLARATION_OPEN + body + "?>" + (post + rest);
    var j := |pre| + |body| + 6;
    DeclarationHead(pre, decl, post + rest);
    DeclarationClose(pre, body, post + rest);
    DeclarationTail(pre + decl, post, rest);
    assert s == (pre + decl) + (post + rest);
    DeclarationEndAt(s, |pre|, j, j + 1 + |post|);
  }

  /** Spaces, then `<?xml`. */
  lemma DeclarationHead(pre: string, decl: string, tail: string)
    requires All(pre, IsSpace) && XML_DECLARATION_OPEN <= decl
    ensures SkipSpaces(pre + (decl + tail), 0) == |pre| && OpensAt(pre + (decl + tail), |pre|)
  {
    var s := pre + (decl + tail);
    SpacesBefore(pre, decl + tail);
    assert s[|pre|..|pre| + 5] == decl[..5];
  }

  /** The declaration's first `>` is the one after its closing `?`. */
  lemma DeclarationClose(pre: string, body: string, tail: string)
    requires '>' !in body
    ensures var s := pre + ((XML_DECLARATION_OPEN + body + "?>") + tail);
      var j := |pre| + |body| + 6;
      j < |s| && (forall m | |pre| + 5 <= m < j :: s[m] != '>') && s[j] == '>' && s[j - 1] == '?'
  {
    var decl := XML_DECLARATION_OPEN + body + "?>";
    var s := pre + (decl + tail);
    var j := |pre| + |body| + 6;
    forall m | |pre| + 5 <= m < j
      ensures s[m] != '>'
    {
      assert s[m] == decl[m - |pre|];
      if m < j - 1 {
        assert decl[m - |pre|] == body[m - |pre| - 5];
      }
    }
    assert s[j] == decl[|decl| - 1];
  }

  /** The spaces after the declaration are skipped up to what follows them. */
  lemma DeclarationTail(head: string, post: string, rest: string)
    requires All(post, IsSpace) && (rest == [] || !IsSpace(rest[0]))
    ensures SkipSpaces(head + (post + rest), |head|) == |head| + |post|
    ensures (head + (post + rest))[|head| + |post|..] == rest
  {
    SpacesBefore(post, rest);
    SkipSpacesShift(head, post + rest, 0);
  }

  /** The match is found from its parts: where the spaces end, its first `>`, and where the spaces after it end. */
  lemma DeclarationEndAt(s: string, i: nat, j: nat, e: nat)
    requires i + 5 < j < |s| && SkipSpaces(s, 0) == i && OpensAt(s, i)
    requires forall m | i + 5 <= m < j :: s[m] != '>'
    requires s[j] == '>' && s[j - 1] == '?'
    requires SkipSpaces(s, j + 1) == e
    ensures XmlDeclarationEnd(s) == Some(e)
  {
    FirstFromTo(s, '>', i + 5, j);
  }

  /** A run of spaces before a text that does not start with one is what `\s*` takes. */
  lemma SpacesBefore(sp: string, t: string)
    requires All(sp, IsSpace) && (t == [] || !IsSpace(t[0]))
    ensures SkipSpaces(sp + t, 0) == |sp|
  {
    var s := sp + t;
    forall k | 0 <= k < |sp|
      ensures IsSpace(s[k])
    {
      assert s[k] == sp[k];
    }
    if t != [] {
      assert s[|sp|] == t[0];
    }
    SkipSpacesTo(s, 0, |sp|);
  }

  /** The first `>` after `<?xml` is the one that closes the declaration. */
  lemma DeclarationAt(body: string, rest: string)
    requires '>' !in body
    ensures IndexOfChar(body + "?>" + rest, '>') == |body| + 1
  {
    var u := body + "?>" + rest;
    assert u[|body| + 1] == '>';
    assert u[..|body| + 1] == body + "?";
  }

  /** The pattern is anchored: a declaration after the root element's start is left in place. */
  lemma LaterDeclarationKept()
    ensures StripXmlDeclaration("<svg/><?xml?>") == "<svg/><?xml?>"
  {
    var s := "<svg/><?xml?>";
    SkipSpacesTo(s, 0, 0);
  }

  /** The pattern is case-sensitive: an upper-case `<?XML` is not cut. */
  lemma UpperCaseDeclarationKept()
    ensures StripXmlDeclaration("<?XML?><svg/>") == "<?XML?><svg/>"
  {
    SkipSpacesTo("<?XML?><svg/>", 0, 0);
  }

  /** The pattern wants a `?` before the first `>`: `<?xml>` is not cut. */
  lemma UnclosedDeclarationKept()
    ensures StripXmlDeclaration("<?xml><svg/>") == "<?xml><svg/>"
  {
    var t := "<?xml><svg/>";
    SkipSpacesTo(t, 0, 0);
    FirstFromTo(t, '>', 5, 5);
  }

  /**
   * The output `optimize` stores: the document serialized, the declaration
   * cut, the ends trimmed; a failing `preg_replace` (its `null`) throws.
   */
  function ProviderOutput(env: Env, doc: Document): (r: Result<string>)
    ensures env.pcreFails(XML_DECLARATION_REGEX, env.saveToString(doc)) <==> r.Failure?
    ensures r.Failure? ==> r.error == XmlProcessing(XML_PROCESSING_FAILED)
    ensures r.Success? ==> |r.value| <= |env.saveToString(doc)| && Trim(r.value) == r.value
  {
    var content := env.saveToString(doc);
    if env.pcreFails(XML_DECLARATION_REGEX, content) then Failure(XmlProcessing(XML_PROCESSING_FAILED))
    else
      var r := Trim(StripXmlDeclaration(content));
      TrimIdempotent(StripXmlDeclaration(content));
      Success(r)
  }

  /** A serialization that is a declaration followed by the document's trimmed text gives that text. */
  lemma DeclaredOutput(env: Env, doc: Document, body: string, svg: string)
    requires '>' !in body && IsTrimmed(svg) && !IsSpace(svg[0])
    requires env.saveToString(doc) == XML_DECLARATION_OPEN + body + "?>" + "\n" + svg
    requires !env.pcreFails(XML_DECLARATION_REGEX, env.saveToString(doc))
    ensures ProviderOutput(env, doc) == Success(svg)
  {
    assert XML_DECLARATION_OPEN + body + "?>" + "\n" + svg == [] + (XML_DECLARATION_OPEN + body + "?>" + ("\n" + svg));
    LeadingDeclarationStripped([], body, "\n", svg);
    TrimSurrounded([], svg);
    assert [] + svg == svg;
  }

  /** `getMetaData`'s two inputs: the byte lengths of the input and of the output. */
  datatype Sizes = Sizes(originalSize: nat, optimizedSize: nat)

  /** The provider of one input text. */
  class Provider {
    /** `inputContent`, read when the provider is made (`getInputContent()`). */
    var inputContent: string
    /** `outputContent`. */
    var outputContent: string

    /** The stored output is always trimmed. */
    ghost predicate Valid()
      reads this
    {
      Trim(outputContent) == outputContent
    }

    /** No output before the first `optimize`. */
    constructor (input: string)
      ensures inputContent == input && outputContent == ""
      ensures Valid()
    {
      inputContent := input;
      outputContent := "";
    }

    /** `optimize`: the output of `doc` is stored, or the error thrown and the old output kept. */
    method Optimize(env: Env, doc: Document) returns (o: Outcome)
      modifies this
      ensures inputContent == old(inputContent)
      ensures ProviderOutput(env, doc).Success? ==> o == Pass && outputContent == ProviderOutput(env, doc).value
      ensures ProviderOutput(env, doc).Failure? ==>
                o == Fail(ProviderOutput(env, doc).error) && outputContent == old(outputContent)
      ensures old(Valid()) ==> Valid()
    {
      var content := env.saveToString(doc);
      if env.pcreFails(XML_DECLARATION_REGEX, content) {
        return Fail(XmlProcessing(XML_PROCESSING_FAILED));
      }
      outputContent := Trim(StripXmlDeclaration(content));
      o := Pass;
    }

    /** `getMetaData`: the byte lengths of the input and of the stored output. */
    method GetMetaData() returns (m: Sizes)
      ensures m.originalSize == |inputContent| && m.optimizedSize == |outputContent|
    {
      m := Sizes(|inputContent|, |outputContent|);
    }

    /** `getOutputContent`: the stored output, trimmed. */
    function GetOutputContent(): (c: string)
      reads this
      ensures Valid() ==> Trim(c) == c
    {
      outputContent
    }
  }
}

/**
 * `RemoveDoctype`: every `<!DOCTYPE ...>` declaration is cut out of the
 * serialized document, which is then loaded back.
 */
module RemoveDoctype {

  import opened Outcomes
  import opened Strings
  import opened Dom
  import opened Platform
  import opened XmlProcessor

  /** `DOCTYPE_REGEX`. */
  const DOCTYPE_REGEX: string := "/<!DOCTYPE[^>]*>/i"

  const DOCTYPE_OPEN: string := "<!DOCTYPE"

  /**
   * The length of the match of `<!DOCTYPE[^>]*>` (letters in any case) at `i`:
   * the keyword, then everything up to and including the next `>`; 0 when the
   * keyword is not there or no `>` follows it.
   */
  function DoctypeLength(s: string, i: nat): (n: nat)
    ensures n > 0 ==> 10 <= n && i + n <= |s| && StartsWithIgnoreCase(s[i..], DOCTYPE_OPEN)
    ensures n > 0 ==> s[i + n - 1] == '>' && '>' !in s[i + 9..i + n - 1]
  {
    if i <= |s| && StartsWithIgnoreCase(s[i..], DOCTYPE_OPEN) && '>' in s[i + 9..] then
      var g := IndexOfChar(s[i + 9..], '>');
      assert s[i + 9..][..g] == s[i + 9..i + 9 + g];
      10 + g
    else 0
  }

  /** `removeDoctype`: `(string)` turns the `null` of a failed `preg_replace` into `""`. */
  function RemoveDoctypeText(env: Env, content: string): (r: string)
    ensures env.pcreFails(DOCTYPE_REGEX, content) ==> r == ""
    ensures !env.pcreFails(DOCTYPE_REGEX, content) ==> IsSubsequence(r, content) && |r| <= |content|
    ensures !env.pcreFails(DOCTYPE_REGEX, content) && (forall k | 0 <= k < |content| :: DoctypeLength(content, k) == 0) ==>
              r == content
  {
    if env.pcreFails(DOCTYPE_REGEX, content) then "" else DeleteMatches(content, DoctypeLength)
  }

  function Callback(env: Env): XmlProcessor.Callback {
    content => Returned(RemoveDoctypeText(env, content))
  }

  /** The rule's effect: the document loaded from the serialized text with the declarations cut out. */
  function Optimized(env: Env, doc: Document): (r: Result<Document>)
    ensures r.Failure? ==> r.error.XmlProcessing?
    ensures r.Success? ==>
              env.saveXml(doc).Some? &&
              var text := RemoveDoctypeText(env, env.saveXml(doc).value);
              env.isValidSvg(text) && env.loadXml(text) == Some(r.value)
  {
    ProcessedDocument(env, doc, Callback(env))
  }

  /** `optimize`. */
  method Optimize(env: Env, dom: DomDocument) returns (o: Outcome)
    modifies dom
    ensures Optimized(env, old(dom.doc)).Success? ==> o == Pass && dom.doc == Optimized(env, old(dom.doc)).value
    ensures Optimized(env, old(dom.doc)).Failure? ==>
              o == Fail(Optimized(env, old(dom.doc)).error) && dom.doc == old(dom.doc)
  {
    o := Apply(env, dom, Callback(env));
  }

  /** A declaration at the start of the text is cut out with everything up to its `>`. */
  lemma LeadingDoctypeRemoved(decl: string, rest: string)
    requires StartsWithIgnoreCase(decl, DOCTYPE_OPEN)
    requires '>' !in decl[9..]
    ensures ReplaceMatchesFrom(decl + ">" + rest, 0, DoctypeLength, Deleted) ==
              ReplaceMatchesFrom(decl + ">" + rest, |decl| + 1, DoctypeLength, Deleted)
  {
    var s := decl + ">" + rest;
    assert s[0..] == s;
    assert s[..9] == decl[..9];
    assert s[9..][|decl| - 9] == '>';
    assert s[9..][..|decl| - 9] == decl[9..];
    assert IndexOfChar(s[9..], '>') == |decl| - 9;
  }

  /** A match inside `b` is the same match in `p + b`. */
  lemma DoctypeLengthShift(p: string, b: string, k: nat)
    requires k <= |b|
    ensures DoctypeLength(p + b, |p| + k) == DoctypeLength(b, k)
  {
    assert (p + b)[|p| + k..] == b[k..];
  }

  /**
   * A text that opens with one declaration and holds no other loses exactly
   * that declaration.
   */
  lemma LeadingDoctypeOnly(env: Env, decl: string, rest: string)
    requires StartsWithIgnoreCase(decl, DOCTYPE_OPEN) && '>' !in decl[9..]
    requires forall k | 0 <= k < |rest| :: DoctypeLength(rest, k) == 0
    requires !env.pcreFails(DOCTYPE_REGEX, decl + ">" + rest)
    ensures RemoveDoctypeText(env, decl + ">" + rest) == rest
  {
    LeadingDoctypeDeleted(decl, rest);
  }

  lemma LeadingDoctypeDeleted(decl: string, rest: string)
    requires StartsWithIgnoreCase(decl, DOCTYPE_OPEN) && '>' !in decl[9..]
    requires forall k | 0 <= k < |rest| :: DoctypeLength(rest, k) == 0
    ensures DeleteMatches(decl + ">" + rest, DoctypeLength) == rest
  {
    LeadingDoctypeRemoved(decl, rest);
    RestKept(decl + ">", rest);
    assert decl + ">" + rest == (decl + ">") + rest;
  }

  /** After `p`, a `rest` without declarations is copied as it is. */
  lemma RestKept(p: string, rest: string)
    requires forall k | 0 <= k < |rest| :: DoctypeLength(rest, k) == 0
    ensures ReplaceMatchesFrom(p + rest, |p|, DoctypeLength, Deleted) == rest
  {
    NoMatchAfter(p, rest);
    ReplaceMatchesIdentity(p + rest, |p|, DoctypeLength, Deleted);
    assert (p + rest)[|p|..] == rest;
  }

  /** A `rest` without declarations has none in `p + rest` past `p`. */
  lemma NoMatchAfter(p: string, rest: string)
    requires forall k | 0 <= k < |rest| :: DoctypeLength(rest, k) == 0
    ensures forall k | |p| <= k < |p + rest| :: !MatchAt(p + rest, k, DoctypeLength)
  {
    forall k | |p| <= k < |p + rest| ensures !MatchAt(p + rest, k, DoctypeLength) {
      DoctypeLengthShift(p, rest, k - |p|);
    }
  }
}

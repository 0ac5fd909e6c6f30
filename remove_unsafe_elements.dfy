/**
 * The RemoveUnsafeElements rule: stylesheet processing instructions,
 * elements that run or embed content, links to outside resources, event
 * handlers, dangerous URLs and dangerous styles are removed.
 */
module RemoveUnsafeElements {

  import opened Outcomes
  import opened Strings
  import opened Dom
  import opened RemoveElementsByTagNameTrait

  const ALWAYS_REMOVE_TAGS: seq<string> := ["script", "foreignObject", "iframe", "object", "embed"]
  const CONDITIONAL_TAGS: seq<string> := ["image", "use", "link", "tref"]
  const DANGEROUS_ATTR_PREFIXES: seq<string> := ["on"]
  const DANGEROUS_ATTRS_EXACT: seq<string> := ["xlink:href", "href"]
  const URL_ATTRIBUTES: seq<string> := [
    "fill", "stroke", "filter", "clip-path", "mask", "marker-start", "marker-mid",
    "marker-end", "begin", "end", "from", "to", "values", "style"
  ]

  const URI_PROTOCOL_REGEX: string := "~^[a-z][a-z0-9+.-]*:~i"
  const DANGEROUS_PROTOCOLS_REGEX: string := "~^(?:javascript|data|file|http|https|//)~i"
  const STYLE_DANGEROUS_REGEX: string := "/@import|expression|url\\(\\s*javascript:/i"
  const STYLE_NODE_DANGEROUS_REGEX: string := "/@import\\s+url\\(|<\\s*(script|iframe|object|textarea|embed|link|svg)/i"
  const URL_FUNCTION_REGEX: string := "/url\\(\\s*(['\"]?)(.*?)\\1\\s*\\)/i"
  const URL_PROTOCOL_OR_RELATIVE_REGEX: string := "~^(?:[a-z][a-z0-9+.-]*:|//)~i"

  /** The alternatives of `DANGEROUS_PROTOCOLS_REGEX`. */
  const DANGEROUS_PROTOCOLS: seq<string> := ["javascript", "data", "file", "http", "https", "//"]

  /** The tag names of `STYLE_NODE_DANGEROUS_REGEX`. */
  const STYLE_NODE_TAGS: seq<string> := ["script", "iframe", "object", "textarea", "embed", "link", "svg"]

  /** The attributes `removeIfDangerous` reads, in order. */
  const LINK_ATTRIBUTES: seq<string> := ["href", "xlink:href"]

  // ---------------------------------------------------------------------
  // The patterns

  /** `[a-z0-9+.-]` under the `i` modifier. */
  predicate IsSchemeChar(c: char) {
    IsAsciiLetter(c) || IsDigit(c) || c == '+' || c == '.' || c == '-'
  }

  /** `URI_PROTOCOL_REGEX`: a letter, then scheme characters, then `:`. */
  predicate HasScheme(v: string) {
    |v| > 0 && IsAsciiLetter(v[0]) && var j := SkipWhile(v, 1, IsSchemeChar); j < |v| && v[j] == ':'
  }

  /** A value has a scheme exactly when it is a letter and scheme characters up to its first `:`. */
  lemma HasSchemeMeans(v: string)
    ensures HasScheme(v) <==>
      exists j | 1 <= j < |v| :: v[j] == ':' && IsAsciiLetter(v[0]) && All(v[1..j], IsSchemeChar)
  {
    if HasScheme(v) {
      var j := SkipWhile(v, 1, IsSchemeChar);
      AllIn(v, 1, j, IsSchemeChar);
    }
    if exists j | 1 <= j < |v| :: v[j] == ':' && IsAsciiLetter(v[0]) && All(v[1..j], IsSchemeChar) {
      var j :| 1 <= j < |v| && v[j] == ':' && IsAsciiLetter(v[0]) && All(v[1..j], IsSchemeChar);
      SkipOver(v, 1, j, IsSchemeChar);
    }
  }

  /** `DANGEROUS_PROTOCOLS_REGEX`: the value starts, in any case, with one of the alternatives. */
  predicate HasDangerousProtocol(v: string) {
    exists p | p in DANGEROUS_PROTOCOLS :: StartsWithIgnoreCase(v, p)
  }

  /**
   * No `:` is required after the word: every value that begins with one of
   * the alternatives is flagged, a relative path such as `data/icon.png`
   * included.
   */
  lemma ProtocolPrefixFlagged(p: string, rest: string)
    requires p in DANGEROUS_PROTOCOLS
    ensures HasDangerousProtocol(p + rest)
  {
    assert (p + rest)[..|p|] == p;
  }

  lemma FirstLetters()
    ensures forall p | p in DANGEROUS_PROTOCOLS :: |p| > 0 && p[0] in "jdfh/"
  {
    assert DANGEROUS_PROTOCOLS[0][0] == 'j';
    assert DANGEROUS_PROTOCOLS[1][0] == 'd';
    assert DANGEROUS_PROTOCOLS[2][0] == 'f';
    assert DANGEROUS_PROTOCOLS[3][0] == 'h';
    assert DANGEROUS_PROTOCOLS[4][0] == 'h';
    assert DANGEROUS_PROTOCOLS[5][0] == '/';
  }

  /** A value that does not start with `j`, `d`, `f`, `h` or `/`, in any case, is never flagged. */
  lemma OtherStartsSafe(v: string)
    requires v == [] || LowerChar(v[0]) !in "jdfh/"
    ensures !HasDangerousProtocol(v)
  {
    FirstLetters();
    if v != [] {
      forall p | p in DANGEROUS_PROTOCOLS
        ensures !StartsWithIgnoreCase(v, p)
      {
        if |p| <= |v| {
          assert ToLower(v[..|p|])[0] == LowerChar(v[0]);
          assert ToLower(p)[0] == p[0];
        }
      }
    }
  }

  /** `URL_PROTOCOL_OR_RELATIVE_REGEX`. */
  predicate IsProtocolOrRelative(v: string) {
    HasScheme(v) || "//" <= v
  }

  /** A fragment, or a path with no `:` that does not start with `//`, is neither. */
  lemma RelativeReferenceSafe(v: string)
    requires ':' !in v && !("//" <= v)
    ensures !IsProtocolOrRelative(v)
  {
  }

  /** `\s*\)` matches at `k`. */
  predicate ClosesAt(s: string, k: nat)
    requires k <= |s|
  {
    var e := SkipSpaces(s, k); e < |s| && s[e] == ')'
  }

  /**
   * The end of the lazy `(.*?)` after the quote `q` that opened at `j - 1`:
   * the first `q` on the same line that `\s*\)` follows.
   */
  function QuotedEnd(s: string, j: nat, q: char): (r: Option<nat>)
    requires j <= |s|
    ensures r.Some? ==> j <= r.value < |s| && s[r.value] == q && ClosesAt(s, r.value + 1)
    ensures r.Some? ==> forall k | j <= k < r.value :: s[k] != '\n' && !(s[k] == q && ClosesAt(s, k + 1))
    decreases |s| - j
  {
    if j == |s| then None
    else if s[j] == q && ClosesAt(s, j + 1) then Some(j)
    else if s[j] == '\n' then None
    else QuotedEnd(s, j + 1, q)
  }

  /** The end of the lazy `(.*?)` with no quote: the first place on the line that `\s*\)` follows. */
  function PlainEnd(s: string, j: nat): (r: Option<nat>)
    requires j <= |s|
    ensures r.Some? ==> j <= r.value <= |s| && ClosesAt(s, r.value)
    ensures r.Some? ==> forall k | j <= k < r.value :: s[k] != '\n' && !ClosesAt(s, k)
    decreases |s| - j
  {
    if ClosesAt(s, j) then Some(j)
    else if j == |s| || s[j] == '\n' then None
    else PlainEnd(s, j + 1)
  }

  /**
   * Group 2 of a match of `URL_FUNCTION_REGEX` whose `url(` ends at `start`:
   * the quoted form is tried first, then the form without quotes.
   */
  function UrlTargetAt(s: string, start: nat): Option<string>
    requires start <= |s|
  {
    var p := SkipSpaces(s, start);
    var quoted := if p < |s| && (s[p] == '\'' || s[p] == '"') then QuotedEnd(s, p + 1, s[p]) else None;
    if quoted.Some? then Some(s[p + 1..quoted.value])
    else match PlainEnd(s, p)
      case Some(e) => Some(s[p..e])
      case None => None
  }

  /** Group 2 of the leftmost match of `URL_FUNCTION_REGEX` that starts at `i` or later. */
  function UrlTargetFrom(s: string, i: nat): Option<string>
    requires i <= |s|
    decreases |s| - i
  {
    if |s| < i + 4 then None
    else if StartsWithIgnoreCase(s[i..], "url(") && UrlTargetAt(s, i + 4).Some? then UrlTargetAt(s, i + 4)
    else UrlTargetFrom(s, i + 1)
  }

  /** The reference inside the first `url(...)` of a value. */
  function UrlTarget(v: string): Option<string> {
    UrlTargetFrom(v, 0)
  }

  /**
   * `url(T)` gives back `T`, for a `T` on one line without `)` that neither
   * starts with a quote or `\s` nor ends with `\s`.
   */
  lemma UrlTargetOfWrapped(t: string, v: string)
    requires v == "url(" + t + ")"
    requires ')' !in t && '\n' !in t
    requires t == [] || (t[0] != '\'' && t[0] != '"' && !IsSpace(t[0]) && !IsSpace(t[|t| - 1]))
    ensures UrlTarget(v) == Some(t)
  {
    assert v[..4] == "url(";
    assert v[4..4 + |t|] == t;
    SkipSpacesTo(v, 4, 4);
    WrappedEnds(t, v);
  }

  /** The lazy group of `url(T)` ends before the last `)`. */
  lemma WrappedEnds(t: string, v: string)
    requires v == "url(" + t + ")"
    requires ')' !in t && '\n' !in t
    requires t == [] || !IsSpace(t[|t| - 1])
    ensures PlainEnd(v, 4) == Some(4 + |t|)
  {
    assert forall k | 0 <= k < |t| :: v[4 + k] == t[k];
    assert v[4 + |t|] == ')';
    assert ClosesAt(v, 4 + |t|) by {
      SkipSpacesTo(v, 4 + |t|, 4 + |t|);
    }
    forall k | 4 <= k < 4 + |t|
      ensures !ClosesAt(v, k)
    {
    }
    PlainEndTo(v, 4, 4 + |t|);
  }

  lemma {:induction false} PlainEndTo(s: string, j: nat, e: nat)
    requires j <= e <= |s| && ClosesAt(s, e)
    requires forall k | j <= k < e :: s[k] != '\n' && !ClosesAt(s, k)
    ensures PlainEnd(s, j) == Some(e)
    decreases e - j
  {
    if j < e {
      PlainEndTo(s, j + 1, e);
    }
  }

  /** `url\(\s*javascript:` at `i`. */
  predicate JavascriptUrlAt(s: string, i: nat)
    requires i <= |s|
  {
    StartsWithIgnoreCase(s[i..], "url(") && StartsWithIgnoreCase(s[SkipSpaces(s, i + 4)..], "javascript:")
  }

  /** `STYLE_DANGEROUS_REGEX`. */
  predicate StyleDangerous(v: string) {
    Contains(ToLower(v), "@import") || Contains(ToLower(v), "expression")
    || exists i | 0 <= i <= |v| :: JavascriptUrlAt(v, i)
  }

  /** `@import\s+url\(` at `i`. */
  predicate ImportUrlAt(s: string, i: nat)
    requires i <= |s|
  {
    StartsWithIgnoreCase(s[i..], "@import") && var j := SkipSpaces(s, i + 7); i + 7 < j && StartsWithIgnoreCase(s[j..], "url(")
  }

  /** `<\s*(script|iframe|object|textarea|embed|link|svg)` at `i`. */
  predicate TagOpenAt(s: string, i: nat)
    requires i < |s|
  {
    s[i] == '<' && exists t | t in STYLE_NODE_TAGS :: StartsWithIgnoreCase(s[SkipSpaces(s, i + 1)..], t)
  }

  /** `STYLE_NODE_DANGEROUS_REGEX`. */
  predicate StyleNodeDangerous(text: string) {
    exists i | 0 <= i < |text| :: ImportUrlAt(text, i) || TagOpenAt(text, i)
  }

  /** `@import url(` anywhere in a style's text makes it dangerous, in any case and after any text. */
  lemma ImportUrlFlagged(pre: string, post: string)
    ensures StyleNodeDangerous(pre + "@import url(" + post)
  {
    var text := pre + "@import url(" + post;
    var i := |pre|;
    assert text[i..][..7] == "@import";
    assert text[i + 7] == ' ' && text[i + 8] == 'u';
    SkipSpacesTo(text, i + 7, i + 8);
    assert text[i + 8..][..4] == "url(";
    assert ImportUrlAt(text, i);
  }

  /** A style's text without `@` and without `<` is never dangerous. */
  lemma StyleWithoutMarkersSafe(text: string)
    requires '@' !in text && '<' !in text
    ensures !StyleNodeDangerous(text)
  {
    forall i | 0 <= i < |text|
      ensures !ImportUrlAt(text, i) && !TagOpenAt(text, i)
    {
      assert text[i] != '@';
      if 7 <= |text[i..]| {
        assert ToLower(text[i..][..7])[0] == LowerChar(text[i]) != '@';
      }
    }
  }

  // ---------------------------------------------------------------------
  // Judging one attribute

  /** `hasDangerousPrefix`. */
  predicate HasDangerousPrefix(name: string) {
    exists p | p in DANGEROUS_ATTR_PREFIXES :: p <= ToLower(name)
  }

  /** `isExactDangerousAttribute`. */
  predicate IsExactDangerousAttribute(name: string, value: string) {
    name in DANGEROUS_ATTRS_EXACT && HasDangerousProtocol(value)
  }

  /** `isUrlAttributeDangerous`: the target of the first `url(...)`, or else the whole value. */
  predicate IsUrlAttributeDangerous(name: string, value: string) {
    name in URL_ATTRIBUTES &&
    match UrlTarget(value)
    case Some(target) => IsProtocolOrRelative(Trim(target))
    case None => IsProtocolOrRelative(Trim(value))
  }

  /** `isDangerousAttribute`, on the lower-cased name. */
  predicate IsDangerousAttribute(name: string, value: string) {
    var lower := ToLower(name);
    HasDangerousPrefix(lower)
    || IsExactDangerousAttribute(lower, value)
    || IsUrlAttributeDangerous(lower, value)
    || (lower == "style" && StyleDangerous(value))
    || (lower == "src" && HasScheme(value))
  }

  /** Event handlers go whatever their value. */
  lemma EventHandlersDangerous(name: string, value: string)
    requires |name| >= 2 && LowerChar(name[0]) == 'o' && LowerChar(name[1]) == 'n'
    ensures IsDangerousAttribute(name, value)
  {
    ToLowerIdempotent(name);
    assert ToLower(name)[0] == 'o' && ToLower(name)[1] == 'n';
    assert DANGEROUS_ATTR_PREFIXES[0] in DANGEROUS_ATTR_PREFIXES;
    assert DANGEROUS_ATTR_PREFIXES[0] <= ToLower(ToLower(name));
    assert HasDangerousPrefix(ToLower(name));
  }

  /** A URL attribute whose `url(...)` reference starts with `#` is kept. */
  lemma FragmentReferenceSafe(name: string, value: string, target: string)
    requires UrlTarget(value) == Some(target)
    requires Trim(target) != [] && Trim(target)[0] == '#'
    ensures !IsUrlAttributeDangerous(name, value)
  {
  }

  /** A URL attribute is dangerous exactly when its reference has a scheme or starts with `//`. */
  lemma UrlAttributeDangerMeans(name: string, value: string)
    requires name in URL_ATTRIBUTES
    ensures IsUrlAttributeDangerous(name, value) <==>
      (var r := if UrlTarget(value).Some? then Trim(UrlTarget(value).value) else Trim(value);
       HasScheme(r) || "//" <= r)
  {
  }

  /**
   * Only the listed names can make an attribute dangerous: one whose
   * lower-cased name neither starts with `on` nor is `href`, `xlink:href`,
   * `src` or a URL attribute is kept whatever its value.
   */
  lemma DangerousNamesOnly(name: string, value: string)
    requires !("on" <= ToLower(name))
    requires ToLower(name) !in DANGEROUS_ATTRS_EXACT && ToLower(name) !in URL_ATTRIBUTES && ToLower(name) != "src"
    ensures !IsDangerousAttribute(name, value)
  {
    ToLowerIdempotent(name);
    assert "style" in URL_ATTRIBUTES;
    assert !HasDangerousPrefix(ToLower(name)) by {
      assert DANGEROUS_ATTR_PREFIXES == ["on"];
    }
  }

  // ---------------------------------------------------------------------
  // Processing instructions

  /** A processing instruction whose target contains `xml-stylesheet`, in any case. */
  predicate IsStylesheetInstruction(n: Node) {
    n.ProcessingInstruction? && Contains(ToLower(n.target), "xml-stylesheet")
  }

  /** `str_contains` finds a text that starts at any position. */
  lemma {:induction false} ContainsAt(s: string, sub: string, i: nat)
    requires i <= |s| && sub <= s[i..]
    ensures Contains(s, sub)
    decreases i
  {
    if i > 0 {
      assert s[1..][i - 1..] == s[i..];
      ContainsAt(s[1..], sub, i - 1);
    }
  }

  /** An instruction whose target holds `xml-stylesheet` anywhere, in any case, is selected. */
  lemma StylesheetTargetSelected(target: string, data: string, i: nat)
    requires i + 14 <= |target| && ToLower(target[i..i + 14]) == "xml-stylesheet"
    ensures IsStylesheetInstruction(ProcessingInstruction(target, data))
  {
    var lower := ToLower(target);
    assert lower[i..][..14] == ToLower(target[i..i + 14]);
    ContainsAt(lower, "xml-stylesheet", i);
  }

  /**
   * A walk over the document's children that removes what `p` selects, as
   * `removeProcessingInstructions` writes it: a removed node has no next
   * sibling any more, so the walk ends at the first removal.
   */
  function DropFirst(ns: seq<Node>, p: Node -> bool): (r: seq<Node>)
    ensures |ns| - 1 <= |r| <= |ns|
  {
    if ns == [] then []
    else if p(ns[0]) then ns[1..]
    else [ns[0]] + DropFirst(ns[1..], p)
  }

  /** Corrected: every child `p` selects goes. */
  function DropAll(ns: seq<Node>, p: Node -> bool): (r: seq<Node>)
    ensures |r| <= |ns|
  {
    if ns == [] then []
    else (if p(ns[0]) then [] else [ns[0]]) + DropAll(ns[1..], p)
  }

  /** Exactly the children `p` selects go. */
  lemma {:induction false} DropAllKeeps(ns: seq<Node>, p: Node -> bool)
    ensures forall k | 0 <= k < |DropAll(ns, p)| :: !p(DropAll(ns, p)[k])
    ensures forall n | n in ns :: n in DropAll(ns, p) <==> !p(n)
  {
    if ns != [] {
      DropAllKeeps(ns[1..], p);
      assert ns == [ns[0]] + ns[1..];
    }
  }

  /** The walk stops early only where it removed something: with at most one selected child it drops them all. */
  lemma {:induction false} DropFirstOfOne(ns: seq<Node>, p: Node -> bool)
    requires forall i, j | 0 <= i < j < |ns| :: !(p(ns[i]) && p(ns[j]))
    ensures DropFirst(ns, p) == DropAll(ns, p)
  {
    if ns != [] {
      DropFirstOfOne(ns[1..], p);
      if p(ns[0]) {
        DropAllIdentity(ns[1..], p);
      }
    }
  }

  lemma {:induction false} DropAllIdentity(ns: seq<Node>, p: Node -> bool)
    requires forall k | 0 <= k < |ns| :: !p(ns[k])
    ensures DropAll(ns, p) == ns
  {
    if ns != [] {
      DropAllIdentity(ns[1..], p);
    }
  }

  /** The walk as the source writes it. */
  method RemoveProcessingInstructionsAsWritten(dom: DomDocument)
    modifies dom
    ensures dom.doc == Document(DropFirst(old(dom.doc).nodes, IsStylesheetInstruction))
  {
    var nodes := DropFirstFrom(dom.doc.nodes, IsStylesheetInstruction);
    dom.doc := Document(nodes);
  }

  method DropFirstFrom(ns: seq<Node>, p: Node -> bool) returns (r: seq<Node>)
    ensures r == DropFirst(ns, p)
  {
    for i := 0 to |ns|
      invariant forall k | 0 <= k < i :: !p(ns[k])
    {
      if p(ns[i]) {
        DropFirstAt(ns, p, i);
        return ns[..i] + ns[i + 1..];
      }
    }
    DropFirstNone(ns, p);
    r := ns;
  }

  /** The first selected child is the one that goes. */
  lemma {:induction false} DropFirstAt(ns: seq<Node>, p: Node -> bool, i: nat)
    requires i < |ns| && p(ns[i])
    requires forall k | 0 <= k < i :: !p(ns[k])
    ensures DropFirst(ns, p) == ns[..i] + ns[i + 1..]
  {
    if i > 0 {
      DropFirstAt(ns[1..], p, i - 1);
      assert ns[1..][..i - 1] + ns[1..][i..] == ns[1..i] + ns[i + 1..];
      assert ns[..i] == [ns[0]] + ns[1..i];
    }
  }

  lemma {:induction false} DropFirstNone(ns: seq<Node>, p: Node -> bool)
    requires forall k | 0 <= k < |ns| :: !p(ns[k])
    ensures DropFirst(ns, p) == ns
  {
    if ns != [] {
      DropFirstNone(ns[1..], p);
    }
  }

  /** The corrected walk: after a removal it goes on from the node that followed. */
  method RemoveProcessingInstructions(dom: DomDocument)
    modifies dom
    ensures dom.doc == Document(DropAll(old(dom.doc).nodes, IsStylesheetInstruction))
  {
    var nodes := DropAllFrom(dom.doc.nodes, IsStylesheetInstruction);
    dom.doc := Document(nodes);
  }

  method DropAllFrom(ns: seq<Node>, p: Node -> bool) returns (r: seq<Node>)
    ensures r == DropAll(ns, p)
  {
    r := [];
    var i := |ns|;
    while i > 0
      invariant 0 <= i <= |ns| && r == DropAll(ns[i..], p)
    {
      i := i - 1;
      assert ns[i..][1..] == ns[i + 1..];
      if !p(ns[i]) {
        r := [ns[i]] + r;
      }
    }
  }

  /** Two stylesheet instructions in a row: the walk as written removes only the first. */
  lemma WalkStopsAfterFirstRemoval(pi: Node)
    requires IsStylesheetInstruction(pi)
    ensures DropFirst([pi, pi], IsStylesheetInstruction) == [pi]
    ensures DropAll([pi, pi], IsStylesheetInstruction) == []
  {
    assert [pi, pi][1..] == [pi];
    assert [pi][1..] == [];
  }

  // ---------------------------------------------------------------------
  // Elements

  /** `removeAlwaysDangerousTags`: every element with each name, in turn. */
  function WithoutTags(ns: seq<Node>, tags: seq<string>): seq<Node>
    decreases |tags|
  {
    if tags == [] then ns else WithoutTags(RemoveWhere(ns, HasTagName(tags[0])), tags[1..])
  }

  /** `removeIfDangerous`'s loop: the first of `names` whose raw value is dangerous, where it stops. */
  function FirstDangerousLink(attrs: Attributes, names: seq<string>): (r: Option<string>)
    ensures r.Some? ==> r.value in names && IsExactDangerousAttribute(r.value, GetAttribute(attrs, r.value))
    ensures r.None? ==> forall n | n in names :: !IsExactDangerousAttribute(n, GetAttribute(attrs, n))
  {
    if names == [] then None
    else if IsExactDangerousAttribute(names[0], GetAttribute(attrs, names[0])) then Some(names[0])
    else FirstDangerousLink(attrs, names[1..])
  }

  /** An element named `tag` that `removeIfDangerous` removes. */
  function IsDangerousLink(tag: string): Node -> bool {
    (n: Node) => n.Element? && n.name == tag && FirstDangerousLink(n.attrs, LINK_ATTRIBUTES).Some?
  }

  /** An element is a dangerous link exactly when `href` or `xlink:href` starts with a dangerous protocol. */
  lemma DangerousLinkMeans(attrs: Attributes)
    ensures FirstDangerousLink(attrs, LINK_ATTRIBUTES).Some? <==>
      HasDangerousProtocol(GetAttribute(attrs, "href")) || HasDangerousProtocol(GetAttribute(attrs, "xlink:href"))
  {
    assert LINK_ATTRIBUTES[0] == DANGEROUS_ATTRS_EXACT[1];
    assert LINK_ATTRIBUTES[1] == DANGEROUS_ATTRS_EXACT[0];
  }

  /** `removeConditionallyDangerousTags`: each name's list, walked from its last item. */
  function WithoutDangerousLinks(ns: seq<Node>, tags: seq<string>): seq<Node>
    decreases |tags|
  {
    if tags == [] then ns else WithoutDangerousLinks(Sift(ns, IsDangerousLink(tags[0])), tags[1..])
  }

  /** A `<style>` element whose text `removeStyleWithImport` flags. */
  predicate IsDangerousStyle(n: Node) {
    n.Element? && n.name == "style" && StyleNodeDangerous(TextContent(n))
  }

  // ---------------------------------------------------------------------
  // Attributes

  /** Whether `removeDangerousAttributes` keeps `k`: it judges the local name and the trimmed value. */
  predicate KeepsAttribute(attrs: Attributes, k: string)
    requires k in attrs
  {
    IsNamespaceDeclaration(k) || !IsDangerousAttribute(LocalName(k), Trim(attrs[k].value))
  }

  /** One element's attributes after `removeDangerousAttributes`. */
  function WithoutDangerous(name: string, uri: string, attrs: Attributes): (r: Attributes)
    ensures forall k | k in r :: k in attrs && r[k] == attrs[k]
    ensures forall k | k in attrs :: k in r <==> KeepsAttribute(attrs, k)
  {
    map k | k in attrs && KeepsAttribute(attrs, k) :: attrs[k]
  }

  /** No attribute but a namespace declaration is dangerous. */
  predicate NoDangerousAttribute(name: string, uri: string, attrs: Attributes) {
    forall k | k in attrs && !IsNamespaceDeclaration(k) :: !IsDangerousAttribute(LocalName(k), Trim(attrs[k].value))
  }

  /** The attribute loop of `removeDangerousAttributes`, on one element's snapshot. */
  method RemoveDangerousFromElement(attrs: Attributes) returns (r: Attributes)
    ensures forall k | k in r :: k in attrs && r[k] == attrs[k]
    ensures forall k | k in attrs :: k in r <==> KeepsAttribute(attrs, k)
  {
    var listed := set k | k in attrs && !IsNamespaceDeclaration(k);
    r := RemoveListedWhere(attrs, listed, k => k in attrs && IsDangerousAttribute(LocalName(k), Trim(attrs[k].value)));
  }

  /** Visits each of `listed` once, in any order, and removes it when `drop` holds. */
  method RemoveListedWhere(attrs: Attributes, listed: set<string>, drop: string -> bool) returns (r: Attributes)
    ensures forall k | k in r :: k in attrs && r[k] == attrs[k]
    ensures forall k :: k in r <==> k in attrs && !(k in listed && drop(k))
  {
    r := attrs;
    var unseen := listed;
    while unseen != {}
      invariant unseen <= listed
      invariant forall k :: k in r <==> k in attrs && !(k in listed && k !in unseen && drop(k))
      invariant forall k | k in r :: r[k] == attrs[k]
      decreases unseen
    {
      var k :| k in unseen;
      if drop(k) {
        r := r - {k};
      }
      unseen := unseen - {k};
    }
  }

  /** `removeDangerousAttributes`: every element, at every depth. */
  method RemoveDangerousAttributes(ns: seq<Node>) returns (r: seq<Node>)
    ensures r == MapAttributes(ns, WithoutDangerous)
    decreases ns
  {
    if ns == [] {
      return [];
    }
    var head := RemoveDangerousAttributesIn(ns[0]);
    var tail := RemoveDangerousAttributes(ns[1..]);
    r := [head] + tail;
  }

  method RemoveDangerousAttributesIn(n: Node) returns (r: Node)
    ensures r == MapAttributesIn(n, WithoutDangerous)
    decreases n
  {
    if !n.Element? {
      return n;
    }
    var attrs := RemoveDangerousFromElement(n.attrs);
    assert attrs == WithoutDangerous(n.name, n.ns, n.attrs);
    var children := RemoveDangerousAttributes(n.children);
    r := Element(n.name, n.ns, attrs, children);
  }

  // ---------------------------------------------------------------------
  // The rule

  function Optimized(doc: Document): Document {
    var safeTags := WithoutDangerousLinks(WithoutTags(DropAll(doc.nodes, IsStylesheetInstruction), ALWAYS_REMOVE_TAGS), CONDITIONAL_TAGS);
    Document(Sift(MapAttributes(safeTags, WithoutDangerous), IsDangerousStyle))
  }

  method RemoveAlwaysDangerousTags(dom: DomDocument)
    modifies dom
    ensures dom.doc == Document(WithoutTags(old(dom.doc).nodes, ALWAYS_REMOVE_TAGS))
  {
    ghost var target := WithoutTags(dom.doc.nodes, ALWAYS_REMOVE_TAGS);
    for i := 0 to |ALWAYS_REMOVE_TAGS|
      invariant WithoutTags(dom.doc.nodes, ALWAYS_REMOVE_TAGS[i..]) == target
    {
      assert ALWAYS_REMOVE_TAGS[i..][1..] == ALWAYS_REMOVE_TAGS[i + 1..];
      RemoveElementsByTagName(dom, ALWAYS_REMOVE_TAGS[i]);
    }
  }

  method RemoveConditionallyDangerousTags(dom: DomDocument)
    modifies dom
    ensures dom.doc == Document(WithoutDangerousLinks(old(dom.doc).nodes, CONDITIONAL_TAGS))
  {
    ghost var target := WithoutDangerousLinks(dom.doc.nodes, CONDITIONAL_TAGS);
    for i := 0 to |CONDITIONAL_TAGS|
      invariant WithoutDangerousLinks(dom.doc.nodes, CONDITIONAL_TAGS[i..]) == target
    {
      assert CONDITIONAL_TAGS[i..][1..] == CONDITIONAL_TAGS[i + 1..];
      var nodes := SiftNodes(dom.doc.nodes, IsDangerousLink(CONDITIONAL_TAGS[i]));
      dom.doc := Document(nodes);
    }
  }

  /** `optimize`: instructions, then elements, then attributes, then `<style>` elements. */
  method Optimize(dom: DomDocument)
    modifies dom
    ensures dom.doc == Optimized(old(dom.doc))
  {
    RemoveProcessingInstructions(dom);
    RemoveAlwaysDangerousTags(dom);
    RemoveConditionallyDangerousTags(dom);
    var nodes := RemoveDangerousAttributes(dom.doc.nodes);
    nodes := SiftNodes(nodes, IsDangerousStyle);
    dom.doc := Document(nodes);
  }

  // ---------------------------------------------------------------------
  // What the rule leaves

  lemma HasTagNameIgnoresAttributes(tag: string, f: AttributeRewrite)
    ensures forall n: Node :: HasTagName(tag)(MapAttributesIn(n, f)) == HasTagName(tag)(n)
  {
    forall n: Node ensures HasTagName(tag)(MapAttributesIn(n, f)) == HasTagName(tag)(n) {
    }
  }

  /** Removing elements by name never adds a node passing a test on the node itself. */
  lemma {:induction false} WithoutTagsNeverAdds(ns: seq<Node>, tags: seq<string>, q: Node -> bool)
    requires HeadOnly(q)
    ensures Count(WithoutTags(ns, tags), q) <= Count(ns, q)
    decreases |tags|
  {
    if tags != [] {
      RemoveWhereNeverAdds(ns, HasTagName(tags[0]), q);
      WithoutTagsNeverAdds(RemoveWhere(ns, HasTagName(tags[0])), tags[1..], q);
    }
  }

  /** No element with one of the names is left. */
  lemma {:induction false} WithoutTagsClears(ns: seq<Node>, tags: seq<string>, tag: string)
    requires tag in tags
    ensures Count(WithoutTags(ns, tags), HasTagName(tag)) == 0
    decreases |tags|
  {
    HasTagNameHeadOnly(tag);
    if tags[0] == tag {
      RemoveWhereClears(ns, HasTagName(tag));
      WithoutTagsNeverAdds(RemoveWhere(ns, HasTagName(tag)), tags[1..], HasTagName(tag));
    } else {
      WithoutTagsClears(RemoveWhere(ns, HasTagName(tags[0])), tags[1..], tag);
    }
  }

  lemma {:induction false} WithoutDangerousLinksNeverAdds(ns: seq<Node>, tags: seq<string>, q: Node -> bool)
    requires HeadOnly(q)
    ensures Count(WithoutDangerousLinks(ns, tags), q) <= Count(ns, q)
    decreases |tags|
  {
    if tags != [] {
      SiftNeverAdds(ns, IsDangerousLink(tags[0]), q);
      WithoutDangerousLinksNeverAdds(Sift(ns, IsDangerousLink(tags[0])), tags[1..], q);
    }
  }

  lemma IsDangerousLinkHeadOnly(tag: string)
    ensures HeadOnly(IsDangerousLink(tag))
  {
    forall n: Node ensures IsDangerousLink(tag)(n) == IsDangerousLink(tag)(Head(n)) {
    }
  }

  /** No element with one of the names and a dangerous link is left. */
  lemma {:induction false} WithoutDangerousLinksClears(ns: seq<Node>, tags: seq<string>, tag: string)
    requires tag in tags
    ensures Count(WithoutDangerousLinks(ns, tags), IsDangerousLink(tag)) == 0
    decreases |tags|
  {
    IsDangerousLinkHeadOnly(tag);
    if tags[0] == tag {
      SiftClears(ns, IsDangerousLink(tag));
      WithoutDangerousLinksNeverAdds(Sift(ns, IsDangerousLink(tag)), tags[1..], IsDangerousLink(tag));
    } else {
      WithoutDangerousLinksClears(Sift(ns, IsDangerousLink(tags[0])), tags[1..], tag);
    }
  }

  /** Removing attributes cannot make a link dangerous: a removed link reads as the empty string. */
  lemma DangerousLinkNotAdded(tag: string)
    ensures forall n: Node :: IsDangerousLink(tag)(MapAttributesIn(n, WithoutDangerous)) ==> IsDangerousLink(tag)(n)
  {
    forall n: Node | IsDangerousLink(tag)(MapAttributesIn(n, WithoutDangerous))
      ensures IsDangerousLink(tag)(n)
    {
      var a := WithoutDangerous(n.name, n.ns, n.attrs);
      DangerousLinkMeans(a);
      DangerousLinkMeans(n.attrs);
      OtherStartsSafe("");
    }
  }

  /** No `script`, `foreignObject`, `iframe`, `object` or `embed` element is left. */
  lemma OptimizedRemovesAlwaysDangerous(doc: Document, tag: string)
    requires tag in ALWAYS_REMOVE_TAGS
    ensures Count(Optimized(doc).nodes, HasTagName(tag)) == 0
  {
    var a := WithoutTags(DropAll(doc.nodes, IsStylesheetInstruction), ALWAYS_REMOVE_TAGS);
    var b := WithoutDangerousLinks(a, CONDITIONAL_TAGS);
    HasTagNameHeadOnly(tag);
    WithoutTagsClears(DropAll(doc.nodes, IsStylesheetInstruction), ALWAYS_REMOVE_TAGS, tag);
    WithoutDangerousLinksNeverAdds(a, CONDITIONAL_TAGS, HasTagName(tag));
    HasTagNameIgnoresAttributes(tag, WithoutDangerous);
    MapAttributesKeepsCount(b, WithoutDangerous, HasTagName(tag));
    SiftNeverAdds(MapAttributes(b, WithoutDangerous), IsDangerousStyle, HasTagName(tag));
  }

  /** No `image`, `use`, `link` or `tref` element whose link is dangerous is left. */
  lemma OptimizedRemovesDangerousLinks(doc: Document, tag: string)
    requires tag in CONDITIONAL_TAGS
    ensures Count(Optimized(doc).nodes, IsDangerousLink(tag)) == 0
  {
    var a := WithoutTags(DropAll(doc.nodes, IsStylesheetInstruction), ALWAYS_REMOVE_TAGS);
    var b := WithoutDangerousLinks(a, CONDITIONAL_TAGS);
    IsDangerousLinkHeadOnly(tag);
    WithoutDangerousLinksClears(a, CONDITIONAL_TAGS, tag);
    DangerousLinkNotAdded(tag);
    MapAttributesNeverAdds(b, WithoutDangerous, IsDangerousLink(tag));
    SiftNeverAdds(MapAttributes(b, WithoutDangerous), IsDangerousStyle, IsDangerousLink(tag));
  }

  /** No element keeps a dangerous attribute. */
  lemma OptimizedLeavesNoDangerousAttribute(doc: Document)
    ensures AllElements(Optimized(doc).nodes, NoDangerousAttribute)
  {
    var b := WithoutDangerousLinks(WithoutTags(DropAll(doc.nodes, IsStylesheetInstruction), ALWAYS_REMOVE_TAGS), CONDITIONAL_TAGS);
    MapAttributesEstablishes(b, WithoutDangerous, NoDangerousAttribute);
    SiftKeepsAll(MapAttributes(b, WithoutDangerous), IsDangerousStyle, NoDangerousAttribute);
  }

  /** No `<style>` element with a dangerous text is left. */
  lemma OptimizedRemovesDangerousStyles(doc: Document)
    ensures Count(Optimized(doc).nodes, IsDangerousStyle) == 0
  {
    var b := WithoutDangerousLinks(WithoutTags(DropAll(doc.nodes, IsStylesheetInstruction), ALWAYS_REMOVE_TAGS), CONDITIONAL_TAGS);
    SiftClears(MapAttributes(b, WithoutDangerous), IsDangerousStyle);
  }
}

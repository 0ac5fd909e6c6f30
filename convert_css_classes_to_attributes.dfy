/**
 * The ConvertCssClassesToAttributes rule.  Every `.class { ... }` rule of
 * every `<style>` element is read; its declarations that name an SVG
 * presentation property are set as attributes on each element carrying the
 * class, and the rest are written back to the style as `.class{p:v;...}`.
 * A style left with nothing is removed.
 *
 * The source handles one `<style>` at a time: it converts all of that
 * style's rules, then rewrites or removes the style.  Converting only
 * changes attributes, and rewriting a style only drops that style's own
 * subtree, so the model converts the rules of every style first, in
 * document order, and then rewrites the styles; both give the same document.
 */
module ConvertCssClassesToAttributes {

  import opened Outcomes
  import opened Strings
  import opened Dom
  import opened SvgPropertiesTrait

  const CLASS: string := "class"

  const STYLE: string := "style"

  // ---------------------------------------------------------------------
  // The class-selector pattern `/\.([a-zA-Z0-9_-]+)\s*\{([^}]+)}/`

  predicate IsClassNameChar(c: char) { IsAsciiLetter(c) || IsDigit(c) || c == '_' || c == '-' }

  predicate IsNotCloseBrace(c: char) { c != '}' }

  /** One match: the class name and the declaration block, the two captures. */
  datatype ClassRule = ClassRule(className: string, block: string)

  /** What the two captures of a match can hold. */
  predicate IsClassRule(rule: ClassRule) {
    rule.className != [] && All(rule.className, IsClassNameChar) &&
    rule.block != [] && All(rule.block, IsNotCloseBrace)
  }

  /** `t` is, as a whole, a match of the pattern with the captures of `rule`. */
  predicate PatternText(t: string, rule: ClassRule) {
    var c, b := rule.className, rule.block;
    IsClassRule(rule) && |c| + |b| + 3 <= |t| &&
    t[0] == '.' && t[1..1 + |c|] == c && All(t[1 + |c|..|t| - |b| - 2], IsSpace) &&
    t[|t| - |b| - 2] == '{' && t[|t| - |b| - 1..|t| - 1] == b && t[|t| - 1] == '}'
  }

  /**
   * The pattern tried at `i`: its captures and where the match ends.  Both
   * repetitions are greedy and what follows each cannot be one of the
   * characters it repeats, so backtracking never finds another match.
   */
  function RuleAt(s: string, i: nat): (r: Option<(ClassRule, nat)>)
    requires i <= |s|
    ensures r.Some? ==> i < r.value.1 <= |s| && IsClassRule(r.value.0)
  {
    if i < |s| && s[i] == '.' then
      var j := SkipWhile(s, i + 1, IsClassNameChar);
      var k := SkipWhile(s, j, IsSpace);
      if j == i + 1 || k == |s| || s[k] != '{' then None
      else
        var m := SkipWhile(s, k + 1, IsNotCloseBrace);
        if m == k + 1 || m == |s| then None
        else
          AllIn(s, i + 1, j, IsClassNameChar);
          AllIn(s, k + 1, m, IsNotCloseBrace);
          Some((ClassRule(s[i + 1..j], s[k + 1..m]), m + 1))
    else
      None
  }

  /** What `RuleAt` reports is a match: the text from `i` to its end has the pattern's shape. */
  lemma RuleAtSound(s: string, i: nat, rule: ClassRule, e: nat)
    requires i <= |s| && RuleAt(s, i) == Some((rule, e))
    ensures e <= |s| && PatternText(s[i..e], rule)
  {
    assert i < |s| && s[i] == '.';
    var j := SkipWhile(s, i + 1, IsClassNameChar);
    var k := SkipWhile(s, j, IsSpace);
    assert j != i + 1 && k < |s| && s[k] == '{';
    var m := SkipWhile(s, k + 1, IsNotCloseBrace);
    assert m != k + 1 && m < |s|;
    PatternTextAt(s, i, j, k, m, rule, e);
  }

  lemma PatternTextAt(s: string, i: nat, j: nat, k: nat, m: nat, rule: ClassRule, e: nat)
    requires i < j <= k < m < |s| && i + 1 < j && k + 1 < m
    requires s[i] == '.' && s[k] == '{' && s[m] == '}'
    requires forall x | i + 1 <= x < j :: IsClassNameChar(s[x])
    requires forall x | j <= x < k :: IsSpace(s[x])
    requires forall x | k + 1 <= x < m :: IsNotCloseBrace(s[x])
    requires rule == ClassRule(s[i + 1..j], s[k + 1..m]) && e == m + 1
    ensures e <= |s| && PatternText(s[i..e], rule)
  {
    var t := s[i..e];
    assert forall x | 0 <= x < |t| :: t[x] == s[i + x];
    assert t[1..j - i] == s[i + 1..j];
    assert t[k + 1 - i..m - i] == s[k + 1..m];
    assert t[j - i..k - i] == s[j..k];
  }

  /** The three runs found as they are: the match `RuleAt` reports. */
  lemma RuleAtWhen(s: string, i: nat, j: nat, k: nat, m: nat)
    requires i < |s| && s[i] == '.'
    requires i + 1 < j && SkipWhile(s, i + 1, IsClassNameChar) == j
    requires SkipWhile(s, j, IsSpace) == k && k < |s| && s[k] == '{'
    requires k + 1 < m < |s| && SkipWhile(s, k + 1, IsNotCloseBrace) == m
    ensures RuleAt(s, i) == Some((ClassRule(s[i + 1..j], s[k + 1..m]), m + 1))
  {
  }

  /** A match read back as facts about `s` itself. */
  lemma PatternParts(s: string, i: nat, e: nat, rule: ClassRule)
    requires i <= e <= |s| && PatternText(s[i..e], rule)
    ensures var j, k := i + 1 + |rule.className|, e - |rule.block| - 2;
            i + 1 < j <= k && k + 1 < e - 1 && s[i] == '.' && s[i + 1..j] == rule.className &&
            All(s[j..k], IsSpace) && s[k] == '{' && s[k + 1..e - 1] == rule.block && s[e - 1] == '}'
  {
    var c, b := rule.className, rule.block;
    var t := s[i..e];
    assert |t| == e - i;
    SliceOfSlice(s, i, e, 1, 1 + |c|);
    SliceOfSlice(s, i, e, 1 + |c|, |t| - |b| - 2);
    SliceOfSlice(s, i, e, |t| - |b| - 1, |t| - 1);
    assert t[0] == s[i];
    assert t[|t| - |b| - 2] == s[e - |b| - 2];
    assert t[|t| - 1] == s[e - 1];
  }

  /** Three runs as the pattern has them: each stops where the next part starts. */
  lemma MatchRuns(s: string, i: nat, j: nat, k: nat, m: nat)
    requires i + 1 < j <= k && k + 1 < m < |s|
    requires All(s[i + 1..j], IsClassNameChar) && All(s[j..k], IsSpace) && s[k] == '{'
    requires All(s[k + 1..m], IsNotCloseBrace) && s[m] == '}'
    ensures SkipWhile(s, i + 1, IsClassNameChar) == j
    ensures SkipWhile(s, j, IsSpace) == k
    ensures SkipWhile(s, k + 1, IsNotCloseBrace) == m
  {
    assert !IsClassNameChar(s[j]) by {
      if j < k {
        assert s[j] == s[j..k][0];
      }
    }
    SkipOver(s, i + 1, j, IsClassNameChar);
    SkipOver(s, j, k, IsSpace);
    SkipOver(s, k + 1, m, IsNotCloseBrace);
  }

  /** Any match of the pattern at `i` is the one `RuleAt` finds. */
  lemma RuleAtComplete(s: string, i: nat, e: nat, rule: ClassRule)
    requires i <= e <= |s| && PatternText(s[i..e], rule)
    ensures RuleAt(s, i) == Some((rule, e))
  {
    PatternParts(s, i, e, rule);
    var j, k := i + 1 + |rule.className|, e - |rule.block| - 2;
    MatchRuns(s, i, j, k, e - 1);
    RuleAtWhen(s, i, j, k, e - 1);
  }

  /** `preg_match_all` from `i`: the leftmost matches, without overlap. */
  function Rules(s: string, i: nat): (r: seq<ClassRule>)
    requires i <= |s|
    ensures forall k | 0 <= k < |r| :: IsClassRule(r[k])
    decreases |s| - i
  {
    if i == |s| then []
    else
      match RuleAt(s, i)
      case Some((rule, e)) => [rule] + Rules(s, e)
      case None => Rules(s, i + 1)
  }

  // ---------------------------------------------------------------------
  // PHP arrays keyed by property name

  /** A PHP array from property to value, in insertion order. */
  type Entries = seq<(string, string)>

  function KeySet(m: Entries): set<string>
    decreases |m|
  {
    if m == [] then {} else {m[0].0} + KeySet(m[1..])
  }

  /** Every key appears once. */
  predicate DistinctKeys(m: Entries)
    decreases |m|
  {
    m == [] || (m[0].0 !in KeySet(m[1..]) && DistinctKeys(m[1..]))
  }

  lemma {:induction false} KeySetAt(m: Entries, i: nat)
    requires i < |m|
    ensures m[i].0 in KeySet(m)
    decreases i
  {
    if i > 0 {
      KeySetAt(m[1..], i - 1);
    }
  }

  /** `$m[$k] ?? null`. */
  function Lookup(m: Entries, k: string): (r: Option<string>)
    ensures r.Some? <==> k in KeySet(m)
    decreases |m|
  {
    if m == [] then None else if m[0].0 == k then Some(m[0].1) else Lookup(m[1..], k)
  }

  /**
   * `$m[$k] = $v`: an existing key keeps its place and takes the new value,
   * a new key goes last.
   */
  function Put(m: Entries, k: string, v: string): (r: Entries)
    ensures k in KeySet(m) ==> |r| == |m| && forall i | 0 <= i < |m| :: r[i].0 == m[i].0
    ensures k !in KeySet(m) ==> r == m + [(k, v)]
    ensures KeySet(r) == KeySet(m) + {k}
    ensures Lookup(r, k) == Some(v)
    ensures forall k' | k' != k :: Lookup(r, k') == Lookup(m, k')
    ensures DistinctKeys(m) ==> DistinctKeys(r)
    decreases |m|
  {
    if m == [] then
      assert KeySet([(k, v)]) == {k} + KeySet([]);
      [(k, v)]
    else if m[0].0 == k then
      assert ([(k, v)] + m[1..])[1..] == m[1..];
      [(k, v)] + m[1..]
    else
      var rest := Put(m[1..], k, v);
      assert ([m[0]] + rest)[1..] == rest;
      assert k !in KeySet(m) ==> m[1..] + [(k, v)] == (m + [(k, v)])[1..];
      [m[0]] + rest
  }

  /** No key and no value holds `x`. */
  predicate Clean(m: Entries, x: char)
    decreases |m|
  {
    m == [] || (x !in m[0].0 && x !in m[0].1 && Clean(m[1..], x))
  }

  lemma {:induction false} CleanAt(m: Entries, x: char, i: nat)
    requires Clean(m, x) && i < |m|
    ensures x !in m[i].0 && x !in m[i].1
    decreases i
  {
    if i > 0 {
      CleanAt(m[1..], x, i - 1);
    }
  }

  lemma {:induction false} PutClean(m: Entries, k: string, v: string, x: char)
    requires Clean(m, x) && x !in k && x !in v
    ensures Clean(Put(m, k, v), x)
    decreases |m|
  {
    if m == [] {
      assert Put(m, k, v)[1..] == [];
    } else if m[0].0 == k {
      assert Put(m, k, v)[1..] == m[1..];
    } else {
      PutClean(m[1..], k, v, x);
      assert Put(m, k, v)[1..] == Put(m[1..], k, v);
    }
  }

  // ---------------------------------------------------------------------
  // splitDeclarations

  /**
   * One piece of a block: trimmed; nothing when it is blank or has no `:`;
   * otherwise its property, trimmed and lower-cased, and its value, trimmed.
   */
  function BlockDeclaration(piece: string): (r: Option<(string, string)>)
    ensures r.Some? ==> ':' !in r.value.0
  {
    var d := Trim(piece);
    if d == "" then None
    else match SplitOnce(d, ':')
      case None => None
      case Some((p, v)) =>
        TrimKeeps(p, ':');
        ToLowerKeeps(Trim(p), ':');
        Some((ToLower(Trim(p)), Trim(v)))
  }

  /** A character other than a lower-case letter that a piece lacks, its declaration lacks. */
  lemma BlockDeclarationKeeps(piece: string, x: char)
    requires x !in piece && !('a' <= x <= 'z')
    ensures BlockDeclaration(piece).Some? ==>
              x !in BlockDeclaration(piece).value.0 && x !in BlockDeclaration(piece).value.1
  {
    var d := Trim(piece);
    TrimKeeps(piece, x);
    if d != "" && ':' in d {
      var (p, v) := SplitOnce(d, ':').value;
      TrimKeeps(p, x);
      TrimKeeps(v, x);
      ToLowerKeeps(Trim(p), x);
    }
  }

  /** The two arrays `splitDeclarations` returns. */
  datatype Declarations = Declarations(convertible: Entries, nonConvertible: Entries)

  /** One piece of the loop: its declaration goes to the array its property belongs to. */
  function ClassifyStep(d: Declarations, piece: string): Declarations {
    match BlockDeclaration(piece)
    case None => d
    case Some((p, v)) =>
      if IsSvgProperty(p) then d.(convertible := Put(d.convertible, p, v))
      else d.(nonConvertible := Put(d.nonConvertible, p, v))
  }

  /** The pieces in order. */
  function Classify(pieces: seq<string>): Declarations
    decreases |pieces|
  {
    if pieces == [] then Declarations([], [])
    else ClassifyStep(Classify(pieces[..|pieces| - 1]), pieces[|pieces| - 1])
  }

  /** `splitDeclarations`: the block cut at every `;`. */
  function SplitDeclarationsOf(declarations: string): Declarations {
    Classify(Split(declarations, ';'))
  }

  /**
   * The convertible array holds presentation properties only, the other none;
   * each holds every property once.
   */
  predicate Sorted(d: Declarations) {
    (forall k | k in KeySet(d.convertible) :: IsSvgProperty(k)) &&
    (forall k | k in KeySet(d.nonConvertible) :: !IsSvgProperty(k)) &&
    DistinctKeys(d.convertible) && DistinctKeys(d.nonConvertible)
  }

  lemma ClassifyStepSorted(d: Declarations, piece: string)
    requires Sorted(d)
    ensures Sorted(ClassifyStep(d, piece))
  {
    match BlockDeclaration(piece)
    case None =>
    case Some((p, v)) =>
      if IsSvgProperty(p) {
        PutConvertibleSorted(d, p, v);
      } else {
        PutNonConvertibleSorted(d, p, v);
      }
  }

  lemma PutConvertibleSorted(d: Declarations, p: string, v: string)
    requires Sorted(d) && IsSvgProperty(p)
    ensures Sorted(d.(convertible := Put(d.convertible, p, v)))
  {
  }

  lemma PutNonConvertibleSorted(d: Declarations, p: string, v: string)
    requires Sorted(d) && !IsSvgProperty(p)
    ensures Sorted(d.(nonConvertible := Put(d.nonConvertible, p, v)))
  {
  }

  lemma {:induction false} ClassifySorts(pieces: seq<string>)
    ensures Sorted(Classify(pieces))
    decreases |pieces|
  {
    if pieces != [] {
      ClassifySorts(pieces[..|pieces| - 1]);
      ClassifyStepSorted(Classify(pieces[..|pieces| - 1]), pieces[|pieces| - 1]);
    }
  }

  lemma ClassifyStepClean(d: Declarations, piece: string, x: char)
    requires !('a' <= x <= 'z') && x !in piece
    requires Clean(d.convertible, x) && Clean(d.nonConvertible, x)
    ensures Clean(ClassifyStep(d, piece).convertible, x) && Clean(ClassifyStep(d, piece).nonConvertible, x)
  {
    var r := BlockDeclaration(piece);
    if r.Some? {
      BlockDeclarationKeeps(piece, x);
      var (p, v) := r.value;
      if IsSvgProperty(p) {
        PutClean(d.convertible, p, v, x);
      } else {
        PutClean(d.nonConvertible, p, v, x);
      }
    }
  }

  /** A character no piece holds (and no lower-case letter) is in no key and no value. */
  lemma {:induction false} ClassifyClean(pieces: seq<string>, x: char)
    requires !('a' <= x <= 'z')
    requires forall i | 0 <= i < |pieces| :: x !in pieces[i]
    ensures Clean(Classify(pieces).convertible, x) && Clean(Classify(pieces).nonConvertible, x)
    decreases |pieces|
  {
    if pieces != [] {
      var front := pieces[..|pieces| - 1];
      assert forall i | 0 <= i < |front| :: front[i] == pieces[i];
      ClassifyClean(front, x);
      ClassifyStepClean(Classify(front), pieces[|pieces| - 1], x);
    }
  }

  /** The property of a piece, when it declares one. */
  predicate DeclaresProperty(piece: string, p: string) {
    BlockDeclaration(piece).Some? && BlockDeclaration(piece).value.0 == p
  }

  /** The array a property belongs to. */
  function ArrayOf(d: Declarations, p: string): Entries {
    if IsSvgProperty(p) then d.convertible else d.nonConvertible
  }

  lemma ClassifyStepLands(d: Declarations, piece: string, p: string, v: string)
    requires BlockDeclaration(piece) == Some((p, v))
    ensures Lookup(ArrayOf(ClassifyStep(d, piece), p), p) == Some(v)
  {
  }

  lemma ClassifyStepKeeps(d: Declarations, piece: string, p: string)
    requires !DeclaresProperty(piece, p)
    ensures Lookup(ArrayOf(ClassifyStep(d, piece), p), p) == Lookup(ArrayOf(d, p), p)
  {
  }

  /** A property declared twice takes the value of its last declaration. */
  lemma {:induction false} LastDeclarationWins(pieces: seq<string>, i: nat, p: string, v: string)
    requires i < |pieces| && BlockDeclaration(pieces[i]) == Some((p, v))
    requires forall j | i < j < |pieces| :: !DeclaresProperty(pieces[j], p)
    ensures Lookup(ArrayOf(Classify(pieces), p), p) == Some(v)
    decreases |pieces|, 1
  {
    if i < |pieces| - 1 {
      LaterPieceKeeps(pieces, i, p, v);
    } else {
      ClassifyStepLands(Classify(pieces[..|pieces| - 1]), pieces[|pieces| - 1], p, v);
    }
  }

  /** A last piece that does not declare the property leaves its value as it was. */
  lemma {:induction false} LaterPieceKeeps(pieces: seq<string>, i: nat, p: string, v: string)
    requires i < |pieces| - 1 && BlockDeclaration(pieces[i]) == Some((p, v))
    requires forall j | i < j < |pieces| :: !DeclaresProperty(pieces[j], p)
    ensures Lookup(ArrayOf(Classify(pieces), p), p) == Some(v)
    decreases |pieces|, 0
  {
    var front := pieces[..|pieces| - 1];
    var last := pieces[|pieces| - 1];
    NotDeclaredLater(pieces, front, i, p);
    assert front[i] == pieces[i];
    LastDeclarationWins(front, i, p, v);
    ClassifyStepKeeps(Classify(front), last, p);
  }

  /** No piece after `i` declares `p`: the same holds of all but the last piece, and of the last. */
  lemma NotDeclaredLater(pieces: seq<string>, front: seq<string>, i: nat, p: string)
    requires i < |pieces| - 1 && front == pieces[..|pieces| - 1]
    requires forall j | i < j < |pieces| :: !DeclaresProperty(pieces[j], p)
    ensures forall j | i < j < |front| :: !DeclaresProperty(front[j], p)
    ensures !DeclaresProperty(pieces[|pieces| - 1], p)
  {
    forall j | i < j < |front| ensures !DeclaresProperty(front[j], p) {
      assert front[j] == pieces[j];
    }
  }

  /** `splitDeclarations`, with its loop. */
  method SplitDeclarations(declarations: string) returns (convertible: Entries, nonConvertible: Entries)
    ensures Declarations(convertible, nonConvertible) == SplitDeclarationsOf(declarations)
  {
    var pieces := Split(declarations, ';');
    convertible, nonConvertible := [], [];
    var i := 0;
    while i < |pieces|
      invariant 0 <= i <= |pieces|
      invariant Declarations(convertible, nonConvertible) == Classify(pieces[..i])
    {
      assert pieces[..i + 1][..i] == pieces[..i];
      convertible, nonConvertible := SplitDeclaration(convertible, nonConvertible, pieces[i]);
      i := i + 1;
    }
    assert pieces[..i] == pieces;
  }

  /** The body of the loop of `splitDeclarations` for one piece. */
  method SplitDeclaration(convertible: Entries, nonConvertible: Entries, piece: string)
    returns (convertible': Entries, nonConvertible': Entries)
    ensures Declarations(convertible', nonConvertible') == ClassifyStep(Declarations(convertible, nonConvertible), piece)
  {
    convertible', nonConvertible' := convertible, nonConvertible;
    var declaration := Trim(piece);
    if declaration != "" && ':' in declaration {
      var (prop, value) := SplitOnce(declaration, ':').value;
      var propLower := ToLower(Trim(prop));
      if IsSvgProperty(propLower) {
        convertible' := Put(convertible, propLower, Trim(value));
      } else {
        nonConvertible' := Put(nonConvertible, propLower, Trim(value));
      }
    }
  }

  // ---------------------------------------------------------------------
  // rebuildCssRule

  /** The `prop:value` texts of an array, in its order. */
  function EntryTexts(m: Entries): (r: seq<string>)
    ensures |r| == |m|
    ensures forall i | 0 <= i < |m| :: r[i] == m[i].0 + ":" + m[i].1
  {
    seq(|m|, i requires 0 <= i < |m| => m[i].0 + ":" + m[i].1)
  }

  /** `.class{p:v;...}`. */
  function RuleText(className: string, nonConvertible: Entries): string {
    "." + className + "{" + Join(EntryTexts(nonConvertible), ";") + "}"
  }

  /** `rebuildCssRule`, with its loop. */
  method RebuildCssRule(className: string, nonConvertible: Entries) returns (r: string)
    ensures r == RuleText(className, nonConvertible)
  {
    var props: seq<string> := [];
    var i := 0;
    while i < |nonConvertible|
      invariant 0 <= i <= |nonConvertible|
      invariant props == EntryTexts(nonConvertible)[..i]
    {
      props := props + [nonConvertible[i].0 + ":" + nonConvertible[i].1];
      i := i + 1;
    }
    assert props == EntryTexts(nonConvertible);
    r := "." + className + "{" + Join(props, ";") + "}";
  }

  /**
   * A rebuilt rule is one whole match of the pattern again, for the same
   * class, and its block cut at `;` gives back the `prop:value` entries.
   */
  lemma RuleTextReadsBack(className: string, nonConvertible: Entries)
    requires className != [] && All(className, IsClassNameChar)
    requires nonConvertible != [] && Clean(nonConvertible, ';') && Clean(nonConvertible, '}')
    ensures var t := RuleText(className, nonConvertible);
            var block := Join(EntryTexts(nonConvertible), ";");
            RuleAt(t, 0) == Some((ClassRule(className, block), |t|)) &&
            Split(block, ';') == EntryTexts(nonConvertible)
  {
    var texts := EntryTexts(nonConvertible);
    var block := Join(texts, ";");
    forall i | 0 <= i < |texts| ensures ';' !in texts[i] && '}' !in texts[i] {
      CleanAt(nonConvertible, ';', i);
      CleanAt(nonConvertible, '}', i);
    }
    JoinKeeps(texts, ";", '}');
    JoinEnds(texts, ";");
    var t := RuleText(className, nonConvertible);
    RuleIsMatch(className, block);
    assert t[0..|t|] == t;
    RuleAtComplete(t, 0, |t|, ClassRule(className, block));
    SplitJoin(texts, ';');
  }

  /** `.class{block}` is, as a whole, a match with those two captures. */
  lemma RuleIsMatch(className: string, block: string)
    requires className != [] && All(className, IsClassNameChar)
    requires block != [] && '}' !in block
    ensures PatternText("." + className + "{" + block + "}", ClassRule(className, block))
  {
    var t := "." + className + "{" + block + "}";
    assert t[1..1 + |className|] == className;
    assert t[|t| - |block| - 1..|t| - 1] == block;
    assert t[1 + |className|..|t| - |block| - 2] == [];
  }

  // ---------------------------------------------------------------------
  // The elements a class selects

  /** XML white space, which XPath's `normalize-space` collapses. */
  predicate IsXmlSpace(c: char) { c == ' ' || c == '\t' || c == '\r' || c == '\n' }

  predicate IsNotXmlSpace(c: char) { !IsXmlSpace(c) }

  /** The runs of non-white-space characters of `s`, in order. */
  function Words(s: string): (r: seq<string>)
    decreases |s|
  {
    var i := SkipWhile(s, 0, IsXmlSpace);
    if i == |s| then []
    else
      var j := SkipWhile(s, i, IsNotXmlSpace);
      [s[i..j]] + Words(s[j..])
  }

  /** XPath `normalize-space`. */
  function NormalizeSpace(s: string): string {
    Join(Words(s), " ")
  }

  /** `contains(concat(' ', normalize-space(@class), ' '), ' c ')`. */
  predicate HasClass(attrs: Attributes, c: string) {
    Contains(" " + NormalizeSpace(GetAttribute(attrs, CLASS)) + " ", " " + c + " ")
  }

  /** An element whose `class` is exactly a class name is selected by it. */
  lemma HasOwnClass(attrs: Attributes, c: string)
    requires c != [] && All(c, IsClassNameChar) && GetAttribute(attrs, CLASS) == c
    ensures HasClass(attrs, c)
  {
    assert !IsXmlSpace(c[0]);
    SkipWhileTo(c, 0, 0, IsXmlSpace);
    SkipWhileTo(c, 0, |c|, IsNotXmlSpace);
    assert c[0..|c|] == c && c[|c|..] == [];
    assert Words(c) == [c];
  }

  // ---------------------------------------------------------------------
  // applyAttributesToElements and updateElementClass

  /** `foreach ($convertible as $prop => $value) $element->setAttribute($prop, $value)`. */
  function SetAll(attrs: Attributes, m: Entries): (r: Attributes)
    ensures r.Keys == attrs.Keys + KeySet(m)
    ensures forall k | k in attrs && k !in KeySet(m) :: r[k] == attrs[k]
    ensures DistinctKeys(m) ==> forall i | 0 <= i < |m| :: m[i].0 in r && r[m[i].0].value == m[i].1
    decreases |m|
  {
    if m == [] then attrs
    else
      var r := SetAll(SetAttribute(attrs, m[0].0, m[0].1), m[1..]);
      assert forall i | 1 <= i < |m| :: m[i] == m[1..][i - 1];
      r
  }

  /** `array_filter` keeping the pieces other than `c`, in order. */
  function Without(pieces: seq<string>, c: string): (r: seq<string>)
    ensures forall k | 0 <= k < |r| :: r[k] != c && r[k] in pieces
    decreases |pieces|
  {
    if pieces == [] then []
    else (if pieces[0] == c then [] else [pieces[0]]) + Without(pieces[1..], c)
  }

  /**
   * `updateElementClass`: with declarations left in the style the element's
   * class becomes that class alone; otherwise the class is taken out of the
   * space-separated list, which goes when nothing of it is left.
   */
  function UpdatedClass(attrs: Attributes, c: string, nonConvertible: Entries): (r: Attributes)
    ensures forall k | k in attrs && k != CLASS :: k in r && r[k] == attrs[k]
    ensures forall k | k in r :: k in attrs || k == CLASS
    ensures nonConvertible != [] ==> CLASS in r && GetAttribute(r, CLASS) == c
    ensures nonConvertible == [] ==> (CLASS in r <==> Without(Split(GetAttribute(attrs, CLASS), ' '), c) != [])
  {
    if nonConvertible != [] then SetAttribute(attrs, CLASS, c)
    else
      var classes := Without(Split(GetAttribute(attrs, CLASS), ' '), c);
      if classes != [] then SetAttribute(attrs, CLASS, Join(classes, " ")) else attrs - {CLASS}
  }

  /**
   * Without leftovers the class is gone from the space-separated list: the
   * list afterwards is the old one with every piece equal to the class taken out.
   */
  lemma ClassTokenRemoved(attrs: Attributes, c: string)
    requires CLASS in UpdatedClass(attrs, c, [])
    ensures Split(GetAttribute(UpdatedClass(attrs, c, []), CLASS), ' ') == Without(Split(GetAttribute(attrs, CLASS), ' '), c)
    ensures c !in Split(GetAttribute(UpdatedClass(attrs, c, []), CLASS), ' ')
  {
    var pieces := Split(GetAttribute(attrs, CLASS), ' ');
    var classes := Without(pieces, c);
    forall i | 0 <= i < |classes| ensures ' ' !in classes[i] {
      assert classes[i] in pieces;
    }
    SplitJoin(classes, ' ');
  }

  /** One element under one class rule: nothing happens unless it carries the class. */
  function Applied(attrs: Attributes, c: string, d: Declarations): (r: Attributes)
    ensures !HasClass(attrs, c) ==> r == attrs
    ensures forall k | k in attrs && k != CLASS && k !in KeySet(d.convertible) :: k in r && r[k] == attrs[k]
  {
    if HasClass(attrs, c) then UpdatedClass(SetAll(attrs, d.convertible), c, d.nonConvertible) else attrs
  }

  /**
   * Every convertible declaration of a rule is an attribute, with its value,
   * of every element carrying the class, whether or not it had one before.
   * The declarations `splitDeclarations` gives are sorted (`ClassifySorts`).
   */
  lemma ConvertedPropertiesLand(attrs: Attributes, c: string, d: Declarations, i: nat)
    requires Sorted(d) && HasClass(attrs, c)
    requires i < |d.convertible|
    ensures var r := Applied(attrs, c, d);
            d.convertible[i].0 in r && r[d.convertible[i].0].value == d.convertible[i].1
  {
    KeySetAt(d.convertible, i);
    assert !IsSvgProperty(CLASS);
  }

  /** With declarations left over, the element keeps being selected by its class. */
  lemma LeftoverKeepsClass(attrs: Attributes, c: string, d: Declarations)
    requires c != [] && All(c, IsClassNameChar)
    requires HasClass(attrs, c) && d.nonConvertible != []
    ensures HasClass(Applied(attrs, c, d), c)
  {
    HasOwnClass(Applied(attrs, c, d), c);
  }

  /** `applyAttributesToElements`: every element, at every depth, under one class rule. */
  function ApplyClass(ns: seq<Node>, c: string, d: Declarations): seq<Node>
    decreases ns
  {
    if ns == [] then [] else [ApplyClassIn(ns[0], c, d)] + ApplyClass(ns[1..], c, d)
  }

  function ApplyClassIn(n: Node, c: string, d: Declarations): Node
    decreases n
  {
    match n
    case Element(name, uri, attrs, children) => Element(name, uri, Applied(attrs, c, d), ApplyClass(children, c, d))
    case _ => n
  }

  /** The walk is the document-wide attribute rewrite with `Applied` as the rewrite. */
  lemma {:induction false} ApplyClassIsRewrite(ns: seq<Node>, c: string, d: Declarations)
    ensures ApplyClass(ns, c, d) == MapAttributes(ns, (name, uri, attrs) => Applied(attrs, c, d))
    decreases ns
  {
    if ns != [] {
      ApplyClassIsRewriteIn(ns[0], c, d);
      ApplyClassIsRewrite(ns[1..], c, d);
    }
  }

  lemma {:induction false} ApplyClassIsRewriteIn(n: Node, c: string, d: Declarations)
    ensures ApplyClassIn(n, c, d) == MapAttributesIn(n, (name, uri, attrs) => Applied(attrs, c, d))
    decreases n
  {
    if n.Element? {
      ApplyClassIsRewrite(n.children, c, d);
    }
  }

  /** A match as `processCss` reads it: the class trimmed, the block trimmed and split. */
  datatype ParsedRule = ParsedRule(className: string, decls: Declarations)

  function Parse(rule: ClassRule): ParsedRule {
    ParsedRule(Trim(rule.className), SplitDeclarationsOf(Trim(rule.block)))
  }

  function ParseAll(rules: seq<ClassRule>): (r: seq<ParsedRule>)
    ensures |r| == |rules|
  {
    seq(|rules|, i requires 0 <= i < |rules| => Parse(rules[i]))
  }

  /**
   * One match of `processCss`: the elements carrying the class take the
   * convertible declarations, when there are any.
   */
  function ApplyRule(ns: seq<Node>, rule: ParsedRule): seq<Node> {
    if rule.decls.convertible == [] then ns else ApplyClass(ns, rule.className, rule.decls)
  }

  /** The matches applied in order. */
  function ApplyRules(ns: seq<Node>, rules: seq<ParsedRule>): seq<Node>
    decreases |rules|
  {
    if rules == [] then ns else ApplyRule(ApplyRules(ns, rules[..|rules| - 1]), rules[|rules| - 1])
  }

  /** The rule a match leaves in the style: its non-convertible declarations, if any. */
  function KeptRule(rule: ParsedRule): (r: string)
    ensures r == "" <==> rule.decls.nonConvertible == []
  {
    if rule.decls.nonConvertible == [] then "" else RuleText(rule.className, rule.decls.nonConvertible)
  }

  /** `implode('', $resultCss)` over the matches in order. */
  function KeptCss(rules: seq<ParsedRule>): string
    decreases |rules|
  {
    if rules == [] then "" else KeptCss(rules[..|rules| - 1]) + KeptRule(rules[|rules| - 1])
  }

  /** The text `processCss` returns. */
  function NewCss(css: string): string {
    KeptCss(ParseAll(Rules(css, 0)))
  }

  /** The one change to a class name `trim()` could make is none. */
  lemma ClassNameTrimmed(rule: ClassRule)
    requires IsClassRule(rule)
    ensures Trim(rule.className) == rule.className
  {
    assert !IsTrimChar(rule.className[0]) && !IsTrimChar(rule.className[|rule.className| - 1]);
    TrimSurrounded("", rule.className);
    assert "" + rule.className == rule.className;
  }

  /**
   * A kept rule is one whole match again, for the same class, with the
   * leftover entries as its block, and that block cut at `;` gives the entries.
   */
  lemma KeptRuleReadsBack(rule: ClassRule)
    requires IsClassRule(rule) && KeptRule(Parse(rule)) != ""
    ensures var t := KeptRule(Parse(rule));
            var block := Join(EntryTexts(Parse(rule).decls.nonConvertible), ";");
            RuleAt(t, 0) == Some((ClassRule(rule.className, block), |t|)) &&
            Split(block, ';') == EntryTexts(Parse(rule).decls.nonConvertible)
  {
    var b := Trim(rule.block);
    var pieces := Split(b, ';');
    ClassNameTrimmed(rule);
    assert '}' !in rule.block;
    TrimKeeps(rule.block, '}');
    SplitKeeps(b, ';', '}');
    ClassifyClean(pieces, '}');
    ClassifyClean(pieces, ';');
    RuleTextReadsBack(rule.className, Classify(pieces).nonConvertible);
  }

  /** The style is left empty exactly when no match has a declaration that stays. */
  lemma {:induction false} KeptCssEmpty(rules: seq<ParsedRule>)
    ensures KeptCss(rules) == "" <==> forall k | 0 <= k < |rules| :: rules[k].decls.nonConvertible == []
    decreases |rules|
  {
    if rules != [] {
      var front := rules[..|rules| - 1];
      KeptCssEmpty(front);
      assert forall k | 0 <= k < |front| :: front[k] == rules[k];
      var a, b := KeptCss(front), KeptRule(rules[|rules| - 1]);
      assert KeptCss(rules) == a + b;
      assert |a + b| == |a| + |b|;
    }
  }

  // ---------------------------------------------------------------------
  // The styles

  /** The texts of the `style` elements, in document order (`getElementsByTagName('style')`). */
  function StyleTexts(ns: seq<Node>): seq<string>
    decreases ns
  {
    if ns == [] then [] else StyleTextsIn(ns[0]) + StyleTexts(ns[1..])
  }

  function StyleTextsIn(n: Node): seq<string>
    decreases n
  {
    match n
    case Element(name, _, _, children) =>
      (if name == STYLE then [TextContentOf(children)] else []) + StyleTexts(children)
    case _ => []
  }

  /** The rules of every style text in order; an empty text is not processed. */
  function ApplyTexts(ns: seq<Node>, texts: seq<string>): seq<Node>
    decreases |texts|
  {
    if texts == [] then ns
    else
      var m := ApplyTexts(ns, texts[..|texts| - 1]);
      var css := texts[|texts| - 1];
      if css == "" then m else ApplyRules(m, ParseAll(Rules(css, 0)))
  }

  /**
   * Each `style` element: removed when its text is empty or nothing of it
   * stays, otherwise its content replaced by the kept rules
   * (`textContent = $newCss`).  What was inside a style goes with it.
   */
  function RewriteStyles(ns: seq<Node>): seq<Node>
    decreases ns
  {
    if ns == [] then [] else RewriteStyle(ns[0]) + RewriteStyles(ns[1..])
  }

  function RewriteStyle(n: Node): seq<Node>
    decreases n
  {
    match n
    case Element(name, uri, attrs, children) =>
      if name == STYLE then
        var css := TextContentOf(children);
        if css == "" || NewCss(css) == "" then [] else [Element(name, uri, attrs, [Text(NewCss(css))])]
      else
        [Element(name, uri, attrs, RewriteStyles(children))]
    case _ => [n]
  }

  function Optimized(doc: Document): Document {
    var nodes := ApplyTexts(doc.nodes, StyleTexts(doc.nodes));
    Document(RewriteStyles(nodes))
  }

  /** `processCss`: the matches in order, converted and the rest collected. */
  method ProcessCss(dom: DomDocument, css: string) returns (newCss: string)
    modifies dom
    ensures dom.doc.nodes == ApplyRules(old(dom.doc.nodes), ParseAll(Rules(css, 0)))
    ensures newCss == NewCss(css)
  {
    var matches := Rules(css, 0);
    newCss := ProcessMatches(dom, matches);
  }

  /** The loop of `processCss`. */
  method ProcessMatches(dom: DomDocument, matches: seq<ClassRule>) returns (newCss: string)
    modifies dom
    ensures dom.doc.nodes == ApplyRules(old(dom.doc.nodes), ParseAll(matches))
    ensures newCss == KeptCss(ParseAll(matches))
  {
    ghost var start := dom.doc.nodes;
    ghost var parsed := ParseAll(matches);
    newCss := "";
    var i := 0;
    while i < |matches|
      invariant 0 <= i <= |matches|
      invariant dom.doc.nodes == ApplyRules(start, parsed[..i])
      invariant newCss == KeptCss(parsed[..i])
    {
      ProcessedStep(parsed, i);
      assert parsed[i] == Parse(matches[i]);
      var kept := ProcessMatch(dom, matches[i]);
      newCss := newCss + kept;
      i := i + 1;
    }
    assert parsed[..i] == parsed;
  }

  /** One more match through the two folds. */
  lemma ProcessedStep(parsed: seq<ParsedRule>, i: nat)
    requires i < |parsed|
    ensures forall ns :: ApplyRules(ns, parsed[..i + 1]) == ApplyRule(ApplyRules(ns, parsed[..i]), parsed[i])
    ensures KeptCss(parsed[..i + 1]) == KeptCss(parsed[..i]) + KeptRule(parsed[i])
  {
    assert parsed[..i + 1][..i] == parsed[..i];
  }

  /** The body of the loop of `processCss` for one match: the rule it leaves, if any. */
  method ProcessMatch(dom: DomDocument, found: ClassRule) returns (kept: string)
    modifies dom
    ensures dom.doc.nodes == ApplyRule(old(dom.doc.nodes), Parse(found))
    ensures kept == KeptRule(Parse(found))
  {
    var className := Trim(found.className);
    var declarations := Trim(found.block);
    var convertible, nonConvertible := SplitDeclarations(declarations);
    var d := Declarations(convertible, nonConvertible);
    assert Parse(found) == ParsedRule(className, d);
    if |convertible| > 0 {
      dom.doc := Document(ApplyClass(dom.doc.nodes, className, d));
    }
    kept := "";
    if |nonConvertible| > 0 {
      kept := RebuildCssRule(className, nonConvertible);
    }
  }

  /** One more style text through the fold. */
  lemma ApplyTextsStep(ns: seq<Node>, texts: seq<string>, i: nat)
    requires i < |texts|
    ensures ApplyTexts(ns, texts[..i + 1]) ==
            if texts[i] == "" then ApplyTexts(ns, texts[..i])
            else ApplyRules(ApplyTexts(ns, texts[..i]), ParseAll(Rules(texts[i], 0)))
  {
    assert texts[..i + 1][..i] == texts[..i];
  }

  /** `optimize`: every style's rules converted, then every style rewritten or removed. */
  method Optimize(dom: DomDocument)
    modifies dom
    ensures dom.doc == Optimized(old(dom.doc))
  {
    var styles := StyleTexts(dom.doc.nodes);
    ConvertStyles(dom, styles);
    dom.doc := Document(RewriteStyles(dom.doc.nodes));
  }

  /** The style texts in document order, each one's rules converted; an empty one is skipped. */
  method ConvertStyles(dom: DomDocument, styles: seq<string>)
    modifies dom
    ensures dom.doc.nodes == ApplyTexts(old(dom.doc.nodes), styles)
  {
    ghost var start := dom.doc.nodes;
    var i := 0;
    while i < |styles|
      invariant 0 <= i <= |styles|
      invariant dom.doc.nodes == ApplyTexts(start, styles[..i])
    {
      ApplyTextsStep(start, styles, i);
      if styles[i] != "" {
        var _ := ProcessCss(dom, styles[i]);
      }
      i := i + 1;
    }
    assert styles[..i] == styles;
  }

  // ---------------------------------------------------------------------
  // What the rule leaves

  /** Converting classes changes attributes only. */
  lemma {:induction false} ApplyRulesKeepsTree(ns: seq<Node>, rules: seq<ParsedRule>)
    ensures Erase(ApplyRules(ns, rules)) == Erase(ns)
    decreases |rules|
  {
    if rules != [] {
      var rule := rules[|rules| - 1];
      var m := ApplyRules(ns, rules[..|rules| - 1]);
      ApplyRulesKeepsTree(ns, rules[..|rules| - 1]);
      if rule.decls.convertible != [] {
        ApplyClassIsRewrite(m, rule.className, rule.decls);
        MapAttributesKeepsTree(m, (name, uri, attrs) => Applied(attrs, rule.className, rule.decls));
      }
    }
  }

  lemma {:induction false} ApplyTextsKeepsTree(ns: seq<Node>, texts: seq<string>)
    ensures Erase(ApplyTexts(ns, texts)) == Erase(ns)
    decreases |texts|
  {
    if texts != [] {
      var m := ApplyTexts(ns, texts[..|texts| - 1]);
      ApplyTextsKeepsTree(ns, texts[..|texts| - 1]);
      ApplyRulesKeepsTree(m, ParseAll(Rules(texts[|texts| - 1], 0)));
    }
  }

  /** No `style` element, at any depth, has empty text. */
  predicate NoEmptyStyle(ns: seq<Node>)
    decreases ns
  {
    ns == [] || (NoEmptyStyleIn(ns[0]) && NoEmptyStyle(ns[1..]))
  }

  predicate NoEmptyStyleIn(n: Node)
    decreases n
  {
    n.Element? ==> (n.name == STYLE ==> TextContentOf(n.children) != "") && NoEmptyStyle(n.children)
  }

  lemma {:induction false} NoEmptyStyleAppend(a: seq<Node>, b: seq<Node>)
    requires NoEmptyStyle(a) && NoEmptyStyle(b)
    ensures NoEmptyStyle(a + b)
    decreases |a|
  {
    if a == [] {
      assert a + b == b;
    } else {
      assert (a + b)[1..] == a[1..] + b;
      NoEmptyStyleAppend(a[1..], b);
    }
  }

  /** After the rewrite every `style` left holds the kept rules, which are not empty. */
  lemma {:induction false} RewriteLeavesNoEmptyStyle(ns: seq<Node>)
    ensures NoEmptyStyle(RewriteStyles(ns))
    decreases ns
  {
    if ns != [] {
      RewriteLeavesNoEmptyStyleIn(ns[0]);
      RewriteLeavesNoEmptyStyle(ns[1..]);
      NoEmptyStyleAppend(RewriteStyle(ns[0]), RewriteStyles(ns[1..]));
    }
  }

  lemma {:induction false} RewriteLeavesNoEmptyStyleIn(n: Node)
    ensures NoEmptyStyle(RewriteStyle(n))
    decreases n
  {
    match n
    case Element(name, uri, attrs, children) =>
      if name == STYLE {
        var css := TextContentOf(children);
        if css != "" && NewCss(css) != "" {
          FilledStyle(name, uri, attrs, NewCss(css));
        }
      } else {
        RewriteLeavesNoEmptyStyle(children);
        assert NoEmptyStyle([Element(name, uri, attrs, RewriteStyles(children))][1..]);
      }
    case _ =>
      assert NoEmptyStyle([n][1..]);
  }

  /** A style holding one non-empty text. */
  lemma FilledStyle(name: string, uri: string, attrs: Attributes, t: string)
    requires t != ""
    ensures NoEmptyStyle([Element(name, uri, attrs, [Text(t)])])
  {
    var e := Element(name, uri, attrs, [Text(t)]);
    assert [Text(t)][1..] == [];
    assert TextContentOf([Text(t)]) == t;
    assert NoEmptyStyle([Text(t)]);
    assert NoEmptyStyleIn(e);
    assert [e][1..] == [];
  }

  /** The rule leaves no `style` element with empty text. */
  lemma OptimizedLeavesNoEmptyStyle(doc: Document)
    ensures NoEmptyStyle(Optimized(doc).nodes)
  {
    RewriteLeavesNoEmptyStyle(ApplyTexts(doc.nodes, StyleTexts(doc.nodes)));
  }

  /** A style goes exactly when nothing of its rules stays. */
  lemma StyleRemovedWhenEmpty(name: string, uri: string, attrs: Attributes, children: seq<Node>)
    requires name == STYLE
    ensures RewriteStyle(Element(name, uri, attrs, children)) == [] <==> NewCss(TextContentOf(children)) == ""
  {
    var css := TextContentOf(children);
    if css == "" {
      assert Rules(css, 0) == [];
    }
  }
}

/**
 * What each rule's `optimize` and `shouldCheckSize` do, by rule: the
 * behaviour the optimizer reaches through `SvgOptimizerRuleInterface`.
 */
module RuleDispatch {

  import opened Outcomes
  import opened Dom
  import opened Platform
  import opened RuleType
  import Colors = ConvertColorsToHex
  import CssClasses = ConvertCssClassesToAttributes
  import InlineStyles = ConvertInlineStylesToAttributes
  import Flatten = FlattenGroups
  import Coordinates = MinifySvgCoordinates
  import Transformations = MinifyTransformations
  import Comments = RemoveComments
  import Doctype = RemoveDoctype
  import EnableBackground = RemoveEnableBackgroundAttribute
  import EmptyAttributes = RemoveEmptyAttributes
  import Inkscape = RemoveInkscapeFootprints
  import Invisible = RemoveInvisibleCharacters
  import Metadata = RemoveMetadata
  import TitleAndDesc = RemoveTitleAndDesc
  import Unsafe = RemoveUnsafeElements
  import Masks = RemoveUnusedMasks
  import Namespaces = RemoveUnusedNamespaces
  import WidthHeight = RemoveWidthHeightAttributes

  /** The rules whose classes are not part of this model; `Env` stands for them. */
  predicate IsExternal(r: Rule) {
    r in {ConvertEmptyTagsToSelfClosing, RemoveDefaultAttributes, RemoveDeprecatedAttributes,
          RemoveUnnecessaryWhitespace, SortAttributes}
  }

  /** The rules that serialize, validate and reload the document, and throw when that fails. */
  predicate IsGated(r: Rule) {
    r in {RemoveDoctype, RemoveInvisibleCharacters, RemoveUnusedNamespaces}
  }

  /** The document a rule's `optimize` leaves and whether it threw. */
  datatype Step = Step(doc: Document, outcome: Outcome)

  /** A rule that goes through a validate-and-reload gate: its result, or `left` and the error. */
  function Gated(res: Result<Document>, left: Document): (s: Step)
    ensures res.Success? <==> s.outcome.Pass?
    ensures res.Success? ==> s.doc == res.value
    ensures res.Failure? ==> s == Step(left, Fail(res.error))
  {
    match res
    case Success(d) => Step(d, Pass)
    case Failure(e) => Step(left, Fail(e))
  }

  /** `optimize` of a rule that works on the tree alone and never throws. */
  function PlainStep(env: Env, r: Rule, doc: Document): Document
    requires !IsExternal(r) && !IsGated(r)
  {
    match r
    case ConvertColorsToHex => Colors.Optimized(env, doc)
    case ConvertCssClassesToAttributes => CssClasses.Optimized(doc)
    case ConvertInlineStylesToAttributes => InlineStyles.Optimized(env, doc)
    case FlattenGroups => Flatten.Optimized(doc)
    case MinifySvgCoordinates => Coordinates.Optimized(doc)
    case MinifyTransformations => Transformations.Optimized(env, doc)
    case RemoveComments => Comments.Optimized(doc)
    case RemoveEnableBackgroundAttribute => EnableBackground.Optimized(env, doc)
    case RemoveEmptyAttributes => EmptyAttributes.Optimized(doc)
    case RemoveInkscapeFootprints => Inkscape.Optimized(doc)
    case RemoveMetadata => Metadata.Optimized(doc)
    case RemoveTitleAndDesc => TitleAndDesc.Optimized(doc)
    case RemoveUnsafeElements => Unsafe.Optimized(doc)
    case RemoveUnusedMasks => Masks.Optimized(doc)
    case RemoveWidthHeightAttributes => WidthHeight.Optimized(doc)
  }

  /** `optimize` of a gated rule; `RemoveUnusedNamespaces` has changed the tree before its gate. */
  function GatedStep(env: Env, r: Rule, doc: Document): Step
    requires IsGated(r)
  {
    match r
    case RemoveDoctype => Gated(Doctype.Optimized(env, doc), doc)
    case RemoveInvisibleCharacters => Gated(Invisible.Optimized(env, doc), doc)
    case RemoveUnusedNamespaces => Gated(Namespaces.Optimized(env, doc), Namespaces.LeftOnFailure(env, doc))
  }

  /** `$rule->optimize($domDocument)` for each rule. */
  function RuleStep(env: Env, r: Rule, doc: Document): (s: Step)
    ensures s.outcome.Fail? ==> IsExternal(r) || IsGated(r)
    ensures IsExternal(r) ==> s == Gated(env.externalRule(r, doc), doc)
  {
    if IsExternal(r) then Gated(env.externalRule(r, doc), doc)
    else if IsGated(r) then GatedStep(env, r, doc)
    else Step(PlainStep(env, r, doc), Pass)
  }

  /** The rules' behaviour as the optimizer sees it. */
  function Stepper(env: Env): (Rule, Document) -> Step {
    (r: Rule, d: Document) => RuleStep(env, r, d)
  }

  /** Runs a tree-only rule on `dom` through the rule's own `optimize`. */
  method RunPlain(env: Env, r: Rule, dom: DomDocument)
    requires !IsExternal(r) && !IsGated(r)
    modifies dom
    ensures dom.doc == PlainStep(env, r, old(dom.doc))
  {
    match r {
      case ConvertColorsToHex => Colors.Optimize(env, dom);
      case ConvertCssClassesToAttributes => CssClasses.Optimize(dom);
      case ConvertInlineStylesToAttributes => InlineStyles.Optimize(env, dom);
      case FlattenGroups => Flatten.Optimize(dom);
      case MinifySvgCoordinates => Coordinates.Optimize(dom);
      case MinifyTransformations => Transformations.Optimize(env, dom);
      case RemoveComments => Comments.Optimize(dom);
      case RemoveEnableBackgroundAttribute => EnableBackground.Optimize(env, dom);
      case RemoveEmptyAttributes => EmptyAttributes.Optimize(dom);
      case RemoveInkscapeFootprints => Inkscape.Optimize(dom);
      case RemoveMetadata => Metadata.Optimize(dom);
      case RemoveTitleAndDesc => TitleAndDesc.Optimize(dom);
      case RemoveUnsafeElements => Unsafe.Optimize(dom);
      case RemoveUnusedMasks => Masks.Optimize(dom);
      case RemoveWidthHeightAttributes => WidthHeight.Optimize(dom);
    }
  }

  /** Runs a gated rule on `dom` through the rule's own `optimize`. */
  method RunGated(env: Env, r: Rule, dom: DomDocument) returns (o: Outcome)
    requires IsGated(r)
    modifies dom
    ensures Step(dom.doc, o) == GatedStep(env, r, old(dom.doc))
  {
    match r {
      case RemoveDoctype => o := Doctype.Optimize(env, dom);
      case RemoveInvisibleCharacters => o := Invisible.Optimize(env, dom);
      case RemoveUnusedNamespaces => o := Namespaces.Optimize(env, dom);
    }
  }

  /** Runs any rule on `dom`: what `applyRules` does with each rule in turn. */
  method RunRule(env: Env, r: Rule, dom: DomDocument) returns (o: Outcome)
    modifies dom
    ensures Step(dom.doc, o) == RuleStep(env, r, old(dom.doc))
  {
    if IsExternal(r) {
      var res := env.externalRule(r, dom.doc);
      if res.Success? {
        dom.doc := res.value;
        o := Pass;
      } else {
        o := Fail(res.error);
      }
    } else if IsGated(r) {
      o := RunGated(env, r, dom);
    } else {
      RunPlain(env, r, dom);
      o := Pass;
    }
  }

  /** `$rule->shouldCheckSize()`. */
  function ChecksSize(env: Env, r: Rule): bool {
    if IsExternal(r) then env.externalChecksSize(r) else r == FlattenGroups
  }

  /** Among the rules this model defines, only `FlattenGroups` asks for the size check. */
  lemma OnlyFlattenGroupsChecksSize(env: Env, r: Rule)
    requires !IsExternal(r)
    ensures ChecksSize(env, r) <==> r == FlattenGroups
  {
  }
}

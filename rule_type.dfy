/**
 * The `Rule` enum: one case per optimization step, its configuration key and
 * whether the step is on when no configuration says otherwise.
 */
module RuleType {

  datatype Rule =
    | ConvertColorsToHex
    | ConvertCssClassesToAttributes
    | ConvertEmptyTagsToSelfClosing
    | ConvertInlineStylesToAttributes
    | FlattenGroups
    | MinifySvgCoordinates
    | MinifyTransformations
    | RemoveComments
    | RemoveDefaultAttributes
    | RemoveDeprecatedAttributes
    | RemoveDoctype
    | RemoveEnableBackgroundAttribute
    | RemoveEmptyAttributes
    | RemoveInkscapeFootprints
    | RemoveInvisibleCharacters
    | RemoveMetadata
    | RemoveTitleAndDesc
    | RemoveUnnecessaryWhitespace
    | RemoveUnsafeElements
    | RemoveUnusedMasks
    | RemoveUnusedNamespaces
    | RemoveWidthHeightAttributes
    | SortAttributes

  /** `Rule::cases()`: every case, in declaration order. */
  const Cases: seq<Rule> := [
    ConvertColorsToHex, ConvertCssClassesToAttributes, ConvertEmptyTagsToSelfClosing,
    ConvertInlineStylesToAttributes, FlattenGroups, MinifySvgCoordinates, MinifyTransformations,
    RemoveComments, RemoveDefaultAttributes, RemoveDeprecatedAttributes, RemoveDoctype,
    RemoveEnableBackgroundAttribute, RemoveEmptyAttributes, RemoveInkscapeFootprints,
    RemoveInvisibleCharacters, RemoveMetadata, RemoveTitleAndDesc, RemoveUnnecessaryWhitespace,
    RemoveUnsafeElements, RemoveUnusedMasks, RemoveUnusedNamespaces, RemoveWidthHeightAttributes,
    SortAttributes
  ]

  /** The position of the case in declaration order. */
  function Ordinal(r: Rule): nat {
    match r
    case ConvertColorsToHex => 0
    case ConvertCssClassesToAttributes => 1
    case ConvertEmptyTagsToSelfClosing => 2
    case ConvertInlineStylesToAttributes => 3
    case FlattenGroups => 4
    case MinifySvgCoordinates => 5
    case MinifyTransformations => 6
    case RemoveComments => 7
    case RemoveDefaultAttributes => 8
    case RemoveDeprecatedAttributes => 9
    case RemoveDoctype => 10
    case RemoveEnableBackgroundAttribute => 11
    case RemoveEmptyAttributes => 12
    case RemoveInkscapeFootprints => 13
    case RemoveInvisibleCharacters => 14
    case RemoveMetadata => 15
    case RemoveTitleAndDesc => 16
    case RemoveUnnecessaryWhitespace => 17
    case RemoveUnsafeElements => 18
    case RemoveUnusedMasks => 19
    case RemoveUnusedNamespaces => 20
    case RemoveWidthHeightAttributes => 21
    case SortAttributes => 22
  }

  /** The case's backing string: its key in a configuration file. */
  function Value(r: Rule): string {
    match r
    case ConvertColorsToHex => "convertColorsToHex"
    case ConvertCssClassesToAttributes => "convertCssClassesToAttributes"
    case ConvertEmptyTagsToSelfClosing => "convertEmptyTagsToSelfClosing"
    case ConvertInlineStylesToAttributes => "convertInlineStylesToAttributes"
    case FlattenGroups => "flattenGroups"
    case MinifySvgCoordinates => "minifySvgCoordinates"
    case MinifyTransformations => "minifyTransformations"
    case RemoveComments => "removeComments"
    case RemoveDefaultAttributes => "removeDefaultAttributes"
    case RemoveDeprecatedAttributes => "removeDeprecatedAttributes"
    case RemoveDoctype => "removeDoctype"
    case RemoveEnableBackgroundAttribute => "removeEnableBackgroundAttribute"
    case RemoveEmptyAttributes => "removeEmptyAttributes"
    case RemoveInkscapeFootprints => "removeInkscapeFootprints"
    case RemoveInvisibleCharacters => "removeInvisibleCharacters"
    case RemoveMetadata => "removeMetadata"
    case RemoveTitleAndDesc => "removeTitleAndDesc"
    case RemoveUnnecessaryWhitespace => "removeUnnecessaryWhitespace"
    case RemoveUnsafeElements => "removeUnsafeElements"
    case RemoveUnusedMasks => "removeUnusedMasks"
    case RemoveUnusedNamespaces => "removeUnusedNamespaces"
    case RemoveWidthHeightAttributes => "removeWidthHeightAttributes"
    case SortAttributes => "sortAttributes"
  }

  /** `defaultValue()`: whether the rule runs when the configuration does not mention it. */
  function DefaultValue(r: Rule): bool {
    match r
    case FlattenGroups | RemoveWidthHeightAttributes | RemoveUnsafeElements => false
    case _ => true
  }

  /** `Cases` lists every rule exactly once. */
  lemma CasesAreEveryRuleOnce()
    ensures |Cases| == 23
    ensures forall r: Rule :: r in Cases
    ensures forall i, j | 0 <= i < j < |Cases| :: Cases[i] != Cases[j]
  {
    forall r: Rule ensures r in Cases {
      assert Cases[Ordinal(r)] == r;
    }
  }

  /** Exactly three rules are off by default. */
  lemma DefaultOffRules(r: Rule)
    ensures !DefaultValue(r) <==> r in {FlattenGroups, RemoveWidthHeightAttributes, RemoveUnsafeElements}
  {
  }
}

/**
 * `SvgOptimizerFacade`: the library's entry point.  It makes an optimizer
 * for a string, turns the rule switches of `withRules` into configured
 * rules, and hands `optimize`, `getMetaData` and `getContent` on to the
 * optimizer.
 */
module SvgOptimizerFacade {

  import opened Outcomes
  import opened Platform
  import opened RuleType
  import opened SvgProvider
  import opened RuleDispatch
  import O = SvgOptimizer

  /** The rules in the order `withRules` lists them. */
  const FACADE_ORDER: seq<Rule> := [
    ConvertColorsToHex, ConvertCssClassesToAttributes, ConvertEmptyTagsToSelfClosing,
    ConvertInlineStylesToAttributes, FlattenGroups, MinifySvgCoordinates, MinifyTransformations,
    RemoveComments, RemoveDefaultAttributes, RemoveDeprecatedAttributes, RemoveDoctype,
    RemoveEmptyAttributes, RemoveEnableBackgroundAttribute, RemoveInkscapeFootprints,
    RemoveInvisibleCharacters, RemoveMetadata, RemoveTitleAndDesc, RemoveUnnecessaryWhitespace,
    RemoveUnsafeElements, RemoveUnusedMasks, RemoveUnusedNamespaces, RemoveWidthHeightAttributes,
    SortAttributes
  ]

  /** Where a rule stands in `FACADE_ORDER`. */
  function FacadeRank(r: Rule): (n: nat)
    ensures n < |FACADE_ORDER| && FACADE_ORDER[n] == r
  {
    if r == RemoveEmptyAttributes then 11
    else if r == RemoveEnableBackgroundAttribute then 12
    else Ordinal(r)
  }

  /**
   * `withRules` lists every rule once, in the enum's order except that
   * `RemoveEmptyAttributes` comes before `RemoveEnableBackgroundAttribute`.
   */
  lemma FacadeOrderSwapsTwoCases()
    ensures |FACADE_ORDER| == |Cases|
    ensures forall i | 0 <= i < |Cases| && i != 11 && i != 12 :: FACADE_ORDER[i] == Cases[i]
    ensures FACADE_ORDER[11] == Cases[12] && FACADE_ORDER[12] == Cases[11]
  {
  }

  /** No rule appears twice in `FACADE_ORDER`: each one's rank is its position. */
  lemma FacadeRanksArePositions()
    ensures forall i | 0 <= i < |FACADE_ORDER| :: FacadeRank(FACADE_ORDER[i]) == i
  {
  }

  /** `withRules`' parameter defaults: every rule on except the two that can lose content. */
  predicate DefaultFlag(r: Rule) {
    r != RemoveUnsafeElements && r != RemoveWidthHeightAttributes
  }

  /** The defaults of `withRules` agree with `Rule::defaultValue()` except on `FlattenGroups`. */
  lemma DefaultsDifferOnFlattenGroupsOnly(r: Rule)
    ensures DefaultFlag(r) != DefaultValue(r) <==> r == FlattenGroups
  {
  }

  /** The `$rules` array of `withRules`: each rule in facade order with its switch. */
  function Flags(enabled: Rule -> bool): (f: seq<(Rule, bool)>)
    ensures |f| == |FACADE_ORDER|
    ensures forall i | 0 <= i < |f| :: f[i].0 == FACADE_ORDER[i] && f[i].1 == enabled(FACADE_ORDER[i])
  {
    seq(|FACADE_ORDER|, i requires 0 <= i < |FACADE_ORDER| => (FACADE_ORDER[i], enabled(FACADE_ORDER[i])))
  }

  /** `withRules` configures a rule exactly when its switch is on. */
  lemma WithRulesSelects(enabled: Rule -> bool, r: Rule)
    ensures r in O.Enabled(Flags(enabled)) <==> enabled(r)
  {
    var f := Flags(enabled);
    O.EnabledMeans(f, r);
    if enabled(r) {
      assert f[FacadeRank(r)] == (r, true);
    }
  }

  /** `withRules` configures the rules in facade order, each at most once. */
  lemma WithRulesInFacadeOrder(enabled: Rule -> bool)
    ensures var e := O.Enabled(Flags(enabled));
      forall i, j | 0 <= i < j < |e| :: FacadeRank(e[i]) < FacadeRank(e[j])
  {
    var f := Flags(enabled);
    FacadeRanksArePositions();
    var rank: Rule -> int := r => FacadeRank(r);
    assert forall k | 0 <= k < |f| :: rank(f[k].0) == k;
    O.EnabledKeepsOrder(f, rank);
  }

  /** The facade over one optimizer. */
  class Facade {
    const optimizer: O.SvgOptimizer

    /** `fromString`: an optimizer with no rules over a string provider of `content`. */
    constructor FromString(content: string, env: Env)
      ensures fresh(optimizer) && fresh(optimizer.provider)
      ensures optimizer.provider.inputContent == content && optimizer.provider.outputContent == ""
      ensures optimizer.env == env && optimizer.step == Stepper(env)
      ensures optimizer.rules == [] && optimizer.domDocumentContent == "" && !optimizer.isOptimized
    {
      var provider := new Provider(content);
      optimizer := new O.SvgOptimizer(provider, env);
    }

    /** `optimize`: the optimizer's. */
    method Optimize() returns (o: Outcome)
      modifies optimizer, optimizer.provider
      ensures optimizer.rules == old(optimizer.rules)
      ensures optimizer.provider.inputContent == old(optimizer.provider.inputContent)
      ensures var r := O.Optimized(optimizer.step, optimizer.env, optimizer.rules, optimizer.provider.inputContent,
                                   old(optimizer.provider.outputContent));
        o == r.outcome && optimizer.provider.outputContent == r.output
      ensures o.Pass? ==> optimizer.isOptimized && optimizer.domDocumentContent == optimizer.provider.outputContent
      ensures o.Fail? ==> optimizer.isOptimized == old(optimizer.isOptimized)
                          && optimizer.domDocumentContent == old(optimizer.domDocumentContent)
    {
      o := optimizer.Optimize();
    }

    /** `withRules`: the switched-on rules are added after any already configured. */
    method WithRules(enabled: Rule -> bool)
      modifies optimizer
      ensures optimizer.rules == old(optimizer.rules) + O.Enabled(Flags(enabled))
      ensures optimizer.domDocumentContent == old(optimizer.domDocumentContent)
      ensures optimizer.isOptimized == old(optimizer.isOptimized)
    {
      optimizer.ConfigureRules(Flags(enabled));
    }

    /** `getMetaData`: the optimizer's. */
    method GetMetaData() returns (r: Result<Sizes>)
      ensures !optimizer.isOptimized ==> r == Failure(Logic(O.METADATA_UNAVAILABLE))
      ensures optimizer.isOptimized ==>
        r == Success(Sizes(|optimizer.provider.inputContent|, |optimizer.provider.outputContent|))
    {
      r := optimizer.GetMetaData();
    }

    /** `getContent`: the optimizer's. */
    function GetContent(): string
      reads optimizer
    {
      optimizer.GetContent()
    }
  }
}

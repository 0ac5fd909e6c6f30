# php-svg-optimizer, modelled in Dafny

This project models the SVG optimiser library `mathiasreker/php-svg-optimizer`, which the `fc-icons` plugin of the site vendors, and proves properties of the model. The library reads an SVG text and checks that it is valid. It then loads the text into a DOM tree and runs a configurable list of rules over the tree, in a fixed order. Finally it serializes the tree, strips the leading `<?xml …?>` declaration and trims the result.

Each rule is an in-place rewrite of the tree, and a few rules rewrite the serialized text instead. Examples:

- remove comments, `<title>`/`<desc>`, `<metadata>` or unsafe elements and attributes;
- convert `rgb()` colours to hex;
- minify coordinates and transforms;
- flatten groups;
- turn inline styles and CSS classes into presentation attributes.

One rule, FlattenGroups, asks for a size check. The optimiser keeps that rule's result only when the serialized output got strictly shorter than the current baseline, and otherwise reloads the baseline.

How the library is represented:

- **The DOM** is a value tree (`Dom.Node`: elements with a qualified name, a namespace URI, an attribute map and an ordered child list; text, comments and processing instructions). It is held by the class `Dom.DomDocument`, whose methods replace the tree in place the way the source's methods mutate the `DOMDocument`.
- **Regular expressions** are written out as hand-coded matchers and rewriters (leftmost, non-overlapping, with the greedy or lazy choices of PCRE).
- **Operations outside this model** are fields of `Platform.Env`: serialization, parsing, SVG validation, a PCRE engine failure, PHP's float formatting, and the five rules whose source is not part of this model.
- **Stateful classes** become Dafny classes whose methods update their fields under `modifies`: the optimizer, its facade, the provider and the metadata aggregator.
- **The command-line option parser** is modelled on a sequence of words.

Each rule is stated against a specification function (`Optimized`). Lemmas then prove what the rule promises about that function: what is gone afterwards, what is kept, idempotence, and that the tree keeps its shape.

Modules, one file each: `Dom`, `Strings`, `Outcomes`, `Platform`, `RuleType`, `RuleDispatch`, `SvgOptimizer`, `SvgOptimizerFacade`, `SvgProvider`, `MetaDataAggregator`, `XmlProcessor`, `XmlFormatter`, `SvgPropertiesTrait`, `RemoveElementsByTagNameTrait`, `ArgumentParser`, and one module per rule.

## Model

| member | source | states |
|---|---|---|
| RuleType.CasesAreEveryRuleOnce | site/plugins/fc-icons/vendor/mathiasreker/php-svg-optimizer/src/Type/Rule.php:22-46 | there are 23 rules, `Cases` lists each of them, and no rule twice |
| RuleType.DefaultOffRules | site/plugins/fc-icons/vendor/mathiasreker/php-svg-optimizer/src/Type/Rule.php:53-81 | `defaultValue` is false exactly for FLATTEN_GROUPS, REMOVE_WIDTH_HEIGHT_ATTRIBUTES and REMOVE_UNSAFE_ELEMENTS, true for the other 20 |
| SvgOptimizer.Reverted | site/plugins/fc-icons/vendor/mathiasreker/php-svg-optimizer/src/Model/SvgOptimizer.php:116-119 | the rollback loads the baseline text when it parses and leaves the tree as it is when it does not |
| SvgOptimizer.SizeChecked | site/plugins/fc-icons/vendor/mathiasreker/php-svg-optimizer/src/Model/SvgOptimizer.php:112-119 | the size check never lengthens the baseline, and fails exactly when serializing the rule's result fails |
| SvgOptimizer.Advance | site/plugins/fc-icons/vendor/mathiasreker/php-svg-optimizer/src/Model/SvgOptimizer.php:109-121 | one rule never lengthens the baseline, and a rule without the size check is kept as it ran, baseline untouched |
| SvgOptimizer.BaselineNeverGrows | site/plugins/fc-icons/vendor/mathiasreker/php-svg-optimizer/src/Model/SvgOptimizer.php:107-121 | across the whole rule loop the baseline length never increases |
| SvgOptimizer.SingleRuleRun | site/plugins/fc-icons/vendor/mathiasreker/php-svg-optimizer/src/Model/SvgOptimizer.php:109-121 | the loop over one rule is exactly that rule's step |
| SvgOptimizer.ShorterOutputKept | site/plugins/fc-icons/vendor/mathiasreker/php-svg-optimizer/src/Model/SvgOptimizer.php:113-115 | a size-checked rule whose output is strictly shorter than the baseline is kept, and that output becomes the baseline |
| SvgOptimizer.LongerOutputReverted | site/plugins/fc-icons/vendor/mathiasreker/php-svg-optimizer/src/Model/SvgOptimizer.php:116-119 | a size-checked rule whose output is not shorter is undone by loading the baseline back, and the baseline stays |
| SvgOptimizer.UncheckedRulesCompose | site/plugins/fc-icons/vendor/mathiasreker/php-svg-optimizer/src/Model/SvgOptimizer.php:109-112 | with no size-checked rule the loop runs the rules one after another, stopping at the first failure, and never touches the baseline |
| SvgOptimizer.Optimized | site/plugins/fc-icons/vendor/mathiasreker/php-svg-optimizer/src/Model/SvgOptimizer.php:71-86 | a passing run had valid input; on success the stored content is the provider's output, already trimmed; on a failure the `content` field is left "" and nothing reads it, since `SvgOptimizer.SvgOptimizer.Optimize` then keeps the old content |
| SvgOptimizer.NoRulesOutput | site/plugins/fc-icons/vendor/mathiasreker/php-svg-optimizer/src/Model/SvgOptimizer.php:79-81 | with no rules the content is the provider's output of the loaded input |
| SvgOptimizer.EnabledMeans | site/plugins/fc-icons/vendor/mathiasreker/php-svg-optimizer/src/Model/SvgOptimizer.php:187-194 | a rule is selected exactly when the flag list pairs it with true |
| SvgOptimizer.EnabledKeepsOrder | site/plugins/fc-icons/vendor/mathiasreker/php-svg-optimizer/src/Model/SvgOptimizer.php:189-193 | the selected rules keep the order of the flag list |
| SvgOptimizer.SvgOptimizer.constructor | site/plugins/fc-icons/vendor/mathiasreker/php-svg-optimizer/src/Model/SvgOptimizer.php:58-62 | a new optimizer has no rules, content "" and is not optimized |
| SvgOptimizer.SvgOptimizer.Optimize | site/plugins/fc-icons/vendor/mathiasreker/php-svg-optimizer/src/Model/SvgOptimizer.php:71-86 | invalid input throws the validation error and changes no state; otherwise the outcome and output are `Optimized`'s, success stores the output and sets the optimized flag, failure leaves both |
| SvgOptimizer.SvgOptimizer.Rewrite | site/plugins/fc-icons/vendor/mathiasreker/php-svg-optimizer/src/Model/SvgOptimizer.php:79-81 | loading, rule loop and final serialization give `Optimized`'s outcome and output |
| SvgOptimizer.SvgOptimizer.ApplyRules | site/plugins/fc-icons/vendor/mathiasreker/php-svg-optimizer/src/Model/SvgOptimizer.php:105-122 | a failed baseline serialization throws before any rule; otherwise tree, outcome and last output are those of the rule loop started from that baseline |
| SvgOptimizer.SvgOptimizer.ApplyEach | site/plugins/fc-icons/vendor/mathiasreker/php-svg-optimizer/src/Model/SvgOptimizer.php:109-121 | the loop over the configured rules ends in the state `RulesApplied` describes |
| SvgOptimizer.SvgOptimizer.ApplyRule | site/plugins/fc-icons/vendor/mathiasreker/php-svg-optimizer/src/Model/SvgOptimizer.php:110-120 | one rule and its optional size check end in the state `Advance` describes |
| SvgOptimizer.SvgOptimizer.CheckSize | site/plugins/fc-icons/vendor/mathiasreker/php-svg-optimizer/src/Model/SvgOptimizer.php:113-119 | the size comparison and rollback end in the state `SizeChecked` describes |
| SvgOptimizer.SvgOptimizer.GetMetaData | site/plugins/fc-icons/vendor/mathiasreker/php-svg-optimizer/src/Model/SvgOptimizer.php:131-138 | before optimization a logic error; afterwards the byte lengths of input and output |
| SvgOptimizer.SvgOptimizer.HasRules | site/plugins/fc-icons/vendor/mathiasreker/php-svg-optimizer/src/Model/SvgOptimizer.php:167-170 | true exactly when a rule is configured |
| SvgOptimizer.SvgOptimizer.AddRule | site/plugins/fc-icons/vendor/mathiasreker/php-svg-optimizer/src/Model/SvgOptimizer.php:201-204 | the rule is appended; content and optimized flag are unchanged |
| SvgOptimizer.SvgOptimizer.ConfigureRules | site/plugins/fc-icons/vendor/mathiasreker/php-svg-optimizer/src/Model/SvgOptimizer.php:187-194 | exactly the enabled rules are appended after the existing ones, in flag order |
| SvgOptimizer.SvgOptimizer.GetContent | site/plugins/fc-icons/vendor/mathiasreker/php-svg-optimizer/src/Model/SvgOptimizer.php:145-148 | `getContent`: "" until an `optimize` succeeds, and always trimmed |
| SvgOptimizerFacade.FacadeRank | site/plugins/fc-icons/vendor/mathiasreker/php-svg-optimizer/src/Service/Facade/SvgOptimizerFacade.php:166-190 | the rank is the rule's position in the `withRules` array |
| SvgOptimizerFacade.FacadeOrderSwapsTwoCases | site/plugins/fc-icons/vendor/mathiasreker/php-svg-optimizer/src/Service/Facade/SvgOptimizerFacade.php:166-190 | the array lists all 23 rules in the enum's order except that empty attributes come before enable-background |
| SvgOptimizerFacade.FacadeRanksArePositions | site/plugins/fc-icons/vendor/mathiasreker/php-svg-optimizer/src/Service/Facade/SvgOptimizerFacade.php:166-190 | no rule appears twice in the array |
| SvgOptimizerFacade.DefaultsDifferOnFlattenGroupsOnly | site/plugins/fc-icons/vendor/mathiasreker/php-svg-optimizer/src/Service/Facade/SvgOptimizerFacade.php:141-165 | the parameter defaults agree with `Rule::defaultValue` on every rule except FLATTEN_GROUPS, which is on here |
| SvgOptimizerFacade.Flags | site/plugins/fc-icons/vendor/mathiasreker/php-svg-optimizer/src/Service/Facade/SvgOptimizerFacade.php:166-190 | 23 pairs, each rule in array order with its own switch |
| SvgOptimizerFacade.WithRulesSelects | site/plugins/fc-icons/vendor/mathiasreker/php-svg-optimizer/src/Service/Facade/SvgOptimizerFacade.php:166-192 | a rule is configured exactly when its switch is on |
| SvgOptimizerFacade.WithRulesInFacadeOrder | site/plugins/fc-icons/vendor/mathiasreker/php-svg-optimizer/src/Service/Facade/SvgOptimizerFacade.php:166-192 | the configured rules follow the array's order, whatever order the caller thinks of |
| SvgOptimizerFacade.Facade.FromString | site/plugins/fc-icons/vendor/mathiasreker/php-svg-optimizer/src/Service/Facade/SvgOptimizerFacade.php:78-81 | a fresh optimizer over a string provider of the content, with no rules and nothing optimized |
| SvgOptimizerFacade.Facade.Optimize | site/plugins/fc-icons/vendor/mathiasreker/php-svg-optimizer/src/Service/Facade/SvgOptimizerFacade.php:107-112 | has the optimizer's `optimize` contract |
| SvgOptimizerFacade.Facade.WithRules | site/plugins/fc-icons/vendor/mathiasreker/php-svg-optimizer/src/Service/Facade/SvgOptimizerFacade.php:141-195 | the switched-on rules are appended after those already configured, so a second call appends them again |
| SvgOptimizerFacade.Facade.GetMetaData | site/plugins/fc-icons/vendor/mathiasreker/php-svg-optimizer/src/Service/Facade/SvgOptimizerFacade.php:218-221 | the optimizer's answer: a logic error before optimization, the two lengths after |
| RuleDispatch.Gated | site/plugins/fc-icons/vendor/mathiasreker/php-svg-optimizer/src/Service/Processor/AbstractXmlProcessor.php:53-63 | a rule behind the validate-and-reload gate succeeds exactly when the gate does, and on failure leaves the given tree and carries the error |
| RuleDispatch.RuleStep | site/plugins/fc-icons/vendor/mathiasreker/php-svg-optimizer/src/Model/SvgOptimizer.php:110 | only the gated rules and the rules outside this model can throw; an outside rule acts through its gate |
| RuleDispatch.RunGated | site/plugins/fc-icons/vendor/mathiasreker/php-svg-optimizer/src/Service/Rule/RemoveDoctype.php:41-44 | running a gated rule in place gives the tree and outcome `GatedStep` describes |
| RuleDispatch.RunRule | site/plugins/fc-icons/vendor/mathiasreker/php-svg-optimizer/src/Model/SvgOptimizer.php:110 | each rule's in-place `optimize` gives the tree and outcome `RuleStep` describes |
| RuleDispatch.RunPlain | site/plugins/fc-icons/vendor/mathiasreker/php-svg-optimizer/src/Model/SvgOptimizer.php:110 | running a tree-only rule in place leaves the tree `PlainStep` describes |
| RuleDispatch.OnlyFlattenGroupsChecksSize | site/plugins/fc-icons/vendor/mathiasreker/php-svg-optimizer/src/Service/Rule/FlattenGroups.php:46-49 | among the rules defined here, only FlattenGroups asks for the size check |
| SvgProvider.XmlDeclarationEnd | site/plugins/fc-icons/vendor/mathiasreker/php-svg-optimizer/src/Service/Provider/AbstractProvider.php:31 | a match needs `<?xml` after the leading spaces, and its end is past that opener and not on a space |
| SvgProvider.StripXmlDeclaration | site/plugins/fc-icons/vendor/mathiasreker/php-svg-optimizer/src/Service/Provider/AbstractProvider.php:72 | the result is a suffix of the text; without a match it is the text itself; with one it lost at least the opener and does not start with a space |
| SvgProvider.LeadingDeclarationStripped | site/plugins/fc-icons/vendor/mathiasreker/php-svg-optimizer/src/Service/Provider/AbstractProvider.php:31 | spaces, a `<?xml … ?>` declaration and the spaces after it are cut, leaving exactly what follows |
| SvgProvider.LaterDeclarationKept | site/plugins/fc-icons/vendor/mathiasreker/php-svg-optimizer/src/Service/Provider/AbstractProvider.php:31 | the pattern is anchored: a declaration after the root element stays |
| SvgProvider.UpperCaseDeclarationKept | site/plugins/fc-icons/vendor/mathiasreker/php-svg-optimizer/src/Service/Provider/AbstractProvider.php:31 | the pattern is case-sensitive: `<?XML?>` stays |
| SvgProvider.UnclosedDeclarationKept | site/plugins/fc-icons/vendor/mathiasreker/php-svg-optimizer/src/Service/Provider/AbstractProvider.php:31 | the pattern needs `?` before the first `>`: `<?xml>` stays |
| SvgProvider.ProviderOutput | site/plugins/fc-icons/vendor/mathiasreker/php-svg-optimizer/src/Service/Provider/AbstractProvider.php:69-80 | fails exactly when the regex engine fails, with the XML processing error; otherwise the output is trimmed and no longer than the serialized text |
| SvgProvider.DeclaredOutput | site/plugins/fc-icons/vendor/mathiasreker/php-svg-optimizer/src/Service/Provider/AbstractProvider.php:71-77 | a serialization made of a declaration, a newline and a trimmed document gives exactly that document |
| SvgProvider.Provider.constructor | site/plugins/fc-icons/vendor/mathiasreker/php-svg-optimizer/src/Service/Provider/AbstractProvider.php:41-51 | the output is "" before the first `optimize` |
| SvgProvider.Provider.Optimize | site/plugins/fc-icons/vendor/mathiasreker/php-svg-optimizer/src/Service/Provider/AbstractProvider.php:69-80 | on success the stored output is `ProviderOutput`; on a regex failure the error is thrown and the old output kept |
| SvgProvider.Provider.GetMetaData | site/plugins/fc-icons/vendor/mathiasreker/php-svg-optimizer/src/Service/Provider/AbstractProvider.php:88-96 | the byte lengths of the input and of the stored output |
| SvgProvider.Provider.GetOutputContent | site/plugins/fc-icons/vendor/mathiasreker/php-svg-optimizer/src/Service/Provider/AbstractProvider.php:152-155 | `getOutputContent`: the stored output is always trimmed |
| MetaDataAggregator.SavedIsDifferenceOfTotals | site/plugins/fc-icons/vendor/mathiasreker/php-svg-optimizer/src/Model/MetaDataAggregator.php:85-88 | the savings taken file by file add up to the difference of the two totals |
| MetaDataAggregator.SumsOfCons | site/plugins/fc-icons/vendor/mathiasreker/php-svg-optimizer/src/Model/MetaDataAggregator.php:39-44 | a history's totals are its first entry's sizes plus the rest's totals |
| MetaDataAggregator.MetaDataAggregator.constructor | site/plugins/fc-icons/vendor/mathiasreker/php-svg-optimizer/src/Model/MetaDataAggregator.php:22-32 | both totals and the file count start at 0, with an empty history |
| MetaDataAggregator.MetaDataAggregator.AddFileData | site/plugins/fc-icons/vendor/mathiasreker/php-svg-optimizer/src/Model/MetaDataAggregator.php:39-44 | each size is added to its total, the count grows by exactly one, and the totals stay the sums of every call so far |
| MetaDataAggregator.MetaDataAggregator.SavedBytes | site/plugins/fc-icons/vendor/mathiasreker/php-svg-optimizer/src/Model/MetaDataAggregator.php:85-88 | the saved bytes are the sum over all calls of original minus optimized size |
| MetaDataAggregator.MetaDataAggregator.SavedPercentage | site/plugins/fc-icons/vendor/mathiasreker/php-svg-optimizer/src/Model/MetaDataAggregator.php:71-78 | 0 when the original total is 0 (no division); otherwise the saved bytes as a percentage of the original total |
| XmlProcessor.Process | site/plugins/fc-icons/vendor/mathiasreker/php-svg-optimizer/src/Service/Processor/AbstractXmlProcessor.php:38-71 | every failure is an XML processing error; success exactly when the callback returns a string that is valid SVG and loads, and then the returned text is what was loaded; a non-string result, a foreign exception and invalid output each give their own error |
| XmlProcessor.ProcessIn | site/plugins/fc-icons/vendor/mathiasreker/php-svg-optimizer/src/Service/Processor/AbstractXmlProcessor.php:38-71 | on success the document is the one loaded from the returned text; on any failure the document is not reloaded |
| XmlProcessor.ProcessedDocument | site/plugins/fc-icons/vendor/mathiasreker/php-svg-optimizer/src/Service/Processor/AbstractXmlProcessor.php:62-70 | the document `process` leaves succeeds exactly when `process` does, and carries its error otherwise |
| XmlProcessor.Apply | site/plugins/fc-icons/vendor/mathiasreker/php-svg-optimizer/src/Service/Processor/AbstractXmlProcessor.php:38-71 | a rule made of one `process` call replaces the document on success and keeps it, with the error, on failure |
| XmlFormatter.RemoveLineFeedsAndTabs | site/plugins/fc-icons/vendor/mathiasreker/php-svg-optimizer/src/Service/Formatter/XmlFormatter.php:40-43 | no CR, LF or tab remains, and every other character, spaces included, stays in order |
| XmlFormatter.RemoveLineFeedsAndTabsCounts | site/plugins/fc-icons/vendor/mathiasreker/php-svg-optimizer/src/Service/Formatter/XmlFormatter.php:40-43 | each other character is kept exactly as often as the input holds it |
| XmlFormatter.RemoveLineFeedsAndTabsIdentity | site/plugins/fc-icons/vendor/mathiasreker/php-svg-optimizer/src/Service/Formatter/XmlFormatter.php:40-43 | text without CR, LF or tab comes back unchanged |
| XmlFormatter.RemoveLineFeedsAndTabsIdempotent | site/plugins/fc-icons/vendor/mathiasreker/php-svg-optimizer/src/Service/Formatter/XmlFormatter.php:40-43 | a second removal changes nothing |
| XmlFormatter.Step | site/plugins/fc-icons/vendor/mathiasreker/php-svg-optimizer/src/Service/Formatter/XmlFormatter.php:28 | one scan step either emits `><` for a `>\s+<` match or copies one character, and always advances |
| XmlFormatter.CollapseFrom | site/plugins/fc-icons/vendor/mathiasreker/php-svg-optimizer/src/Service/Formatter/XmlFormatter.php:54-57 | the left-to-right replacement from a position is no longer than what it reads |
| XmlFormatter.CollapseKeepsNonSpace | site/plugins/fc-icons/vendor/mathiasreker/php-svg-optimizer/src/Service/Formatter/XmlFormatter.php:54-57 | only whitespace characters are deleted |
| XmlFormatter.CollapseIsSubsequence | site/plugins/fc-icons/vendor/mathiasreker/php-svg-optimizer/src/Service/Formatter/XmlFormatter.php:54-57 | the characters kept stay in their order |
| XmlFormatter.CollapseIdentity | site/plugins/fc-icons/vendor/mathiasreker/php-svg-optimizer/src/Service/Formatter/XmlFormatter.php:54-57 | text without `>\s+<` comes back unchanged |
| XmlFormatter.CollapseLeavesNoGap | site/plugins/fc-icons/vendor/mathiasreker/php-svg-optimizer/src/Service/Formatter/XmlFormatter.php:54-57 | the rewritten text holds no `>\s+<` any more |
| XmlFormatter.UnmatchedSpaces | site/plugins/fc-icons/vendor/mathiasreker/php-svg-optimizer/src/Service/Formatter/XmlFormatter.php:28 | spaces after a `>` that are not followed by `<` are copied and stay unmatched |
| XmlFormatter.RemoveWhitespaceBetweenTags | site/plugins/fc-icons/vendor/mathiasreker/php-svg-optimizer/src/Service/Formatter/XmlFormatter.php:54-57 | never longer, a subsequence of the input that differs only in whitespace, and the input itself when nothing matches |
| XmlFormatter.RemoveWhitespaceBetweenTagsIdempotent | site/plugins/fc-icons/vendor/mathiasreker/php-svg-optimizer/src/Service/Formatter/XmlFormatter.php:54-57 | a second pass changes nothing |
| RemoveElementsByTagNameTrait.RemoveElementsByTagName | site/plugins/fc-icons/vendor/mathiasreker/php-svg-optimizer/src/Service/Rule/Trait/RemoveElementsByTagNameTrait.php:29-40 | the document becomes the one with every element of that name removed with its subtree, and none of that name remains |
| RemoveElementsByTagNameTrait.HasTagNameHeadOnly | site/plugins/fc-icons/vendor/mathiasreker/php-svg-optimizer/src/Service/Rule/Trait/RemoveElementsByTagNameTrait.php:31 | whether an element matches depends on its own name only, not on its children |
| Dom.RemoveMatches | site/plugins/fc-icons/vendor/mathiasreker/php-svg-optimizer/src/Service/Rule/Trait/RemoveElementsByTagNameTrait.php:33-39 | removing the first match in document order until none is left ends with every match removed, subtrees included |
| Dom.RemoveFirstDecreases | site/plugins/fc-icons/vendor/mathiasreker/php-svg-optimizer/src/Service/Rule/Trait/RemoveElementsByTagNameTrait.php:33-38 | each removal of the first match strictly lowers the number of matches, so the loop ends |
| Dom.RemoveFirstAbsorbed | site/plugins/fc-icons/vendor/mathiasreker/php-svg-optimizer/src/Service/Rule/Trait/RemoveElementsByTagNameTrait.php:34-37 | removing the first match first does not change what removing every match leaves |
| Dom.RemoveWhereClears | site/plugins/fc-icons/vendor/mathiasreker/php-svg-optimizer/src/Service/Rule/Trait/RemoveElementsByTagNameTrait.php:33 | after removal no matching node is left |
| Dom.RemoveWhereIdentity | site/plugins/fc-icons/vendor/mathiasreker/php-svg-optimizer/src/Service/Rule/Trait/RemoveElementsByTagNameTrait.php:33 | with no match, nothing changes |
| Dom.RemoveWhereIdempotent | site/plugins/fc-icons/vendor/mathiasreker/php-svg-optimizer/src/Service/Rule/Trait/RemoveElementsByTagNameTrait.php:29-40 | removing twice is removing once |
| Dom.RemoveWhereKeeps | site/plugins/fc-icons/vendor/mathiasreker/php-svg-optimizer/src/Service/Rule/Trait/RemoveElementsByTagNameTrait.php:37 | nodes of another kind that lie outside every removed subtree all survive |
| Dom.RemoveWhereNeverAdds | site/plugins/fc-icons/vendor/mathiasreker/php-svg-optimizer/src/Service/Rule/Trait/RemoveElementsByTagNameTrait.php:37 | removal never adds a node of any kind |
| Dom.MapAttributesKeepsTree | site/plugins/fc-icons/vendor/mathiasreker/php-svg-optimizer/src/Service/Rule/RemoveEmptyAttributes.php:57-62 | rewriting the attributes of every element keeps every node's kind, name and place |
| Dom.MapAttributesIdempotent | site/plugins/fc-icons/vendor/mathiasreker/php-svg-optimizer/src/Service/Rule/RemoveEmptyAttributes.php:57-62 | an attribute rewrite that is idempotent on one element is idempotent on the whole tree |
| Dom.Sift | site/plugins/fc-icons/vendor/mathiasreker/php-svg-optimizer/src/Service/Rule/RemoveUnsafeElements.php:437-454 | the walk from the last item of a live element list to the first, removing what the test selects: no node left at the top level passes the test, and the list never grows |
| Dom.SiftNodes | site/plugins/fc-icons/vendor/mathiasreker/php-svg-optimizer/src/Service/Rule/RemoveUnsafeElements.php:441-453 | the loop from the last node to the first computes `Sift` |
| Dom.SiftIsRemoveWhere | site/plugins/fc-icons/vendor/mathiasreker/php-svg-optimizer/src/Service/Rule/RemoveUnsafeElements.php:240-253 | when the test looks only at the node itself (as the dangerous-link test does), the walk from the last item removes every match, exactly as removal from the top does |
| Dom.SiftClears | site/plugins/fc-icons/vendor/mathiasreker/php-svg-optimizer/src/Service/Rule/RemoveUnsafeElements.php:437-454 | no node passing the test is left at any depth, even when the test looks at children |
| Dom.SiftIdempotent | site/plugins/fc-icons/vendor/mathiasreker/php-svg-optimizer/src/Service/Rule/RemoveUnsafeElements.php:437-454 | running the walk a second time changes nothing |
| Dom.SiftNeverAdds | site/plugins/fc-icons/vendor/mathiasreker/php-svg-optimizer/src/Service/Rule/RemoveUnsafeElements.php:240-253 | the walk never adds a node that passes another test on the node itself |
| RemoveComments.CommentTestsHeadOnly | site/plugins/fc-icons/vendor/mathiasreker/php-svg-optimizer/src/Service/Rule/RemoveComments.php:35-38 | whether a comment is removed depends on the comment alone |
| RemoveComments.Optimize | site/plugins/fc-icons/vendor/mathiasreker/php-svg-optimizer/src/Service/Rule/RemoveComments.php:30-44 | the in-place removal leaves the document `Optimized` describes |
| RemoveComments.OptimizedRemovesComments | site/plugins/fc-icons/vendor/mathiasreker/php-svg-optimizer/src/Service/Rule/RemoveComments.php:37-43 | no comment without a leading `!` is left |
| RemoveComments.OptimizedKeepsMarkedComments | site/plugins/fc-icons/vendor/mathiasreker/php-svg-optimizer/src/Service/Rule/RemoveComments.php:38-40 | every comment starting with `!` is kept |
| RemoveComments.OptimizedTouchesOnlyComments | site/plugins/fc-icons/vendor/mathiasreker/php-svg-optimizer/src/Service/Rule/RemoveComments.php:35 | with all comments taken out, the documents before and after are equal: only comments change |
| RemoveComments.OptimizedIdempotent | site/plugins/fc-icons/vendor/mathiasreker/php-svg-optimizer/src/Service/Rule/RemoveComments.php:30-44 | a second run changes nothing |
| RemoveMetadata.Optimize | site/plugins/fc-icons/vendor/mathiasreker/php-svg-optimizer/src/Service/Rule/RemoveMetadata.php:34-37 | the in-place removal leaves the document `Optimized` describes |
| RemoveMetadata.OptimizedLeavesNone | site/plugins/fc-icons/vendor/mathiasreker/php-svg-optimizer/src/Service/Rule/RemoveMetadata.php:36 | no `metadata` element is left |
| RemoveMetadata.OptimizedIdempotent | site/plugins/fc-icons/vendor/mathiasreker/php-svg-optimizer/src/Service/Rule/RemoveMetadata.php:34-37 | a second run changes nothing |
| RemoveMetadata.OptimizedKeepsOtherElements | site/plugins/fc-icons/vendor/mathiasreker/php-svg-optimizer/src/Service/Rule/RemoveMetadata.php:36 | outside the removed subtrees nothing changes |
| RemoveTitleAndDesc.Optimize | site/plugins/fc-icons/vendor/mathiasreker/php-svg-optimizer/src/Service/Rule/RemoveTitleAndDesc.php:34-38 | every `title` and then every `desc` is removed, as `Optimized` describes |
| RemoveTitleAndDesc.OptimizedLeavesNone | site/plugins/fc-icons/vendor/mathiasreker/php-svg-optimizer/src/Service/Rule/RemoveTitleAndDesc.php:36-37 | neither a `title` nor a `desc` element is left |
| RemoveTitleAndDesc.OptimizedIdempotent | site/plugins/fc-icons/vendor/mathiasreker/php-svg-optimizer/src/Service/Rule/RemoveTitleAndDesc.php:34-38 | a second run changes nothing |
| RemoveWidthHeightAttributes.WithoutSize | site/plugins/fc-icons/vendor/mathiasreker/php-svg-optimizer/src/Service/Rule/RemoveWidthHeightAttributes.php:32-42 | on an element whose name contains `svg` in any case, exactly the `width` and `height` attributes, in any case, go; every kept attribute keeps its value; on other elements nothing changes |
| RemoveWidthHeightAttributes.Optimize | site/plugins/fc-icons/vendor/mathiasreker/php-svg-optimizer/src/Service/Rule/RemoveWidthHeightAttributes.php:28-44 | collecting the size attributes and then removing each gives the document `Optimized` describes |
| RemoveWidthHeightAttributes.OptimizedEffect | site/plugins/fc-icons/vendor/mathiasreker/php-svg-optimizer/src/Service/Rule/RemoveWidthHeightAttributes.php:30-44 | an svg root keeps exactly its non-size attributes with their values; a root of another name, or no root, leaves the document unchanged |
| RemoveDoctype.DoctypeLength | site/plugins/fc-icons/vendor/mathiasreker/php-svg-optimizer/src/Service/Rule/RemoveDoctype.php:31 | a match opens with `<!DOCTYPE` in any case and runs to the first `>` after it |
| RemoveDoctype.RemoveDoctypeText | site/plugins/fc-icons/vendor/mathiasreker/php-svg-optimizer/src/Service/Rule/RemoveDoctype.php:59-62 | a regex failure gives "" through the string cast; otherwise the result is a subsequence of the text, and text without a declaration is returned unchanged |
| RemoveDoctype.Optimized | site/plugins/fc-icons/vendor/mathiasreker/php-svg-optimizer/src/Service/Rule/RemoveDoctype.php:41-44 | every failure is an XML processing error; success is the document loaded from the text with the declarations cut |
| RemoveDoctype.Optimize | site/plugins/fc-icons/vendor/mathiasreker/php-svg-optimizer/src/Service/Rule/RemoveDoctype.php:41-44 | the document is replaced on success and kept, with the thrown error, on failure |
| RemoveDoctype.LeadingDoctypeRemoved | site/plugins/fc-icons/vendor/mathiasreker/php-svg-optimizer/src/Service/Rule/RemoveDoctype.php:31 | a declaration at the start is cut with everything up to its `>` |
| RemoveDoctype.LeadingDoctypeOnly | site/plugins/fc-icons/vendor/mathiasreker/php-svg-optimizer/src/Service/Rule/RemoveDoctype.php:59-62 | a leading declaration followed by text without one leaves exactly that text |
| RemoveInvisibleCharacters.InvisibleLength | site/plugins/fc-icons/vendor/mathiasreker/php-svg-optimizer/src/Service/Rule/RemoveInvisibleCharacters.php:31 | a match is `&#x`, one of the ten listed codes and `;`; any such reference is matched |
| RemoveInvisibleCharacters.ReferenceDeterminesCode | site/plugins/fc-icons/vendor/mathiasreker/php-svg-optimizer/src/Service/Rule/RemoveInvisibleCharacters.php:31 | a reference ends at the first `;` after its `&#x`, so the code it holds is fixed |
| RemoveInvisibleCharacters.RemoveInvisibleText | site/plugins/fc-icons/vendor/mathiasreker/php-svg-optimizer/src/Service/Rule/RemoveInvisibleCharacters.php:59-62 | a regex failure returns the text itself; the result is always a subsequence of the text, and text without a reference is unchanged |
| RemoveInvisibleCharacters.Optimized | site/plugins/fc-icons/vendor/mathiasreker/php-svg-optimizer/src/Service/Rule/RemoveInvisibleCharacters.php:41-44 | every failure is an XML processing error; success is the document loaded from the text with the references cut |
| RemoveInvisibleCharacters.Optimize | site/plugins/fc-icons/vendor/mathiasreker/php-svg-optimizer/src/Service/Rule/RemoveInvisibleCharacters.php:41-44 | the document is replaced on success and kept, with the thrown error, on failure |
| RemoveInvisibleCharacters.LowerCaseSoftHyphenKept | site/plugins/fc-icons/vendor/mathiasreker/php-svg-optimizer/src/Service/Rule/RemoveInvisibleCharacters.php:31 | the pattern is case-sensitive: `&#xad;` is kept while `&#xAD;` is matched |
| RemoveInvisibleCharacters.WithoutReferencesUnchanged | site/plugins/fc-icons/vendor/mathiasreker/php-svg-optimizer/src/Service/Rule/RemoveInvisibleCharacters.php:59-62 | text holding no `&#x` comes back unchanged |
| RemoveEmptyAttributes.IsEmptyOrWhitespaceMeans | site/plugins/fc-icons/vendor/mathiasreker/php-svg-optimizer/src/Service/Rule/RemoveEmptyAttributes.php:92-95 | a value is blank exactly when every character of it is `\s` |
| RemoveEmptyAttributes.WithoutBlank | site/plugins/fc-icons/vendor/mathiasreker/php-svg-optimizer/src/Service/Rule/RemoveEmptyAttributes.php:72-80 | an attribute in a namespace always stays, even when blank; an attribute in no namespace goes exactly when it is blank or a blank attribute in a namespace has its name as local name; every kept one keeps its value; namespace declarations are not attributes and stay |
| RemoveEmptyAttributes.RemoveEmptyAttributesFromElement | site/plugins/fc-icons/vendor/mathiasreker/php-svg-optimizer/src/Service/Rule/RemoveEmptyAttributes.php:72-80 | the loop over a snapshot of the attributes, calling `removeAttribute` with each blank attribute's array key, keeps exactly what `WithoutBlank` keeps, with their values |
| RemoveEmptyAttributes.RemoveEmptyAttributes | site/plugins/fc-icons/vendor/mathiasreker/php-svg-optimizer/src/Service/Rule/RemoveEmptyAttributes.php:57-62 | every element, at every depth, loses the attributes `WithoutBlank` removes |
| RemoveEmptyAttributes.Optimize | site/plugins/fc-icons/vendor/mathiasreker/php-svg-optimizer/src/Service/Rule/RemoveEmptyAttributes.php:38-41 | the document becomes the one `Optimized` describes |
| RemoveEmptyAttributes.OptimizedLeavesNoBlank | site/plugins/fc-icons/vendor/mathiasreker/php-svg-optimizer/src/Service/Rule/RemoveEmptyAttributes.php:72-80 | no element keeps a blank attribute in no namespace |
| RemoveEmptyAttributes.OptimizedKeepsTree | site/plugins/fc-icons/vendor/mathiasreker/php-svg-optimizer/src/Service/Rule/RemoveEmptyAttributes.php:76-78 | every node, name, namespace and text is kept; only attributes go |
| RemoveEmptyAttributes.OptimizedIdempotent | site/plugins/fc-icons/vendor/mathiasreker/php-svg-optimizer/src/Service/Rule/RemoveEmptyAttributes.php:72-80 | a second run finds nothing to remove |
| RemoveEmptyAttributes.OptimizedIdentity | site/plugins/fc-icons/vendor/mathiasreker/php-svg-optimizer/src/Service/Rule/RemoveEmptyAttributes.php:76-78 | a document without blank attributes is left as it is |
| RemoveEmptyAttributes.BlankLocalNameTakesPlain | site/plugins/fc-icons/vendor/mathiasreker/php-svg-optimizer/src/Service/Rule/RemoveEmptyAttributes.php:75-77 | a blank attribute in a namespace makes `removeAttribute` take the attribute in no namespace named by its local name, whatever that one's value |
| RemoveEmptyAttributes.PrefixedBlankKept | site/plugins/fc-icons/vendor/mathiasreker/php-svg-optimizer/src/Service/Rule/RemoveEmptyAttributes.php:75-77 | `<use xlink:href=""/>` keeps its blank `xlink:href` |
| RemoveEmptyAttributes.PrefixedBlankTakesLocalName | site/plugins/fc-icons/vendor/mathiasreker/php-svg-optimizer/src/Service/Rule/RemoveEmptyAttributes.php:75-77 | `<a href="x" xlink:href=""/>` loses `href` and keeps the blank `xlink:href` |
| ConvertColorsToHex.Component | site/plugins/fc-icons/vendor/mathiasreker/php-svg-optimizer/src/Service/Rule/ConvertColorsToHex.php:28 | a `\d{1,3}` component is below 1000 and moves the scan forward |
| ConvertColorsToHex.FullHex | site/plugins/fc-icons/vendor/mathiasreker/php-svg-optimizer/src/Service/Rule/ConvertColorsToHex.php:195 | `#%02x%02x%02x` of in-range components is seven characters |
| ConvertColorsToHex.ShortHex | site/plugins/fc-icons/vendor/mathiasreker/php-svg-optimizer/src/Service/Rule/ConvertColorsToHex.php:198 | `#%1x%1x%1x` of the components shifted right by four bits is four characters |
| ConvertColorsToHex.HexDigitInjective | site/plugins/fc-icons/vendor/mathiasreker/php-svg-optimizer/src/Service/Rule/ConvertColorsToHex.php:195 | distinct digit values are written as distinct hex digits |
| ConvertColorsToHex.Hex2RoundTrip | site/plugins/fc-icons/vendor/mathiasreker/php-svg-optimizer/src/Service/Rule/ConvertColorsToHex.php:195 | a component written as two hex digits reads back as itself |
| ConvertColorsToHex.FullHexRoundTrip | site/plugins/fc-icons/vendor/mathiasreker/php-svg-optimizer/src/Service/Rule/ConvertColorsToHex.php:195 | `#rrggbb` is lower-case and reads back as the three components |
| ConvertColorsToHex.ShortHexRoundTrip | site/plugins/fc-icons/vendor/mathiasreker/php-svg-optimizer/src/Service/Rule/ConvertColorsToHex.php:197-198 | when each pair repeats one digit, the `#rgb` form with its digits doubled reads back as the three components |
| ConvertColorsToHex.ConvertRgbToHexRoundTrip | site/plugins/fc-icons/vendor/mathiasreker/php-svg-optimizer/src/Service/Rule/ConvertColorsToHex.php:186-200 | an in-range colour becomes lower-case hex that reads back as its components, and is shortened to `#rgb` exactly when each digit pair is equal |
| ConvertColorsToHex.ConvertRgbToHexOutOfRange | site/plugins/fc-icons/vendor/mathiasreker/php-svg-optimizer/src/Service/Rule/ConvertColorsToHex.php:191-193 | a component above 255 leaves the value unchanged |
| ConvertColorsToHex.FullHexDigits | site/plugins/fc-icons/vendor/mathiasreker/php-svg-optimizer/src/Service/Rule/ConvertColorsToHex.php:225-228 | the six digits of `#rrggbb` are the high and low nibbles of the three components |
| ConvertColorsToHex.RedExample | site/plugins/fc-icons/vendor/mathiasreker/php-svg-optimizer/src/Service/Rule/ConvertColorsToHex.php:186-200 | `rgb(255,0,0)` is an rgb colour and becomes `#f00` |
| ConvertColorsToHex.RgbaIsNotRgb | site/plugins/fc-icons/vendor/mathiasreker/php-svg-optimizer/src/Service/Rule/ConvertColorsToHex.php:28 | the anchored pattern rejects `rgba(0,0,0,1)` |
| ConvertColorsToHex.ConvertColorAttribute | site/plugins/fc-icons/vendor/mathiasreker/php-svg-optimizer/src/Service/Rule/ConvertColorsToHex.php:237-248 | only the named attribute's value can change; no attribute appears or disappears |
| ConvertColorsToHex.ConvertColorValueCases | site/plugins/fc-icons/vendor/mathiasreker/php-svg-optimizer/src/Service/Rule/ConvertColorsToHex.php:240-246 | a value that trims to neither an rgb nor a hex colour is untouched; a hex colour is lower-cased; an rgb colour is converted |
| ConvertColorsToHex.ConvertRgbToHex | site/plugins/fc-icons/vendor/mathiasreker/php-svg-optimizer/src/Service/Rule/ConvertColorsToHex.php:186-200 | `convertRgbToHex`: for in-range components the result is `#` and hexadecimal digits with no upper-case letter |
| ConvertColorsToHex.HexFormIsLowerHex | site/plugins/fc-icons/vendor/mathiasreker/php-svg-optimizer/src/Service/Rule/ConvertColorsToHex.php:195-199 | both the `#rrggbb` and the `#rgb` form are `#` and lower-case hexadecimal digits |
| ConvertColorsToHex.PairRepeats | site/plugins/fc-icons/vendor/mathiasreker/php-svg-optimizer/src/Service/Rule/ConvertColorsToHex.php:225-228 | a component's two hex digits are equal exactly when it is a multiple of 17 |
| ConvertColorsToHex.ShortenedExactly | site/plugins/fc-icons/vendor/mathiasreker/php-svg-optimizer/src/Service/Rule/ConvertColorsToHex.php:225-228 | `canBeShortened`: `#rrggbb` is shortened exactly when every component is a multiple of 17 |
| ConvertColorsToHex.RgbColorShape | site/plugins/fc-icons/vendor/mathiasreker/php-svg-optimizer/src/Service/Rule/ConvertColorsToHex.php:172-175 | `isRgbColor`: a value it accepts starts with `rgb` and is never also a hexadecimal colour |
| ConvertColorsToHex.HashNotRgb | site/plugins/fc-icons/vendor/mathiasreker/php-svg-optimizer/src/Service/Rule/ConvertColorsToHex.php:172-175 | `isRgbColor` rejects every value that starts with `#` |
| ConvertColorsToHex.HexColorLowered | site/plugins/fc-icons/vendor/mathiasreker/php-svg-optimizer/src/Service/Rule/ConvertColorsToHex.php:259-262 | `isHexColor`: lower-casing a hexadecimal colour leaves a hexadecimal colour with no upper-case letter |
| ConvertColorsToHex.LowerHexFixed | site/plugins/fc-icons/vendor/mathiasreker/php-svg-optimizer/src/Service/Rule/ConvertColorsToHex.php:240-246 | a lower-case hexadecimal colour is left as it is |
| ConvertColorsToHex.OutOfRangeFixed | site/plugins/fc-icons/vendor/mathiasreker/php-svg-optimizer/src/Service/Rule/ConvertColorsToHex.php:191-193 | a trimmed rgb colour with a component above 255 is left as it is |
| ConvertColorsToHex.ConvertColorValueIdempotent | site/plugins/fc-icons/vendor/mathiasreker/php-svg-optimizer/src/Service/Rule/ConvertColorsToHex.php:240-246 | converting a value a second time changes nothing |
| ConvertColorsToHex.FirstDeclarationValue | site/plugins/fc-icons/vendor/mathiasreker/php-svg-optimizer/src/Service/Rule/ConvertColorsToHex.php:148 | a captured value is non-empty and holds no `;` |
| ConvertColorsToHex.ProcessColorAttributesInStyle | site/plugins/fc-icons/vendor/mathiasreker/php-svg-optimizer/src/Service/Rule/ConvertColorsToHex.php:145-161 | the loop over the nine colour names gives the style after all nine rounds |
| ConvertColorsToHex.ColorsInStyleWithoutDeclarations | site/plugins/fc-icons/vendor/mathiasreker/php-svg-optimizer/src/Service/Rule/ConvertColorsToHex.php:147-158 | a style declaring none of the colour names is left as it was |
| ConvertColorsToHex.ConvertStyle | site/plugins/fc-icons/vendor/mathiasreker/php-svg-optimizer/src/Service/Rule/ConvertColorsToHex.php:118-134 | only `style` can change; no attribute appears or disappears |
| ConvertColorsToHex.ConvertElementUpTo | site/plugins/fc-icons/vendor/mathiasreker/php-svg-optimizer/src/Service/Rule/ConvertColorsToHex.php:97-102 | after the first n colour names only `style` and those n attributes can have changed |
| ConvertColorsToHex.Optimize | site/plugins/fc-icons/vendor/mathiasreker/php-svg-optimizer/src/Service/Rule/ConvertColorsToHex.php:77-103 | the styles first, then each colour attribute in turn, give the document `Optimized` describes |
| ConvertColorsToHex.ConvertElementScope | site/plugins/fc-icons/vendor/mathiasreker/php-svg-optimizer/src/Service/Rule/ConvertColorsToHex.php:52-62 | only `style` and the nine listed colour attributes can change; no attribute appears or disappears |
| ConvertColorsToHex.OptimizedKeepsTree | site/plugins/fc-icons/vendor/mathiasreker/php-svg-optimizer/src/Service/Rule/ConvertColorsToHex.php:77-103 | only attribute values change: every node, name and text stays |
| MinifySvgCoordinates.DropTrailingZeros | site/plugins/fc-icons/vendor/mathiasreker/php-svg-optimizer/src/Service/Rule/MinifySvgCoordinates.php:26 | what the lazy `\d*?` keeps is a prefix of the digits not ending in `0`, and only zeros follow it |
| MinifySvgCoordinates.RemoveLeadingZeroFrom | site/plugins/fc-icons/vendor/mathiasreker/php-svg-optimizer/src/Service/Rule/MinifySvgCoordinates.php:47 | the rewrite never lengthens the text, and text without `.` is unchanged |
| MinifySvgCoordinates.RemoveTrailingZeroesFrom | site/plugins/fc-icons/vendor/mathiasreker/php-svg-optimizer/src/Service/Rule/MinifySvgCoordinates.php:26 | the rewrite never lengthens the text, and text without `.` is unchanged |
| MinifySvgCoordinates.RemoveUnnecessaryDecimalPointFrom | site/plugins/fc-icons/vendor/mathiasreker/php-svg-optimizer/src/Service/Rule/MinifySvgCoordinates.php:33 | the rewrite never lengthens the text, and text without `.` is unchanged |
| MinifySvgCoordinates.RemoveTrailingDecimalPointFrom | site/plugins/fc-icons/vendor/mathiasreker/php-svg-optimizer/src/Service/Rule/MinifySvgCoordinates.php:40 | the rewrite never lengthens the text, and text without `.` is unchanged |
| MinifySvgCoordinates.MinifyCoordinates | site/plugins/fc-icons/vendor/mathiasreker/php-svg-optimizer/src/Service/Rule/MinifySvgCoordinates.php:110-124 | the result is never longer than the value, and a value without `.` (the empty string included) is unchanged |
| MinifySvgCoordinates.MinifyElement | site/plugins/fc-icons/vendor/mathiasreker/php-svg-optimizer/src/Service/Rule/MinifySvgCoordinates.php:74-88 | exactly `path@d` and the listed geometry attributes of rect, circle, ellipse, line, polyline and polygon in the SVG namespace are minified; every other attribute is unchanged |
| MinifySvgCoordinates.MinifyAttributes | site/plugins/fc-icons/vendor/mathiasreker/php-svg-optimizer/src/Service/Rule/MinifySvgCoordinates.php:81-87 | the in-place loop over one element's attributes gives `MinifyElement` |
| MinifySvgCoordinates.MinifyNodes | site/plugins/fc-icons/vendor/mathiasreker/php-svg-optimizer/src/Service/Rule/MinifySvgCoordinates.php:74-88 | the walk over the tree rewrites every element as `MinifyElement` says |
| MinifySvgCoordinates.Optimize | site/plugins/fc-icons/vendor/mathiasreker/php-svg-optimizer/src/Service/Rule/MinifySvgCoordinates.php:68-89 | the document becomes the one `Optimized` describes |
| MinifySvgCoordinates.OptimizedKeepsTree | site/plugins/fc-icons/vendor/mathiasreker/php-svg-optimizer/src/Service/Rule/MinifySvgCoordinates.php:68-89 | only attribute values change: every node, name and text stays |
| MinifySvgCoordinates.MinifyElementNeverLonger | site/plugins/fc-icons/vendor/mathiasreker/php-svg-optimizer/src/Service/Rule/MinifySvgCoordinates.php:110-124 | no attribute value becomes longer |
| MinifySvgCoordinates.ZeroValueBecomesZero | site/plugins/fc-icons/vendor/mathiasreker/php-svg-optimizer/src/Service/Rule/MinifySvgCoordinates.php:116-123 | a value the zero pattern accepts skips the leading-zero rewrite and ends as "0": "0", "0.0" and "0.000" all give "0" |
| MinifySvgCoordinates.TrailingZerosExample | site/plugins/fc-icons/vendor/mathiasreker/php-svg-optimizer/src/Service/Rule/MinifySvgCoordinates.php:120-123 | "10.00" becomes "10" |
| MinifySvgCoordinates.LeadingZeroExample | site/plugins/fc-icons/vendor/mathiasreker/php-svg-optimizer/src/Service/Rule/MinifySvgCoordinates.php:116-118 | "0.5" becomes ".5" |
| MinifySvgCoordinates.ZeroListLeadingZeros | site/plugins/fc-icons/vendor/mathiasreker/php-svg-optimizer/src/Service/Rule/MinifySvgCoordinates.php:116-118 | in "0.0 0.0" the leading-zero rewrite drops both integer zeros |
| MinifySvgCoordinates.ZeroListTrailingZeros | site/plugins/fc-icons/vendor/mathiasreker/php-svg-optimizer/src/Service/Rule/MinifySvgCoordinates.php:120 | in ".0 .0" the trailing-zero rewrite drops both fraction zeros, leaving bare points |
| MinifySvgCoordinates.BarePointsStay | site/plugins/fc-icons/vendor/mathiasreker/php-svg-optimizer/src/Service/Rule/MinifySvgCoordinates.php:121-123 | the two decimal-point rewrites leave ". ." as it is |
| MinifySvgCoordinates.ZeroListLosesDigits | site/plugins/fc-icons/vendor/mathiasreker/php-svg-optimizer/src/Service/Rule/MinifySvgCoordinates.php:116-123 | a list of zeros written with a fraction loses every digit: "0.0 0.0" becomes ". ." |
| MinifyTransformations.PercentLength | site/plugins/fc-icons/vendor/mathiasreker/php-svg-optimizer/src/Service/Rule/MinifyTransformations.php:26 | a `(\d+)%` match is one or more digits closed by `%` |
| MinifyTransformations.ConvertPercentagesToNumbers | site/plugins/fc-icons/vendor/mathiasreker/php-svg-optimizer/src/Service/Rule/MinifyTransformations.php:138-145 | a regex failure, or a value without `%`, leaves the value unchanged |
| MinifyTransformations.PercentageConverted | site/plugins/fc-icons/vendor/mathiasreker/php-svg-optimizer/src/Service/Rule/MinifyTransformations.php:140-144 | a lone `digits%` is replaced by the text of digits/100 |
| MinifyTransformations.ExponentEnd | site/plugins/fc-icons/vendor/mathiasreker/php-svg-optimizer/src/Service/Rule/MinifyTransformations.php:33 | an exponent starts with `e` in either case and ends on a digit |
| MinifyTransformations.TranslateLength | site/plugins/fc-icons/vendor/mathiasreker/php-svg-optimizer/src/Service/Rule/MinifyTransformations.php:33 | a match starts with `translate(` in any case |
| MinifyTransformations.ScaleLengthAsWritten | site/plugins/fc-icons/vendor/mathiasreker/php-svg-optimizer/src/Service/Rule/MinifyTransformations.php:40 | a match of the pattern as written starts with `scale(` in any case |
| MinifyTransformations.ScaleLength | site/plugins/fc-icons/vendor/mathiasreker/php-svg-optimizer/src/Service/Rule/MinifyTransformations.php:40 | a match of the corrected pattern starts with `scale(` in any case |
| MinifyTransformations.RotateLength | site/plugins/fc-icons/vendor/mathiasreker/php-svg-optimizer/src/Service/Rule/MinifyTransformations.php:47 | a match starts with `rotate(`, lower case only |
| MinifyTransformations.SkewXLength | site/plugins/fc-icons/vendor/mathiasreker/php-svg-optimizer/src/Service/Rule/MinifyTransformations.php:54 | a match starts with `skewX(` |
| MinifyTransformations.SkewYLength | site/plugins/fc-icons/vendor/mathiasreker/php-svg-optimizer/src/Service/Rule/MinifyTransformations.php:61 | a match starts with `skewY(` |
| MinifyTransformations.MatrixLengthAsWritten | site/plugins/fc-icons/vendor/mathiasreker/php-svg-optimizer/src/Service/Rule/MinifyTransformations.php:93 | a match of the pattern as written starts with `matrix(` in any case |
| MinifyTransformations.MatrixLength | site/plugins/fc-icons/vendor/mathiasreker/php-svg-optimizer/src/Service/Rule/MinifyTransformations.php:93 | a match of the corrected pattern starts with `matrix(` in any case |
| MinifyTransformations.DeleteEach | site/plugins/fc-icons/vendor/mathiasreker/php-svg-optimizer/src/Service/Rule/MinifyTransformations.php:156-167 | deleting each pattern's matches in turn leaves a subsequence; with no match the value is unchanged; without regex failures there is a result |
| MinifyTransformations.RemoveIdentityTransforms | site/plugins/fc-icons/vendor/mathiasreker/php-svg-optimizer/src/Service/Rule/MinifyTransformations.php:154-168 | the result is a subsequence of the value and never longer |
| MinifyTransformations.CollapseSpacesFromSingleSpaced | site/plugins/fc-icons/vendor/mathiasreker/php-svg-optimizer/src/Service/Rule/MinifyTransformations.php:179 | after collapsing, no two spaces are adjacent and no other whitespace is left |
| MinifyTransformations.TightenCommasFromTight | site/plugins/fc-icons/vendor/mathiasreker/php-svg-optimizer/src/Service/Rule/MinifyTransformations.php:181 | after tightening, no whitespace touches a comma |
| MinifyTransformations.NormalizeSpacesAndCommas | site/plugins/fc-icons/vendor/mathiasreker/php-svg-optimizer/src/Service/Rule/MinifyTransformations.php:177-182 | when the comma rewrite does not fail, no whitespace touches a comma |
| MinifyTransformations.CollapsedToSingleSpaces | site/plugins/fc-icons/vendor/mathiasreker/php-svg-optimizer/src/Service/Rule/MinifyTransformations.php:179 | runs of whitespace collapse to one space |
| MinifyTransformations.MinifyElement | site/plugins/fc-icons/vendor/mathiasreker/php-svg-optimizer/src/Service/Rule/MinifyTransformations.php:106-122 | an element without `transform` is unchanged; other attributes never change; `transform` is removed when the minified text is "", "0" or only `;`, `,` and spaces, and set to that text otherwise |
| MinifyTransformations.Optimize | site/plugins/fc-icons/vendor/mathiasreker/php-svg-optimizer/src/Service/Rule/MinifyTransformations.php:101-123 | the document becomes the one `Optimized` describes |
| MinifyTransformations.OptimizedKeepsTree | site/plugins/fc-icons/vendor/mathiasreker/php-svg-optimizer/src/Service/Rule/MinifyTransformations.php:106 | only `transform` attributes change: every node, name and text stays |
| MinifyTransformations.ScaleAsWrittenTakesHundredForOne | site/plugins/fc-icons/vendor/mathiasreker/php-svg-optimizer/src/Service/Rule/MinifyTransformations.php:40 | as written, `scale(1e2)`, a scaling by 100, is matched as an identity |
| MinifyTransformations.CorrectedScaleKeepsHundred | site/plugins/fc-icons/vendor/mathiasreker/php-svg-optimizer/src/Service/Rule/MinifyTransformations.php:40 | the corrected pattern keeps `scale(1e2)` |
| MinifyTransformations.CorrectedScaleTakesZeroExponent | site/plugins/fc-icons/vendor/mathiasreker/php-svg-optimizer/src/Service/Rule/MinifyTransformations.php:40 | the corrected pattern still deletes `scale(1e0)` |
| MinifyTransformations.CorrectedNumeralDenotesOne | site/plugins/fc-icons/vendor/mathiasreker/php-svg-optimizer/src/Service/Rule/MinifyTransformations.php:40 | every numeral the corrected pattern takes for 1 denotes 1 |
| IdentityTransforms.ZeroNumeralIsZero | site/plugins/fc-icons/vendor/mathiasreker/php-svg-optimizer/src/Service/Rule/MinifyTransformations.php:33 | a numeral the zero patterns accept, whatever its exponent, stands for 0 |
| IdentityTransforms.UnitNumeralIsOne | site/plugins/fc-icons/vendor/mathiasreker/php-svg-optimizer/src/Service/Rule/MinifyTransformations.php:40 | a numeral for 1 with only a zero exponent stands for 1 |
| IdentityTransforms.HundredNumeral | site/plugins/fc-icons/vendor/mathiasreker/php-svg-optimizer/src/Service/Rule/MinifyTransformations.php:40 | `1e2`, which the as-written one-patterns accept, stands for 100 |
| IdentityTransforms.TranslateCallIsIdentity | site/plugins/fc-icons/vendor/mathiasreker/php-svg-optimizer/src/Service/Rule/MinifyTransformations.php:33 | every argument of an identity `translate` call stands for 0 |
| IdentityTransforms.ScaleCallIsIdentity | site/plugins/fc-icons/vendor/mathiasreker/php-svg-optimizer/src/Service/Rule/MinifyTransformations.php:40 | every factor of a `scale` call the corrected pattern accepts stands for 1 |
| IdentityTransforms.ZeroAngleCallIsIdentity | site/plugins/fc-icons/vendor/mathiasreker/php-svg-optimizer/src/Service/Rule/MinifyTransformations.php:47-61 | the angle of an identity `rotate`, `skewX` or `skewY` call is the bare `0` |
| IdentityTransforms.MatrixCallIsIdentity | site/plugins/fc-icons/vendor/mathiasreker/php-svg-optimizer/src/Service/Rule/MinifyTransformations.php:93 | the six entries of a `matrix` call the corrected pattern accepts stand for 1, 0, 0, 1, 0, 0 |
| IdentityTransforms.TranslateMatchSound | site/plugins/fc-icons/vendor/mathiasreker/php-svg-optimizer/src/Service/Rule/MinifyTransformations.php:33 | every match of the `translate` pattern follows a word boundary and is a `translate` call with one or two zero arguments |
| IdentityTransforms.TranslateMatchComplete | site/plugins/fc-icons/vendor/mathiasreker/php-svg-optimizer/src/Service/Rule/MinifyTransformations.php:33 | every such call after a word boundary is matched with exactly its length |
| IdentityTransforms.ScaleMatchSound | site/plugins/fc-icons/vendor/mathiasreker/php-svg-optimizer/src/Service/Rule/MinifyTransformations.php:40 | every match of the corrected `scale` pattern is a `scale` call with one or two ones, exponents zero |
| IdentityTransforms.ScaleMatchComplete | site/plugins/fc-icons/vendor/mathiasreker/php-svg-optimizer/src/Service/Rule/MinifyTransformations.php:40 | every such call after a word boundary is matched by the corrected pattern with exactly its length |
| IdentityTransforms.ScaleAsWrittenMatchSound | site/plugins/fc-icons/vendor/mathiasreker/php-svg-optimizer/src/Service/Rule/MinifyTransformations.php:40 | every match of the `scale` pattern as written is a `scale` call with one or two ones, any exponent |
| IdentityTransforms.ScaleAsWrittenMatchComplete | site/plugins/fc-icons/vendor/mathiasreker/php-svg-optimizer/src/Service/Rule/MinifyTransformations.php:40 | every such call after a word boundary is matched by the pattern as written with exactly its length |
| IdentityTransforms.RotateMatchSound | site/plugins/fc-icons/vendor/mathiasreker/php-svg-optimizer/src/Service/Rule/MinifyTransformations.php:47 | every match of the `rotate` pattern is `rotate(` in lower case around a padded bare `0` |
| IdentityTransforms.RotateMatchComplete | site/plugins/fc-icons/vendor/mathiasreker/php-svg-optimizer/src/Service/Rule/MinifyTransformations.php:47 | every such call after a word boundary is matched with exactly its length |
| IdentityTransforms.SkewXMatchSound | site/plugins/fc-icons/vendor/mathiasreker/php-svg-optimizer/src/Service/Rule/MinifyTransformations.php:54 | every match of the `skewX` pattern is `skewX(` around a padded bare `0` |
| IdentityTransforms.SkewXMatchComplete | site/plugins/fc-icons/vendor/mathiasreker/php-svg-optimizer/src/Service/Rule/MinifyTransformations.php:54 | every such call after a word boundary is matched with exactly its length |
| IdentityTransforms.SkewYMatchSound | site/plugins/fc-icons/vendor/mathiasreker/php-svg-optimizer/src/Service/Rule/MinifyTransformations.php:61 | every match of the `skewY` pattern is `skewY(` around a padded bare `0` |
| IdentityTransforms.SkewYMatchComplete | site/plugins/fc-icons/vendor/mathiasreker/php-svg-optimizer/src/Service/Rule/MinifyTransformations.php:61 | every such call after a word boundary is matched with exactly its length |
| IdentityTransforms.MatrixMatchSound | site/plugins/fc-icons/vendor/mathiasreker/php-svg-optimizer/src/Service/Rule/MinifyTransformations.php:93 | every match of the corrected `matrix` pattern is a `matrix` call whose six whitespace-separated entries are 1 0 0 1 0 0, ones with zero exponents |
| IdentityTransforms.MatrixMatchComplete | site/plugins/fc-icons/vendor/mathiasreker/php-svg-optimizer/src/Service/Rule/MinifyTransformations.php:93 | every such call after a word boundary is matched by the corrected pattern with exactly its length |
| IdentityTransforms.MatrixAsWrittenMatchSound | site/plugins/fc-icons/vendor/mathiasreker/php-svg-optimizer/src/Service/Rule/MinifyTransformations.php:93 | every match of the `matrix` pattern as written is a call with the six identity entries, any exponent |
| IdentityTransforms.MatrixAsWrittenMatchComplete | site/plugins/fc-icons/vendor/mathiasreker/php-svg-optimizer/src/Service/Rule/MinifyTransformations.php:93 | every such call after a word boundary is matched by the pattern as written with exactly its length |
| IdentityTransforms.LoneMatchDeleted | site/plugins/fc-icons/vendor/mathiasreker/php-svg-optimizer/src/Service/Rule/MinifyTransformations.php:154-168 | a value its pattern matches whole is deleted to the empty string |
| IdentityTransforms.TranslateCallDeleted | site/plugins/fc-icons/vendor/mathiasreker/php-svg-optimizer/src/Service/Rule/MinifyTransformations.php:154-168 | an identity `translate` call on its own is deleted by the `translate` pass |
| IdentityTransforms.ScaleCallDeleted | site/plugins/fc-icons/vendor/mathiasreker/php-svg-optimizer/src/Service/Rule/MinifyTransformations.php:154-168 | an identity `scale` call on its own is deleted by the corrected `scale` pass |
| IdentityTransforms.RotateCallDeleted | site/plugins/fc-icons/vendor/mathiasreker/php-svg-optimizer/src/Service/Rule/MinifyTransformations.php:154-168 | `rotate(0)` on its own is deleted by the `rotate` pass |
| IdentityTransforms.SkewXCallDeleted | site/plugins/fc-icons/vendor/mathiasreker/php-svg-optimizer/src/Service/Rule/MinifyTransformations.php:154-168 | `skewX(0)` on its own is deleted by the `skewX` pass |
| IdentityTransforms.SkewYCallDeleted | site/plugins/fc-icons/vendor/mathiasreker/php-svg-optimizer/src/Service/Rule/MinifyTransformations.php:154-168 | `skewY(0)` on its own is deleted by the `skewY` pass |
| IdentityTransforms.MatrixCallDeleted | site/plugins/fc-icons/vendor/mathiasreker/php-svg-optimizer/src/Service/Rule/MinifyTransformations.php:154-168 | an identity `matrix` call on its own is deleted by the corrected `matrix` pass |
| MinifyTransformations.AsWrittenNumeralNotOne | site/plugins/fc-icons/vendor/mathiasreker/php-svg-optimizer/src/Service/Rule/MinifyTransformations.php:40 | the as-written pattern takes `1e2` for its `1`, which does not denote 1 |
| MinifyTransformations.TranslateZeroMatched | site/plugins/fc-icons/vendor/mathiasreker/php-svg-optimizer/src/Service/Rule/MinifyTransformations.php:33 | `translate(0)` is an identity |
| MinifyTransformations.TranslateZeroZeroMatched | site/plugins/fc-icons/vendor/mathiasreker/php-svg-optimizer/src/Service/Rule/MinifyTransformations.php:33 | `translate(0, 0)` is an identity |
| MinifyTransformations.TranslateUpperCaseMatched | site/plugins/fc-icons/vendor/mathiasreker/php-svg-optimizer/src/Service/Rule/MinifyTransformations.php:33 | under `/i`, `TRANSLATE(0)` is an identity too |
| MinifyTransformations.ScaleOneOneMatched | site/plugins/fc-icons/vendor/mathiasreker/php-svg-optimizer/src/Service/Rule/MinifyTransformations.php:40 | `scale(1,1)` is an identity |
| MinifyTransformations.RotateZeroMatched | site/plugins/fc-icons/vendor/mathiasreker/php-svg-optimizer/src/Service/Rule/MinifyTransformations.php:47 | `rotate(0)` is an identity |
| MinifyTransformations.RotateCapitalKept | site/plugins/fc-icons/vendor/mathiasreker/php-svg-optimizer/src/Service/Rule/MinifyTransformations.php:47 | without `/i`, `Rotate(0)` is kept |
| MinifyTransformations.SkewZeroMatched | site/plugins/fc-icons/vendor/mathiasreker/php-svg-optimizer/src/Service/Rule/MinifyTransformations.php:54-61 | `skewX(0)` and `skewY(0)` are identities |
| MinifyTransformations.RotateNinetyKept | site/plugins/fc-icons/vendor/mathiasreker/php-svg-optimizer/src/Service/Rule/MinifyTransformations.php:47 | `rotate(90)` is kept |
| MinifyTransformations.InsideWordKept | site/plugins/fc-icons/vendor/mathiasreker/php-svg-optimizer/src/Service/Rule/MinifyTransformations.php:40 | `\b` keeps `xscale(1)` |
| MinifyTransformations.MatrixIdentityMatched | site/plugins/fc-icons/vendor/mathiasreker/php-svg-optimizer/src/Service/Rule/MinifyTransformations.php:93 | `matrix(1 0 0 1 0 0)` is an identity |
| MinifyTransformations.IdentitiesDeleted | site/plugins/fc-icons/vendor/mathiasreker/php-svg-optimizer/src/Service/Rule/MinifyTransformations.php:154-168 | in "translate(0,0) scale(1)" both identities are deleted and the space between them is left |
| MinifyTransformations.LoneSpaceTrimmed | site/plugins/fc-icons/vendor/mathiasreker/php-svg-optimizer/src/Service/Rule/MinifyTransformations.php:113-115 | a lone space normalises to itself and trims to nothing |
| MinifyTransformations.EmptyTransformHasNoCall | site/plugins/fc-icons/vendor/mathiasreker/php-svg-optimizer/src/Service/Rule/MinifyTransformations.php:191-196 | `isEmptyTransform`: a text judged empty holds no letter and no parenthesis, so no transform function; a text of `;`, `,` and spaces alone is empty |
| MinifyTransformations.MinifiedWithoutPercent | site/plugins/fc-icons/vendor/mathiasreker/php-svg-optimizer/src/Service/Rule/MinifyTransformations.php:111 | without `%` the percentage stage changes nothing |
| MinifyTransformations.TranslateAndScaleRemoved | site/plugins/fc-icons/vendor/mathiasreker/php-svg-optimizer/src/Service/Rule/MinifyTransformations.php:111-118 | "translate(0,0) scale(1)" leaves nothing that transforms, and the attribute is removed |
| RemoveEnableBackgroundAttribute.ParseEnableBackground | site/plugins/fc-icons/vendor/mathiasreker/php-svg-optimizer/src/Service/Rule/RemoveEnableBackgroundAttribute.php:27 | when the value matches `new 0 0 W H` anchored at both ends, both captured W and H are numbers of the pattern's form |
| RemoveEnableBackgroundAttribute.ParseWrittenValue | site/plugins/fc-icons/vendor/mathiasreker/php-svg-optimizer/src/Service/Rule/RemoveEnableBackgroundAttribute.php:27 | any two numbers written after `new 0 0`, separated by one space, are read back as exactly the two captures |
| RemoveEnableBackgroundAttribute.DigitsAreNumber | site/plugins/fc-icons/vendor/mathiasreker/php-svg-optimizer/src/Service/Rule/RemoveEnableBackgroundAttribute.php:27 | a non-empty run of digits matches the number sub-pattern |
| RemoveEnableBackgroundAttribute.CleanupEnableBackgroundValue | site/plugins/fc-icons/vendor/mathiasreker/php-svg-optimizer/src/Service/Rule/RemoveEnableBackgroundAttribute.php:92-103 | the result is either "" or the value unchanged, and it is "" exactly when the value is empty or matches with captures equal to width and height; a PCRE failure counts as no match |
| RemoveEnableBackgroundAttribute.CleanElement | site/plugins/fc-icons/vendor/mathiasreker/php-svg-optimizer/src/Service/Rule/RemoveEnableBackgroundAttribute.php:57-81 | an element whose enable-background is blank or repeats its width and height loses exactly that attribute; every other element keeps all its attributes |
| RemoveEnableBackgroundAttribute.Optimize | site/plugins/fc-icons/vendor/mathiasreker/php-svg-optimizer/src/Service/Rule/RemoveEnableBackgroundAttribute.php:40-44 | the document afterwards is every element of the old document cleaned as above |
| RemoveEnableBackgroundAttribute.OptimizedKeepsTree | site/plugins/fc-icons/vendor/mathiasreker/php-svg-optimizer/src/Service/Rule/RemoveEnableBackgroundAttribute.php:57-81 | the rule changes attributes only: names, text and tree shape are untouched |
| RemoveEnableBackgroundAttribute.CleanElementIdempotent | site/plugins/fc-icons/vendor/mathiasreker/php-svg-optimizer/src/Service/Rule/RemoveEnableBackgroundAttribute.php:57-81 | cleaning an element a second time changes nothing |
| RemoveEnableBackgroundAttribute.TextualComparison | site/plugins/fc-icons/vendor/mathiasreker/php-svg-optimizer/src/Service/Rule/RemoveEnableBackgroundAttribute.php:98 | the comparison is on text: `new 0 0 100 50` against width `100.0` is kept |
| RemoveEnableBackgroundAttribute.MatchingSizeCleaned | site/plugins/fc-icons/vendor/mathiasreker/php-svg-optimizer/src/Service/Rule/RemoveEnableBackgroundAttribute.php:98-100 | `new 0 0 100 50` against width `100` and height `50` is cleaned to "" |
| RemoveEnableBackgroundAttribute.BlankRemoved | site/plugins/fc-icons/vendor/mathiasreker/php-svg-optimizer/src/Service/Rule/RemoveEnableBackgroundAttribute.php:74-75 | a value of one space matches nothing yet trims to "" and is removed |
| FlattenGroups.Inherited | site/plugins/fc-icons/vendor/mathiasreker/php-svg-optimizer/src/Service/Rule/FlattenGroups.php:71-90 | the child ends up with its own attributes plus every attribute name of the group; its own values win, and a copied attribute has the group's value under the namespace `setAttribute` binds its prefix to at the child |
| FlattenGroups.BoundNamespace | site/plugins/fc-icons/vendor/mathiasreker/php-svg-optimizer/src/Service/Rule/FlattenGroups.php:88 | a name without a prefix gets no namespace; a prefixed one gets the namespace the prefix is declared with in scope at the child, which is the group's unless the child redeclares the prefix |
| FlattenGroups.InheritedKeepsNamespace | site/plugins/fc-icons/vendor/mathiasreker/php-svg-optimizer/src/Service/Rule/FlattenGroups.php:85-90 | a copied prefixed attribute keeps the group's value and namespace when the child does not redeclare its prefix; one without a prefix has no namespace |
| FlattenGroups.InheritOne | site/plugins/fc-icons/vendor/mathiasreker/php-svg-optimizer/src/Service/Rule/FlattenGroups.php:85-90 | a group with one prefixed attribute the child lacks hands it down unchanged, namespace included |
| FlattenGroups.InkscapeLabelHandedDown | site/plugins/fc-icons/vendor/mathiasreker/php-svg-optimizer/src/Service/Rule/FlattenGroups.php:85-90 | `inkscape:label` handed down to a `<path>` stays in the Inkscape namespace, where the removal of Inkscape footprints finds it |
| FlattenGroups.ApplyAttributesToChild | site/plugins/fc-icons/vendor/mathiasreker/php-svg-optimizer/src/Service/Rule/FlattenGroups.php:71-90 | the loop over the group's attributes produces exactly the inherited attributes |
| FlattenGroups.InheritAll | site/plugins/fc-icons/vendor/mathiasreker/php-svg-optimizer/src/Service/Rule/FlattenGroups.php:56-63 | every child keeps its place, size and kind; an element child gets the group's attributes where it lacks them |
| FlattenGroups.ApplyGroupAttributesToChildren | site/plugins/fc-icons/vendor/mathiasreker/php-svg-optimizer/src/Service/Rule/FlattenGroups.php:56-63 | the loop over the children hands the attributes down to each element child, as InheritAll |
| FlattenGroups.CombineTransforms | site/plugins/fc-icons/vendor/mathiasreker/php-svg-optimizer/src/Service/Rule/FlattenGroups.php:130-137 | the result equals the first transform exactly when the two are equal; otherwise it is both, joined by one space |
| FlattenGroups.TransformAll | site/plugins/fc-icons/vendor/mathiasreker/php-svg-optimizer/src/Service/Rule/FlattenGroups.php:113-125 | every child keeps its place, size and kind; only element children get the combined transform, and an empty one is not written |
| FlattenGroups.ApplyTransformsToChildren | site/plugins/fc-icons/vendor/mathiasreker/php-svg-optimizer/src/Service/Rule/FlattenGroups.php:113-125 | the loop over the children combines the group's transform into each element child, as TransformAll |
| FlattenGroups.ChildrenKeepShape | site/plugins/fc-icons/vendor/mathiasreker/php-svg-optimizer/src/Service/Rule/FlattenGroups.php:56-63 | handing attributes or a transform down keeps the shape and size of the children |
| FlattenGroups.Dissolved | site/plugins/fc-icons/vendor/mathiasreker/php-svg-optimizer/src/Service/Rule/FlattenGroups.php:97-108 | the children of a dissolved group keep its children's total size |
| FlattenGroups.DissolvedKeepsShape | site/plugins/fc-icons/vendor/mathiasreker/php-svg-optimizer/src/Service/Rule/FlattenGroups.php:97-108 | attributes aside, the children of a dissolved group are its children as they were |
| FlattenGroups.MoveChildrenUp | site/plugins/fc-icons/vendor/mathiasreker/php-svg-optimizer/src/Service/Rule/FlattenGroups.php:142-148 | inserting each child before the group and then removing the group leaves the children, in order, followed by the group's following siblings |
| FlattenGroups.DissolveGroup | site/plugins/fc-icons/vendor/mathiasreker/php-svg-optimizer/src/Service/Rule/FlattenGroups.php:97-108 | a group whose parent is an element is replaced, among its siblings, by its children with attributes and transform handed down |
| FlattenGroups.FlattenedDissolves | site/plugins/fc-icons/vendor/mathiasreker/php-svg-optimizer/src/Service/Rule/FlattenGroups.php:39-42 | a group at the head of a list under an element is processed by putting its dissolved children in its place |
| FlattenGroups.FlattenedKeeps | site/plugins/fc-icons/vendor/mathiasreker/php-svg-optimizer/src/Service/Rule/FlattenGroups.php:39-42 | any other head node stays in place with everything below it processed |
| FlattenGroups.FlattenStep | site/plugins/fc-icons/vendor/mathiasreker/php-svg-optimizer/src/Service/Rule/FlattenGroups.php:39-42 | one turn of the walk strictly shrinks the pending part and keeps output plus processed rest unchanged |
| FlattenGroups.FlattenNodes | site/plugins/fc-icons/vendor/mathiasreker/php-svg-optimizer/src/Service/Rule/FlattenGroups.php:39-42 | the walk over a sibling list produces the processed list Flattened |
| FlattenGroups.FlattenHead | site/plugins/fc-icons/vendor/mathiasreker/php-svg-optimizer/src/Service/Rule/FlattenGroups.php:39-42 | processing a node that stays produces FlatHead |
| FlattenGroups.Optimize | site/plugins/fc-icons/vendor/mathiasreker/php-svg-optimizer/src/Service/Rule/FlattenGroups.php:31-43 | the document afterwards is the old document with every group processed |
| FlattenGroups.FlattenedHasNoGroups | site/plugins/fc-icons/vendor/mathiasreker/php-svg-optimizer/src/Service/Rule/FlattenGroups.php:97-108 | below an element no group is left, at any depth |
| FlattenGroups.OptimizedLeavesOnlyTopGroups | site/plugins/fc-icons/vendor/mathiasreker/php-svg-optimizer/src/Service/Rule/FlattenGroups.php:31-43 | in the result a group can only remain as a direct child of the document; nothing below a node is a group |
| FlattenGroups.FlattenedShape | site/plugins/fc-icons/vendor/mathiasreker/php-svg-optimizer/src/Service/Rule/FlattenGroups.php:97-108 | attributes aside, the result is the reference shape: each dissolved group's children stand where it stood, in order, and every other node keeps its place |
| FlattenGroups.DissolvedTransform | site/plugins/fc-icons/vendor/mathiasreker/php-svg-optimizer/src/Service/Rule/FlattenGroups.php:113-125 | a child of a dissolved group ends up with the group's transform combined with its own, or with the group's alone when it had none |
| FlattenGroups.UntransformedGroupPrefixesSpace | site/plugins/fc-icons/vendor/mathiasreker/php-svg-optimizer/src/Service/Rule/FlattenGroups.php:130-137 | under a group with no transform, a child's non-empty transform gains a leading space |
| ConvertInlineStylesToAttributes.ValidPropertyNameHasNoDelimiter | site/plugins/fc-icons/vendor/mathiasreker/php-svg-optimizer/src/Service/Rule/ConvertInlineStylesToAttributes.php:150-153 | `isValidPropertyName`: a name it accepts is non-empty, holds no `:` or `;`, and has no white space except possibly a final line break |
| ConvertInlineStylesToAttributes.Declaration | site/plugins/fc-icons/vendor/mathiasreker/php-svg-optimizer/src/Service/Rule/ConvertInlineStylesToAttributes.php:116-126 | a declaration that is read has a non-empty property without `:` and a non-empty value |
| ConvertInlineStylesToAttributes.DeclarationCanonical | site/plugins/fc-icons/vendor/mathiasreker/php-svg-optimizer/src/Service/Rule/ConvertInlineStylesToAttributes.php:121-126 | the property and value read from a declaration come back trimmed, and the property lower-cased |
| ConvertInlineStylesToAttributes.EntryReadsBack | site/plugins/fc-icons/vendor/mathiasreker/php-svg-optimizer/src/Service/Rule/ConvertInlineStylesToAttributes.php:121-129 | an entry written as `prop:value` from trimmed, lower-case halves reads back as exactly those halves |
| ConvertInlineStylesToAttributes.ProcessDeclaration | site/plugins/fc-icons/vendor/mathiasreker/php-svg-optimizer/src/Service/Rule/ConvertInlineStylesToAttributes.php:114-141 | the attributes are unchanged or gain the declared presentation property the element lacked; the returned entry is "" exactly when the declaration is unreadable or names a presentation property, and otherwise is `prop:value` with the attributes unchanged |
| ConvertInlineStylesToAttributes.DeclarationLands | site/plugins/fc-icons/vendor/mathiasreker/php-svg-optimizer/src/Service/Rule/ConvertInlineStylesToAttributes.php:132-137 | a declared presentation property is an attribute afterwards |
| ConvertInlineStylesToAttributes.DeclarationKeepsKey | site/plugins/fc-icons/vendor/mathiasreker/php-svg-optimizer/src/Service/Rule/ConvertInlineStylesToAttributes.php:132-135 | an attribute the element has is never removed by a declaration |
| ConvertInlineStylesToAttributes.ProcessAllKeeps | site/plugins/fc-icons/vendor/mathiasreker/php-svg-optimizer/src/Service/Rule/ConvertInlineStylesToAttributes.php:89-95 | processing the declarations in order keeps every attribute the element had, unchanged, and adds only presentation properties |
| ConvertInlineStylesToAttributes.ProcessDeclarations | site/plugins/fc-icons/vendor/mathiasreker/php-svg-optimizer/src/Service/Rule/ConvertInlineStylesToAttributes.php:89-95 | the loop over the declarations yields the fold's attributes and the non-empty entries in order |
| ConvertInlineStylesToAttributes.DeclaredPropertiesLand | site/plugins/fc-icons/vendor/mathiasreker/php-svg-optimizer/src/Service/Rule/ConvertInlineStylesToAttributes.php:89-95 | every presentation property any declaration names is an attribute after the fold |
| ConvertInlineStylesToAttributes.WithStyle | site/plugins/fc-icons/vendor/mathiasreker/php-svg-optimizer/src/Service/Rule/ConvertInlineStylesToAttributes.php:97-101 | `style` is absent exactly when no entry is kept; every other attribute is unchanged and none is added |
| ConvertInlineStylesToAttributes.Converted | site/plugins/fc-icons/vendor/mathiasreker/php-svg-optimizer/src/Service/Rule/ConvertInlineStylesToAttributes.php:82-102 | attributes other than `style` are kept unchanged and only presentation properties are added; a blank style or one without `:` leaves the element as it is; otherwise `style` stays exactly when some entry is kept |
| ConvertInlineStylesToAttributes.ConvertStyles | site/plugins/fc-icons/vendor/mathiasreker/php-svg-optimizer/src/Service/Rule/ConvertInlineStylesToAttributes.php:82-102 | the method computes Converted |
| ConvertInlineStylesToAttributes.Optimize | site/plugins/fc-icons/vendor/mathiasreker/php-svg-optimizer/src/Service/Rule/ConvertInlineStylesToAttributes.php:39-45 | the document afterwards has every element converted on its own |
| ConvertInlineStylesToAttributes.OptimizedKeepsTree | site/plugins/fc-icons/vendor/mathiasreker/php-svg-optimizer/src/Service/Rule/ConvertInlineStylesToAttributes.php:39-45 | only attributes change; the tree keeps its shape |
| ConvertInlineStylesToAttributes.ReadAgain | site/plugins/fc-icons/vendor/mathiasreker/php-svg-optimizer/src/Service/Rule/ConvertInlineStylesToAttributes.php:100 | kept entries joined by `"; "` and split at `;` again are kept as they are and move nothing |
| ConvertInlineStylesToAttributes.ConvertedIdempotent | site/plugins/fc-icons/vendor/mathiasreker/php-svg-optimizer/src/Service/Rule/ConvertInlineStylesToAttributes.php:82-102 | converting an element a second time changes nothing |
| ConvertInlineStylesToAttributes.OptimizedIdempotent | site/plugins/fc-icons/vendor/mathiasreker/php-svg-optimizer/src/Service/Rule/ConvertInlineStylesToAttributes.php:39-45 | running the rule a second time on a document changes nothing |
| ConvertCssClassesToAttributes.RuleAtSound | site/plugins/fc-icons/vendor/mathiasreker/php-svg-optimizer/src/Service/Rule/ConvertCssClassesToAttributes.php:32 | what the matcher reports at a position is a whole match of `\.([a-zA-Z0-9_-]+)\s*\{([^}]+)}` with those two captures |
| ConvertCssClassesToAttributes.RuleAtComplete | site/plugins/fc-icons/vendor/mathiasreker/php-svg-optimizer/src/Service/Rule/ConvertCssClassesToAttributes.php:32 | every match of the pattern starting at a position is the one the matcher reports there |
| ConvertCssClassesToAttributes.Rules | site/plugins/fc-icons/vendor/mathiasreker/php-svg-optimizer/src/Service/Rule/ConvertCssClassesToAttributes.php:79 | `preg_match_all` yields the leftmost non-overlapping matches, each with a non-empty class name of name characters and a non-empty block without `}` |
| ConvertCssClassesToAttributes.Lookup | site/plugins/fc-icons/vendor/mathiasreker/php-svg-optimizer/src/Service/Rule/ConvertCssClassesToAttributes.php:128-130 | a key is found exactly when it is one of the array's keys |
| ConvertCssClassesToAttributes.Put | site/plugins/fc-icons/vendor/mathiasreker/php-svg-optimizer/src/Service/Rule/ConvertCssClassesToAttributes.php:128-130 | assigning a PHP array key overwrites in place when the key exists and appends otherwise; the key then maps to the new value, other keys keep theirs, and keys stay distinct |
| ConvertCssClassesToAttributes.BlockDeclaration | site/plugins/fc-icons/vendor/mathiasreker/php-svg-optimizer/src/Service/Rule/ConvertCssClassesToAttributes.php:115-125 | a piece read as a declaration yields a property without `:` |
| ConvertCssClassesToAttributes.ClassifySorts | site/plugins/fc-icons/vendor/mathiasreker/php-svg-optimizer/src/Service/Rule/ConvertCssClassesToAttributes.php:114-132 | every key of the convertible array is an SVG presentation property and no key of the other array is, and both have distinct keys |
| ConvertCssClassesToAttributes.ClassifyClean | site/plugins/fc-icons/vendor/mathiasreker/php-svg-optimizer/src/Service/Rule/ConvertCssClassesToAttributes.php:114-132 | a character no piece holds, other than a lower-case letter, is in no key and no value |
| ConvertCssClassesToAttributes.LastDeclarationWins | site/plugins/fc-icons/vendor/mathiasreker/php-svg-optimizer/src/Service/Rule/ConvertCssClassesToAttributes.php:127-131 | a property declared more than once takes the value of its last declaration |
| ConvertCssClassesToAttributes.SplitDeclarations | site/plugins/fc-icons/vendor/mathiasreker/php-svg-optimizer/src/Service/Rule/ConvertCssClassesToAttributes.php:109-135 | the loop over the `;`-pieces produces the two arrays of the classification |
| ConvertCssClassesToAttributes.SplitDeclaration | site/plugins/fc-icons/vendor/mathiasreker/php-svg-optimizer/src/Service/Rule/ConvertCssClassesToAttributes.php:115-131 | one piece puts its declaration into the array its property belongs to |
| ConvertCssClassesToAttributes.EntryTexts | site/plugins/fc-icons/vendor/mathiasreker/php-svg-optimizer/src/Service/Rule/ConvertCssClassesToAttributes.php:206-208 | one `prop:value` text per entry, in the array's order |
| ConvertCssClassesToAttributes.RebuildCssRule | site/plugins/fc-icons/vendor/mathiasreker/php-svg-optimizer/src/Service/Rule/ConvertCssClassesToAttributes.php:203-211 | the loop builds `.class{p:v;...}` from the entries in order |
| ConvertCssClassesToAttributes.RuleTextReadsBack | site/plugins/fc-icons/vendor/mathiasreker/php-svg-optimizer/src/Service/Rule/ConvertCssClassesToAttributes.php:203-211 | a rebuilt rule is one whole match again for the same class, and its block cut at `;` gives back the entries |
| ConvertCssClassesToAttributes.KeptRuleReadsBack | site/plugins/fc-icons/vendor/mathiasreker/php-svg-optimizer/src/Service/Rule/ConvertCssClassesToAttributes.php:92-94 | the rule kept for a match is one whole match again for the same class, with the leftover declarations as its block |
| ConvertCssClassesToAttributes.HasOwnClass | site/plugins/fc-icons/vendor/mathiasreker/php-svg-optimizer/src/Service/Rule/ConvertCssClassesToAttributes.php:151-156 | an element whose `class` is exactly the class name is selected by the XPath query |
| ConvertCssClassesToAttributes.SetAll | site/plugins/fc-icons/vendor/mathiasreker/php-svg-optimizer/src/Service/Rule/ConvertCssClassesToAttributes.php:164-166 | the element gains every convertible property with its value; attributes not among them are unchanged |
| ConvertCssClassesToAttributes.Without | site/plugins/fc-icons/vendor/mathiasreker/php-svg-optimizer/src/Service/Rule/ConvertCssClassesToAttributes.php:185 | the filtered class list holds no copy of the class and nothing that was not there |
| ConvertCssClassesToAttributes.UpdatedClass | site/plugins/fc-icons/vendor/mathiasreker/php-svg-optimizer/src/Service/Rule/ConvertCssClassesToAttributes.php:179-193 | only `class` changes; with leftover declarations it becomes exactly the class name, otherwise it is removed exactly when no other class token is left |
| ConvertCssClassesToAttributes.ClassTokenRemoved | site/plugins/fc-icons/vendor/mathiasreker/php-svg-optimizer/src/Service/Rule/ConvertCssClassesToAttributes.php:184-188 | without leftover declarations the class token is gone from the class list, and the other tokens stay in order |
| ConvertCssClassesToAttributes.Applied | site/plugins/fc-icons/vendor/mathiasreker/php-svg-optimizer/src/Service/Rule/ConvertCssClassesToAttributes.php:163-169 | an element without the class is unchanged; otherwise attributes other than `class` and the converted properties are unchanged |
| ConvertCssClassesToAttributes.ConvertedPropertiesLand | site/plugins/fc-icons/vendor/mathiasreker/php-svg-optimizer/src/Service/Rule/ConvertCssClassesToAttributes.php:164-166 | a selected element has every convertible property set to the rule's value |
| ConvertCssClassesToAttributes.LeftoverKeepsClass | site/plugins/fc-icons/vendor/mathiasreker/php-svg-optimizer/src/Service/Rule/ConvertCssClassesToAttributes.php:181-182 | with leftover declarations the element is still selected by its class afterwards |
| ConvertCssClassesToAttributes.ApplyClassIsRewrite | site/plugins/fc-icons/vendor/mathiasreker/php-svg-optimizer/src/Service/Rule/ConvertCssClassesToAttributes.php:145-170 | applying one class rule to the document rewrites each element's attributes on its own |
| ConvertCssClassesToAttributes.KeptRule | site/plugins/fc-icons/vendor/mathiasreker/php-svg-optimizer/src/Service/Rule/ConvertCssClassesToAttributes.php:92-94 | a match leaves a rule in the style exactly when it has a declaration that does not convert |
| ConvertCssClassesToAttributes.KeptCssEmpty | site/plugins/fc-icons/vendor/mathiasreker/php-svg-optimizer/src/Service/Rule/ConvertCssClassesToAttributes.php:97 | the new style text is empty exactly when no match has a declaration that stays |
| ConvertCssClassesToAttributes.ProcessCss | site/plugins/fc-icons/vendor/mathiasreker/php-svg-optimizer/src/Service/Rule/ConvertCssClassesToAttributes.php:77-98 | the document afterwards has every match's class rule applied in order, and the result is the kept rules concatenated |
| ConvertCssClassesToAttributes.ProcessMatches | site/plugins/fc-icons/vendor/mathiasreker/php-svg-optimizer/src/Service/Rule/ConvertCssClassesToAttributes.php:82-95 | the loop over the matches applies each in turn and collects each kept rule in turn |
| ConvertCssClassesToAttributes.ProcessMatch | site/plugins/fc-icons/vendor/mathiasreker/php-svg-optimizer/src/Service/Rule/ConvertCssClassesToAttributes.php:83-94 | one match applies its class rule and returns the rule it keeps, or "" |
| ConvertCssClassesToAttributes.ConvertStyles | site/plugins/fc-icons/vendor/mathiasreker/php-svg-optimizer/src/Service/Rule/ConvertCssClassesToAttributes.php:45-53 | every non-empty style text's rules are applied, in document order |
| ConvertCssClassesToAttributes.Optimize | site/plugins/fc-icons/vendor/mathiasreker/php-svg-optimizer/src/Service/Rule/ConvertCssClassesToAttributes.php:40-61 | the document afterwards has every style's rules converted, then every style rewritten to its kept rules or removed |
| ConvertCssClassesToAttributes.ApplyRulesKeepsTree | site/plugins/fc-icons/vendor/mathiasreker/php-svg-optimizer/src/Service/Rule/ConvertCssClassesToAttributes.php:145-170 | converting classes changes attributes only |
| ConvertCssClassesToAttributes.OptimizedLeavesNoEmptyStyle | site/plugins/fc-icons/vendor/mathiasreker/php-svg-optimizer/src/Service/Rule/ConvertCssClassesToAttributes.php:48-59 | no `style` element with empty text is left anywhere |
| ConvertCssClassesToAttributes.StyleRemovedWhenEmpty | site/plugins/fc-icons/vendor/mathiasreker/php-svg-optimizer/src/Service/Rule/ConvertCssClassesToAttributes.php:53-59 | a style element goes exactly when nothing of its rules stays |
| RemoveUnsafeElements.HasSchemeMeans | site/plugins/fc-icons/vendor/mathiasreker/php-svg-optimizer/src/Service/Rule/RemoveUnsafeElements.php:69 | a value has a URI scheme exactly when it is a letter and scheme characters up to its first `:` |
| RemoveUnsafeElements.ProtocolPrefixFlagged | site/plugins/fc-icons/vendor/mathiasreker/php-svg-optimizer/src/Service/Rule/RemoveUnsafeElements.php:78 | `HasDangerousProtocol`: no `:` is required: any value that begins with one of the listed words, such as the relative path `data/icon.png`, is flagged |
| RemoveUnsafeElements.OtherStartsSafe | site/plugins/fc-icons/vendor/mathiasreker/php-svg-optimizer/src/Service/Rule/RemoveUnsafeElements.php:78 | `HasDangerousProtocol`: a value that does not start with `j`, `d`, `f`, `h` or `/`, in any case, is never flagged |
| RemoveUnsafeElements.RelativeReferenceSafe | site/plugins/fc-icons/vendor/mathiasreker/php-svg-optimizer/src/Service/Rule/RemoveUnsafeElements.php:114 | a reference with no `:` that does not start with `//` is neither a protocol nor protocol-relative |
| RemoveUnsafeElements.QuotedEnd | site/plugins/fc-icons/vendor/mathiasreker/php-svg-optimizer/src/Service/Rule/RemoveUnsafeElements.php:105 | the lazy group after a quote ends at the first matching quote on the line that `\s*\)` follows |
| RemoveUnsafeElements.PlainEnd | site/plugins/fc-icons/vendor/mathiasreker/php-svg-optimizer/src/Service/Rule/RemoveUnsafeElements.php:105 | without a quote the lazy group ends at the first place on the line that `\s*\)` follows |
| RemoveUnsafeElements.UrlTargetOfWrapped | site/plugins/fc-icons/vendor/mathiasreker/php-svg-optimizer/src/Service/Rule/RemoveUnsafeElements.php:105 | `url(T)` yields T as group 2, for T on one line without `)`, quotes or surrounding white space |
| RemoveUnsafeElements.EventHandlersDangerous | site/plugins/fc-icons/vendor/mathiasreker/php-svg-optimizer/src/Service/Rule/RemoveUnsafeElements.php:393-402 | any attribute whose name starts with `on`, in any case, is dangerous whatever its value |
| RemoveUnsafeElements.FragmentReferenceSafe | site/plugins/fc-icons/vendor/mathiasreker/php-svg-optimizer/src/Service/Rule/RemoveUnsafeElements.php:414-427 | a URL attribute whose `url(...)` reference starts with `#` is kept |
| RemoveUnsafeElements.UrlAttributeDangerMeans | site/plugins/fc-icons/vendor/mathiasreker/php-svg-optimizer/src/Service/Rule/RemoveUnsafeElements.php:414-427 | `IsUrlAttributeDangerous`: a URL attribute is dangerous exactly when the trimmed reference inside `url(...)`, or else the trimmed value, has a scheme or starts with `//` |
| RemoveUnsafeElements.DangerousNamesOnly | site/plugins/fc-icons/vendor/mathiasreker/php-svg-optimizer/src/Service/Rule/RemoveUnsafeElements.php:361-382 | `isDangerousAttribute`: an attribute whose lower-cased name neither starts with `on` nor is `href`, `xlink:href`, `src` or a URL attribute is kept, whatever its value |
| RemoveUnsafeElements.ImportUrlFlagged | site/plugins/fc-icons/vendor/mathiasreker/php-svg-optimizer/src/Service/Rule/RemoveUnsafeElements.php:96 | `STYLE_NODE_DANGEROUS_REGEX`: a style text holding `@import url(` anywhere is dangerous |
| RemoveUnsafeElements.StyleWithoutMarkersSafe | site/plugins/fc-icons/vendor/mathiasreker/php-svg-optimizer/src/Service/Rule/RemoveUnsafeElements.php:96 | a style text with no `@` and no `<` is never dangerous |
| RemoveUnsafeElements.ContainsAt | site/plugins/fc-icons/vendor/mathiasreker/php-svg-optimizer/src/Service/Rule/RemoveUnsafeElements.php:173 | `str_contains` finds a text that starts at any position |
| RemoveUnsafeElements.StylesheetTargetSelected | site/plugins/fc-icons/vendor/mathiasreker/php-svg-optimizer/src/Service/Rule/RemoveUnsafeElements.php:172-174 | a processing instruction whose target holds `xml-stylesheet` anywhere, in any case, is selected for removal |
| RemoveUnsafeElements.DropFirst | site/plugins/fc-icons/vendor/mathiasreker/php-svg-optimizer/src/Service/Rule/RemoveUnsafeElements.php:169-178 | the walk as written removes at most one node: after a removal the node has no next sibling and the loop ends |
| RemoveUnsafeElements.DropFirstAt | site/plugins/fc-icons/vendor/mathiasreker/php-svg-optimizer/src/Service/Rule/RemoveUnsafeElements.php:169-178 | the walk as written removes the first selected child and nothing else |
| RemoveUnsafeElements.RemoveProcessingInstructionsAsWritten | site/plugins/fc-icons/vendor/mathiasreker/php-svg-optimizer/src/Service/Rule/RemoveUnsafeElements.php:169-178 | the document afterwards is the old one with only the first stylesheet instruction removed |
| RemoveUnsafeElements.WalkStopsAfterFirstRemoval | site/plugins/fc-icons/vendor/mathiasreker/php-svg-optimizer/src/Service/Rule/RemoveUnsafeElements.php:169-178 | with two stylesheet instructions in a row, the walk as written keeps the second; the corrected walk removes both |
| RemoveUnsafeElements.DropAll | site/plugins/fc-icons/vendor/mathiasreker/php-svg-optimizer/src/Service/Rule/RemoveUnsafeElements.php:169-178 | the corrected walk never makes the list longer |
| RemoveUnsafeElements.DropAllKeeps | site/plugins/fc-icons/vendor/mathiasreker/php-svg-optimizer/src/Service/Rule/RemoveUnsafeElements.php:169-178 | the corrected walk leaves no selected child, and keeps exactly the children that are not selected |
| RemoveUnsafeElements.DropFirstOfOne | site/plugins/fc-icons/vendor/mathiasreker/php-svg-optimizer/src/Service/Rule/RemoveUnsafeElements.php:169-178 | with at most one selected child the walk as written and the corrected walk agree |
| RemoveUnsafeElements.RemoveProcessingInstructions | site/plugins/fc-icons/vendor/mathiasreker/php-svg-optimizer/src/Service/Rule/RemoveUnsafeElements.php:169-178 | the corrected walk removes every top-level processing instruction whose target contains `xml-stylesheet` in any case |
| RemoveUnsafeElements.FirstDangerousLink | site/plugins/fc-icons/vendor/mathiasreker/php-svg-optimizer/src/Service/Rule/RemoveUnsafeElements.php:263-279 | the loop stops at the first of `href` and `xlink:href` whose value starts with a dangerous protocol; when none does, neither is dangerous |
| RemoveUnsafeElements.DangerousLinkMeans | site/plugins/fc-icons/vendor/mathiasreker/php-svg-optimizer/src/Service/Rule/RemoveUnsafeElements.php:263-295 | an element is removed exactly when its `href` or `xlink:href` starts with a dangerous protocol |
| RemoveUnsafeElements.WithoutDangerous | site/plugins/fc-icons/vendor/mathiasreker/php-svg-optimizer/src/Service/Rule/RemoveUnsafeElements.php:339-346 | the element keeps exactly the attributes whose lower-cased name and trimmed value are not dangerous, with their values unchanged |
| RemoveUnsafeElements.RemoveDangerousFromElement | site/plugins/fc-icons/vendor/mathiasreker/php-svg-optimizer/src/Service/Rule/RemoveUnsafeElements.php:339-346 | the loop over the attribute snapshot removes exactly the dangerous attributes |
| RemoveUnsafeElements.RemoveDangerousAttributes | site/plugins/fc-icons/vendor/mathiasreker/php-svg-optimizer/src/Service/Rule/RemoveUnsafeElements.php:320-348 | every element, at every depth, loses exactly its dangerous attributes |
| RemoveUnsafeElements.RemoveAlwaysDangerousTags | site/plugins/fc-icons/vendor/mathiasreker/php-svg-optimizer/src/Service/Rule/RemoveUnsafeElements.php:202-207 | the document afterwards has every element of each listed name removed, name by name |
| RemoveUnsafeElements.RemoveConditionallyDangerousTags | site/plugins/fc-icons/vendor/mathiasreker/php-svg-optimizer/src/Service/Rule/RemoveUnsafeElements.php:240-253 | the document afterwards has every `image`, `use`, `link` and `tref` element with a dangerous link removed |
| RemoveUnsafeElements.Optimize | site/plugins/fc-icons/vendor/mathiasreker/php-svg-optimizer/src/Service/Rule/RemoveUnsafeElements.php:147-153 | the document afterwards has stylesheet instructions, dangerous elements, dangerous attributes and dangerous `<style>` elements removed, in that order |
| RemoveUnsafeElements.WithoutTagsClears | site/plugins/fc-icons/vendor/mathiasreker/php-svg-optimizer/src/Service/Rule/RemoveUnsafeElements.php:217-230 | no element with one of the names is left, at any depth |
| RemoveUnsafeElements.WithoutTagsNeverAdds | site/plugins/fc-icons/vendor/mathiasreker/php-svg-optimizer/src/Service/Rule/RemoveUnsafeElements.php:217-230 | removing elements by name never adds a node that passes a test on the node itself |
| RemoveUnsafeElements.WithoutDangerousLinksClears | site/plugins/fc-icons/vendor/mathiasreker/php-svg-optimizer/src/Service/Rule/RemoveUnsafeElements.php:240-253 | no element with one of the names and a dangerous link is left |
| RemoveUnsafeElements.DangerousLinkNotAdded | site/plugins/fc-icons/vendor/mathiasreker/php-svg-optimizer/src/Service/Rule/RemoveUnsafeElements.php:320-348 | removing attributes cannot make a link dangerous, since a removed link reads as "" |
| RemoveUnsafeElements.OptimizedRemovesAlwaysDangerous | site/plugins/fc-icons/vendor/mathiasreker/php-svg-optimizer/src/Service/Rule/RemoveUnsafeElements.php:147-153 | no `script`, `foreignObject`, `iframe`, `object` or `embed` element is left |
| RemoveUnsafeElements.OptimizedRemovesDangerousLinks | site/plugins/fc-icons/vendor/mathiasreker/php-svg-optimizer/src/Service/Rule/RemoveUnsafeElements.php:147-153 | no `image`, `use`, `link` or `tref` element with a dangerous link is left |
| RemoveUnsafeElements.OptimizedLeavesNoDangerousAttribute | site/plugins/fc-icons/vendor/mathiasreker/php-svg-optimizer/src/Service/Rule/RemoveUnsafeElements.php:147-153 | no element keeps a dangerous attribute |
| RemoveUnsafeElements.OptimizedRemovesDangerousStyles | site/plugins/fc-icons/vendor/mathiasreker/php-svg-optimizer/src/Service/Rule/RemoveUnsafeElements.php:437-454 | no `<style>` element whose text holds `@import url(` or an opening dangerous tag is left |
| RemoveUnusedMasks.RemoveUnusedMasks | site/plugins/fc-icons/vendor/mathiasreker/php-svg-optimizer/src/Service/Rule/RemoveUnusedMasks.php:47-70 | every mask is judged on the document before any removal; the masks without an id or with an id no `mask` attribute refers to are then removed, and nothing else |
| RemoveUnusedMasks.SweepAsWrittenSkipsNeighbour | site/plugins/fc-icons/vendor/mathiasreker/php-svg-optimizer/src/Service/Rule/RemoveUnusedMasks.php:77-93 | on an `<svg>` holding two empty `<defs>` the sweep as written removes only the first one, leaving an empty `<defs>`; the corrected sweep leaves none |
| RemoveUnusedMasks.SweepAsWrittenKeepsOuter | site/plugins/fc-icons/vendor/mathiasreker/php-svg-optimizer/src/Service/Rule/RemoveUnusedMasks.php:77-93 | on `<svg><defs><defs/></defs></svg>` the sweep as written judges the outer `<defs>` before its empty child goes, so one empty `<defs>` is left; the corrected sweep leaves none |
| RemoveUnusedMasks.Pruned | site/plugins/fc-icons/vendor/mathiasreker/php-svg-optimizer/src/Service/Rule/RemoveUnusedMasks.php:77-93 | no `<defs>` without an element child is left |
| RemoveUnusedMasks.RemoveEmptyDefs | site/plugins/fc-icons/vendor/mathiasreker/php-svg-optimizer/src/Service/Rule/RemoveUnusedMasks.php:77-93 | the corrected sweep visits every `<defs>`, sweeping each child list before its parent is judged, and yields Pruned |
| RemoveUnusedMasks.PrunedKeeps | site/plugins/fc-icons/vendor/mathiasreker/php-svg-optimizer/src/Service/Rule/RemoveUnusedMasks.php:77-93 | only `<defs>` elements go: the number of other elements passing any test on the element itself is unchanged |
| RemoveUnusedMasks.PrunedIdempotent | site/plugins/fc-icons/vendor/mathiasreker/php-svg-optimizer/src/Service/Rule/RemoveUnusedMasks.php:77-93 | removing empty `<defs>` a second time changes nothing |
| RemoveUnusedMasks.Optimize | site/plugins/fc-icons/vendor/mathiasreker/php-svg-optimizer/src/Service/Rule/RemoveUnusedMasks.php:27-33 | the document afterwards has unused masks removed, then empty `<defs>` |
| RemoveUnusedMasks.OptimizedRemovesUnused | site/plugins/fc-icons/vendor/mathiasreker/php-svg-optimizer/src/Service/Rule/RemoveUnusedMasks.php:47-70 | no mask without an id, and no mask nothing refers to, is left |
| RemoveUnusedMasks.OptimizedKeepsUsed | site/plugins/fc-icons/vendor/mathiasreker/php-svg-optimizer/src/Service/Rule/RemoveUnusedMasks.php:47-70 | every referenced mask is kept, provided none lies inside a mask that goes |
| RemoveUnusedMasks.OptimizedRemovesEmptyDefs | site/plugins/fc-icons/vendor/mathiasreker/php-svg-optimizer/src/Service/Rule/RemoveUnusedMasks.php:27-33 | no `<defs>` without an element child is left after the rule |
| RemoveUnusedNamespaces.DeclarationLength | site/plugins/fc-icons/vendor/mathiasreker/php-svg-optimizer/src/Service/Rule/RemoveUnusedNamespaces.php:30 | a match at a position starts with `xmlns:`, then at least one name character, then `="`, and lies inside the text |
| RemoveUnusedNamespaces.PrefixAt | site/plugins/fc-icons/vendor/mathiasreker/php-svg-optimizer/src/Service/Rule/RemoveUnusedNamespaces.php:30 | group 1 is a non-empty run of name characters written between `xmlns:` and `=` |
| RemoveUnusedNamespaces.DeclaredPrefixes | site/plugins/fc-icons/vendor/mathiasreker/php-svg-optimizer/src/Service/Rule/RemoveUnusedNamespaces.php:95-97 | every prefix `preg_match_all` collects is a non-empty run of name characters |
| RemoveUnusedNamespaces.UseLengthAt | site/plugins/fc-icons/vendor/mathiasreker/php-svg-optimizer/src/Service/Rule/RemoveUnusedNamespaces.php:37 | the use pattern matches at a position exactly when `p:` followed by a name character starts there |
| RemoveUnusedNamespaces.UseCountZero | site/plugins/fc-icons/vendor/mathiasreker/php-svg-optimizer/src/Service/Rule/RemoveUnusedNamespaces.php:99-101 | `UseCount`: the count is 0 exactly when `p:` followed by a name character occurs nowhere in the text |
| RemoveUnusedNamespaces.Stripped | site/plugins/fc-icons/vendor/mathiasreker/php-svg-optimizer/src/Service/Rule/RemoveUnusedNamespaces.php:73-77 | the document element keeps exactly the attributes that are not declarations counted 0, with their values unchanged |
| RemoveUnusedNamespaces.RemoveIfUnused | site/plugins/fc-icons/vendor/mathiasreker/php-svg-optimizer/src/Service/Rule/RemoveUnusedNamespaces.php:73-77 | one turn of the loop removes the prefix's declaration when its count is 0 and keeps the removed set in step with the prefixes seen |
| RemoveUnusedNamespaces.RemoveDeclarations | site/plugins/fc-icons/vendor/mathiasreker/php-svg-optimizer/src/Service/Rule/RemoveUnusedNamespaces.php:73-77 | the loop over the counts leaves exactly the stripped attributes; a prefix declared twice changes nothing |
| RemoveUnusedNamespaces.RemoveUnusedFromRoot | site/plugins/fc-icons/vendor/mathiasreker/php-svg-optimizer/src/Service/Rule/RemoveUnusedNamespaces.php:114-121 | only the document element changes, losing its declarations counted 0 |
| RemoveUnusedNamespaces.Optimized | site/plugins/fc-icons/vendor/mathiasreker/php-svg-optimizer/src/Service/Rule/RemoveUnusedNamespaces.php:47-80 | a failure is an XML processing error; a success means the first inner serialization succeeded, the cleaned document serialized again, and the result is that document reloaded |
| RemoveUnusedNamespaces.Optimize | site/plugins/fc-icons/vendor/mathiasreker/php-svg-optimizer/src/Service/Rule/RemoveUnusedNamespaces.php:47-50 | on success the document is the optimized one; on failure the error is reported and the removals made before it stay |
| RemoveUnusedNamespaces.UsedDeclarationKept | site/plugins/fc-icons/vendor/mathiasreker/php-svg-optimizer/src/Service/Rule/RemoveUnusedNamespaces.php:99-101 | a declaration whose prefix the text shows before a name is kept |
| RemoveUnusedNamespaces.OtherAttributesKept | site/plugins/fc-icons/vendor/mathiasreker/php-svg-optimizer/src/Service/Rule/RemoveUnusedNamespaces.php:114-121 | only namespace declarations can go; every other attribute keeps its value |
| RemoveUnusedNamespaces.DeclarationUsesItself | site/plugins/fc-icons/vendor/mathiasreker/php-svg-optimizer/src/Service/Rule/RemoveUnusedNamespaces.php:99-101 | a prefix that ends the word `xmlns` is found in its own declaration, so that declaration always counts as used |
| RemoveInkscapeFootprints.TagNamespace | site/plugins/fc-icons/vendor/mathiasreker/php-svg-optimizer/src/Service/Rule/RemoveInkscapeFootprints.php:146-156 | a pattern's query selects a namespace only when the part before its first `:` is a registered prefix, and then it is that prefix's namespace |
| RemoveInkscapeFootprints.AttributeNamespace | site/plugins/fc-icons/vendor/mathiasreker/php-svg-optimizer/src/Service/Rule/RemoveInkscapeFootprints.php:181-199 | a pattern without `:`, or with an unregistered prefix, is skipped; otherwise it selects that prefix's namespace |
| RemoveInkscapeFootprints.PatternsSelect | site/plugins/fc-icons/vendor/mathiasreker/php-svg-optimizer/src/Service/Rule/RemoveInkscapeFootprints.php:54-80 | both lists are `sodipodi:*` then `inkscape:*`, and they select the Sodipodi and then the Inkscape namespace |
| RemoveInkscapeFootprints.WithoutDeclarations | site/plugins/fc-icons/vendor/mathiasreker/php-svg-optimizer/src/Service/Rule/RemoveInkscapeFootprints.php:127-133 | an element keeps exactly its attributes other than `xmlns:sodipodi` and `xmlns:inkscape`, with their values |
| RemoveInkscapeFootprints.RemoveDeclarationsFrom | site/plugins/fc-icons/vendor/mathiasreker/php-svg-optimizer/src/Service/Rule/RemoveInkscapeFootprints.php:128-132 | the inner loop removes exactly the two footprint declarations from one element |
| RemoveInkscapeFootprints.RemoveNamespaceDeclarations | site/plugins/fc-icons/vendor/mathiasreker/php-svg-optimizer/src/Service/Rule/RemoveInkscapeFootprints.php:123-134 | every element, at every depth, loses its footprint declarations |
| RemoveInkscapeFootprints.RemoveTags | site/plugins/fc-icons/vendor/mathiasreker/php-svg-optimizer/src/Service/Rule/RemoveInkscapeFootprints.php:146-170 | the elements in each selected namespace are detached, with everything under them |
| RemoveInkscapeFootprints.RemoveAttributeNS | site/plugins/fc-icons/vendor/mathiasreker/php-svg-optimizer/src/Service/Rule/RemoveInkscapeFootprints.php:227 | exactly the attribute in that namespace with that local name goes; the others keep their values |
| RemoveInkscapeFootprints.AttributesToRemove | site/plugins/fc-icons/vendor/mathiasreker/php-svg-optimizer/src/Service/Rule/RemoveInkscapeFootprints.php:236-248 | the local name of every attribute in the namespace is collected |
| RemoveInkscapeFootprints.RemoveNodeAttributes | site/plugins/fc-icons/vendor/mathiasreker/php-svg-optimizer/src/Service/Rule/RemoveInkscapeFootprints.php:222-229 | an element keeps exactly its attributes outside the namespace, with their values |
| RemoveInkscapeFootprints.ProcessNodes | site/plugins/fc-icons/vendor/mathiasreker/php-svg-optimizer/src/Service/Rule/RemoveInkscapeFootprints.php:205-217 | every element, at every depth, loses its attributes in the namespace |
| RemoveInkscapeFootprints.RemoveNamespacedAttributes | site/plugins/fc-icons/vendor/mathiasreker/php-svg-optimizer/src/Service/Rule/RemoveInkscapeFootprints.php:181-200 | the attributes of each resolved pattern's namespace are stripped from every element |
| RemoveInkscapeFootprints.Optimize | site/plugins/fc-icons/vendor/mathiasreker/php-svg-optimizer/src/Service/Rule/RemoveInkscapeFootprints.php:92-106 | the document afterwards is the old one after two sweeps of declarations, tags and attributes |
| RemoveInkscapeFootprints.SweepClearsElements | site/plugins/fc-icons/vendor/mathiasreker/php-svg-optimizer/src/Service/Rule/RemoveInkscapeFootprints.php:101-105 | after one sweep no element is in the Sodipodi or Inkscape namespace |
| RemoveInkscapeFootprints.SweepClearsAttributes | site/plugins/fc-icons/vendor/mathiasreker/php-svg-optimizer/src/Service/Rule/RemoveInkscapeFootprints.php:101-105 | after one sweep no element carries a footprint declaration or an attribute in either namespace |
| RemoveInkscapeFootprints.SweepFixes | site/plugins/fc-icons/vendor/mathiasreker/php-svg-optimizer/src/Service/Rule/RemoveInkscapeFootprints.php:101-105 | a sweep over a tree without footprints changes nothing |
| RemoveInkscapeFootprints.OptimizedIsOneSweep | site/plugins/fc-icons/vendor/mathiasreker/php-svg-optimizer/src/Service/Rule/RemoveInkscapeFootprints.php:101-105 | the second iteration of the loop finds nothing left, so the rule equals one sweep |
| RemoveInkscapeFootprints.OptimizedIsFootprintFree | site/plugins/fc-icons/vendor/mathiasreker/php-svg-optimizer/src/Service/Rule/RemoveInkscapeFootprints.php:92-106 | after the rule no footprint is left, and a second run changes nothing |
| ArgumentParser.NamesAreDistinct | site/plugins/fc-icons/vendor/mathiasreker/php-svg-optimizer/src/Type/Option.php:28-51 | no two options share a short or a long name |
| ArgumentParser.OptionByNameFrom | site/plugins/fc-icons/vendor/mathiasreker/php-svg-optimizer/src/Service/Data/ArgumentData.php:126-135 | the option found is in the table and has the name; a miss means no option of the table has it, and gives the "not found" error |
| ArgumentParser.OptionByNameMeans | site/plugins/fc-icons/vendor/mathiasreker/php-svg-optimizer/src/ValueObject/ArgumentOptionValueObject.php:61-64 | `OptionByName`: a name is found exactly when it is some option's short or long form, and then it finds that option |
| ArgumentParser.OptionNamesAreOptionWords | site/plugins/fc-icons/vendor/mathiasreker/php-svg-optimizer/src/Console/Input/ArgumentParser.php:120-123 | `isOption`: a word that starts with an option's short or long name is an option word; a word not starting with `-` never is |
| ArgumentParser.OptionKey | site/plugins/fc-icons/vendor/mathiasreker/php-svg-optimizer/src/Console/Input/ArgumentParser.php:88-91 | the key is a prefix of the word holding no `=`, and is either the whole word or stops at its first `=` |
| ArgumentParser.OptionValue | site/plugins/fc-icons/vendor/mathiasreker/php-svg-optimizer/src/Console/Input/ArgumentParser.php:134-142 | a value exists exactly when the word holds `=`; then word = key + "=" + value; otherwise the "requires a value" error |
| ArgumentParser.OptionValueRoundTrip | site/plugins/fc-icons/vendor/mathiasreker/php-svg-optimizer/src/Console/Input/ArgumentParser.php:134-142 | for a name without `=`, `name=value` gives back that name as key and that value, whatever the value holds |
| ArgumentParser.GetOption | site/plugins/fc-icons/vendor/mathiasreker/php-svg-optimizer/src/Console/Input/ArgumentParser.php:102-113 | every failure is an invalid-argument error |
| ArgumentParser.GetOptionIn | site/plugins/fc-icons/vendor/mathiasreker/php-svg-optimizer/src/Console/Input/ArgumentParser.php:102-113 | the early-return loop over the words computes `GetOption` |
| ArgumentParser.GetOptionOfKnownWords | site/plugins/fc-icons/vendor/mathiasreker/php-svg-optimizer/src/Console/Input/ArgumentParser.php:102-113 | with every option word known, a found value is the value of a word naming the option, and when every option word carries `=` the option is found exactly when some word names it |
| ArgumentParser.ShortFormExample | site/plugins/fc-icons/vendor/mathiasreker/php-svg-optimizer/src/Console/Input/ArgumentParser.php:102-113 | `-c=rules.json` answers the CONFIG option with `rules.json` |
| ArgumentParser.ValidOptionKeysMeans | site/plugins/fc-icons/vendor/mathiasreker/php-svg-optimizer/src/Console/Input/ArgumentParser.php:156-161 | a key is in the valid list exactly when it is some option's short or long form |
| ArgumentParser.ValidateOptions | site/plugins/fc-icons/vendor/mathiasreker/php-svg-optimizer/src/Console/Input/ArgumentParser.php:154-172 | passes exactly when every option word's key is valid; a failure names an option word whose key is not |
| ArgumentParser.ValidateOptionsIn | site/plugins/fc-icons/vendor/mathiasreker/php-svg-optimizer/src/Console/Input/ArgumentParser.php:154-172 | the loop over the words computes `ValidateOptions` |
| ArgumentParser.OptionsOf | site/plugins/fc-icons/vendor/mathiasreker/php-svg-optimizer/src/Console/Input/ArgumentParser.php:67-73 | the lookups all succeed exactly when every option word is known, and then the list holds exactly the options the words name |
| ArgumentParser.HasOptionAfterValidation | site/plugins/fc-icons/vendor/mathiasreker/php-svg-optimizer/src/Console/Input/ArgumentParser.php:64-79 | `HasOption`: once validation passes, it holds exactly when an option word after the program names the option |
| ArgumentParser.HasOptionOfKnown | site/plugins/fc-icons/vendor/mathiasreker/php-svg-optimizer/src/Console/Input/ArgumentParser.php:64-79 | with every option word after the program known, `hasOption` holds exactly when one of them names the option |
| ArgumentParser.KnownAfterValidation | site/plugins/fc-icons/vendor/mathiasreker/php-svg-optimizer/src/Console/Input/ArgumentParser.php:154-172 | after validation every option word after the program is known to `getOptionByName` |
| ArgumentParser.OptionsOfKnown | site/plugins/fc-icons/vendor/mathiasreker/php-svg-optimizer/src/Console/Input/ArgumentParser.php:67-73 | with every option word known, an option is in the list exactly when some word names it |
| ArgumentParser.UnknownOptionHidesAll | site/plugins/fc-icons/vendor/mathiasreker/php-svg-optimizer/src/Console/Input/ArgumentParser.php:76-78 | one unknown option word after the program makes `hasOption` false for every option |
| ArgumentParser.ArgumentIndexFrom | site/plugins/fc-icons/vendor/mathiasreker/php-svg-optimizer/src/Console/Input/ArgumentParser.php:233-242 | a found index holds the first non-option word from the start point; a failure means every word there is an option and carries the format error |
| ArgumentParser.ArgumentIndex | site/plugins/fc-icons/vendor/mathiasreker/php-svg-optimizer/src/Console/Input/ArgumentParser.php:233-242 | the found index is the first non-option word after word 0; a failure means every later word is an option |
| ArgumentParser.GetArgumentIndex | site/plugins/fc-icons/vendor/mathiasreker/php-svg-optimizer/src/Console/Input/ArgumentParser.php:233-242 | the early-return loop computes `ArgumentIndex` |
| ArgumentParser.ArgumentStartIndex | site/plugins/fc-icons/vendor/mathiasreker/php-svg-optimizer/src/Console/Input/ArgumentParser.php:221-224 | defined exactly when `ArgumentIndex` is, and then points just past a non-option word |

## Left out

- Reading and writing files, the console and stream output are not modelled: `FileProvider`, `saveToFile`, the command dispatcher and output classes, `ArgumentParser.getPaths` (filesystem checks) and the `SvgFileProcessor` loop over files. Only the string provider path and the in-memory pipeline are modelled.
- `ByteFormatter` (human-readable sizes by float division) is not modelled; the aggregator's counters and the percentage it computes are.
- The rules ConvertEmptyTagsToSelfClosing, RemoveDefaultAttributes, RemoveDeprecatedAttributes, RemoveUnnecessaryWhitespace and SortAttributes are not part of this model. The optimizer still runs them in their place in the order, through `Platform.Env.externalRule`, and only their place in the order and their error propagation are modelled.
- The SVG validator and the `DOMDocument` wrapper (libxml parsing and serialization) are foreign operations: `Env.isValidSvg`, `Env.loadXml`, `Env.saveXml`, `Env.saveToString`, `Env.loadContent`. Only the properties the code relies on are assumed of them, as parameters; nothing about libxml itself is proved.
- The PCRE engine is not modelled generally. Each pattern the rules use is written out as a matcher. A failure of the engine (`preg_replace` returning `null`) is the parameter `Env.pcreFails`, and each rule models what it does then.
- Float arithmetic: the conversion of a percentage to a number in `MinifyTransformations` is the parameter `Env.percentValue`. `MetaDataAggregator.SavedPercentage` is a `real`, so PHP's float rounding is not captured.
- Bytes and characters: a PHP string is modelled as a sequence of characters, one per byte. `strlen` is the sequence length, and lower-casing is ASCII-only.
- PHP integers are unbounded here. The counters in the aggregator cannot reach 64 bits in practice.
- MinifySvgCoordinates: the `?? $value` fallback taken when one of the four `preg_replace` calls fails is not modelled; those patterns are linear and the model treats them as never failing.
- SvgOptimizer.SvgOptimizer.CheckSize: when reloading the baseline fails while a size-checked rule is rolled back, the model keeps the current tree. The source ignores the result of `loadXML` there, and what libxml leaves in the document then is outside this model.
- SvgOptimizerFacade.Facade.WithRules takes one function from rule to enabled flag, in place of the 23 named boolean parameters of `withRules`; the defaults and the fixed order are modelled.
- ArgumentParser.IsEmpty is the one-line test "fewer than two arguments" and carries no contract of its own.
- RemoveDoctype.RemoveDoctypeText: does not promise that no declaration remains afterwards, because deleting one match can join the surrounding text into a new one. It promises that the result only deletes characters, and that text without a match is unchanged.
- RemoveInvisibleCharacters.RemoveInvisibleText: does not promise that no listed reference remains, for the same reason as the doctype rule. It promises that the result only deletes characters, and that text without a reference is unchanged.
- The exact order in which a live `DOMNodeList` or an XPath result visits nodes that a rule removes during the walk is modelled only where it changes the result (the findings below); elsewhere the rules are stated on the whole tree.
- Attribute order is not modelled: `Dom.Node.attrs` is a map, while `setAttribute` appends a new attribute after the existing ones (FlattenGroups, ConvertInlineStylesToAttributes, ConvertCssClassesToAttributes), so the order of attributes in the serialized output is outside this model. Only one rule's decision depends on that order; see the `RemoveEmptyAttributes.WithoutBlank` line below.
- RemoveEmptyAttributes.WithoutBlank: when an attribute in no namespace shares its name with the local name of attributes in a namespace (`href` and `xlink:href`), `iterator_to_array` keeps only the last of them in document order, and the source removes the attribute in no namespace exactly when that last one is blank. The model has no attribute order and removes it when any of them is blank. The two agree whenever those attributes are all blank or all not blank, or the blank ones come last.
- FlattenGroups.Inherited: `hasAttribute` resolves a prefixed name to its namespace and local name, so a child attribute written with another prefix bound to the same namespace also counts as present. The model compares qualified names.
- RemoveEmptyAttributes.RemoveEmptyAttributesFromElement: computes `WithoutBlank`, so it shares that line's gap for attributes whose names collide with a local name.
- RemoveEmptyAttributes.RemoveEmptyAttributes: applies `WithoutBlank` to every element and shares the same gap.
- RemoveEmptyAttributes.Optimize: applies `WithoutBlank` to every element and shares the same gap.
- RemoveEmptyAttributes.OptimizedLeavesNoBlank: holds of the model. In the source, a blank `href` followed by a non-blank `xlink:href` on the same element survives, because the array entry for `href` is then the later attribute.
- FlattenGroups.ApplyAttributesToChild: computes `Inherited`, so it shares that line's `hasAttribute` gap.
- FlattenGroups.InheritAll: applies `Inherited` to every element child and shares the same gap.
- FlattenGroups.ApplyGroupAttributesToChildren: computes `InheritAll` and shares the same gap.
- FlattenGroups.DissolveGroup: hands attributes down through `Inherited` and shares the same gap.
- FlattenGroups.Optimize: hands attributes down through `Inherited` and shares the same gap.
- RemoveUnsafeElements.Optimize: runs the corrected walk `RemoveProcessingInstructions`, which removes every top-level `xml-stylesheet` instruction; the source removes only the first of them (see the findings). The walk as written is `RemoveProcessingInstructionsAsWritten`.
- RemoveUnsafeElements.Optimized: is built on the corrected walk `DropAll`, not on the walk as written `DropFirst`, for the same reason; the whole pipeline, through `RuleDispatch`, therefore removes every stylesheet instruction.
- RemoveUnusedMasks.Optimize: runs the corrected sweep `Pruned`, so no empty `<defs>` is left. The source leaves one of two empty sibling `<defs>`, and keeps an outer `<defs>` whose only child was an empty `<defs>` (see the findings).
- RemoveUnusedMasks.Optimized: is built on the corrected sweep `Pruned`, for the same reason.
- RemoveUnusedMasks.OptimizedRemovesEmptyDefs: states the corrected sweep's promise; the sweep as written does not keep it (`SweepAsWrittenSkipsNeighbour`, `SweepAsWrittenKeepsOuter`).
- MinifyTransformations.RemoveIdentityTransforms: uses the corrected `scale` and `matrix` patterns (`ScaleLength`, `MatrixLength`), so `scale(1e2)` and `matrix(1e2 0 0 1 0 0)` are kept; the source removes them (see the findings). The patterns as written are `ScaleLengthAsWritten` and `MatrixLengthAsWritten`.
- MinifyTransformations.MinifiedTransform: inherits the corrected patterns from `RemoveIdentityTransforms`.
- MinifyTransformations.MinifyElement: inherits the corrected patterns from `RemoveIdentityTransforms`.
- MinifyTransformations.Optimized: inherits the corrected patterns from `RemoveIdentityTransforms`.
- MinifyTransformations.Optimize: inherits the corrected patterns from `RemoveIdentityTransforms`.

## Findings

| source | as written | input that shows it | evidently intended | confidence | as-written member | corrected member |
|---|---|---|---|---|---|---|
| site/plugins/fc-icons/vendor/mathiasreker/php-svg-optimizer/src/Service/Rule/MinifyTransformations.php:40 | the pattern for an identity `scale(1)` lets the `1` carry any exponent, so `scale(1e2)` is treated as the identity and removed; the identity-matrix pattern at line 93 has the same gap | `<g transform="scale(1e2)">` | only `1`, `1.0…` or `1` with a zero exponent denotes one, and `scale(1e2)` is kept | medium, not executed | MinifyTransformations.ScaleAsWrittenTakesHundredForOne | MinifyTransformations.CorrectedScaleKeepsHundred |
| site/plugins/fc-icons/vendor/mathiasreker/php-svg-optimizer/src/Service/Rule/RemoveUnusedMasks.php:77-93 | the `foreach` over the live `getElementsByTagName('defs')` list removes an empty `<defs>` and then skips the `<defs>` that slides into its index | `<svg><defs/><defs/></svg>` | every empty `<defs>` is removed | medium, not executed | RemoveUnusedMasks.SweepAsWrittenSkipsNeighbour | RemoveUnusedMasks.Pruned |
| site/plugins/fc-icons/vendor/mathiasreker/php-svg-optimizer/src/Service/Rule/RemoveUnusedMasks.php:77-93 | the same list is in document order, so an outer `<defs>` is judged while its only child, an empty `<defs>`, is still there; the child is removed afterwards and the outer one is left empty | `<svg><defs><defs/></defs></svg>` | every `<defs>` left without an element child is removed | medium, not executed | RemoveUnusedMasks.SweepAsWrittenKeepsOuter | RemoveUnusedMasks.Pruned |
| site/plugins/fc-icons/vendor/mathiasreker/php-svg-optimizer/src/Service/Rule/RemoveUnsafeElements.php:169-178 | the walk reads `nextSibling` after `removeChild`, which is then `null`, so it stops after the first removed processing instruction | two `<?xml-stylesheet …?>` instructions in a row before `<svg>` | every unsafe processing instruction is removed | medium, not executed | RemoveUnsafeElements.WalkStopsAfterFirstRemoval | RemoveUnsafeElements.RemoveProcessingInstructions |

/**
 * `SvgOptimizer`: runs the configured rules over the input document in the
 * order they were added, undoes a size-checked rule that does not make the
 * output shorter, and keeps the final output text.  The loop is stated for
 * any behaviour `step` of the rules; `RuleDispatch.Stepper` is the one the
 * rules of this model have.
 */
module SvgOptimizer {

  import opened Outcomes
  import opened Strings
  import opened Dom
  import opened Platform
  import opened RuleType
  import opened SvgProvider
  import opened RuleDispatch

  const INVALID_SVG: string := "The file does not appear to be a valid SVG file."
  const METADATA_UNAVAILABLE: string := "Metadata is not available before optimization."

  /** `$domDocument->loadXML($text)`: the parsed text, or the document unchanged when it does not parse. */
  function Reverted(env: Env, doc: Document, text: string): (d: Document)
    ensures env.loadXml(text).Some? ==> d == env.loadXml(text).value
    ensures env.loadXml(text).None? ==> d == doc
  {
    match env.loadXml(text)
    case Some(loaded) => loaded
    case None => doc
  }

  /**
   * Where the rule loop stands: the document, the baseline text a
   * size-checked rule must beat, the provider's last stored output, and
   * whether a rule or the provider threw.
   */
  datatype Run = Run(doc: Document, best: string, last: string, outcome: Outcome)

  /**
   * The size check after a rule that asks for it: the rule's result is kept
   * only if its output is strictly shorter than the baseline `best`, which it
   * then replaces; otherwise the document is loaded back from the baseline.
   */
  function SizeChecked(env: Env, doc: Document, best: string, last: string): (a: Run)
    ensures |a.best| <= |best|
    ensures a.outcome.Fail? <==> ProviderOutput(env, doc).Failure?
  {
    match ProviderOutput(env, doc)
    case Failure(e) => Run(doc, best, last, Fail(e))
    case Success(c) =>
      if |c| < |best| then Run(doc, c, c, Pass)
      else Run(Reverted(env, doc, best), best, c, Pass)
  }

  /** One pass of `applyRules`' loop body: the rule runs, then the size check if it asks for one. */
  function Advance(step: (Rule, Document) -> Step, env: Env, r: Rule, doc: Document, best: string, last: string)
    : (a: Run)
    ensures |a.best| <= |best|
    ensures !ChecksSize(env, r) ==> a == Run(step(r, doc).doc, best, last, step(r, doc).outcome)
  {
    var s := step(r, doc);
    if s.outcome.Fail? || !ChecksSize(env, r) then Run(s.doc, best, last, s.outcome)
    else SizeChecked(env, s.doc, best, last)
  }

  /**
   * `applyRules` from the rule `rules[0]` on, with the baseline `best`, when
   * `step` is what each rule's `optimize` does; the first exception stops it.
   */
  function RulesApplied(step: (Rule, Document) -> Step, env: Env, rules: seq<Rule>, doc: Document,
                        best: string, last: string): Run
    decreases |rules|
  {
    if rules == [] then Run(doc, best, last, Pass)
    else
      var a := Advance(step, env, rules[0], doc, best, last);
      if a.outcome.Fail? then a else RulesApplied(step, env, rules[1..], a.doc, a.best, a.last)
  }

  /** The baseline only ever gets shorter. */
  lemma {:induction false} BaselineNeverGrows(step: (Rule, Document) -> Step, env: Env, rules: seq<Rule>,
                                              doc: Document, best: string, last: string)
    ensures |RulesApplied(step, env, rules, doc, best, last).best| <= |best|
    decreases |rules|
  {
    if rules != [] {
      var a := Advance(step, env, rules[0], doc, best, last);
      if a.outcome.Pass? {
        BaselineNeverGrows(step, env, rules[1..], a.doc, a.best, a.last);
      }
    }
  }

  /** A single rule's run is one pass of the loop body. */
  lemma SingleRuleRun(step: (Rule, Document) -> Step, env: Env, r: Rule, doc: Document, best: string, last: string)
    ensures RulesApplied(step, env, [r], doc, best, last) == Advance(step, env, r, doc, best, last)
  {
    assert [r][1..] == [];
  }

  /** A size-checked rule whose output is strictly shorter than the baseline is kept, and its output is the new baseline. */
  lemma ShorterOutputKept(step: (Rule, Document) -> Step, env: Env, r: Rule, doc: Document, best: string, last: string)
    requires ChecksSize(env, r) && step(r, doc).outcome.Pass?
    requires ProviderOutput(env, step(r, doc).doc).Success?
    requires |ProviderOutput(env, step(r, doc).doc).value| < |best|
    ensures var c := ProviderOutput(env, step(r, doc).doc).value;
      RulesApplied(step, env, [r], doc, best, last) == Run(step(r, doc).doc, c, c, Pass)
  {
    SingleRuleRun(step, env, r, doc, best, last);
  }

  /**
   * A size-checked rule whose output is not shorter than the baseline is
   * undone by loading the baseline back; the baseline stays.
   */
  lemma LongerOutputReverted(step: (Rule, Document) -> Step, env: Env, r: Rule, doc: Document, best: string, last: string)
    requires ChecksSize(env, r) && step(r, doc).outcome.Pass?
    requires ProviderOutput(env, step(r, doc).doc).Success?
    requires |ProviderOutput(env, step(r, doc).doc).value| >= |best|
    ensures var c := ProviderOutput(env, step(r, doc).doc).value;
      RulesApplied(step, env, [r], doc, best, last) == Run(Reverted(env, step(r, doc).doc, best), best, c, Pass)
  {
    SingleRuleRun(step, env, r, doc, best, last);
  }

  /** The rules run one after the other, stopping at the first that throws. */
  function Composed(step: (Rule, Document) -> Step, rules: seq<Rule>, doc: Document): Step
    decreases |rules|
  {
    if rules == [] then Step(doc, Pass)
    else
      var s := step(rules[0], doc);
      if s.outcome.Fail? then s else Composed(step, rules[1..], s.doc)
  }

  /** Without a size-checked rule the loop is plain composition, and the baseline is never touched. */
  lemma {:induction false} UncheckedRulesCompose(step: (Rule, Document) -> Step, env: Env, rules: seq<Rule>,
                                                 doc: Document, best: string, last: string)
    requires forall r | r in rules :: !ChecksSize(env, r)
    ensures var run := RulesApplied(step, env, rules, doc, best, last);
      Step(run.doc, run.outcome) == Composed(step, rules, doc) && run.best == best && run.last == last
    decreases |rules|
  {
    if rules != [] {
      assert rules[0] in rules;
      assert forall r | r in rules[1..] :: r in rules;
      UncheckedRulesCompose(step, env, rules[1..], step(rules[0], doc).doc, best, last);
    }
  }

  /**
   * What `optimize` leaves: its outcome, the content it stores and the
   * provider's last output. On a failure nothing is stored; `content` is then
   * "" and unused.
   */
  datatype Optimization = Optimization(outcome: Outcome, content: string, output: string)

  /** `optimize` on the provider's input, given its output before the call. */
  function Optimized(step: (Rule, Document) -> Step, env: Env, rules: seq<Rule>, input: string, last: string)
    : (r: Optimization)
    ensures r.outcome.Pass? ==> env.isValidSvg(input)
    ensures r.outcome.Fail? ==> r.content == ""
    ensures r.outcome.Pass? ==> r.content == r.output && Trim(r.content) == r.content
  {
    if !env.isValidSvg(input) then Optimization(Fail(SvgValidation(INVALID_SVG)), "", last)
    else
      var doc := env.loadContent(input);
      match ProviderOutput(env, doc)
      case Failure(e) => Optimization(Fail(e), "", last)
      case Success(base) =>
        var run := RulesApplied(step, env, rules, doc, base, base);
        if run.outcome.Fail? then Optimization(run.outcome, "", run.last)
        else match ProviderOutput(env, run.doc)
          case Failure(e) => Optimization(Fail(e), "", run.last)
          case Success(c) => Optimization(Pass, c, c)
  }

  /** With no rules configured, the content is the provider's output of the loaded input. */
  lemma NoRulesOutput(step: (Rule, Document) -> Step, env: Env, input: string, last: string)
    requires env.isValidSvg(input) && ProviderOutput(env, env.loadContent(input)).Success?
    ensures var out := ProviderOutput(env, env.loadContent(input)).value;
      Optimized(step, env, [], input, last) == Optimization(Pass, out, out)
  {
  }

  /** The rules of `flags` whose flag is set, in the order of `flags`. */
  function Enabled(flags: seq<(Rule, bool)>): seq<Rule>
  {
    if flags == [] then []
    else Enabled(flags[..|flags| - 1]) + (if flags[|flags| - 1].1 then [flags[|flags| - 1].0] else [])
  }

  /** A rule is enabled exactly when some flag sets it. */
  lemma {:induction false} EnabledMeans(flags: seq<(Rule, bool)>, r: Rule)
    ensures r in Enabled(flags) <==> (r, true) in flags
    decreases |flags|
  {
    if flags != [] {
      var init := flags[..|flags| - 1];
      EnabledMeans(init, r);
      assert flags == init + [flags[|flags| - 1]];
    }
  }

  /** Flags whose rules come in increasing `rank` give enabled rules in increasing `rank`. */
  lemma {:induction false} EnabledKeepsOrder(flags: seq<(Rule, bool)>, rank: Rule -> int)
    requires forall i, j | 0 <= i < j < |flags| :: rank(flags[i].0) < rank(flags[j].0)
    ensures forall i, j | 0 <= i < j < |Enabled(flags)| :: rank(Enabled(flags)[i]) < rank(Enabled(flags)[j])
    decreases |flags|
  {
    if flags != [] {
      var init := flags[..|flags| - 1];
      var x := flags[|flags| - 1];
      EnabledKeepsOrder(init, rank);
      if x.1 {
        forall i | 0 <= i < |Enabled(init)|
          ensures rank(Enabled(init)[i]) < rank(x.0)
        {
          EnabledMeans(init, Enabled(init)[i]);
          var k :| 0 <= k < |init| && init[k] == (Enabled(init)[i], true);
          assert flags[k] == init[k];
        }
      }
    }
  }

  /** The optimizer of one provider's input. */
  class SvgOptimizer {
    var rules: seq<Rule>
    var domDocumentContent: string
    var isOptimized: bool
    const provider: Provider
    /** The validator, the parser and the rules outside this model. */
    const env: Env
    /** What each rule's `optimize` does to a document. */
    const step: (Rule, Document) -> Step

    /** The content is trimmed, and stays empty until an `optimize` succeeds. */
    ghost predicate Valid()
      reads this
    {
      (!isOptimized ==> domDocumentContent == "") && Trim(domDocumentContent) == domDocumentContent
    }

    /** No rules, no content, not optimized. */
    constructor (provider: Provider, env: Env)
      ensures this.provider == provider && this.env == env && step == Stepper(env)
      ensures rules == [] && domDocumentContent == "" && !isOptimized
      ensures Valid()
    {
      this.provider := provider;
      this.env := env;
      step := Stepper(env);
      rules := [];
      domDocumentContent := "";
      isOptimized := false;
    }

    /**
     * `optimize`: an input the validator rejects throws before anything
     * changes; otherwise the rules run and the provider's final output is
     * stored, and only then does the optimizer count as optimized.
     */
    method Optimize() returns (o: Outcome)
      modifies this, provider
      ensures rules == old(rules) && provider.inputContent == old(provider.inputContent)
      ensures o == Optimized(step, env, rules, provider.inputContent, old(provider.outputContent)).outcome
      ensures provider.outputContent == Optimized(step, env, rules, provider.inputContent, old(provider.outputContent)).output
      ensures o.Pass? ==> isOptimized && domDocumentContent == provider.outputContent
      ensures o.Fail? ==> isOptimized == old(isOptimized) && domDocumentContent == old(domDocumentContent)
      ensures !env.isValidSvg(provider.inputContent) ==>
        o == Fail(SvgValidation(INVALID_SVG)) && provider.outputContent == old(provider.outputContent)
      ensures old(Valid()) ==> Valid()
    {
      var content := provider.inputContent;
      if !env.isValidSvg(content) {
        return Fail(SvgValidation(INVALID_SVG));
      }
      o := Rewrite(content);
      if o.Pass? {
        domDocumentContent := provider.outputContent;
        isOptimized := true;
      }
    }

    /** The part of `optimize` after validation: load, apply the rules, store the output. */
    method Rewrite(content: string) returns (o: Outcome)
      requires env.isValidSvg(content)
      modifies provider
      ensures provider.inputContent == old(provider.inputContent)
      ensures o == Optimized(step, env, rules, content, old(provider.outputContent)).outcome
      ensures provider.outputContent == Optimized(step, env, rules, content, old(provider.outputContent)).output
    {
      var dom := new DomDocument(env.loadContent(content));
      o := ApplyRules(dom);
      if o.Fail? {
        return;
      }
      o := provider.Optimize(env, dom.doc);
    }

    /** `applyRules`: the baseline is the output of the untouched document, then each rule in turn. */
    method ApplyRules(dom: DomDocument) returns (o: Outcome)
      modifies dom, provider
      ensures provider.inputContent == old(provider.inputContent)
      ensures ProviderOutput(env, old(dom.doc)).Failure? ==>
        o == Fail(ProviderOutput(env, old(dom.doc)).error) && provider.outputContent == old(provider.outputContent)
      ensures ProviderOutput(env, old(dom.doc)).Success? ==>
        var base := ProviderOutput(env, old(dom.doc)).value;
        var run := RulesApplied(step, env, rules, old(dom.doc), base, base);
        o == run.outcome && dom.doc == run.doc && provider.outputContent == run.last
    {
      o := provider.Optimize(env, dom.doc);
      if o.Fail? {
        return;
      }
      o := ApplyEach(dom, provider.outputContent);
    }

    /** `applyRules`' loop over the rules, from the baseline `best` on. */
    method ApplyEach(dom: DomDocument, best: string) returns (o: Outcome)
      modifies dom, provider
      ensures provider.inputContent == old(provider.inputContent)
      ensures var run := RulesApplied(step, env, rules, old(dom.doc), best, old(provider.outputContent));
        o == run.outcome && dom.doc == run.doc && provider.outputContent == run.last
    {
      var rs := rules;
      var baseline := best;
      for i := 0 to |rs|
        invariant provider.inputContent == old(provider.inputContent)
        invariant RulesApplied(step, env, rs, old(dom.doc), best, old(provider.outputContent))
                  == RulesApplied(step, env, rs[i..], dom.doc, baseline, provider.outputContent)
      {
        assert rs[i..][0] == rs[i] && rs[i..][1..] == rs[i + 1..];
        o, baseline := ApplyRule(rs[i], dom, baseline);
        if o.Fail? {
          return;
        }
      }
      o := Pass;
    }

    /** The body of `applyRules`' loop for the rule `r`. */
    method ApplyRule(r: Rule, dom: DomDocument, best: string) returns (o: Outcome, newBest: string)
      modifies dom, provider
      ensures provider.inputContent == old(provider.inputContent)
      ensures Run(dom.doc, newBest, provider.outputContent, o)
              == Advance(step, env, r, old(dom.doc), best, old(provider.outputContent))
    {
      var s := step(r, dom.doc);
      dom.doc := s.doc;
      o, newBest := s.outcome, best;
      if o.Pass? && ChecksSize(env, r) {
        o, newBest := CheckSize(dom, best);
      }
    }

    /** The size check of `applyRules` on the document a rule has just changed. */
    method CheckSize(dom: DomDocument, best: string) returns (o: Outcome, newBest: string)
      modifies dom, provider
      ensures provider.inputContent == old(provider.inputContent)
      ensures Run(dom.doc, newBest, provider.outputContent, o)
              == SizeChecked(env, old(dom.doc), best, old(provider.outputContent))
    {
      newBest := best;
      o := provider.Optimize(env, dom.doc);
      if o.Fail? {
        return;
      }
      var newContent := provider.outputContent;
      if |newContent| < |best| {
        newBest := newContent;
      } else {
        var loaded := env.loadXml(best);
        if loaded.Some? {
          dom.doc := loaded.value;
        }
      }
    }

    /** `getMetaData`: refused before the first successful `optimize`, then the provider's sizes. */
    method GetMetaData() returns (r: Result<Sizes>)
      ensures !isOptimized ==> r == Failure(Logic(METADATA_UNAVAILABLE))
      ensures isOptimized ==> r == Success(Sizes(|provider.inputContent|, |provider.outputContent|))
    {
      if !isOptimized {
        return Failure(Logic(METADATA_UNAVAILABLE));
      }
      var m := provider.GetMetaData();
      r := Success(m);
    }

    /** `getContent`: `""` until an `optimize` succeeds, and trimmed. */
    function GetContent(): (c: string)
      reads this
      ensures Valid() ==> Trim(c) == c && (!isOptimized ==> c == "")
    {
      domDocumentContent
    }

    /** `getRulesCount`. */
    function RulesCount(): nat
      reads this
    {
      |rules|
    }

    /** `hasRules`. */
    function HasRules(): (b: bool)
      reads this
      ensures b <==> rules != []
    {
      RulesCount() > 0
    }

    /** `addRule`: the rule goes last. */
    method AddRule(r: Rule)
      modifies this
      ensures rules == old(rules) + [r]
      ensures domDocumentContent == old(domDocumentContent) && isOptimized == old(isOptimized)
    {
      rules := rules + [r];
    }

    /** `configureRules`: every rule whose flag is set is added, in flag order. */
    method ConfigureRules(flags: seq<(Rule, bool)>)
      modifies this
      ensures rules == old(rules) + Enabled(flags)
      ensures domDocumentContent == old(domDocumentContent) && isOptimized == old(isOptimized)
    {
      for i := 0 to |flags|
        invariant rules == old(rules) + Enabled(flags[..i])
        invariant domDocumentContent == old(domDocumentContent) && isOptimized == old(isOptimized)
      {
        assert flags[..i + 1][..i] == flags[..i];
        if flags[i].1 {
          AddRule(flags[i].0);
        }
      }
      assert flags[..|flags|] == flags;
    }
  }
}

/** Building rules from two independently supplied capabilities, and the
    factory that rebuilds capabilities from a (type tag, payload) pair. */
module Templating {
  import opened Rules

  /** A condition capability: `GetCondition()` yields this predicate. */
  datatype RuleCondition<!Fact> = RuleCondition(condition: Fact -> bool) {
    function GetCondition(): Fact -> bool {
      condition
    }
  }

  /** A consequence capability: `GetConsequence()` yields this function. */
  datatype RuleConsequence<!Fact, Output> = RuleConsequence(consequence: Fact -> Output) {
    function GetConsequence(): Fact -> Output {
      consequence
    }
  }

  /** The abstract factory. Both creators are supplied by the embedding
      application; the core never looks inside the payload. As functions,
      they give the same capability for the same (type, data) pair every
      time they are asked. */
  datatype TemplateFactory<!Fact, !Output> = TemplateFactory(
    createCondition: (Int32, string) -> RuleCondition<Fact>,
    createConsequence: (Int32, string) -> RuleConsequence<Fact, Output>)

  /** A template holds its two capabilities in settable properties; the
      datatype constructor is the template's constructor. */
  datatype RuleTemplate<!Fact, Output> = RuleTemplate(
    ruleCondition: RuleCondition<Fact>,
    ruleConsequence: RuleConsequence<Fact, Output>)
  {
    /** The computed `Rule` property: rebuilt from the current capabilities
        on every access, through the two-argument rule constructor. */
    function Rule(): (r: Rules.Rule<Fact, Output>)
      ensures r.condition == ruleCondition.GetCondition()
      ensures r.consequence == ruleConsequence.GetConsequence()
      ensures r.priority == 0
    {
      NewRule(ruleCondition.GetCondition(), ruleConsequence.GetConsequence())
    }

    /** The `RuleCondition` setter. */
    function WithCondition(c: RuleCondition<Fact>): (t: RuleTemplate<Fact, Output>)
      ensures t.ruleCondition == c && t.ruleConsequence == ruleConsequence
    {
      this.(ruleCondition := c)
    }

    /** The `RuleConsequence` setter. */
    function WithConsequence(q: RuleConsequence<Fact, Output>): (t: RuleTemplate<Fact, Output>)
      ensures t.ruleConsequence == q && t.ruleCondition == ruleCondition
    {
      this.(ruleConsequence := q)
    }
  }

  /** Replacing a capability changes the next produced rule accordingly and
      leaves the other half of the rule as it was. */
  lemma ReplacingCapabilityRebuildsRule<Fact, Output>(t: RuleTemplate<Fact, Output>, c: RuleCondition<Fact>, q: RuleConsequence<Fact, Output>)
    ensures t.WithCondition(c).Rule() == Rule(c.GetCondition(), t.ruleConsequence.GetConsequence(), 0)
    ensures t.WithConsequence(q).Rule() == Rule(t.ruleCondition.GetCondition(), q.GetConsequence(), 0)
  {
  }

  /** The rule a factory rebuilds from a condition and a consequence
      descriptor: the factory's capabilities wrapped in a template. */
  function BuildRule<Fact, Output>(factory: TemplateFactory<Fact, Output>, conditionType: Int32, conditionData: string, consequenceType: Int32, consequenceData: string): (r: Rules.Rule<Fact, Output>)
    ensures r.condition == factory.createCondition(conditionType, conditionData).GetCondition()
    ensures r.consequence == factory.createConsequence(consequenceType, consequenceData).GetConsequence()
    ensures r.priority == 0
  {
    RuleTemplate(
      factory.createCondition(conditionType, conditionData),
      factory.createConsequence(consequenceType, consequenceData)).Rule()
  }
}

/** What a lint rule reports: a set of violations, each anchored at a
    syntax symbol or at a token, with the rule's name and its topic (the
    style-guide citation is derived from the topic outside this model).
    An anchor carries the byte offset of its token in the file (for a
    symbol, of its leftmost token), so violations at different places stay
    apart. */
module LintRuleStatus {

  datatype Anchor = AtSymbol(left: nat) | AtToken(left: nat, text: string)

  datatype Violation = Violation(anchor: Anchor, reason: string)

  datatype RuleStatus = RuleStatus(violations: set<Violation>, ruleName: string, topic: string)

  /** Adding a violation to a rule's set: the set grows by that one
      violation at most. */
  function Insert(violations: set<Violation>, v: Violation): (r: set<Violation>)
    ensures v in r && violations <= r && r - {v} <= violations
  {
    violations + {v}
  }
}

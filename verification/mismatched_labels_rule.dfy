/** The mismatched-labels lint rule
    (verilog/analysis/checkers/mismatched_labels_rule.cc): a labelled
    begin-end block must carry the same label at both ends. The matcher and
    the label lookups are not part of this model; the rule receives whether
    the symbol matched and the optional label texts. */
module MismatchedLabels {
  import opened Wrappers
  import opened LintRuleStatus

  const RuleName: string := "mismatched-labels"
  const Topic: string := "mismatched-labels"
  const MessageMismatch: string := "Begin/end block labels must match."
  const MessageMissing: string := "Matching begin label is missing."

  /** A label token: its byte offset and its text. */
  datatype Label = Label(left: nat, text: string)

  /** HandleSymbol: no end label, no check; an end label without a begin
      label is reported on the block's symbol (at `symbolLeft`); two
      different labels are reported on the end label. */
  function HandleSymbol(violations: set<Violation>, matches: bool, symbolLeft: nat,
                        beginLabel: Option<string>, endLabel: Option<Label>): (r: set<Violation>)
    ensures !matches || endLabel.None? || (beginLabel.Some? && beginLabel.value == endLabel.value.text) ==>
      r == violations
    ensures matches && endLabel.Some? && beginLabel.None? ==>
      r == violations + {Violation(AtSymbol(symbolLeft), MessageMissing)}
    ensures matches && endLabel.Some? && beginLabel.Some? && beginLabel.value != endLabel.value.text ==>
      r == violations + {Violation(AtToken(endLabel.value.left, endLabel.value.text), MessageMismatch)}
  {
    if !matches || endLabel.None? then violations
    else if beginLabel.None? then Insert(violations, Violation(AtSymbol(symbolLeft), MessageMissing))
    else if beginLabel.value != endLabel.value.text then
      Insert(violations, Violation(AtToken(endLabel.value.left, endLabel.value.text), MessageMismatch))
    else violations
  }

  /** The block is accepted (nothing is added) exactly when it did not match,
      has no end label, or both labels are present and equal. */
  lemma AcceptedIffLabelsAgree(violations: set<Violation>, matches: bool, symbolLeft: nat,
                               beginLabel: Option<string>, endLabel: Option<Label>)
    requires forall v :: v in violations ==> v.reason != MessageMissing && v.reason != MessageMismatch
    ensures HandleSymbol(violations, matches, symbolLeft, beginLabel, endLabel) == violations
        <==> !matches || endLabel.None? || beginLabel == Some(endLabel.value.text)
  {
    if matches && endLabel.Some? && beginLabel.None? {
      assert Violation(AtSymbol(symbolLeft), MessageMissing) !in violations;
    }
    if matches && endLabel.Some? && beginLabel.Some? && beginLabel.value != endLabel.value.text {
      assert Violation(AtToken(endLabel.value.left, endLabel.value.text), MessageMismatch) !in violations;
    }
  }

  /** Two blocks at different places that both lack their begin label give
      two violations. */
  lemma MissingLabelsAtTwoPlacesCount(a: nat, b: nat, la: Label, lb: Label)
    requires a != b
    ensures |HandleSymbol(HandleSymbol({}, true, a, None, Some(la)), true, b, None, Some(lb))| == 2
  {
    var va := Violation(AtSymbol(a), MessageMissing);
    var vb := Violation(AtSymbol(b), MessageMissing);
    assert HandleSymbol(HandleSymbol({}, true, a, None, Some(la)), true, b, None, Some(lb)) == {va, vb};
    assert va != vb;
  }
}

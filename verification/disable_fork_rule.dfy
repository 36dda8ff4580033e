/** The disable-statement lint rule
    (verilog/analysis/checkers/disable_fork_rule.cc): `disable <label>` is
    only allowed when it names an enclosing labelled sequential block that
    is not the body of an initial, final or always construct. The matcher
    and the identifier searches are not part of this model: the rule
    receives whether the statement matched, its first label, and its
    context stack, outermost first, with each node's tag and, for each
    child, its tag and first identifier. */
module DisableFork {
  import opened Wrappers
  import opened LintRuleStatus

  const RuleName: string := "disable-statement"
  const Topic: string := "fork-statements"
  const Message: string := "Invalid usage of disable statement. Allowed construction is: disable fork;"

  datatype Tag = SeqBlock | Begin | InitialStatement | FinalStatement | AlwaysStatement | OtherTag(id: nat)

  datatype Child = Child(tag: Tag, name: Option<string>)

  datatype ContextNode = ContextNode(tag: Tag, children: seq<Child>)

  predicate IsProceduralTop(t: Tag) {
    t == InitialStatement || t == FinalStatement || t == AlwaysStatement
  }

  /** The sequential block at depth `k` allows `disable d`: its parent is no
      initial/final/always construct and one of its begin children carries
      the label `d`. */
  ghost predicate BlockAllows(context: seq<ContextNode>, k: nat, d: string)
    requires 1 <= k < |context|
  {
    && context[k].tag == SeqBlock
    && !IsProceduralTop(context[k - 1].tag)
    && exists j :: 0 <= j < |context[k].children| && context[k].children[j] == Child(Begin, Some(d))
  }

  /** Some enclosing block below the outermost context node allows it. */
  ghost predicate Allowed(context: seq<ContextNode>, d: string) {
    exists k :: 1 <= k < |context| && BlockAllows(context, k, d)
  }

  /** HandleSymbol's search: walks the context from the innermost node
      outwards, never reaching the outermost one; in a sequential block it
      looks at the labelled begin children, stops looking in that block if
      its parent is an initial/final/always construct, and accepts on the
      first label equal to the disable label. It reports whether a
      violation is added. */
  method HandleSymbol(matches: bool, disableLabel: Option<string>, context: seq<ContextNode>)
    returns (violation: bool)
    requires matches && disableLabel.Some? ==> |context| > 0
    ensures violation <==> matches && disableLabel.Some? && !Allowed(context, disableLabel.value)
  {
    if !matches || disableLabel.None? {
      return false;
    }
    var d := disableLabel.value;
    var i := 0;
    while i < |context| - 1
      invariant 0 <= i <= |context| - 1
      invariant forall k :: |context| - 1 - i < k < |context| ==> !BlockAllows(context, k, d)
    {
      var k := |context| - 1 - i;
      var n := context[k];
      if n.tag == SeqBlock {
        var j := 0;
        while j < |n.children|
          invariant 0 <= j <= |n.children|
          invariant !IsProceduralTop(context[k - 1].tag) ==>
            forall j' :: 0 <= j' < j ==> n.children[j'] != Child(Begin, Some(d))
        {
          var ch := n.children[j];
          if ch.tag == Begin && ch.name.Some? {
            if IsProceduralTop(context[k - 1].tag) {
              break;
            }
            if ch.name.value == d {
              assert BlockAllows(context, k, d);
              return false;
            }
          }
          j := j + 1;
        }
      }
      i := i + 1;
    }
    return true;
  }

  /** The statement's violation set after HandleSymbol: a violation on the
      statement's symbol (at `symbolLeft`) exactly when the search finds no
      enclosing block that allows it. */
  method Handle(violations: set<Violation>, matches: bool, symbolLeft: nat, disableLabel: Option<string>,
                context: seq<ContextNode>) returns (r: set<Violation>)
    requires matches && disableLabel.Some? ==> |context| > 0
    ensures r == if matches && disableLabel.Some? && !Allowed(context, disableLabel.value)
                 then violations + {Violation(AtSymbol(symbolLeft), Message)}
                 else violations
  {
    var violation := HandleSymbol(matches, disableLabel, context);
    r := if violation then Insert(violations, Violation(AtSymbol(symbolLeft), Message)) else violations;
  }

  /** The body of an initial block never allows a disable, even when its
      begin label matches: `initial begin : b ... disable b; end`. */
  lemma InitialBodyNeverAllows(d: string)
    ensures !Allowed([ContextNode(InitialStatement, []), ContextNode(SeqBlock, [Child(Begin, Some(d))])], d)
  {
  }

  /** A labelled block nested inside another block allows a disable of its
      label. */
  lemma NestedLabelledBlockAllows(d: string)
    ensures Allowed([ContextNode(InitialStatement, []), ContextNode(SeqBlock, []),
                     ContextNode(SeqBlock, [Child(Begin, Some(d))])], d)
  {
    var c := [ContextNode(InitialStatement, []), ContextNode(SeqBlock, []),
              ContextNode(SeqBlock, [Child(Begin, Some(d))])];
    assert c[2].children[0] == Child(Begin, Some(d));
    assert BlockAllows(c, 2, d);
  }

  /** The outermost context node is never examined: a labelled block at the
      root does not allow anything. */
  lemma OutermostNeverExamined(c: seq<ContextNode>, d: string)
    requires |c| == 1
    ensures !Allowed(c, d)
  {
  }
}

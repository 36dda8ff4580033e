/** The port-name-suffix lint rule
    (verilog/analysis/checkers/port_name_suffix_rule.cc): input, output and
    inout port names end in "_i", "_o" and "_io". The matcher and the leaf
    lookups are not part of this model; the rule receives the direction and
    identifier texts. */
module PortNameSuffix {
  import opened Wrappers
  import opened LintRuleStatus

  const RuleName: string := "port-name-suffix"
  const Topic: string := "ports"
  const MessageIn: string := "input port names must end with _i"
  const MessageOut: string := "output port names must end with _o"
  const MessageInOut: string := "inout port names must end with _io"

  predicate EndsWith(s: string, suffix: string) {
    |suffix| <= |s| && s[|s| - |suffix|..] == suffix
  }

  /** The suffix a direction demands and the message for a name without it;
      other directions demand nothing. */
  function Expected(direction: string): (r: Option<(string, string)>)
    ensures r.Some? <==> direction in {"input", "output", "inout"}
  {
    if direction == "input" then Some(("_i", MessageIn))
    else if direction == "output" then Some(("_o", MessageOut))
    else if direction == "inout" then Some(("_io", MessageInOut))
    else None
  }

  /** HandleSymbol: a matched port declaration whose name lacks its
      direction's suffix is reported on the identifier (at `nameLeft`) with
      that direction's message. */
  function HandleSymbol(violations: set<Violation>, matches: bool,
                        direction: string, name: string, nameLeft: nat): (r: set<Violation>)
    ensures matches && direction == "input" && !EndsWith(name, "_i") ==>
      r == violations + {Violation(AtToken(nameLeft, name), MessageIn)}
    ensures matches && direction == "output" && !EndsWith(name, "_o") ==>
      r == violations + {Violation(AtToken(nameLeft, name), MessageOut)}
    ensures matches && direction == "inout" && !EndsWith(name, "_io") ==>
      r == violations + {Violation(AtToken(nameLeft, name), MessageInOut)}
    ensures !matches || Expected(direction).None? || EndsWith(name, Expected(direction).value.0) ==>
      r == violations
  {
    if !matches then violations
    else match Expected(direction)
      case None => violations
      case Some((suffix, message)) =>
        if EndsWith(name, suffix) then violations
        else Insert(violations, Violation(AtToken(nameLeft, name), message))
  }

  /** A name built as a stem plus its direction's suffix is never
      reported. */
  lemma SuffixedNameAccepted(violations: set<Violation>, direction: string, stem: string)
    requires Expected(direction).Some?
    ensures forall at: nat :: HandleSymbol(violations, true, direction, stem + Expected(direction).value.0, at) == violations
  {
    var suffix := Expected(direction).value.0;
    var name := stem + suffix;
    assert name[|name| - |suffix|..] == suffix;
  }

  /** A name carries at most one of the three suffixes, so it can satisfy
      at most one direction. */
  lemma SuffixesExclusive(name: string)
    ensures !(EndsWith(name, "_i") && EndsWith(name, "_o"))
    ensures !(EndsWith(name, "_i") && EndsWith(name, "_io"))
    ensures !(EndsWith(name, "_o") && EndsWith(name, "_io"))
  {
    if EndsWith(name, "_i") {
      assert name[|name| - 1] == 'i';
    }
    if EndsWith(name, "_io") {
      assert name[|name| - 1] == 'o' && name[|name| - 2] == 'i';
      assert name[|name| - 3..][2] == 'o';
    }
    if EndsWith(name, "_o") {
      assert name[|name| - 2] == '_';
    }
  }

  /** An output-suffixed name on an input port is reported; a second input
      port with the same name elsewhere is reported again. */
  lemma WrongDirectionReported()
    ensures HandleSymbol({}, true, "input", "data_o", 10) == {Violation(AtToken(10, "data_o"), MessageIn)}
    ensures |HandleSymbol(HandleSymbol({}, true, "input", "data_o", 10), true, "input", "data_o", 40)| == 2
  {
    assert "data_o"[4..] == "_o";
    assert Violation(AtToken(10, "data_o"), MessageIn) != Violation(AtToken(40, "data_o"), MessageIn);
  }
}

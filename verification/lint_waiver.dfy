/** Lint waivers and the line-by-line waiver builder
    (common/analysis/lint_waiver.cc).

    A waiver maps rule names to sets of 0-based line numbers; the interval
    set of the source is represented by the set of lines it contains. The
    lexer that splits a file into lines of tokens and the comment stripper
    of common/strings/comment_utils.cc are not part of this model: a line is
    given as a sequence of abstract tokens, and a comment token carries its
    text with the comment markers already stripped. */
module LintWaivers {
  import opened Wrappers
  import opened Strings

  /** The half-open line range [b, e). */
  function LineRange(b: nat, e: nat): (s: set<nat>)
    ensures forall l :: l in s <==> b <= l < e
    decreases e
  {
    if e <= b then {} else LineRange(b, e - 1) + {e - 1}
  }

  datatype LintWaiver = LintWaiver(waivers: map<string, set<nat>>)

  /** The lines on which `rule` is waived; a rule without entry has none. */
  function WaivedLines(w: LintWaiver, rule: string): set<nat> {
    if rule in w.waivers then w.waivers[rule] else {}
  }

  /** RuleIsWaivedOnLine. */
  predicate RuleIsWaivedOnLine(w: LintWaiver, rule: string, line: nat) {
    line in WaivedLines(w, rule)
  }

  const NoWaivers: LintWaiver := LintWaiver(map[])

  /** WaiveLineRange: `rule` becomes waived on [b, e) as well; the rule gets
      an entry even when the range is empty; no other rule changes. */
  function WaiveLineRange(w: LintWaiver, rule: string, b: nat, e: nat): (r: LintWaiver)
    ensures rule in r.waivers && r.waivers.Keys == w.waivers.Keys + {rule}
    ensures forall l: nat :: RuleIsWaivedOnLine(r, rule, l) <==> RuleIsWaivedOnLine(w, rule, l) || b <= l < e
    ensures forall other :: other != rule ==> WaivedLines(r, other) == WaivedLines(w, other)
  {
    LintWaiver(w.waivers[rule := WaivedLines(w, rule) + LineRange(b, e)])
  }

  /** WaiveOneLine: the range of the single line. */
  function WaiveOneLine(w: LintWaiver, rule: string, line: nat): (r: LintWaiver)
    ensures r == WaiveLineRange(w, rule, line, line + 1)
  {
    WaiveLineRange(w, rule, line, line + 1)
  }

  /** After waiving one line, the rule is waived there and on the lines it
      was waived on before, and nowhere else. */
  lemma WaiveOneLineWaivesExactlyThatLine(w: LintWaiver, rule: string, line: nat, l: nat)
    ensures RuleIsWaivedOnLine(WaiveOneLine(w, rule, line), rule, l)
      <==> RuleIsWaivedOnLine(w, rule, l) || l == line
  {
  }

  /** Empty: every rule's line set is empty. */
  predicate Empty(w: LintWaiver) {
    forall rule :: rule in w.waivers ==> w.waivers[rule] == {}
  }

  /** A waiver is empty exactly when no rule is waived on any line. */
  lemma EmptyIffNothingWaived(w: LintWaiver)
    ensures Empty(w) <==> forall rule, l: nat :: !RuleIsWaivedOnLine(w, rule, l)
  {
    if !Empty(w) {
      var rule :| rule in w.waivers && w.waivers[rule] != {};
      var l :| l in w.waivers[rule];
      assert RuleIsWaivedOnLine(w, rule, l);
    }
  }

  /** Entries created for empty ranges keep a waiver empty. */
  lemma EmptyRangeKeepsEmpty(w: LintWaiver, rule: string, b: nat, e: nat)
    requires Empty(w) && e <= b
    ensures Empty(WaiveLineRange(w, rule, b, e))
  {
    var r := WaiveLineRange(w, rule, b, e);
    forall other | other in r.waivers
      ensures r.waivers[other] == {}
    {
      if other == rule {
        assert r.waivers[other] == WaivedLines(w, rule) + LineRange(b, e);
      }
    }
  }

  // ---------------------------------------------------------------------
  // Directives in comments

  /** The configured words of a waiver directive: the trigger (the tool's
      name) and the three commands. */
  datatype WaiverKeywords = WaiverKeywords(trigger: string, waiveLine: string, rangeStart: string, rangeStop: string)

  predicate IsCommand(kw: WaiverKeywords, w: string) {
    w == kw.waiveLine || w == kw.rangeStart || w == kw.rangeStop
  }

  /** ExtractWaivedRuleFromComment: the comment's words, and the third word
      when the first is the trigger and the second a command, else "".
      Words past the third are ignored. */
  function ExtractWaivedRuleFromComment(kw: WaiverKeywords, comment: string): (r: (string, seq<string>))
    ensures r.1 == Split(comment, ' ')
    ensures r.0 != "" <==> |r.1| >= 3 && r.1[0] == kw.trigger && IsCommand(kw, r.1[1])
    ensures r.0 != "" ==> r.0 == r.1[2]
  {
    var words := Split(comment, ' ');
    SplitYieldsWords(comment, ' ');
    if |words| >= 3 && words[0] == kw.trigger && IsCommand(kw, words[1]) then (words[2], words)
    else ("", words)
  }

  /** A directive written as space-separated words is recognised, whatever
      follows the rule name. */
  lemma ExtractRecoversDirective(kw: WaiverKeywords, ws: seq<string>)
    requires forall i :: 0 <= i < |ws| ==> IsWord(ws[i], ' ')
    requires |ws| >= 3 && ws[0] == kw.trigger && IsCommand(kw, ws[1])
    ensures ExtractWaivedRuleFromComment(kw, Join(ws, ' ')) == (ws[2], ws)
  {
    SplitJoin(ws, ' ');
    ExtractOfWords(kw, Join(ws, ' '), ws);
  }

  lemma ExtractOfWords(kw: WaiverKeywords, comment: string, ws: seq<string>)
    requires Split(comment, ' ') == ws
    requires |ws| >= 3 && ws[0] == kw.trigger && IsCommand(kw, ws[1])
    ensures ExtractWaivedRuleFromComment(kw, comment) == (ws[2], ws)
  {
  }

  /** A comment whose first word is not the trigger waives nothing. */
  lemma OtherCommentsAreNotDirectives(kw: WaiverKeywords, comment: string)
    requires |Split(comment, ' ')| > 0 && Split(comment, ' ')[0] != kw.trigger
    ensures ExtractWaivedRuleFromComment(kw, comment).0 == ""
  {
  }

  // ---------------------------------------------------------------------
  // The builder

  /** A token on a line: whitespace (newlines included), a comment with its
      stripped text, or anything else. */
  datatype LineToken = Space | Comment(text: string) | Code

  /** The builder's state: the waivers so far, the one-line waivers waiting
      for a line with code, and the start lines of open ranges. */
  datatype BuilderState = BuilderState(waiver: LintWaiver, pending: set<string>, open: map<string, nat>)

  const InitialBuilder: BuilderState := BuilderState(NoWaivers, {}, map[])

  predicate IsBlank(toks: seq<LineToken>) {
    forall i :: 0 <= i < |toks| ==> toks[i].Space?
  }

  predicate HasCode(toks: seq<LineToken>) {
    exists i :: 0 <= i < |toks| && toks[i].Code?
  }

  /** Every waived line is below `bound`. */
  ghost predicate AllBelow(w: LintWaiver, bound: nat) {
    forall rule, l: nat :: l in WaivedLines(w, rule) ==> l < bound
  }

  /** Every waived line is below `bound`, and so is every open range's start. */
  ghost predicate WaivedBelow(st: BuilderState, bound: nat) {
    && AllBelow(st.waiver, bound)
    && (forall rule :: rule in st.open ==> st.open[rule] < bound)
  }

  /** Every line waived in `a` is waived in `b`. */
  ghost predicate Includes(b: LintWaiver, a: LintWaiver) {
    forall rule, l: nat :: l in WaivedLines(a, rule) ==> l in WaivedLines(b, rule)
  }

  lemma WaiveLineRangeBounds(w: LintWaiver, rule: string, b: nat, e: nat, bound: nat)
    ensures Includes(WaiveLineRange(w, rule, b, e), w)
    ensures AllBelow(w, bound) && e <= bound ==> AllBelow(WaiveLineRange(w, rule, b, e), bound)
  {
    var r := WaiveLineRange(w, rule, b, e);
    forall other, l: nat | l in WaivedLines(w, other)
      ensures l in WaivedLines(r, other)
    {
      if other == rule {
        assert RuleIsWaivedOnLine(w, rule, l);
      }
    }
    if AllBelow(w, bound) && e <= bound {
      forall other, l: nat | l in WaivedLines(r, other)
        ensures l < bound
      {
        if other == rule {
          assert RuleIsWaivedOnLine(r, rule, l);
        }
      }
    }
  }

  /** The pending one-line waivers applied to `line`. */
  function ApplyPending(w: LintWaiver, pending: set<string>, line: nat): (r: LintWaiver)
    ensures forall rule :: WaivedLines(r, rule) == WaivedLines(w, rule) + (if rule in pending then {line} else {})
  {
    LintWaiver(map rule | rule in w.waivers.Keys + pending ::
      WaivedLines(w, rule) + (if rule in pending then {line} else {}))
  }

  /** Applying a single pending waiver is WaiveOneLine. */
  lemma ApplyPendingOneIsWaiveOneLine(w: LintWaiver, rule: string, line: nat)
    ensures ApplyPending(w, {rule}, line) == WaiveOneLine(w, rule, line)
  {
    var a, b := ApplyPending(w, {rule}, line), WaiveOneLine(w, rule, line);
    assert a.waivers.Keys == b.waivers.Keys;
    forall r | r in a.waivers
      ensures a.waivers[r] == b.waivers[r]
    {
      assert WaivedLines(a, r) == WaivedLines(b, r);
    }
  }

  /** One recognised directive on line `n`. A one-line waiver applies at
      once on a line with code and is deferred otherwise; a range start for
      an already open rule is ignored, so the first start wins; a range stop
      waives from the start up to this line and closes the range, and an
      unmatched stop is ignored. */
  function ApplyDirective(kw: WaiverKeywords, st: BuilderState, rule: string, command: string, n: nat, hasCode: bool)
    : (r: BuilderState)
    requires IsCommand(kw, command)
    ensures command == kw.waiveLine && hasCode ==>
      r == st.(waiver := WaiveOneLine(st.waiver, rule, n))
    ensures command == kw.waiveLine && !hasCode ==> r == st.(pending := st.pending + {rule})
    ensures command != kw.waiveLine && command == kw.rangeStart ==>
      r == if rule in st.open then st else st.(open := st.open[rule := n])
    ensures command != kw.waiveLine && command != kw.rangeStart && rule in st.open ==>
      && r.open == st.open - {rule} && r.pending == st.pending
      && r.waiver == WaiveLineRange(st.waiver, rule, st.open[rule], n)
    ensures command != kw.waiveLine && command != kw.rangeStart && rule !in st.open ==> r == st
    ensures hasCode && st.pending == {} ==> r.pending == {}
    ensures st.pending <= r.pending
  {
    if command == kw.waiveLine then
      if hasCode then st.(waiver := WaiveOneLine(st.waiver, rule, n))
      else st.(pending := st.pending + {rule})
    else if command == kw.rangeStart then
      if rule in st.open then st else st.(open := st.open[rule := n])
    else if rule in st.open then
      BuilderState(WaiveLineRange(st.waiver, rule, st.open[rule], n), st.pending, st.open - {rule})
    else st
  }

  /** A directive only adds waived lines, and all of them lie before the
      line after `n`. */
  lemma ApplyDirectiveBounds(kw: WaiverKeywords, st: BuilderState, rule: string, command: string, n: nat, hasCode: bool)
    requires IsCommand(kw, command)
    ensures Includes(ApplyDirective(kw, st, rule, command, n, hasCode).waiver, st.waiver)
    ensures WaivedBelow(st, n + 1) ==> WaivedBelow(ApplyDirective(kw, st, rule, command, n, hasCode), n + 1)
  {
    if command == kw.waiveLine {
      WaiveLineRangeBounds(st.waiver, rule, n, n + 1, n + 1);
    } else if command != kw.rangeStart && rule in st.open {
      WaiveLineRangeBounds(st.waiver, rule, st.open[rule], n, n + 1);
    }
  }

  /** The directives of the comments of line `n`, in order. */
  function ProcessComments(kw: WaiverKeywords, st: BuilderState, toks: seq<LineToken>, n: nat, hasCode: bool)
    : (r: BuilderState)
    ensures Includes(r.waiver, st.waiver)
    ensures hasCode && st.pending == {} ==> r.pending == {}
    ensures st.pending <= r.pending
    ensures WaivedBelow(st, n + 1) ==> WaivedBelow(r, n + 1)
    decreases |toks|
  {
    if |toks| == 0 then st
    else
      var next :=
        if toks[0].Comment? then
          var (rule, words) := ExtractWaivedRuleFromComment(kw, toks[0].text);
          if rule != "" then
            ApplyDirectiveBounds(kw, st, rule, words[1], n, hasCode);
            ApplyDirective(kw, st, rule, words[1], n, hasCode)
          else st
        else st;
      ProcessComments(kw, next, toks[1..], n, hasCode)
  }

  /** ProcessLine: a blank line only drops the pending one-line waivers; a
      line with code first applies and clears them; then the directives of
      the line's comments are applied. */
  function ProcessLine(kw: WaiverKeywords, st: BuilderState, toks: seq<LineToken>, n: nat): (r: BuilderState)
    ensures IsBlank(toks) ==> r == st.(pending := {})
    ensures !IsBlank(toks) && HasCode(toks) ==>
      (forall rule :: rule in st.pending ==> RuleIsWaivedOnLine(r.waiver, rule, n)) && r.pending == {}
    ensures !IsBlank(toks) && !HasCode(toks) ==> st.pending <= r.pending
    ensures Includes(r.waiver, st.waiver)
    ensures WaivedBelow(st, n) ==> WaivedBelow(r, n + 1)
  {
    if IsBlank(toks) then st.(pending := {})
    else
      var hasCode := HasCode(toks);
      var applied :=
        if hasCode then BuilderState(ApplyPending(st.waiver, st.pending, n), {}, st.open) else st;
      ApplyPendingBounds(st.waiver, st.pending, n);
      assert hasCode ==> forall rule :: rule in st.pending ==> RuleIsWaivedOnLine(applied.waiver, rule, n);
      ProcessComments(kw, applied, toks, n, hasCode)
  }

  lemma ApplyPendingBounds(w: LintWaiver, pending: set<string>, n: nat)
    ensures Includes(ApplyPending(w, pending, n), w)
    ensures AllBelow(w, n) ==> AllBelow(ApplyPending(w, pending, n), n + 1)
  {
  }

  /** A directive on a comment-only line defers a one-line waiver to the
      next line with code, across comment-only lines but not across blank
      lines. */
  lemma DeferredWaiverAppliesToNextCodeLine(kw: WaiverKeywords, st: BuilderState, rule: string,
                                            comment: seq<LineToken>, code: seq<LineToken>, n: nat)
    requires !IsBlank(comment) && !HasCode(comment) && !IsBlank(code) && HasCode(code)
    requires rule in ProcessLine(kw, st, comment, n).pending
    ensures RuleIsWaivedOnLine(ProcessLine(kw, ProcessLine(kw, st, comment, n), code, n + 1).waiver, rule, n + 1)
    ensures rule !in ProcessLine(kw, ProcessLine(kw, st, comment, n), [Space], n + 1).pending
  {
  }

  /** The flush after the last line: every open range is waived through
      `total`, and no range stays open. */
  function FlushOpenRanges(st: BuilderState, total: nat): (r: BuilderState)
    ensures r.open == map[] && r.pending == st.pending
    ensures forall rule ::
      WaivedLines(r.waiver, rule)
        == WaivedLines(st.waiver, rule) + (if rule in st.open then LineRange(st.open[rule], total) else {})
  {
    var w := LintWaiver(map rule | rule in st.waiver.waivers.Keys + st.open.Keys ::
      WaivedLines(st.waiver, rule) + (if rule in st.open then LineRange(st.open[rule], total) else {}));
    BuilderState(w, st.pending, map[])
  }

  lemma FlushBounds(st: BuilderState, total: nat)
    ensures Includes(FlushOpenRanges(st, total).waiver, st.waiver)
    ensures WaivedBelow(st, total) ==> AllBelow(FlushOpenRanges(st, total).waiver, total)
  {
  }

  /** The lines from `i` on, then the flush. */
  function ProcessLinesFrom(kw: WaiverKeywords, st: BuilderState, lines: seq<seq<LineToken>>, i: nat): (r: BuilderState)
    requires i <= |lines|
    ensures r.open == map[]
    ensures Includes(r.waiver, st.waiver)
    ensures WaivedBelow(st, i) ==> AllBelow(r.waiver, |lines|)
    decreases |lines| - i
  {
    if i == |lines| then
      FlushBounds(st, |lines|);
      FlushOpenRanges(st, |lines|)
    else ProcessLinesFrom(kw, ProcessLine(kw, st, lines[i], i), lines, i + 1)
  }

  /** ProcessTokenRangesByLine: every line in order, then the flush. Only
      lines of the file are ever waived, and no range stays open. */
  function ProcessTokenRangesByLine(kw: WaiverKeywords, st: BuilderState, lines: seq<seq<LineToken>>)
    : (r: BuilderState)
    ensures r.open == map[]
    ensures Includes(r.waiver, st.waiver)
    ensures WaivedBelow(st, 0) ==> forall rule, l: nat :: RuleIsWaivedOnLine(r.waiver, rule, l) ==> l < |lines|
  {
    ProcessLinesFrom(kw, st, lines, 0)
  }

  /** A range opened and never closed holds through the last line. */
  lemma UnclosedRangeRunsToEndOfFile(kw: WaiverKeywords, rule: string, start: seq<LineToken>, rest: seq<seq<LineToken>>)
    requires start == [Comment(Join([kw.trigger, kw.rangeStart, rule], ' '))]
    requires IsWord(kw.trigger, ' ') && IsWord(kw.rangeStart, ' ') && IsWord(rule, ' ')
    requires kw.rangeStart != kw.waiveLine
    requires forall i :: 0 <= i < |rest| ==> IsBlank(rest[i])
    ensures var r := ProcessTokenRangesByLine(kw, InitialBuilder, [start] + rest);
      forall l: nat :: l <= |rest| ==> RuleIsWaivedOnLine(r.waiver, rule, l)
  {
    var lines := [start] + rest;
    assert lines[0] == start;
    ExtractRecoversDirective(kw, [kw.trigger, kw.rangeStart, rule]);
    var st1 := ProcessLine(kw, InitialBuilder, start, 0);
    var (found, words) := ExtractWaivedRuleFromComment(kw, start[0].text);
    assert found == rule && words[1] == kw.rangeStart;
    var st0 := ApplyDirective(kw, InitialBuilder, rule, kw.rangeStart, 0, false);
    assert st0.open == map[rule := 0];
    assert start[1..] == [];
    assert ProcessComments(kw, st0, start[1..], 0, false) == st0;
    assert st1 == st0;
    assert ProcessTokenRangesByLine(kw, InitialBuilder, lines) == ProcessLinesFrom(kw, st1, lines, 1);
    assert forall j :: 1 <= j < |lines| ==> lines[j] == rest[j - 1];
    BlankLinesKeepOpen(kw, st1, lines, 1, rule);
  }

  lemma {:induction false} BlankLinesKeepOpen(kw: WaiverKeywords, st: BuilderState, lines: seq<seq<LineToken>>, i: nat,
                                              rule: string)
    requires 1 <= i <= |lines| && rule in st.open && st.open[rule] == 0
    requires forall j :: i <= j < |lines| ==> IsBlank(lines[j])
    ensures forall l: nat :: l < |lines| ==> RuleIsWaivedOnLine(ProcessLinesFrom(kw, st, lines, i).waiver, rule, l)
    decreases |lines| - i
  {
    if i == |lines| {
      var r := FlushOpenRanges(st, |lines|);
      forall l: nat | l < |lines|
        ensures RuleIsWaivedOnLine(r.waiver, rule, l)
      {
        assert l in WaivedLines(r.waiver, rule);
      }
    } else {
      BlankLinesKeepOpen(kw, ProcessLine(kw, st, lines[i], i), lines, i + 1, rule);
    }
  }

  // ---------------------------------------------------------------------
  // External waiver files

  /** A parsed line of a waiver file, with 1-based line numbers. The regular
      expression that parses the line is not part of this model. */
  datatype ExternalEntry = SingleLine(rule: string, line: nat) | LineSpan(rule: string, first: nat, last: nat)

  /** One entry, as the source applies it: an entry for an inactive rule is
      reported but not skipped, and goes on with the empty rule name. Line 0
      and inverted ranges are skipped. */
  function ApplyExternalEntryAsWritten(w: LintWaiver, active: set<string>, e: ExternalEntry): (r: LintWaiver)
    ensures e.SingleLine? && e.line >= 1 ==>
      r == WaiveOneLine(w, if e.rule in active then e.rule else "", e.line - 1)
    ensures e.LineSpan? && 1 <= e.first <= e.last ==>
      r == WaiveLineRange(w, if e.rule in active then e.rule else "", e.first - 1, e.last)
    ensures (e.SingleLine? && e.line == 0) || (e.LineSpan? && (e.first == 0 || e.first > e.last)) ==> r == w
  {
    var rule := if e.rule in active then e.rule else "";
    match e
    case SingleLine(_, n) => if n < 1 then w else WaiveOneLine(w, rule, n - 1)
    case LineSpan(_, b, l) => if b < 1 || b - 1 >= l then w else WaiveLineRange(w, rule, b - 1, l)
  }

  /** An entry for a rule that is not active waives the rule named "". */
  lemma InactiveRuleEntryWaivesEmptyRule()
    ensures var r := ApplyExternalEntryAsWritten(NoWaivers, {"always-comb"}, SingleLine("no-tabs", 5));
      RuleIsWaivedOnLine(r, "", 4) && !Empty(r)
  {
    var r := ApplyExternalEntryAsWritten(NoWaivers, {"always-comb"}, SingleLine("no-tabs", 5));
    assert 4 in WaivedLines(r, "");
  }

  /** The 0-based lines an entry names, once its bounds are valid. */
  predicate ExternalEntryCovers(e: ExternalEntry, l: nat) {
    match e
    case SingleLine(_, n) => n >= 1 && l == n - 1
    case LineSpan(_, b, last) => 1 <= b <= last && b - 1 <= l < last
  }

  /** One entry, with an inactive rule's entry skipped as its warning says:
      only active rules gain waived lines, a single line N waives line N-1,
      a range B..E waives [B-1, E). */
  function ApplyExternalEntry(w: LintWaiver, active: set<string>, e: ExternalEntry): (r: LintWaiver)
    ensures forall rule :: rule !in active ==> WaivedLines(r, rule) == WaivedLines(w, rule)
    ensures e.rule in active ==> r == ApplyExternalEntryAsWritten(w, active, e)
    ensures forall l: nat ::
      (RuleIsWaivedOnLine(r, e.rule, l) <==> RuleIsWaivedOnLine(w, e.rule, l) || (e.rule in active && ExternalEntryCovers(e, l)))
  {
    if e.rule !in active then w else ApplyExternalEntryAsWritten(w, active, e)
  }

  lemma EntryIncludes(w: LintWaiver, active: set<string>, e: ExternalEntry)
    ensures Includes(ApplyExternalEntryAsWritten(w, active, e), w)
  {
    var rule := if e.rule in active then e.rule else "";
    match e
    case SingleLine(_, n) =>
      if n >= 1 {
        WaiveLineRangeBounds(w, rule, n - 1, n, 0);
      }
    case LineSpan(_, b, l) =>
      if b >= 1 && b - 1 < l {
        WaiveLineRangeBounds(w, rule, b - 1, l, 0);
      }
  }

  /** ApplyExternalWaivers: every entry of a readable waiver file in order;
      an unreadable file (None) changes nothing. */
  function ApplyExternalWaivers(w: LintWaiver, active: set<string>, file: Option<seq<ExternalEntry>>): (r: LintWaiver)
    ensures file.None? ==> r == w
    ensures Includes(r, w)
    ensures forall rule :: rule !in active ==> WaivedLines(r, rule) == WaivedLines(w, rule)
    ensures file.Some? ==> forall rule, l: nat :: rule in active ==>
      (RuleIsWaivedOnLine(r, rule, l) <==>
        RuleIsWaivedOnLine(w, rule, l) || EntriesCover(file.value, rule, l))
    decreases if file.Some? then |file.value| else 0
  {
    if file.None? || |file.value| == 0 then w
    else
      var es := file.value;
      var next := ApplyExternalEntry(w, active, es[0]);
      assert Includes(next, w) by {
        if es[0].rule in active {
          EntryIncludes(w, active, es[0]);
        }
      }
      var r := ApplyExternalWaivers(next, active, Some(es[1..]));
      assert forall rule, l: nat :: rule in active ==>
        (RuleIsWaivedOnLine(r, rule, l) <==>
          RuleIsWaivedOnLine(w, rule, l) || EntriesCover(es, rule, l)) by {
        forall rule, l: nat | rule in active
          ensures RuleIsWaivedOnLine(r, rule, l) <==>
            RuleIsWaivedOnLine(w, rule, l) || EntriesCover(es, rule, l)
        {
          EntryWaivesOnlyItsRule(w, active, es[0], rule, l);
          EntriesCoverCons(es, rule, l);
        }
      }
      r
  }

  /** Some entry of the file names `rule` and covers line `l`. */
  predicate EntriesCover(es: seq<ExternalEntry>, rule: string, l: nat) {
    exists i :: 0 <= i < |es| && es[i].rule == rule && ExternalEntryCovers(es[i], l)
  }

  lemma EntriesCoverCons(es: seq<ExternalEntry>, rule: string, l: nat)
    requires |es| > 0
    ensures EntriesCover(es, rule, l) <==>
      (es[0].rule == rule && ExternalEntryCovers(es[0], l)) || EntriesCover(es[1..], rule, l)
  {
    if EntriesCover(es[1..], rule, l) {
      var i :| 0 <= i < |es| - 1 && es[1..][i].rule == rule && ExternalEntryCovers(es[1..][i], l);
      assert es[i + 1] == es[1..][i];
    }
    if EntriesCover(es, rule, l) && !(es[0].rule == rule && ExternalEntryCovers(es[0], l)) {
      var i :| 0 <= i < |es| && es[i].rule == rule && ExternalEntryCovers(es[i], l);
      assert es[1..][i - 1] == es[i];
    }
  }

  /** An entry waives lines of its own rule only, and only when that rule is
      active. */
  lemma EntryWaivesOnlyItsRule(w: LintWaiver, active: set<string>, e: ExternalEntry, rule: string, l: nat)
    requires rule in active
    ensures RuleIsWaivedOnLine(ApplyExternalEntry(w, active, e), rule, l) <==>
      RuleIsWaivedOnLine(w, rule, l) || (e.rule == rule && ExternalEntryCovers(e, l))
  {
    if e.rule != rule && e.rule in active {
      var r := ApplyExternalEntry(w, active, e);
      assert WaivedLines(r, rule) == WaivedLines(w, rule) by {
        match e
        case SingleLine(_, n) =>
        case LineSpan(_, b, last) =>
      }
    }
  }
}

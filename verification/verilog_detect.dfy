/** The line-range detector tool (verilog/tools/detector/verilog_detect.cc).

    The tool parses a file, marks every module item that holds a function
    call nested inside another function call, and prints the complementary
    list of 1-based line ranges as "a-b,c-d". Parsing and the byte-offset to
    line mapping are not part of this model: the syntax tree is given, and a
    leaf carries the 0-based line of its first byte. */
module VerilogDetect {
  import opened Wrappers
  import opened Strings

  // ---------------------------------------------------------------------
  // Language mode names

  datatype LanguageMode = AutoDetect | SystemVerilog | VerilogLibraryMap

  /** The name of a mode in the bijective name map. */
  function ModeName(m: LanguageMode): (s: string)
    ensures |s| > 0
  {
    match m
    case AutoDetect => "auto"
    case SystemVerilog => "sv"
    case VerilogLibraryMap => "lib"
  }

  /** The flag parser: a known name gives its mode, anything else an error. */
  function ParseMode(s: string): (r: Result<LanguageMode, string>)
    ensures r.Ok? ==> ModeName(r.value) == s
  {
    if s == "auto" then Ok(AutoDetect)
    else if s == "sv" then Ok(SystemVerilog)
    else if s == "lib" then Ok(VerilogLibraryMap)
    else Err("invalid --flag value: " + s)
  }

  /** The map is a bijection: every mode's name parses back to the mode, and
      only names of modes parse. */
  lemma ModeNamesRoundTrip(m: LanguageMode, s: string)
    ensures ParseMode(ModeName(m)) == Ok(m)
    ensures ParseMode(s).Ok? <==> exists k :: ModeName(k) == s
  {
    if ParseMode(s).Ok? {
      assert ModeName(ParseMode(s).value) == s;
    }
  }

  // ---------------------------------------------------------------------
  // Excluded ranges

  datatype NodeTag = FunctionCall | ModuleItemList | OtherNode(id: nat)

  /** A syntax tree; null children of the source are left out. */
  datatype Syntax = Leaf(line: nat) | Node(tag: NodeTag, children: seq<Syntax>)

  /** The visitor's state: the abort flag, the first and last leaf seen
      (their lines), and the ranges recorded so far. */
  datatype VisitorState = VisitorState(abort: bool, left: Option<nat>, right: Option<nat>, ranges: seq<(nat, nat)>)

  function Or(a: Option<nat>, b: Option<nat>): Option<nat> {
    if a.Some? then a else b
  }

  /** A function call sits inside another one, outside nested module item
      lists (whose visits restore the flag). `inCall` says whether an
      ancestor is a function call. */
  predicate HasNestedCall(t: Syntax, inCall: bool)
    decreases t, 1
  {
    match t
    case Leaf(_) => false
    case Node(tag, ch) =>
      if tag == ModuleItemList then false
      else if tag == FunctionCall then inCall || HasNestedCallAll(ch, true)
      else HasNestedCallAll(ch, inCall)
  }

  predicate HasNestedCallAll(ts: seq<Syntax>, inCall: bool)
    decreases ts, 0
  {
    |ts| > 0 && (HasNestedCall(ts[0], inCall) || HasNestedCallAll(ts[1..], inCall))
  }

  /** The first and last leaf lines, outside nested module item lists. */
  function FirstLeaf(t: Syntax): Option<nat>
    decreases t, 1
  {
    match t
    case Leaf(line) => Some(line)
    case Node(tag, ch) => if tag == ModuleItemList then None else FirstLeafAll(ch)
  }

  function FirstLeafAll(ts: seq<Syntax>): Option<nat>
    decreases ts, 0
  {
    if |ts| == 0 then None else Or(FirstLeaf(ts[0]), FirstLeafAll(ts[1..]))
  }

  function LastLeaf(t: Syntax): Option<nat>
    decreases t, 1
  {
    match t
    case Leaf(line) => Some(line)
    case Node(tag, ch) => if tag == ModuleItemList then None else LastLeafAll(ch)
  }

  function LastLeafAll(ts: seq<Syntax>): Option<nat>
    decreases ts, 0
  {
    if |ts| == 0 then None else Or(LastLeafAll(ts[1..]), LastLeaf(ts[0]))
  }

  /** The range recorded for one visited module item: its first and last
      lines, 1-based, when the item aborted and has leaves. */
  function RecordItem(after: VisitorState): (r: seq<(nat, nat)>)
    ensures |r| <= 1
    ensures |r| == 1 <==> after.abort && after.left.Some? && after.right.Some?
  {
    if after.abort && after.left.Some? && after.right.Some? then [(after.left.value + 1, after.right.value + 1)]
    else []
  }

  /** The visitor's Visit: a leaf is recorded as first (once) and last; a
      function call inside a function call sets the abort flag; each child
      of a module item list is visited with a cleared flag and no leaves,
      its range recorded if it aborted, and the flag and leaves restored. */
  function Visit(t: Syntax, inCall: bool, st: VisitorState): (r: VisitorState)
    ensures r.abort == (st.abort || HasNestedCall(t, inCall))
    ensures r.left == Or(st.left, FirstLeaf(t))
    ensures r.right == Or(LastLeaf(t), st.right)
    ensures |st.ranges| <= |r.ranges| && r.ranges[..|st.ranges|] == st.ranges
    decreases t, 1
  {
    match t
    case Leaf(line) => st.(left := Or(st.left, Some(line)), right := Some(line))
    case Node(tag, ch) =>
      if tag == FunctionCall then VisitAll(ch, true, st.(abort := st.abort || inCall))
      else if tag == ModuleItemList then VisitItems(ch, inCall, st)
      else VisitAll(ch, inCall, st)
  }

  /** TraverseChildren. */
  function VisitAll(ts: seq<Syntax>, inCall: bool, st: VisitorState): (r: VisitorState)
    ensures r.abort == (st.abort || HasNestedCallAll(ts, inCall))
    ensures r.left == Or(st.left, FirstLeafAll(ts))
    ensures r.right == Or(LastLeafAll(ts), st.right)
    ensures |st.ranges| <= |r.ranges| && r.ranges[..|st.ranges|] == st.ranges
    decreases ts, 0
  {
    if |ts| == 0 then st
    else
      var mid := Visit(ts[0], inCall, st);
      var r := VisitAll(ts[1..], inCall, mid);
      assert r.ranges[..|st.ranges|] == mid.ranges[..|st.ranges|];
      r
  }

  /** The children of a module item list. */
  function VisitItems(ts: seq<Syntax>, inCall: bool, st: VisitorState): (r: VisitorState)
    ensures r.abort == st.abort && r.left == st.left && r.right == st.right
    ensures |st.ranges| <= |r.ranges| && r.ranges[..|st.ranges|] == st.ranges
    decreases ts, 0
  {
    if |ts| == 0 then st
    else
      var after := Visit(ts[0], inCall, st.(abort := false, left := None, right := None));
      var r := VisitItems(ts[1..], inCall, st.(ranges := after.ranges + RecordItem(after)));
      assert r.ranges[..|st.ranges|] == (after.ranges + RecordItem(after))[..|st.ranges|];
      r
  }

  /** No module item list below `t`. */
  predicate Flat(t: Syntax)
    decreases t, 1
  {
    match t
    case Leaf(_) => true
    case Node(tag, ch) => tag != ModuleItemList && FlatAll(ch)
  }

  predicate FlatAll(ts: seq<Syntax>)
    decreases ts, 0
  {
    |ts| == 0 || (Flat(ts[0]) && FlatAll(ts[1..]))
  }

  lemma {:induction false} FlatVisitRecordsNothing(t: Syntax, inCall: bool, st: VisitorState)
    requires Flat(t)
    ensures Visit(t, inCall, st).ranges == st.ranges
    decreases t, 1
  {
    match t
    case Leaf(_) =>
    case Node(tag, ch) =>
      if tag == FunctionCall {
        FlatVisitAllRecordsNothing(ch, true, st.(abort := st.abort || inCall));
      } else {
        FlatVisitAllRecordsNothing(ch, inCall, st);
      }
  }

  lemma {:induction false} FlatVisitAllRecordsNothing(ts: seq<Syntax>, inCall: bool, st: VisitorState)
    requires FlatAll(ts)
    ensures VisitAll(ts, inCall, st).ranges == st.ranges
    decreases ts, 0
  {
    if |ts| > 0 {
      FlatVisitRecordsNothing(ts[0], inCall, st);
      FlatVisitAllRecordsNothing(ts[1..], inCall, Visit(ts[0], inCall, st));
    }
  }

  /** The ranges a module item list of flat items should record: for each
      item with a nested call and with leaves, its first and last line. */
  function ExcludedItems(ts: seq<Syntax>, inCall: bool): seq<(nat, nat)>
  {
    if |ts| == 0 then []
    else
      var t := ts[0];
      (if HasNestedCall(t, inCall) && FirstLeaf(t).Some? && LastLeaf(t).Some?
       then [(FirstLeaf(t).value + 1, LastLeaf(t).value + 1)] else [])
        + ExcludedItems(ts[1..], inCall)
  }

  /** Visiting a module item list of flat items records exactly the items
      holding a nested function call, in order. */
  lemma {:induction false} ModuleItemsRecordNestedCalls(ts: seq<Syntax>, inCall: bool, st: VisitorState)
    requires FlatAll(ts)
    ensures VisitItems(ts, inCall, st).ranges == st.ranges + ExcludedItems(ts, inCall)
    decreases ts
  {
    if |ts| > 0 {
      var cleared := st.(abort := false, left := None, right := None);
      var after := Visit(ts[0], inCall, cleared);
      FlatVisitRecordsNothing(ts[0], inCall, cleared);
      var next := st.(ranges := after.ranges + RecordItem(after));
      ModuleItemsRecordNestedCalls(ts[1..], inCall, next);
      assert after.abort == HasNestedCall(ts[0], inCall);
      assert after.left == FirstLeaf(ts[0]) && after.right == LastLeaf(ts[0]);
      assert ExcludedItems(ts, inCall) == RecordItem(after) + ExcludedItems(ts[1..], inCall);
      assert st.ranges + RecordItem(after) + ExcludedItems(ts[1..], inCall)
        == st.ranges + (RecordItem(after) + ExcludedItems(ts[1..], inCall));
    }
  }

  // ---------------------------------------------------------------------
  // Complement

  /** The gaps before each excluded range, from line `itr` on, and the line
      after the last range. */
  function Gaps(ex: seq<(nat, nat)>, itr: nat): (r: (seq<(nat, nat)>, nat))
    requires forall i :: 0 <= i < |ex| ==> ex[i].0 >= 1
    ensures |r.0| == |ex|
    ensures |ex| == 0 ==> r.1 == itr
    ensures |ex| > 0 ==> r.1 == ex[|ex| - 1].1 + 1
    decreases |ex|
  {
    if |ex| == 0 then ([], itr)
    else
      var rest := Gaps(ex[1..], ex[0].1 + 1);
      ([(itr, ex[0].0 - 1)] + rest.0, rest.1)
  }

  /** Gap `i` runs from the line after the previous excluded range (or from
      `itr` for the first) to the line before excluded range `i`. */
  lemma {:induction false} GapsArePairs(ex: seq<(nat, nat)>, itr: nat)
    requires forall i :: 0 <= i < |ex| ==> ex[i].0 >= 1
    ensures forall i :: 0 <= i < |ex| ==>
      Gaps(ex, itr).0[i] == ((if i == 0 then itr else ex[i - 1].1 + 1), ex[i].0 - 1)
    decreases |ex|
  {
    if |ex| > 0 {
      var rest := Gaps(ex[1..], ex[0].1 + 1);
      GapsArePairs(ex[1..], ex[0].1 + 1);
      assert Gaps(ex, itr).0 == [(itr, ex[0].0 - 1)] + rest.0;
      forall i | 0 < i < |ex|
        ensures Gaps(ex, itr).0[i] == (ex[i - 1].1 + 1, ex[i].0 - 1)
      {
        assert Gaps(ex, itr).0[i] == rest.0[i - 1];
        assert ex[1..][i - 1] == ex[i];
        if i > 1 {
          assert ex[1..][i - 2] == ex[i - 1];
        }
      }
    }
  }

  /** The complement as the source computes it: the trailing range after
      the last excluded range is added only when it starts strictly before
      the last line, so a single remaining last line is lost. */
  function ComplementAsWritten(ex: seq<(nat, nat)>, linesOfCode: nat): (r: seq<(nat, nat)>)
    requires forall i :: 0 <= i < |ex| ==> ex[i].0 >= 1
    ensures |r| > 0
  {
    if |ex| == 0 then [(1, linesOfCode)]
    else
      var (gaps, itr) := Gaps(ex, 1);
      gaps + (if itr < linesOfCode then [(itr, linesOfCode)] else [])
  }

  /** The complement with the trailing range kept whenever it holds a line. */
  function Complement(ex: seq<(nat, nat)>, linesOfCode: nat): (r: seq<(nat, nat)>)
    requires forall i :: 0 <= i < |ex| ==> ex[i].0 >= 1
    ensures |r| > 0
  {
    if |ex| == 0 then [(1, linesOfCode)]
    else
      var (gaps, itr) := Gaps(ex, 1);
      gaps + (if itr <= linesOfCode then [(itr, linesOfCode)] else [])
  }

  /** Line `l` lies in one of the (closed) ranges. */
  predicate InSome(rs: seq<(nat, nat)>, l: nat) {
    exists i :: 0 <= i < |rs| && rs[i].0 <= l <= rs[i].1
  }

  /** Excluded ranges in order, each non-empty and after the previous one. */
  predicate Ordered(ex: seq<(nat, nat)>) {
    && (forall i :: 0 <= i < |ex| ==> 1 <= ex[i].0 <= ex[i].1)
    && (forall i :: 0 < i < |ex| ==> ex[i - 1].1 < ex[i].0)
  }

  /** The gaps hold no line before `itr` and none from the line after the
      last range on. */
  lemma {:induction false} GapsOutside(ex: seq<(nat, nat)>, itr: nat, l: nat)
    requires Ordered(ex) && |ex| > 0 && itr <= ex[0].0
    requires l < itr || l >= Gaps(ex, itr).1
    ensures !InSome(Gaps(ex, itr).0, l)
    decreases |ex|
  {
    var rest := Gaps(ex[1..], ex[0].1 + 1);
    assert Gaps(ex, itr).0 == [(itr, ex[0].0 - 1)] + rest.0;
    InSomeCons((itr, ex[0].0 - 1), rest.0, l);
    if |ex| == 1 {
      assert rest.0 == [];
    } else {
      OrderedTail(ex);
      if l >= rest.1 {
        assert ex[1..][|ex| - 2] == ex[|ex| - 1];
        OrderedEndsBelowLast(ex, 0);
        GapsOutside(ex[1..], ex[0].1 + 1, l);
      } else {
        assert l < itr;
        GapsOutside(ex[1..], ex[0].1 + 1, l);
      }
    }
  }

  /** Between `itr` and the line after the last range, the gaps hold exactly
      the lines no excluded range holds. */
  lemma {:induction false} GapsComplement(ex: seq<(nat, nat)>, itr: nat, l: nat)
    requires Ordered(ex) && |ex| > 0 && itr <= ex[0].0
    requires itr <= l < Gaps(ex, itr).1
    ensures InSome(Gaps(ex, itr).0, l) <==> !InSome(ex, l)
    decreases |ex|
  {
    var rest := Gaps(ex[1..], ex[0].1 + 1);
    assert Gaps(ex, itr).0 == [(itr, ex[0].0 - 1)] + rest.0;
    InSomeCons((itr, ex[0].0 - 1), rest.0, l);
    assert InSome(ex, l) <==> ex[0].0 <= l <= ex[0].1 || InSome(ex[1..], l) by {
      InSomeCons(ex[0], ex[1..], l);
      assert ex == [ex[0]] + ex[1..];
    }
    if |ex| == 1 {
      assert rest.0 == [];
      assert !InSome(ex[1..], l);
    } else if l < ex[0].0 {
      OrderedTail(ex);
      GapsOutside(ex[1..], ex[0].1 + 1, l);
      OrderedBelowFirst(ex, l);
    } else if l <= ex[0].1 {
      OrderedTail(ex);
      GapsOutside(ex[1..], ex[0].1 + 1, l);
    } else {
      OrderedTail(ex);
      GapsComplement(ex[1..], ex[0].1 + 1, l);
    }
  }

  lemma OrderedTail(ex: seq<(nat, nat)>)
    requires Ordered(ex) && |ex| > 0
    ensures Ordered(ex[1..])
  {
    forall i | 0 < i < |ex| - 1
      ensures ex[1..][i - 1].1 < ex[1..][i].0
    {
      assert ex[i].1 < ex[i + 1].0;
    }
  }

  /** In ordered ranges, a line before the second range's start lies in no
      range after the first. */
  lemma OrderedBelowFirst(ex: seq<(nat, nat)>, l: nat)
    requires Ordered(ex) && |ex| > 1 && l < ex[1].0
    ensures !InSome(ex[1..], l)
  {
    forall i | 1 <= i < |ex|
      ensures ex[1].0 <= ex[i].0
    {
      OrderedStartsGrow(ex, i);
    }
  }

  lemma {:induction false} OrderedStartsGrow(ex: seq<(nat, nat)>, i: nat)
    requires Ordered(ex) && 1 <= i < |ex|
    ensures ex[1].0 <= ex[i].0
    decreases i
  {
    if i > 1 {
      OrderedStartsGrow(ex, i - 1);
      assert ex[i - 1].1 < ex[i].0;
    }
  }

  lemma InSomeCons(r: (nat, nat), rs: seq<(nat, nat)>, l: nat)
    ensures InSome([r] + rs, l) <==> (r.0 <= l <= r.1 || InSome(rs, l))
  {
    var s := [r] + rs;
    if InSome(s, l) && !(r.0 <= l <= r.1) {
      var i :| 0 <= i < |s| && s[i].0 <= l <= s[i].1;
      assert s[i] == rs[i - 1];
    }
    if InSome(rs, l) {
      var i :| 0 <= i < |rs| && rs[i].0 <= l <= rs[i].1;
      assert s[i + 1] == rs[i];
    }
  }

  lemma InSomeAppend(a: seq<(nat, nat)>, b: seq<(nat, nat)>, l: nat)
    ensures InSome(a + b, l) <==> InSome(a, l) || InSome(b, l)
  {
    var s := a + b;
    if InSome(s, l) && !InSome(a, l) {
      var i :| 0 <= i < |s| && s[i].0 <= l <= s[i].1;
      assert s[i] == b[i - |a|];
    }
    if InSome(b, l) {
      var i :| 0 <= i < |b| && b[i].0 <= l <= b[i].1;
      assert s[i + |a|] == b[i];
    }
    if InSome(a, l) {
      var i :| 0 <= i < |a| && a[i].0 <= l <= a[i].1;
      assert s[i] == a[i];
    }
  }

  /** The corrected complement lists exactly the lines of the file that no
      excluded range holds. */
  lemma ComplementIsExactlyTheIncludedLines(ex: seq<(nat, nat)>, linesOfCode: nat, l: nat)
    requires Ordered(ex)
    requires |ex| > 0 ==> ex[|ex| - 1].1 <= linesOfCode
    requires 1 <= l <= linesOfCode
    ensures InSome(Complement(ex, linesOfCode), l) <==> !InSome(ex, l)
  {
    if |ex| == 0 {
      assert Complement(ex, linesOfCode)[0] == (1, linesOfCode);
    } else {
      var (gaps, itr) := Gaps(ex, 1);
      var tail := if itr <= linesOfCode then [(itr, linesOfCode)] else [];
      InSomeAppend(gaps, tail, l);
      if l >= itr {
        GapsOutside(ex, 1, l);
        assert !InSome(ex, l) by {
          if InSome(ex, l) {
            var i :| 0 <= i < |ex| && ex[i].0 <= l <= ex[i].1;
            OrderedEndsBelowLast(ex, i);
          }
        }
        assert tail[0].0 <= l <= tail[0].1;
      } else {
        GapsComplement(ex, 1, l);
        assert !InSome(tail, l);
      }
    }
  }

  /** The complement as written lists exactly the lines no excluded range
      holds, except the last line of the file when the last excluded range
      ends just before it. */
  lemma ComplementAsWrittenIncludedLines(ex: seq<(nat, nat)>, linesOfCode: nat, l: nat)
    requires Ordered(ex)
    requires |ex| > 0 ==> ex[|ex| - 1].1 <= linesOfCode
    requires 1 <= l <= linesOfCode
    ensures InSome(ComplementAsWritten(ex, linesOfCode), l) <==>
      !InSome(ex, l) && !(|ex| > 0 && l == linesOfCode && ex[|ex| - 1].1 + 1 == linesOfCode)
  {
    if |ex| == 0 {
      assert ComplementAsWritten(ex, linesOfCode)[0] == (1, linesOfCode);
    } else {
      var (gaps, itr) := Gaps(ex, 1);
      var tail := if itr < linesOfCode then [(itr, linesOfCode)] else [];
      InSomeAppend(gaps, tail, l);
      if l >= itr {
        GapsOutside(ex, 1, l);
        assert !InSome(ex, l) by {
          if InSome(ex, l) {
            var i :| 0 <= i < |ex| && ex[i].0 <= l <= ex[i].1;
            OrderedEndsBelowLast(ex, i);
          }
        }
        if itr < linesOfCode {
          assert tail[0].0 <= l <= tail[0].1;
        }
      } else {
        GapsComplement(ex, 1, l);
        assert !InSome(tail, l);
      }
    }
  }

  lemma {:induction false} OrderedEndsBelowLast(ex: seq<(nat, nat)>, i: nat)
    requires Ordered(ex) && i < |ex|
    ensures ex[i].1 <= ex[|ex| - 1].1
    decreases |ex| - i
  {
    if i < |ex| - 1 {
      OrderedEndsBelowLast(ex, i + 1);
      assert ex[i].1 < ex[i + 1].0;
    }
  }

  /** As written, a file of four lines with lines 2-3 excluded reports only
      line 1: line 4 is neither excluded nor reported. The corrected
      complement reports it. */
  lemma ComplementAsWrittenLosesLastLine()
    ensures ComplementAsWritten([(2, 3)], 4) == [(1, 1)]
    ensures !InSome(ComplementAsWritten([(2, 3)], 4), 4) && !InSome([(2, 3)], 4)
    ensures Complement([(2, 3)], 4) == [(1, 1), (4, 4)]
  {
    var ex: seq<(nat, nat)> := [(2, 3)];
    assert ex[1..] == [];
    assert Gaps(ex[1..], 4) == ([], 4);
    assert Gaps(ex, 1).0 == [(1, 1)] + [];
    assert Gaps(ex, 1).0 == [(1, 1)] && Gaps(ex, 1).1 == 4;
  }

  /** An excluded range starting at line 1 yields the empty pair (1, 0). */
  lemma ExclusionAtFirstLineGivesEmptyPair()
    ensures Complement([(1, 2)], 5) == [(1, 0), (3, 5)]
  {
    var ex: seq<(nat, nat)> := [(1, 2)];
    assert ex[1..] == [];
    assert Gaps(ex[1..], 3) == ([], 3);
    assert Gaps(ex, 1).0 == [(1, 0)] + [];
    assert Gaps(ex, 1).0 == [(1, 0)] && Gaps(ex, 1).1 == 3;
  }

  // ---------------------------------------------------------------------
  // Output

  function RangeText(r: (nat, nat)): string {
    NatToString(r.0) + "-" + NatToString(r.1)
  }

  /** Each range followed by a comma. */
  function CommaTerminated(rs: seq<(nat, nat)>): (s: string)
    ensures |rs| > 0 ==> |s| > 0 && s[|s| - 1] == ','
  {
    if |rs| == 0 then "" else CommaTerminated(rs[..|rs| - 1]) + RangeText(rs[|rs| - 1]) + ","
  }

  /** The printed list: every range as "a-b" followed by a comma, with the
      last character dropped. */
  function RangesToString(rs: seq<(nat, nat)>): (s: string)
    requires |rs| > 0
  {
    var full := CommaTerminated(rs);
    full[..|full| - 1]
  }

  function RangeTexts(rs: seq<(nat, nat)>): (ws: seq<string>)
    ensures |ws| == |rs| && forall i :: 0 <= i < |rs| ==> ws[i] == RangeText(rs[i])
  {
    if |rs| == 0 then [] else RangeTexts(rs[..|rs| - 1]) + [RangeText(rs[|rs| - 1])]
  }

  /** Dropping the last comma leaves the ranges joined by commas. */
  lemma {:induction false} RangesToStringIsJoin(rs: seq<(nat, nat)>)
    requires |rs| > 0
    ensures RangesToString(rs) == Join(RangeTexts(rs), ',')
    decreases |rs|
  {
    if |rs| > 1 {
      var init := rs[..|rs| - 1];
      assert init[..|init| - 1] == rs[..|rs| - 2];
      RangesToStringIsJoin(init);
      var full := CommaTerminated(init);
      assert CommaTerminated(rs) == full + RangeText(rs[|rs| - 1]) + ",";
      assert full == full[..|full| - 1] + ",";
      JoinSnoc(RangeTexts(init), RangeText(rs[|rs| - 1]), ',');
    } else {
      assert rs[..0] == [];
      assert CommaTerminated(rs) == RangeText(rs[0]) + ",";
      assert RangeTexts(rs) == [RangeText(rs[0])];
    }
  }

  lemma {:induction false} JoinSnoc(ws: seq<string>, w: string, sep: char)
    requires |ws| > 0
    ensures Join(ws + [w], sep) == Join(ws, sep) + [sep] + w
    decreases |ws|
  {
    if |ws| == 1 {
      assert ws + [w] == [ws[0], w];
      assert [ws[0], w][1..] == [w];
    } else {
      assert (ws + [w])[1..] == ws[1..] + [w];
      JoinSnoc(ws[1..], w, sep);
    }
  }

  predicate AllDigits(s: string) {
    forall i :: 0 <= i < |s| ==> IsDigit(s[i])
  }

  /** Reads one "a-b" piece. */
  function ParseRange(piece: string): Option<(nat, nat)> {
    var parts := Split(piece, '-');
    if |parts| == 2 && AllDigits(parts[0]) && AllDigits(parts[1]) then
      Some((ParseNat(parts[0]), ParseNat(parts[1])))
    else None
  }

  function ParsePieces(pieces: seq<string>): Option<seq<(nat, nat)>>
  {
    if |pieces| == 0 then Some([])
    else match (ParseRange(pieces[0]), ParsePieces(pieces[1..]))
      case (Some(r), Some(rest)) => Some([r] + rest)
      case _ => None
  }

  /** A reader of the printed list: comma-separated "a-b" pieces. */
  function ParseRanges(s: string): Option<seq<(nat, nat)>> {
    ParsePieces(Split(s, ','))
  }

  lemma DigitsAreNoSeparator(n: nat, sep: char)
    requires !IsDigit(sep)
    ensures IsWord(NatToString(n), sep)
  {
  }

  lemma ParseRangeText(r: (nat, nat))
    ensures ParseRange(RangeText(r)) == Some(r)
  {
    DigitsAreNoSeparator(r.0, '-');
    DigitsAreNoSeparator(r.1, '-');
    assert RangeText(r) == Join([NatToString(r.0), NatToString(r.1)], '-');
    SplitJoin([NatToString(r.0), NatToString(r.1)], '-');
    ParseNatToString(r.0);
    ParseNatToString(r.1);
  }

  lemma {:induction false} ParsePiecesOfTexts(rs: seq<(nat, nat)>)
    ensures ParsePieces(RangeTexts(rs)) == Some(rs)
    decreases |rs|
  {
    if |rs| > 0 {
      var ws := RangeTexts(rs);
      assert ws[1..] == RangeTexts(rs[1..]);
      ParseRangeText(rs[0]);
      ParsePiecesOfTexts(rs[1..]);
      assert [rs[0]] + rs[1..] == rs;
    }
  }

  /** The printed list reads back as the ranges it was printed from. */
  lemma RangesToStringRoundTrip(rs: seq<(nat, nat)>)
    requires |rs| > 0
    ensures ParseRanges(RangesToString(rs)) == Some(rs)
  {
    RangesToStringIsJoin(rs);
    forall i | 0 <= i < |rs|
      ensures IsWord(RangeTexts(rs)[i], ',')
    {
      DigitsAreNoSeparator(rs[i].0, ',');
      DigitsAreNoSeparator(rs[i].1, ',');
    }
    SplitJoin(RangeTexts(rs), ',');
    ParsePiecesOfTexts(rs);
  }

  // ---------------------------------------------------------------------
  // Error messages and exit status

  /** The number of syntax error messages printed: all of them with limit 0,
      otherwise printing stops once the count reaches the limit, so a
      negative limit still prints one message. */
  method PrintedErrorCount(messages: seq<string>, limit: int) returns (count: nat)
    ensures count == if |messages| == 0 then 0
                     else if limit == 0 then |messages|
                     else if limit < 0 then 1
                     else Min(|messages|, limit)
  {
    count := 0;
    var i := 0;
    while i < |messages|
      invariant 0 <= i <= |messages| && count == i
      invariant limit > 0 ==> count <= limit
      invariant limit != 0 && i > 0 ==> count < limit
    {
      count := count + 1;
      i := i + 1;
      if limit != 0 && count >= limit {
        break;
      }
    }
  }

  function Min(a: int, b: int): int { if a < b then a else b }

  /** What happens to one file argument. */
  datatype FileOutcome = Unreadable | Analyzed(lexOk: bool, parseOk: bool)

  /** AnalyzeOneFile's status: 1 on a lex or parse failure. */
  function FileStatus(f: FileOutcome): (s: nat)
    ensures s <= 1
    ensures s == 1 <==> f.Unreadable? || !f.lexOk || !f.parseOk
  {
    match f
    case Unreadable => 1
    case Analyzed(lexOk, parseOk) => if !lexOk || !parseOk then 1 else 0
  }

  /** The tool's exit status: the maximum over the files, starting at 0. */
  function ExitStatus(files: seq<FileOutcome>): (s: nat)
    ensures s <= 1
    ensures s == 1 <==> exists i :: 0 <= i < |files| && FileStatus(files[i]) == 1
  {
    if |files| == 0 then 0
    else
      var rest := ExitStatus(files[1..]);
      var s := if FileStatus(files[0]) > rest then FileStatus(files[0]) else rest;
      assert rest == 1 ==> exists i :: 0 < i < |files| && FileStatus(files[i]) == 1 by {
        if rest == 1 {
          var j :| 0 <= j < |files| - 1 && FileStatus(files[1..][j]) == 1;
          assert FileStatus(files[j + 1]) == 1;
        }
      }
      s
  }
}

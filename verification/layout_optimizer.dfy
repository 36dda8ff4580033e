/** Layouts, knots and the leaf cost sets of the layout optimizer
    (verilog/formatting/layout_optimizer.cc).

    Only line layouts and the knot sets of leaf partitions are built by the
    optimizer; the other layout kinds exist as names only. A knot set is a
    piecewise-linear cost function of the start column: from a knot's column
    on, the cost is its intercept plus its gradient times the columns past
    that knot. */
module LayoutOptimizer {
  import opened Strings
  import opened UnwrappedLines
  import opened TokenPartitionTrees

  datatype LayoutType = LayoutLine | LayoutHorizontalMerge | LayoutVerticalMerge | LayoutChoice | LayoutWrap

  /** A layout: its kind, indentation and the tokens of its line. */
  datatype Layout = Layout(kind: LayoutType, indentation: int, tokens: seq<PreFormatToken>)

  /** The constructor from a type alone: no indentation, no tokens. */
  function LayoutOfType(kind: LayoutType): (l: Layout)
    ensures l.kind == kind && l.indentation == 0 && |l.tokens| == 0
  {
    Layout(kind, 0, [])
  }

  /** The constructor from an unwrapped line: a line layout with the line's
      indentation and exactly the line's tokens. */
  function LayoutOfLine(line: UnwrappedLine, tokens: seq<PreFormatToken>): (l: Layout)
    requires InBounds(line, tokens)
    ensures l.kind == LayoutLine && l.indentation == line.indentation
    ensures |l.tokens| == line.Size()
    ensures forall i :: 0 <= i < |l.tokens| ==> l.tokens[i] == tokens[line.begin + i]
  {
    Layout(LayoutLine, line.indentation, tokens[line.begin..line.end])
  }

  function Texts(ts: seq<PreFormatToken>): (ws: seq<string>)
    ensures |ws| == |ts| && forall i :: 0 <= i < |ts| ==> ws[i] == ts[i].text
  {
    if |ts| == 0 then [] else [ts[0].text] + Texts(ts[1..])
  }

  /** Text: the token texts joined by single spaces. */
  function Text(l: Layout): string {
    Join(Texts(l.tokens), ' ')
  }

  /** When the token texts are words without spaces, Text can be split back
      into them. */
  lemma TextRecoversTokens(l: Layout)
    requires forall i :: 0 <= i < |l.tokens| ==> IsWord(l.tokens[i].text, ' ')
    ensures Split(Text(l), ' ') == Texts(l.tokens)
  {
    SplitJoin(Texts(l.tokens), ' ');
  }

  /** The width a run of tokens occupies, each with its required spaces. */
  function Width(ts: seq<PreFormatToken>): (w: nat)
    decreases |ts|
  {
    if |ts| == 0 then 0 else Width(ts[..|ts| - 1]) + ts[|ts| - 1].before.spacesRequired + |ts[|ts| - 1].text|
  }

  /** Length: the width of the tokens without the spaces before the first. */
  method Length(l: Layout) returns (len: int)
    requires |l.tokens| > 0
    ensures len == Width(l.tokens) - l.tokens[0].before.spacesRequired
    ensures len >= |l.tokens[0].text|
  {
    len := 0;
    var i := 0;
    while i < |l.tokens|
      invariant 0 <= i <= |l.tokens|
      invariant len == Width(l.tokens[..i])
    {
      assert l.tokens[..i + 1][..i] == l.tokens[..i];
      len := len + l.tokens[i].before.spacesRequired + |l.tokens[i].text|;
      i := i + 1;
    }
    assert l.tokens[..i] == l.tokens;
    WidthAtLeastFirst(l.tokens);
    len := len - l.tokens[0].before.spacesRequired;
  }

  lemma {:induction false} WidthAtLeastFirst(ts: seq<PreFormatToken>)
    requires |ts| > 0
    ensures Width(ts) >= ts[0].before.spacesRequired + |ts[0].text|
    decreases |ts|
  {
    if |ts| > 1 {
      assert ts[..|ts| - 1][0] == ts[0];
      WidthAtLeastFirst(ts[..|ts| - 1]);
    }
  }

  /** Every token but the first asks for exactly one space. */
  predicate SingleSpaced(ts: seq<PreFormatToken>) {
    forall i :: 0 < i < |ts| ==> ts[i].before.spacesRequired == 1
  }

  /** With single spaces between tokens, the length of a layout is the
      length of its text. */
  lemma {:induction false} LengthOfSingleSpacedIsTextLength(ts: seq<PreFormatToken>)
    requires |ts| > 0 && SingleSpaced(ts)
    ensures Width(ts) - ts[0].before.spacesRequired == |Join(Texts(ts), ' ')|
    decreases |ts|
  {
    if |ts| > 1 {
      var init := ts[..|ts| - 1];
      assert SingleSpaced(init);
      assert init[0] == ts[0];
      LengthOfSingleSpacedIsTextLength(init);
      JoinSnocLength(Texts(init), ts[|ts| - 1].text);
      TextsSnoc(ts);
    } else {
      assert ts[..0] == [];
    }
  }

  lemma TextsSnoc(ts: seq<PreFormatToken>)
    requires |ts| > 0
    ensures Texts(ts) == Texts(ts[..|ts| - 1]) + [ts[|ts| - 1].text]
  {
    var a := Texts(ts);
    var b := Texts(ts[..|ts| - 1]) + [ts[|ts| - 1].text];
    assert |a| == |b|;
    forall i | 0 <= i < |a|
      ensures a[i] == b[i]
    {
      if i < |ts| - 1 {
        assert ts[..|ts| - 1][i] == ts[i];
      }
    }
  }

  lemma {:induction false} JoinSnocLength(ws: seq<string>, w: string)
    requires |ws| > 0
    ensures |Join(ws + [w], ' ')| == |Join(ws, ' ')| + 1 + |w|
    decreases |ws|
  {
    if |ws| == 1 {
      assert ws + [w] == [ws[0], w];
      assert [ws[0], w][1..] == [w];
    } else {
      assert (ws + [w])[1..] == ws[1..] + [w];
      JoinSnocLength(ws[1..], w);
    }
  }

  /** MustWrap: the first token must start a new line. */
  predicate MustWrap(l: Layout)
    requires |l.tokens| > 0
  {
    l.tokens[0].before.breakDecision == SpacingOptions.MustWrap
  }

  /** MustAppend: the first token must stay on the line before. */
  predicate MustAppend(l: Layout)
    requires |l.tokens| > 0
  {
    l.tokens[0].before.breakDecision == SpacingOptions.MustAppend
  }

  /** A layout is never both forced to wrap and forced to append, and both
      read the first token only. */
  lemma MustWrapExcludesMustAppend(l: Layout, rest: seq<PreFormatToken>)
    requires |l.tokens| > 0
    ensures !(MustWrap(l) && MustAppend(l))
    ensures MustWrap(l) == MustWrap(l.(tokens := l.tokens[..1] + rest))
    ensures MustAppend(l) == MustAppend(l.(tokens := l.tokens[..1] + rest))
  {
  }

  /** A knot: from `column` on, the cost is `intercept` plus `gradient` per
      column past it. */
  datatype Knot = Knot(column: int, span: int, intercept: int, gradient: int, layout: Layout)

  type KnotSet = seq<Knot>

  /** The cost of a knot at a start column at or after its own. */
  function KnotCost(k: Knot, c: int): int {
    k.intercept + (c - k.column) * k.gradient
  }

  /** The value of a knot set at start column `c`: the cost of the last knot
      whose column does not exceed `c`. */
  function CostAt(ks: KnotSet, c: int): int
    requires |ks| > 0
    decreases |ks|
  {
    if |ks| == 1 || c < ks[1].column then KnotCost(ks[0], c) else CostAt(ks[1..], c)
  }

  /** PlusConst: the same knots with `c` added to each intercept. */
  function PlusConst(ks: KnotSet, c: int): (r: KnotSet)
    ensures |r| == |ks|
    ensures forall i :: 0 <= i < |ks| ==>
      && r[i].column == ks[i].column && r[i].span == ks[i].span
      && r[i].intercept == ks[i].intercept + c
      && r[i].gradient == ks[i].gradient && r[i].layout == ks[i].layout
  {
    if |ks| == 0 then [] else [ks[0].(intercept := ks[0].intercept + c)] + PlusConst(ks[1..], c)
  }

  /** Adding a constant raises the cost function by that constant at every
      column. */
  lemma {:induction false} PlusConstRaisesCost(ks: KnotSet, c: int, col: int)
    requires |ks| > 0
    ensures CostAt(PlusConst(ks, c), col) == CostAt(ks, col) + c
    decreases |ks|
  {
    var r := PlusConst(ks, c);
    if |ks| > 1 && col >= ks[1].column {
      assert r[1..] == PlusConst(ks[1..], c);
      PlusConstRaisesCost(ks[1..], c, col);
    }
  }

  /** Two additions are one addition of the sum; adding zero changes
      nothing. */
  lemma PlusConstComposes(ks: KnotSet, a: int, b: int)
    ensures PlusConst(PlusConst(ks, a), b) == PlusConst(ks, a + b)
    ensures PlusConst(ks, 0) == ks
  {
    var twice, once, zero := PlusConst(PlusConst(ks, a), b), PlusConst(ks, a + b), PlusConst(ks, 0);
    forall i | 0 <= i < |ks|
      ensures twice[i] == once[i] && zero[i] == ks[i]
    {
    }
  }

  /** The optimizer's style parameters. */
  datatype Style = Style(columnLimit: int, overColumnLimitPenalty: int)

  /** The initial knot set of a leaf of length `span`: free until the line
      reaches the column limit, then the penalty per column; a line already
      at or over the limit starts with the cost of its overflow. */
  function LeafKnotSet(layout: Layout, span: int, style: Style): (ks: KnotSet)
    ensures span < style.columnLimit ==>
      ks == [Knot(0, span, 0, 0, layout),
             Knot(style.columnLimit - span, span, 0, style.overColumnLimitPenalty, layout)]
    ensures span < style.columnLimit ==> ks[0].column < ks[1].column
    ensures span >= style.columnLimit ==>
      ks == [Knot(0, span, (span - style.columnLimit) * style.overColumnLimitPenalty,
                  style.overColumnLimitPenalty, layout)]
    ensures span >= style.columnLimit ==> (ks[0].intercept == 0 <==>
      span == style.columnLimit || style.overColumnLimitPenalty == 0)
  {
    if span < style.columnLimit then
      [Knot(0, span, 0, 0, layout),
       Knot(style.columnLimit - span, span, 0, style.overColumnLimitPenalty, layout)]
    else
      [Knot(0, span, (span - style.columnLimit) * style.overColumnLimitPenalty,
            style.overColumnLimitPenalty, layout)]
  }

  function Max0(x: int): int { if x < 0 then 0 else x }

  /** The leaf knot set charges the penalty for every column the line runs
      past the limit when it starts at column `c`, and nothing otherwise. */
  lemma LeafCostIsOverflowPenalty(layout: Layout, span: int, style: Style, c: int)
    requires c >= 0
    ensures CostAt(LeafKnotSet(layout, span, style), c)
      == Max0(c + span - style.columnLimit) * style.overColumnLimitPenalty
  {
    var p := style.overColumnLimitPenalty;
    var ks := LeafKnotSet(layout, span, style);
    if span >= style.columnLimit {
      assert CostAt(ks, c) == (span - style.columnLimit) * p + c * p;
      assert (span - style.columnLimit) * p + c * p == (c + span - style.columnLimit) * p;
    } else if c >= style.columnLimit - span {
      assert CostAt(ks, c) == (c - (style.columnLimit - span)) * p;
    }
  }

  /** The traversal of OptimizeTokenPartitionTree: one leaf knot set per leaf
      partition, in order, each from the leaf's line layout and length. The
      source builds these sets and discards them. */
  function OptimizeTokenPartitionTree(t: Partition, tokens: seq<PreFormatToken>, style: Style)
    : (r: seq<KnotSet>)
    requires forall i :: 0 <= i < |Leaves(t)| ==> InBounds(Leaves(t)[i], tokens) && !Leaves(t)[i].IsEmpty()
    ensures |r| == |Leaves(t)|
    ensures forall i :: 0 <= i < |r| ==>
      var line := Leaves(t)[i];
      r[i] == LeafKnotSet(LayoutOfLine(line, tokens), LineLength(line, tokens), style)
  {
    LeafKnotSets(Leaves(t), tokens, style)
  }

  /** The Length of the layout of a non-empty line. */
  function LineLength(line: UnwrappedLine, tokens: seq<PreFormatToken>): int
    requires InBounds(line, tokens) && !line.IsEmpty()
  {
    var ts := LayoutOfLine(line, tokens).tokens;
    Width(ts) - ts[0].before.spacesRequired
  }

  function LeafKnotSets(ls: seq<UnwrappedLine>, tokens: seq<PreFormatToken>, style: Style): (r: seq<KnotSet>)
    requires forall i :: 0 <= i < |ls| ==> InBounds(ls[i], tokens) && !ls[i].IsEmpty()
    ensures |r| == |ls|
    ensures forall i :: 0 <= i < |r| ==>
      r[i] == LeafKnotSet(LayoutOfLine(ls[i], tokens), LineLength(ls[i], tokens), style)
  {
    seq(|ls|, i requires 0 <= i < |ls| =>
      LeafKnotSet(LayoutOfLine(ls[i], tokens), LineLength(ls[i], tokens), style))
  }

  /** Each leaf's cost set prices exactly the leaf's overflow past the
      column limit. */
  lemma LeafCostsPriceOverflow(t: Partition, tokens: seq<PreFormatToken>, style: Style, i: nat, c: int)
    requires forall i :: 0 <= i < |Leaves(t)| ==> InBounds(Leaves(t)[i], tokens) && !Leaves(t)[i].IsEmpty()
    requires i < |Leaves(t)| && c >= 0
    ensures var line := Leaves(t)[i];
      CostAt(OptimizeTokenPartitionTree(t, tokens, style)[i], c)
        == Max0(c + LineLength(line, tokens) - style.columnLimit) * style.overColumnLimitPenalty
  {
    var line := Leaves(t)[i];
    LeafCostIsOverflowPenalty(LayoutOfLine(line, tokens), LineLength(line, tokens), style, c);
  }
}

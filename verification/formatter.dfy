/** Expansion resolution, the formatting worklist, disabled byte ranges and
    the status flow of the Verilog formatter (verilog/formatting/formatter.cc).

    The analyzer, the tree unwrapper, the line-wrap search and the lexical
    equivalence check are not part of this model; their results are
    parameters. */
module Formatter {
  import opened Wrappers
  import opened VerilogTokens
  import opened UnwrappedLines
  import opened TokenPartitionTrees

  // ---------------------------------------------------------------------
  // Expansion

  /** DeterminePartitionExpansion: the expansion flag of a node, given
      whether some child is expanded and the flag it had before. Leaves are
      never expanded; an expanded child forces expansion; otherwise an
      always-expand node with several children expands (with one child it
      keeps its flag), and the two fitting policies expand exactly when the
      line does not fit. */
  function DeterminePartitionExpansion(t: Partition, someChildExpanded: bool, prior: bool, fits: FitOracle)
    : (expanded: bool)
    ensures IsLeaf(t) ==> !expanded
    ensures !IsLeaf(t) && someChildExpanded ==> expanded
    ensures !IsLeaf(t) && !someChildExpanded && t.line.policy == AlwaysExpand ==>
      expanded == (|t.children| > 1 || prior)
    ensures !IsLeaf(t) && !someChildExpanded && t.line.policy != AlwaysExpand ==>
      (expanded <==> !fits(t.line).fits)
  {
    if IsLeaf(t) then false
    else if someChildExpanded then true
    else match t.line.policy
      case AlwaysExpand => if |t.children| > 1 then true else prior
      case FitOnLineElseExpand => !fits(t.line).fits
      case AppendFittingSubPartitions => !fits(t.line).fits
  }

  /** The expansion flag after the post-order pass over a view whose nodes
      all start out expanded (formatter.cc:261-263). */
  function Expanded(t: Partition, fits: FitOracle): bool
    decreases t
  {
    DeterminePartitionExpansion(
      t, exists i :: 0 <= i < |t.children| && Expanded(t.children[i], fits), true, fits)
  }

  /** A node's own reason to expand: it is an inner node, and either it
      always expands or its line does not fit. */
  predicate DemandsExpansion(t: Partition, fits: FitOracle) {
    !IsLeaf(t) && (t.line.policy == AlwaysExpand || !fits(t.line).fits)
  }

  /** Some node of the subtree (the root included) demands expansion. */
  predicate SomeNodeDemands(t: Partition, fits: FitOracle)
    decreases t
  {
    DemandsExpansion(t, fits) || exists i :: 0 <= i < |t.children| && SomeNodeDemands(t.children[i], fits)
  }

  /** The post-order pass expands exactly the nodes with a demanding node
      somewhere in their subtree. */
  lemma {:induction false} ExpandedIffSomeNodeDemands(t: Partition, fits: FitOracle)
    ensures Expanded(t, fits) <==> SomeNodeDemands(t, fits)
    decreases t
  {
    forall i | 0 <= i < |t.children|
      ensures Expanded(t.children[i], fits) <==> SomeNodeDemands(t.children[i], fits)
    {
      ExpandedIffSomeNodeDemands(t.children[i], fits);
    }
    if |t.children| > 0 && (exists i :: 0 <= i < |t.children| && SomeNodeDemands(t.children[i], fits)) {
      var i :| 0 <= i < |t.children| && SomeNodeDemands(t.children[i], fits);
      assert Expanded(t.children[i], fits);
    }
  }

  /** The path of child indices leads from `t` to `d`. */
  predicate IsDescendant(t: Partition, path: seq<nat>, d: Partition)
    decreases |path|
  {
    if |path| == 0 then t == d
    else path[0] < |t.children| && IsDescendant(t.children[path[0]], path[1..], d)
  }

  /** An expanded node cannot sit inside a collapsed one: every ancestor of
      an expanded node is expanded. */
  lemma {:induction false} AncestorsOfExpandedAreExpanded(t: Partition, path: seq<nat>, d: Partition, fits: FitOracle)
    requires IsDescendant(t, path, d) && Expanded(d, fits)
    ensures Expanded(t, fits)
    decreases |path|
  {
    if |path| > 0 {
      AncestorsOfExpandedAreExpanded(t.children[path[0]], path[1..], d, fits);
    }
  }

  function ExpansionOf(fits: FitOracle): Partition -> bool {
    t => Expanded(t, fits)
  }

  /** The lines of the expanded view: unexpanded nodes stand for their whole
      range, expanded nodes are replaced by their children's views. */
  function ExpandedView(t: Partition, fits: FitOracle): seq<UnwrappedLine> {
    Cut(t, ExpansionOf(fits))
  }

  /** The view of a well-formed tree is a contiguous run of lines spanning
      the whole tree. */
  lemma ExpandedViewCoversRange(t: Partition, fits: FitOracle)
    requires WellFormed(t)
    ensures Covers(ExpandedView(t, fits), t.line.begin, t.line.end)
  {
    CutCovers(t, ExpansionOf(fits));
  }

  /** A collapsed root is one line of the view. */
  lemma CollapsedRootIsOneLine(t: Partition, fits: FitOracle)
    requires !Expanded(t, fits)
    ensures ExpandedView(t, fits) == [t.line]
  {
  }

  /** Drops the empty lines at the end. */
  function DropTrailingEmpty(ls: seq<UnwrappedLine>): (r: seq<UnwrappedLine>)
    ensures |r| <= |ls| && r == ls[..|r|]
    ensures |r| > 0 ==> !r[|r| - 1].IsEmpty()
    ensures forall i :: |r| <= i < |ls| ==> ls[i].IsEmpty()
  {
    if |ls| == 0 || !ls[|ls| - 1].IsEmpty() then ls
    else DropTrailingEmpty(ls[..|ls| - 1])
  }

  /** MakeUnwrappedLinesWorklist: the expanded view without trailing empty
      lines. */
  function MakeUnwrappedLinesWorklist(t: Partition, fits: FitOracle): (ls: seq<UnwrappedLine>)
    ensures |ls| <= |ExpandedView(t, fits)| && ls == ExpandedView(t, fits)[..|ls|]
    ensures |ls| > 0 ==> !ls[|ls| - 1].IsEmpty()
    ensures forall i :: |ls| <= i < |ExpandedView(t, fits)| ==> ExpandedView(t, fits)[i].IsEmpty()
  {
    DropTrailingEmpty(ExpandedView(t, fits))
  }

  /** Only empty lines are dropped, so the worklist of a well-formed,
      non-empty tree still spans every token of the tree. */
  lemma WorklistKeepsAllTokens(t: Partition, fits: FitOracle)
    requires WellFormed(t)
    requires t.line.begin < t.line.end
    ensures Covers(MakeUnwrappedLinesWorklist(t, fits), t.line.begin, t.line.end)
  {
    ExpandedViewCoversRange(t, fits);
    DropTrailingEmptyKeepsCover(ExpandedView(t, fits), t.line.begin, t.line.end);
  }

  lemma {:induction false} DropTrailingEmptyKeepsCover(ls: seq<UnwrappedLine>, b: nat, e: nat)
    requires Covers(ls, b, e) && b < e
    ensures Covers(DropTrailingEmpty(ls), b, e)
    decreases |ls|
  {
    var n := |ls|;
    if ls[n - 1].IsEmpty() {
      assert n >= 2;
      var init := ls[..n - 1];
      assert ls[n - 1].begin == ls[n - 2].end;
      DropTrailingEmptyKeepsCover(init, b, e);
    }
  }

  // ---------------------------------------------------------------------
  // Disabled byte ranges

  /** A half-open byte range [first, second). */
  datatype ByteRange = ByteRange(first: nat, second: nat)

  predicate InByteRange(t: PreFormatToken, r: ByteRange) {
    r.first <= t.left && t.Right() <= r.second
  }

  /** Tokens of one text, in order and non-overlapping. */
  predicate TokensOrdered(ts: seq<PreFormatToken>) {
    forall i, j :: 0 <= i < j < |ts| ==> ts[i].Right() <= ts[j].left
  }

  /** An interval set: valid intervals, in order, neither overlapping nor
      touching. */
  predicate RangesOrdered(rs: seq<ByteRange>) {
    && (forall j :: 0 <= j < |rs| ==> rs[j].first <= rs[j].second)
    && (forall i, j :: 0 <= i < j < |rs| ==> rs[i].second < rs[j].first)
  }

  /** std::lower_bound on token start offsets: the first index from `lo` on
      whose token starts at or after `pos`. */
  function LowerBound(ts: seq<PreFormatToken>, lo: nat, pos: nat): (i: nat)
    requires lo <= |ts|
    ensures lo <= i <= |ts|
    ensures forall k :: lo <= k < i ==> ts[k].left < pos
    ensures i < |ts| ==> ts[i].left >= pos
    decreases |ts| - lo
  {
    if lo == |ts| || ts[lo].left >= pos then lo else LowerBound(ts, lo + 1, pos)
  }

  /** std::upper_bound on token end offsets: the first index from `lo` on
      whose token ends after `pos`. */
  function UpperBound(ts: seq<PreFormatToken>, lo: nat, pos: nat): (i: nat)
    requires lo <= |ts|
    ensures lo <= i <= |ts|
    ensures forall k :: lo <= k < i ==> ts[k].Right() <= pos
    ensures i < |ts| ==> pos < ts[i].Right()
    decreases |ts| - lo
  {
    if lo == |ts| || pos < ts[lo].Right() then lo else UpperBound(ts, lo + 1, pos)
  }

  /** FindFormatTokensInByteOffsetRange: the binary searches of the source.
      From `lo` on, the returned index range holds exactly the tokens lying
      inside the byte range. */
  method FindFormatTokensInByteOffsetRange(ts: seq<PreFormatToken>, lo: nat, range: ByteRange)
    returns (b: nat, e: nat)
    requires lo <= |ts| && TokensOrdered(ts)
    ensures b == LowerBound(ts, lo, range.first) && e == UpperBound(ts, b, range.second)
    ensures lo <= b <= e <= |ts|
    ensures forall k :: lo <= k < |ts| ==> (b <= k < e <==> InByteRange(ts[k], range))
  {
    b := SearchLowerBound(ts, lo, range.first);
    e := SearchUpperBound(ts, b, range.second);
    SearchSelectsTokensInRange(ts, lo, range);
  }

  /** The binary search for the first token from `lo` on that starts at or
      after `pos`. */
  method SearchLowerBound(ts: seq<PreFormatToken>, lo: nat, pos: nat) returns (b: nat)
    requires lo <= |ts| && TokensOrdered(ts)
    ensures b == LowerBound(ts, lo, pos)
  {
    var l, h := lo, |ts|;
    while l < h
      invariant lo <= l <= h <= |ts|
      invariant forall k :: lo <= k < l ==> ts[k].left < pos
      invariant forall k :: h <= k < |ts| ==> ts[k].left >= pos
    {
      var mid := l + (h - l) / 2;
      if ts[mid].left < pos {
        l := mid + 1;
      } else {
        h := mid;
      }
    }
    b := l;
    LowerBoundUnique(ts, lo, pos, b);
  }

  /** The binary search for the first token from `lo` on that ends after
      `pos`. */
  method SearchUpperBound(ts: seq<PreFormatToken>, lo: nat, pos: nat) returns (e: nat)
    requires lo <= |ts| && TokensOrdered(ts)
    ensures e == UpperBound(ts, lo, pos)
  {
    var l, h := lo, |ts|;
    while l < h
      invariant lo <= l <= h <= |ts|
      invariant forall k :: lo <= k < l ==> ts[k].Right() <= pos
      invariant forall k :: h <= k < |ts| ==> pos < ts[k].Right()
    {
      var mid := l + (h - l) / 2;
      if pos < ts[mid].Right() {
        h := mid;
      } else {
        l := mid + 1;
      }
    }
    e := l;
    UpperBoundUnique(ts, lo, pos, e);
  }

  lemma LowerBoundUnique(ts: seq<PreFormatToken>, lo: nat, pos: nat, i: nat)
    requires lo <= i <= |ts|
    requires forall k :: lo <= k < i ==> ts[k].left < pos
    requires i < |ts| ==> ts[i].left >= pos
    ensures i == LowerBound(ts, lo, pos)
  {
  }

  lemma UpperBoundUnique(ts: seq<PreFormatToken>, lo: nat, pos: nat, i: nat)
    requires lo <= i <= |ts|
    requires forall k :: lo <= k < i ==> ts[k].Right() <= pos
    requires i < |ts| ==> pos < ts[i].Right()
    ensures i == UpperBound(ts, lo, pos)
  {
  }

  /** The functional reading of the two searches. */
  lemma SearchSelectsTokensInRange(ts: seq<PreFormatToken>, lo: nat, range: ByteRange)
    requires lo <= |ts| && TokensOrdered(ts)
    ensures var b := LowerBound(ts, lo, range.first);
      var e := UpperBound(ts, b, range.second);
      forall k :: lo <= k < |ts| ==> (b <= k < e <==> InByteRange(ts[k], range))
  {
    var b := LowerBound(ts, lo, range.first);
    var e := UpperBound(ts, b, range.second);
    forall k | lo <= k < |ts|
      ensures b <= k < e <==> InByteRange(ts[k], range)
    {
      if k >= e && e < |ts| {
        assert ts[e].Right() <= ts[k].Right() by {
          if k > e {
            assert ts[e].Right() <= ts[k].left;
          }
        }
      }
      if b <= k < e && k > b {
        assert ts[b].Right() <= ts[k].left;
      }
    }
  }

  /** Same tokens; only spacing decisions may differ. */
  predicate SameTokens(a: seq<PreFormatToken>, b: seq<PreFormatToken>) {
    && |a| == |b|
    && forall k :: 0 <= k < |a| ==>
         && a[k].tokenEnum == b[k].tokenEnum && a[k].text == b[k].text && a[k].left == b[k].left
         && a[k].before.spacesRequired == b[k].before.spacesRequired
  }

  function WithBreakDecision(t: PreFormatToken, d: SpacingOptions): PreFormatToken {
    t.(before := t.before.(breakDecision := d))
  }

  /** Marks tokens [b, e) as preserving their original spacing. */
  function MarkPreserve(ts: seq<PreFormatToken>, b: nat, e: nat): (r: seq<PreFormatToken>)
    requires b <= e <= |ts|
    ensures |r| == |ts|
    ensures forall k :: 0 <= k < |ts| ==> r[k] == (if b <= k < e then WithBreakDecision(ts[k], Preserve) else ts[k])
    decreases e - b
  {
    if b == e then ts else MarkPreserve(ts[b := WithBreakDecision(ts[b], Preserve)], b + 1, e)
  }

  /** Token `k` is disabled by one of the ranges. */
  predicate Disabled(ts: seq<PreFormatToken>, ranges: seq<ByteRange>, k: nat)
    requires k < |ts|
  {
    exists j :: 0 <= j < |ranges| && InByteRange(ts[k], ranges[j])
  }

  /** Token `k` starts the run of a range right after an end-of-line
      comment, and so gets its preserved space moved past the comment's
      newline. */
  predicate BumpedAfterEolComment(ts: seq<PreFormatToken>, ranges: seq<ByteRange>, k: nat)
    requires k < |ts|
  {
    && k > 0
    && ts[k - 1].tokenEnum == Named(TK_EOL_COMMENT)
    && exists j :: 0 <= j < |ranges| && InByteRange(ts[k], ranges[j]) && !InByteRange(ts[k - 1], ranges[j])
  }

  function Bumped(t: PreFormatToken): PreFormatToken {
    t.(before := t.before.(preservedSpaceStart := t.before.preservedSpaceStart + 1))
  }

  /** One iteration of the loop of PreserveSpacesOnDisabledTokenRanges:
      search from `saved` for the range's tokens, mark them, and advance the
      first one's preserved space when it follows an end-of-line comment.
      Also returns where the range's tokens end. */
  function PreserveRange(ts: seq<PreFormatToken>, range: ByteRange, saved: nat): (p: (seq<PreFormatToken>, nat))
    requires saved <= |ts| && TokensOrdered(ts) && range.first <= range.second
    requires forall k :: 0 <= k < saved ==> ts[k].left < range.first
    ensures saved <= p.1 <= |ts|
    ensures SameTokens(p.0, ts)
    ensures forall k :: 0 <= k < |ts| ==>
      p.0[k].before.breakDecision
        == (if InByteRange(ts[k], range) then Preserve else ts[k].before.breakDecision)
    ensures forall k :: 0 <= k < |ts| ==>
      p.0[k].before.preservedSpaceStart
        == ts[k].before.preservedSpaceStart + (if BumpedBy(ts, range, k) then 1 else 0)
    ensures forall k :: 0 <= k < p.1 ==> ts[k].left <= range.second
  {
    var b := LowerBound(ts, saved, range.first);
    var e := UpperBound(ts, b, range.second);
    SearchSelectsTokensInRange(ts, saved, range);
    SavedTokensOutsideRange(ts, range, saved, b, e);
    var marked := MarkPreserve(ts, b, e);
    var adjusted :=
      if b != 0 && b != e && ts[b - 1].tokenEnum == Named(TK_EOL_COMMENT) then marked[b := Bumped(marked[b])]
      else marked;
    AdjustFacts(ts, range, b, e, adjusted);
    assert forall k :: 0 <= k < e ==> ts[k].left <= range.second by {
      forall k | 0 <= k < e
        ensures ts[k].left <= range.second
      {
        if k >= b {
          assert ts[k].Right() <= range.second;
        }
      }
    }
    (adjusted, e)
  }

  /** The loop of PreserveSpacesOnDisabledTokenRanges from the range at hand
      on; `saved` is where the previous range's tokens ended. */
  function PreserveFrom(ts: seq<PreFormatToken>, ranges: seq<ByteRange>, saved: nat): (r: seq<PreFormatToken>)
    requires saved <= |ts| && TokensOrdered(ts) && RangesOrdered(ranges)
    requires |ranges| > 0 ==> forall k :: 0 <= k < saved ==> ts[k].left < ranges[0].first
    ensures SameTokens(r, ts)
    ensures forall k :: 0 <= k < |ts| ==>
      r[k].before.breakDecision == (if Disabled(ts, ranges, k) then Preserve else ts[k].before.breakDecision)
    ensures forall k :: 0 <= k < |ts| ==>
      r[k].before.preservedSpaceStart
        == ts[k].before.preservedSpaceStart + (if BumpedAfterEolComment(ts, ranges, k) then 1 else 0)
    decreases |ranges|
  {
    if |ranges| == 0 then ts
    else
      var p := PreserveRange(ts, ranges[0], saved);
      NextSavedBound(ts, p.0, ranges, p.1);
      SameTokensOrdered(p.0, ts);
      var r := PreserveFrom(p.0, ranges[1..], p.1);
      PreserveCombine(ts, ranges, p.0, r);
      r
  }

  lemma SavedTokensOutsideRange(ts: seq<PreFormatToken>, range: ByteRange, saved: nat, b: nat, e: nat)
    requires saved <= b <= e <= |ts|
    requires forall k :: 0 <= k < saved ==> ts[k].left < range.first
    requires forall k :: saved <= k < |ts| ==> (b <= k < e <==> InByteRange(ts[k], range))
    ensures forall k :: 0 <= k < |ts| ==> (b <= k < e <==> InByteRange(ts[k], range))
  {
  }

  lemma SameTokensOrdered(a: seq<PreFormatToken>, ts: seq<PreFormatToken>)
    requires SameTokens(a, ts) && TokensOrdered(ts)
    ensures TokensOrdered(a)
  {
    forall i, j | 0 <= i < j < |a|
      ensures a[i].Right() <= a[j].left
    {
      assert ts[i].Right() <= ts[j].left;
    }
  }

  /** Marking [b, e) and bumping b where due, when [b, e) are exactly the
      tokens inside the range. */
  lemma AdjustFacts(ts: seq<PreFormatToken>, range: ByteRange, b: nat, e: nat, adjusted: seq<PreFormatToken>)
    requires b <= e <= |ts| && TokensOrdered(ts)
    requires forall k :: 0 <= k < |ts| ==> (b <= k < e <==> InByteRange(ts[k], range))
    requires var marked := MarkPreserve(ts, b, e);
      adjusted == if b != 0 && b != e && ts[b - 1].tokenEnum == Named(TK_EOL_COMMENT) then marked[b := Bumped(marked[b])]
        else marked
    ensures SameTokens(adjusted, ts)
    ensures forall k :: 0 <= k < |ts| ==>
      adjusted[k].before.breakDecision
        == (if InByteRange(ts[k], range) then Preserve else ts[k].before.breakDecision)
    ensures forall k :: 0 <= k < |ts| ==>
      adjusted[k].before.preservedSpaceStart
        == ts[k].before.preservedSpaceStart + (if BumpedBy(ts, range, k) then 1 else 0)
  {
    forall k | 0 <= k < |ts|
      ensures adjusted[k].before.preservedSpaceStart
        == ts[k].before.preservedSpaceStart + (if BumpedBy(ts, range, k) then 1 else 0)
    {
      if BumpedBy(ts, range, k) {
        assert k == b;
      }
    }
  }

  /** Token `k` is the first of the range's run and follows an end-of-line
      comment. */
  predicate BumpedBy(ts: seq<PreFormatToken>, range: ByteRange, k: nat)
    requires k < |ts|
  {
    && k > 0
    && ts[k - 1].tokenEnum == Named(TK_EOL_COMMENT)
    && InByteRange(ts[k], range) && !InByteRange(ts[k - 1], range)
  }

  /** Every token before the new search bound starts before the next range. */
  lemma NextSavedBound(ts: seq<PreFormatToken>, adjusted: seq<PreFormatToken>, ranges: seq<ByteRange>, e: nat)
    requires RangesOrdered(ranges) && |ranges| > 0
    requires SameTokens(adjusted, ts) && e <= |ts|
    requires forall k :: 0 <= k < e ==> ts[k].left <= ranges[0].second
    ensures RangesOrdered(ranges[1..])
    ensures |ranges| > 1 ==> forall k :: 0 <= k < e ==> adjusted[k].left < ranges[1].first
  {
    if |ranges| > 1 {
      assert ranges[0].second < ranges[1].first;
    }
  }

  /** The first range's effect combined with the rest's gives the effect of
      all ranges; a token lies in at most one range. */
  lemma PreserveCombine(ts: seq<PreFormatToken>, ranges: seq<ByteRange>, adjusted: seq<PreFormatToken>, r: seq<PreFormatToken>)
    requires RangesOrdered(ranges) && |ranges| > 0
    requires SameTokens(adjusted, ts)
    requires forall k :: 0 <= k < |ts| ==>
      adjusted[k].before.breakDecision
        == (if InByteRange(ts[k], ranges[0]) then Preserve else ts[k].before.breakDecision)
    requires forall k :: 0 <= k < |ts| ==>
      adjusted[k].before.preservedSpaceStart
        == ts[k].before.preservedSpaceStart + (if BumpedBy(ts, ranges[0], k) then 1 else 0)
    requires SameTokens(r, adjusted)
    requires forall k :: 0 <= k < |adjusted| ==>
      r[k].before.breakDecision
        == (if Disabled(adjusted, ranges[1..], k) then Preserve else adjusted[k].before.breakDecision)
    requires forall k :: 0 <= k < |adjusted| ==>
      r[k].before.preservedSpaceStart
        == adjusted[k].before.preservedSpaceStart + (if BumpedAfterEolComment(adjusted, ranges[1..], k) then 1 else 0)
    ensures SameTokens(r, ts)
    ensures forall k :: 0 <= k < |ts| ==>
      r[k].before.breakDecision == (if Disabled(ts, ranges, k) then Preserve else ts[k].before.breakDecision)
    ensures forall k :: 0 <= k < |ts| ==>
      r[k].before.preservedSpaceStart
        == ts[k].before.preservedSpaceStart + (if BumpedAfterEolComment(ts, ranges, k) then 1 else 0)
  {
    forall k | 0 <= k < |ts|
      ensures r[k].before.breakDecision == (if Disabled(ts, ranges, k) then Preserve else ts[k].before.breakDecision)
    {
      DisabledSplit(ts, adjusted, ranges, k);
    }
    forall k | 0 <= k < |ts|
      ensures r[k].before.preservedSpaceStart
        == ts[k].before.preservedSpaceStart + (if BumpedAfterEolComment(ts, ranges, k) then 1 else 0)
    {
      BumpedSplit(ts, adjusted, ranges, k);
    }
  }

  lemma DisabledSplit(ts: seq<PreFormatToken>, adjusted: seq<PreFormatToken>, ranges: seq<ByteRange>, k: nat)
    requires SameTokens(adjusted, ts) && |ranges| > 0 && k < |ts|
    ensures Disabled(ts, ranges, k) <==> InByteRange(ts[k], ranges[0]) || Disabled(adjusted, ranges[1..], k)
  {
    if Disabled(ts, ranges, k) && !InByteRange(ts[k], ranges[0]) {
      var j :| 0 <= j < |ranges| && InByteRange(ts[k], ranges[j]);
      assert ranges[1..][j - 1] == ranges[j];
    }
    if Disabled(adjusted, ranges[1..], k) {
      var j :| 0 <= j < |ranges| - 1 && InByteRange(adjusted[k], ranges[1..][j]);
      assert InByteRange(ts[k], ranges[j + 1]);
    }
  }

  lemma BumpedSplit(ts: seq<PreFormatToken>, adjusted: seq<PreFormatToken>, ranges: seq<ByteRange>, k: nat)
    requires SameTokens(adjusted, ts) && RangesOrdered(ranges) && |ranges| > 0 && k < |ts|
    ensures BumpedAfterEolComment(ts, ranges, k) <==> BumpedBy(ts, ranges[0], k) || BumpedAfterEolComment(adjusted, ranges[1..], k)
    ensures !(BumpedBy(ts, ranges[0], k) && BumpedAfterEolComment(adjusted, ranges[1..], k))
  {
    if BumpedAfterEolComment(ts, ranges, k) && !BumpedBy(ts, ranges[0], k) {
      var j :| 0 <= j < |ranges| && InByteRange(ts[k], ranges[j]) && !InByteRange(ts[k - 1], ranges[j]);
      assert ranges[1..][j - 1] == ranges[j];
    }
    if BumpedAfterEolComment(adjusted, ranges[1..], k) {
      var j :| 0 <= j < |ranges| - 1 && InByteRange(adjusted[k], ranges[1..][j]) && !InByteRange(adjusted[k - 1], ranges[1..][j]);
      assert InByteRange(ts[k], ranges[j + 1]) && !InByteRange(ts[k - 1], ranges[j + 1]);
      assert ranges[0].second < ranges[j + 1].first;
    }
  }

  /** PreserveSpacesOnDisabledTokenRanges: exactly the tokens inside some
      disabled range get the Preserve decision, the others keep theirs; a
      token starting a range's run right after an end-of-line comment has
      its preserved-space start advanced by one; nothing else changes. */
  function PreserveSpacesOnDisabledTokenRanges(ts: seq<PreFormatToken>, ranges: seq<ByteRange>)
    : (r: seq<PreFormatToken>)
    requires TokensOrdered(ts) && RangesOrdered(ranges)
    ensures SameTokens(r, ts)
    ensures forall k :: 0 <= k < |ts| ==>
      r[k].before.breakDecision == (if Disabled(ts, ranges, k) then Preserve else ts[k].before.breakDecision)
    ensures forall k :: 0 <= k < |ts| ==>
      r[k].before.preservedSpaceStart
        == ts[k].before.preservedSpaceStart + (if BumpedAfterEolComment(ts, ranges, k) then 1 else 0)
  {
    PreserveFrom(ts, ranges, 0)
  }

  /** Applying the marking a second time leaves every break decision as the
      first application left it. */
  lemma PreserveTwiceKeepsDecisions(ts: seq<PreFormatToken>, ranges: seq<ByteRange>)
    requires TokensOrdered(ts) && RangesOrdered(ranges)
    ensures var once := PreserveSpacesOnDisabledTokenRanges(ts, ranges);
      TokensOrdered(once)
      && var twice := PreserveSpacesOnDisabledTokenRanges(once, ranges);
      forall k :: 0 <= k < |ts| ==> twice[k].before.breakDecision == once[k].before.breakDecision
  {
    var once := PreserveSpacesOnDisabledTokenRanges(ts, ranges);
    SameTokensOrdered(once, ts);
    var twice := PreserveSpacesOnDisabledTokenRanges(once, ranges);
    forall k | 0 <= k < |ts|
      ensures twice[k].before.breakDecision == once[k].before.breakDecision
    {
      DisabledSameTokens(ts, once, ranges, k);
    }
  }

  /** ... but the preserved-space start of a bumped token is advanced again:
      the adjustment is not idempotent. */
  lemma PreserveTwiceBumpsTwice(ts: seq<PreFormatToken>, ranges: seq<ByteRange>, k: nat)
    requires TokensOrdered(ts) && RangesOrdered(ranges) && k < |ts|
    requires BumpedAfterEolComment(ts, ranges, k)
    ensures var once := PreserveSpacesOnDisabledTokenRanges(ts, ranges);
      TokensOrdered(once)
      && PreserveSpacesOnDisabledTokenRanges(once, ranges)[k].before.preservedSpaceStart
        == ts[k].before.preservedSpaceStart + 2
  {
    var once := PreserveSpacesOnDisabledTokenRanges(ts, ranges);
    SameTokensOrdered(once, ts);
    BumpedSameTokens(ts, once, ranges, k);
  }

  lemma DisabledSameTokens(a: seq<PreFormatToken>, b: seq<PreFormatToken>, ranges: seq<ByteRange>, k: nat)
    requires SameTokens(b, a) && k < |a|
    ensures Disabled(a, ranges, k) <==> Disabled(b, ranges, k)
  {
    assert a[k].Right() == b[k].Right();
  }

  lemma BumpedSameTokens(a: seq<PreFormatToken>, b: seq<PreFormatToken>, ranges: seq<ByteRange>, k: nat)
    requires SameTokens(b, a) && k < |a|
    ensures BumpedAfterEolComment(a, ranges, k) <==> BumpedAfterEolComment(b, ranges, k)
  {
    if k > 0 {
      assert a[k].Right() == b[k].Right() && a[k - 1].Right() == b[k - 1].Right();
    }
  }

  /** A disabled range right after an end-of-line comment: the token after
      "// c" is marked and its preserved space advanced. */
  lemma EolCommentExample()
    ensures var ts := [
        PreFormatToken(Named(TK_EOL_COMMENT), "// c", 0, InterTokenInfo(0, Undecided, 0)),
        PreFormatToken(Named(OtherNamed(0)), "x", 5, InterTokenInfo(1, Undecided, 4))];
      var r := PreserveSpacesOnDisabledTokenRanges(ts, [ByteRange(5, 6)]);
      && r[0].before == ts[0].before
      && r[1].before.breakDecision == Preserve
      && r[1].before.preservedSpaceStart == 5
  {
    var ts := [
        PreFormatToken(Named(TK_EOL_COMMENT), "// c", 0, InterTokenInfo(0, Undecided, 0)),
        PreFormatToken(Named(OtherNamed(0)), "x", 5, InterTokenInfo(1, Undecided, 4))];
    var rs := [ByteRange(5, 6)];
    assert !InByteRange(ts[0], rs[0]) && InByteRange(ts[1], rs[0]);
    assert !Disabled(ts, rs, 0) && Disabled(ts, rs, 1);
    assert BumpedAfterEolComment(ts, rs, 1);
  }

  /** ByteOffsetRange: the byte interval of a non-empty substring that
      starts `offset` bytes into the full text, its first byte left out so
      that the space before the substring can still be formatted. */
  function ByteOffsetRange(offset: nat, length: nat, fullLength: nat): (r: ByteRange)
    requires 0 < length && offset + length <= fullLength
    ensures r.first == offset + 1 && r.second == offset + length
    ensures r.first <= r.second <= fullLength
  {
    ByteRange(offset + 1, offset + length)
  }

  /** Of the tokens inside the substring, all but one starting at its very
      first byte fall inside the disabled range. */
  lemma ByteOffsetRangeSparesFirstToken(offset: nat, length: nat, fullLength: nat, t: PreFormatToken)
    requires 0 < length && offset + length <= fullLength
    requires offset <= t.left && t.Right() <= offset + length
    ensures InByteRange(t, ByteOffsetRange(offset, length, fullLength)) <==> t.left != offset
  {
  }

  // ---------------------------------------------------------------------
  // Status flow

  datatype StatusCode = StatusOk | InvalidArgument | ResourceExhausted | Cancelled | DataLoss

  datatype Status = Status(code: StatusCode, message: string)
  {
    predicate IsOk() { code == StatusOk }
  }

  const OkStatus: Status := Status(StatusOk, "")

  /** The messages of the statuses the formatting run can end with. */
  const IncompleteSearchMessage := "*** Some token partitions failed to complete within the search limit:"
  const ReanalysisFailureMessage := "Error lex/parsing-ing formatted output.  Please file a bug.\nFirst error: "
  const NotEquivalentMessage := "Formatted output is lexically different from the input.    Please file a bug.  Details:\n"
  const HaltingMessage := "Halting for diagnostic operation."

  /** Formatter::Format: a diagnostic stop returns success before any line
      is searched; otherwise the result is resource exhaustion exactly when
      the line-wrap search of some worklist line did not complete. */
  function FormatStatus(anyStop: bool, completed: seq<bool>): (s: Status)
    ensures s.code in {StatusOk, ResourceExhausted}
    ensures s.code == ResourceExhausted <==> !anyStop && exists i :: 0 <= i < |completed| && !completed[i]
  {
    if anyStop then OkStatus
    else if forall i :: 0 <= i < |completed| ==> completed[i] then OkStatus
    else Status(ResourceExhausted, IncompleteSearchMessage)
  }

  /** What re-analysing the formatted output reports. */
  datatype Reanalysis = Reanalysis(lexOk: bool, parseOk: bool, tokenErrors: seq<string>)

  /** VerifyFormatting: a re-lex or re-parse failure is data loss reported
      with the first error message only when some message exists; otherwise
      the outcome rests on the lexical equivalence of input and output. */
  function VerifyFormatting(re: Reanalysis, equivalent: bool): (s: Status)
    ensures s.code in {StatusOk, DataLoss}
    ensures s.IsOk() <==> ((re.lexOk && re.parseOk) || |re.tokenErrors| == 0) && equivalent
  {
    if (!re.lexOk || !re.parseOk) && |re.tokenErrors| > 0 then
      Status(DataLoss, ReanalysisFailureMessage + re.tokenErrors[0])
    else if !equivalent then
      Status(DataLoss, NotEquivalentMessage)
    else OkStatus
  }

  /** A failed re-analysis without any message does not by itself fail the
      verification. */
  lemma SilentReparseFailurePasses(equivalent: bool)
    ensures VerifyFormatting(Reanalysis(true, false, []), equivalent).IsOk() == equivalent
    ensures !VerifyFormatting(Reanalysis(true, false, ["e"]), equivalent).IsOk()
  {
  }

  /** What analysing the input reports. */
  datatype Analysis = Analysis(lexOk: bool, parseOk: bool, syntaxErrors: seq<string>)

  function LinesOf(ms: seq<string>): string {
    if |ms| == 0 then "" else ms[0] + "\n" + LinesOf(ms[1..])
  }

  /** FormatVerilog: the status returned and the text committed to the
      output stream (None when nothing is written). `format` is the status of
      Formatter::Format, `formatted` the emitted text. */
  function FormatVerilog(analysis: Analysis, format: Status, anyStop: bool, formatted: string,
                         re: Reanalysis, equivalent: bool): (r: (Status, Option<string>))
    ensures !(analysis.lexOk && analysis.parseOk) ==>
      r == (Status(InvalidArgument, LinesOf(analysis.syntaxErrors)), None)
    ensures r.1.Some? ==> r.1.value == formatted && r.0 == format
    ensures r.1.Some? <==>
      && analysis.lexOk && analysis.parseOk
      && format.code in {StatusOk, ResourceExhausted}
      && !anyStop
      && VerifyFormatting(re, equivalent).IsOk()
  {
    if !analysis.lexOk || !analysis.parseOk then (Status(InvalidArgument, LinesOf(analysis.syntaxErrors)), None)
    else if !format.IsOk() && format.code != ResourceExhausted then (format, None)
    else if anyStop then (Status(Cancelled, HaltingMessage), None)
    else
      var verify := VerifyFormatting(re, equivalent);
      if !verify.IsOk() then (verify, None)
      else (format, Some(formatted))
  }

  /** The status codes of the formatting run that stop before verification,
      each with its cause. */
  lemma FormatVerilogEarlyExits(analysis: Analysis, anyStop: bool, completed: seq<bool>, formatted: string,
                                re: Reanalysis, equivalent: bool)
    ensures var r := FormatVerilog(analysis, FormatStatus(anyStop, completed), anyStop, formatted, re, equivalent);
      var parsed := analysis.lexOk && analysis.parseOk;
      && (r.0.code == InvalidArgument <==> !parsed)
      && (r.0.code == Cancelled <==> parsed && anyStop)
  {
  }

  /** Verification failure is data loss, and nothing is written. */
  lemma FormatVerilogDataLoss(analysis: Analysis, anyStop: bool, completed: seq<bool>, formatted: string,
                              re: Reanalysis, equivalent: bool)
    ensures var r := FormatVerilog(analysis, FormatStatus(anyStop, completed), anyStop, formatted, re, equivalent);
      var parsed := analysis.lexOk && analysis.parseOk;
      && (r.0.code == DataLoss <==> parsed && !anyStop && !VerifyFormatting(re, equivalent).IsOk())
      && (r.0.code == DataLoss ==> r.1 == None)
  {
    var format := FormatStatus(anyStop, completed);
    var verify := VerifyFormatting(re, equivalent);
    var r := FormatVerilog(analysis, format, anyStop, formatted, re, equivalent);
    if !analysis.lexOk || !analysis.parseOk {
    } else if anyStop {
      assert r.0.code == Cancelled;
    } else if !verify.IsOk() {
      assert r == (verify, None);
    } else {
      assert r == (format, Some(formatted));
    }
  }

  /** An incomplete line search still commits the verified output, with
      resource exhaustion as the status. */
  lemma FormatVerilogResourceExhausted(analysis: Analysis, anyStop: bool, completed: seq<bool>, formatted: string,
                                       re: Reanalysis, equivalent: bool)
    ensures var r := FormatVerilog(analysis, FormatStatus(anyStop, completed), anyStop, formatted, re, equivalent);
      var committed := analysis.lexOk && analysis.parseOk && !anyStop && VerifyFormatting(re, equivalent).IsOk();
      && (r.0.code == ResourceExhausted <==> committed && exists i :: 0 <= i < |completed| && !completed[i])
      && (r.0.code == ResourceExhausted ==> r.1 == Some(formatted))
  {
    var format := FormatStatus(anyStop, completed);
    var verify := VerifyFormatting(re, equivalent);
    var r := FormatVerilog(analysis, format, anyStop, formatted, re, equivalent);
    if !analysis.lexOk || !analysis.parseOk {
    } else if anyStop {
      assert r.0.code == Cancelled;
    } else if !verify.IsOk() {
      assert r.0 == verify;
    } else {
      assert r == (format, Some(formatted));
    }
  }

  /** A run ends with success exactly when it commits and every line search
      completed. */
  lemma FormatVerilogOk(analysis: Analysis, anyStop: bool, completed: seq<bool>, formatted: string,
                        re: Reanalysis, equivalent: bool)
    ensures var r := FormatVerilog(analysis, FormatStatus(anyStop, completed), anyStop, formatted, re, equivalent);
      var committed := analysis.lexOk && analysis.parseOk && !anyStop && VerifyFormatting(re, equivalent).IsOk();
      r.0.IsOk() <==> committed && forall i :: 0 <= i < |completed| ==> completed[i]
  {
    var format := FormatStatus(anyStop, completed);
    var verify := VerifyFormatting(re, equivalent);
    var r := FormatVerilog(analysis, format, anyStop, formatted, re, equivalent);
    if !analysis.lexOk || !analysis.parseOk {
    } else if anyStop {
      assert r.0.code == Cancelled;
    } else if !verify.IsOk() {
      assert r.0 == verify;
    } else {
      assert r == (format, Some(formatted));
    }
  }
}

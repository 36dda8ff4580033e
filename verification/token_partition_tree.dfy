/** Token partition trees (common/formatting/token_partition_tree.cc).

    Every node holds an unwrapped line whose token range is [begin, end); the
    children of a node partition the node's range into contiguous pieces. */
module TokenPartitionTrees {
  import opened Wrappers
  import opened UnwrappedLines

  datatype Partition = Partition(line: UnwrappedLine, children: seq<Partition>)

  predicate IsLeaf(t: Partition) {
    |t.children| == 0
  }

  /** Consecutive lines meet: each begins where the previous one ends. */
  predicate Contiguous(lines: seq<UnwrappedLine>) {
    forall i :: 0 < i < |lines| ==> lines[i].begin == lines[i - 1].end
  }

  /** `lines` is non-empty, contiguous, and spans exactly [b, e). */
  predicate Covers(lines: seq<UnwrappedLine>, b: nat, e: nat) {
    && |lines| > 0
    && lines[0].begin == b
    && lines[|lines| - 1].end == e
    && Contiguous(lines)
  }

  function Lines(ts: seq<Partition>): (ls: seq<UnwrappedLine>)
    ensures |ls| == |ts| && forall i :: 0 <= i < |ts| ==> ls[i] == ts[i].line
  {
    if |ts| == 0 then [] else Lines(ts[..|ts| - 1]) + [ts[|ts| - 1].line]
  }

  /** The hierarchy invariant of one node: a non-leaf node's children span
      exactly the node's range, without gaps between siblings. */
  predicate NodeCovers(t: Partition) {
    |t.children| > 0 ==> Covers(Lines(t.children), t.line.begin, t.line.end)
  }

  /** The hierarchy invariant of every node of a tree. */
  predicate WellFormed(t: Partition)
    decreases t
  {
    NodeCovers(t) && forall i :: 0 <= i < |t.children| ==> WellFormed(t.children[i])
  }

  /** Which check of VerifyTreeNodeFormatTokenRanges fails. */
  datatype RangeCheckFailure =
    | ParentBeginMismatch
    | ParentEndMismatch
    | SiblingDiscontinuity(index: nat)

  /** VerifyTreeNodeFormatTokenRanges: the first child must begin where the
      parent begins, the last child must end where the parent ends, and each
      child must begin where its predecessor ends; checked in that order. */
  method VerifyTreeNodeFormatTokenRanges(t: Partition) returns (r: Outcome<RangeCheckFailure>)
    ensures r.Pass? <==> NodeCovers(t)
    ensures r == Fail(ParentBeginMismatch) <==>
      |t.children| > 0 && t.children[0].line.begin != t.line.begin
    ensures r == Fail(ParentEndMismatch) <==>
      |t.children| > 0 && t.children[0].line.begin == t.line.begin
      && t.children[|t.children| - 1].line.end != t.line.end
    ensures r.Fail? && r.error.SiblingDiscontinuity? ==>
      && 0 < r.error.index < |t.children|
      && t.children[r.error.index].line.begin != t.children[r.error.index - 1].line.end
      && forall j :: 0 < j < r.error.index ==> t.children[j].line.begin == t.children[j - 1].line.end
  {
    var children := t.children;
    if |children| == 0 {
      return Pass;
    }
    if t.line.begin != children[0].line.begin {
      return Fail(ParentBeginMismatch);
    }
    if t.line.end != children[|children| - 1].line.end {
      return Fail(ParentEndMismatch);
    }
    var previousEnd := children[0].line.end;
    var i := 1;
    while i < |children|
      invariant 1 <= i <= |children|
      invariant previousEnd == children[i - 1].line.end
      invariant forall j :: 0 < j < i ==> children[j].line.begin == children[j - 1].line.end
    {
      if children[i].line.begin != previousEnd {
        return Fail(SiblingDiscontinuity(i));
      }
      previousEnd := children[i].line.end;
      i := i + 1;
    }
    return Pass;
  }

  /** VerifyFullTreeFormatTokenRanges: the node check applied to every node
      in pre-order, stopping at the first failure. */
  method VerifyFullTreeFormatTokenRanges(t: Partition) returns (r: Outcome<RangeCheckFailure>)
    ensures r.Pass? <==> WellFormed(t)
    decreases t
  {
    r := VerifyTreeNodeFormatTokenRanges(t);
    if r.Fail? {
      return;
    }
    var i := 0;
    while i < |t.children|
      invariant 0 <= i <= |t.children|
      invariant forall j :: 0 <= j < i ==> WellFormed(t.children[j])
    {
      r := VerifyFullTreeFormatTokenRanges(t.children[i]);
      if r.Fail? {
        return;
      }
      i := i + 1;
    }
    r := Pass;
  }

  // ---------------------------------------------------------------------
  // Frontiers: the lines seen when descending into some nodes.

  /** The lines reached from `t` by descending into every non-leaf node that
      `expand` selects, left to right. */
  function Cut(t: Partition, expand: Partition -> bool): (ls: seq<UnwrappedLine>)
    decreases t, 1
  {
    if |t.children| > 0 && expand(t) then CutAll(t.children, expand) else [t.line]
  }

  function CutAll(ts: seq<Partition>, expand: Partition -> bool): (ls: seq<UnwrappedLine>)
    decreases ts, 0
  {
    if |ts| == 0 then [] else CutAll(ts[..|ts| - 1], expand) + Cut(ts[|ts| - 1], expand)
  }

  function ExpandAll(t: Partition): bool { true }

  /** The leaf partitions of `t`, in pre-order. */
  function Leaves(t: Partition): seq<UnwrappedLine> {
    Cut(t, ExpandAll)
  }

  lemma {:induction false} CutAllAppend(a: seq<Partition>, b: seq<Partition>, expand: Partition -> bool)
    ensures CutAll(a + b, expand) == CutAll(a, expand) + CutAll(b, expand)
    decreases |b|
  {
    if |b| == 0 {
      assert a + b == a;
    } else {
      var ab := a + b;
      assert ab[..|ab| - 1] == a + b[..|b| - 1];
      assert ab[|ab| - 1] == b[|b| - 1];
      CutAllAppend(a, b[..|b| - 1], expand);
    }
  }

  lemma CutAllSingle(t: Partition, expand: Partition -> bool)
    ensures CutAll([t], expand) == Cut(t, expand)
  {
    assert [t][..0] == [];
  }

  lemma {:induction false} CutNonEmpty(t: Partition, expand: Partition -> bool)
    ensures |Cut(t, expand)| >= 1
    decreases t, 1
  {
    if |t.children| > 0 && expand(t) {
      CutAllNonEmpty(t.children, expand);
    }
  }

  lemma {:induction false} CutAllNonEmpty(ts: seq<Partition>, expand: Partition -> bool)
    ensures |CutAll(ts, expand)| >= |ts|
    decreases ts, 0
  {
    if |ts| > 0 {
      CutAllNonEmpty(ts[..|ts| - 1], expand);
      CutNonEmpty(ts[|ts| - 1], expand);
    }
  }

  lemma CoversAppend(a: seq<UnwrappedLine>, b: seq<UnwrappedLine>, x: nat, y: nat, z: nat)
    requires Covers(a, x, y) && Covers(b, y, z)
    ensures Covers(a + b, x, z)
  {
    var ab := a + b;
    forall i | 0 < i < |ab|
      ensures ab[i].begin == ab[i - 1].end
    {
      if i < |a| {
      } else if i == |a| {
      } else {
        assert ab[i] == b[i - |a|] && ab[i - 1] == b[i - 1 - |a|];
      }
    }
  }

  /** The coverage invariant carries from nodes to frontiers: in a
      well-formed tree, every frontier is a contiguous run of lines spanning
      exactly the root's range. */
  lemma {:induction false} CutCovers(t: Partition, expand: Partition -> bool)
    requires WellFormed(t)
    ensures Covers(Cut(t, expand), t.line.begin, t.line.end)
    decreases t, 1
  {
    if |t.children| > 0 && expand(t) {
      CutAllCovers(t.children, expand);
    }
  }

  lemma {:induction false} CutAllCovers(ts: seq<Partition>, expand: Partition -> bool)
    requires |ts| > 0
    requires forall i :: 0 <= i < |ts| ==> WellFormed(ts[i])
    requires Contiguous(Lines(ts))
    ensures Covers(CutAll(ts, expand), ts[0].line.begin, ts[|ts| - 1].line.end)
    decreases ts, 0
  {
    var n := |ts|;
    CutCovers(ts[n - 1], expand);
    if n == 1 {
      assert ts[..0] == [];
      assert CutAll(ts, expand) == Cut(ts[0], expand);
    } else {
      var init := ts[..n - 1];
      assert Lines(init) == Lines(ts)[..n - 1];
      CutAllCovers(init, expand);
      assert ts[n - 1].line.begin == ts[n - 2].line.end by {
        assert Lines(ts)[n - 1] == ts[n - 1].line;
      }
      CoversAppend(CutAll(init, expand), Cut(ts[n - 1], expand),
                   ts[0].line.begin, ts[n - 2].line.end, ts[n - 1].line.end);
    }
  }

  /** The leaves of a well-formed tree partition its token range. */
  lemma LeavesCoverRange(t: Partition)
    requires WellFormed(t)
    ensures Covers(Leaves(t), t.line.begin, t.line.end)
  {
    CutCovers(t, ExpandAll);
  }

  // ---------------------------------------------------------------------
  // FindLargestPartitions

  predicate SortedBySizeDescending(s: seq<UnwrappedLine>) {
    forall i, j :: 0 <= i < j < |s| ==> s[i].Size() >= s[j].Size()
  }

  function InsertBySize(x: UnwrappedLine, s: seq<UnwrappedLine>): (r: seq<UnwrappedLine>)
    requires SortedBySizeDescending(s)
    ensures multiset(r) == multiset(s) + multiset{x}
    ensures |r| == |s| + 1 && (r[0] == x || (|s| > 0 && r[0] == s[0]))
    ensures SortedBySizeDescending(r)
  {
    if |s| == 0 then [x]
    else if x.Size() >= s[0].Size() then
      SortedCons(x, s);
      [x] + s
    else
      SortedTail(s);
      var rest := InsertBySize(x, s[1..]);
      InsertStep(x, s, rest);
      [s[0]] + rest
  }

  /** The recursive step of InsertBySize: the head of s goes in front of
      the insertion into the tail. */
  lemma InsertStep(x: UnwrappedLine, s: seq<UnwrappedLine>, rest: seq<UnwrappedLine>)
    requires |s| > 0 && SortedBySizeDescending(s) && x.Size() < s[0].Size()
    requires SortedBySizeDescending(rest) && |rest| > 0
    requires multiset(rest) == multiset(s[1..]) + multiset{x}
    requires rest[0] == x || (|s| > 1 && rest[0] == s[1..][0])
    ensures SortedBySizeDescending([s[0]] + rest)
    ensures multiset([s[0]] + rest) == multiset(s) + multiset{x}
  {
    SortedCons(s[0], rest);
    assert s == [s[0]] + s[1..];
  }

  lemma SortedTail(s: seq<UnwrappedLine>)
    requires SortedBySizeDescending(s) && |s| > 0
    ensures SortedBySizeDescending(s[1..])
    ensures |s| > 1 ==> s[0].Size() >= s[1..][0].Size()
  {
  }

  lemma SortedCons(a: UnwrappedLine, s: seq<UnwrappedLine>)
    requires SortedBySizeDescending(s)
    requires |s| > 0 ==> a.Size() >= s[0].Size()
    ensures SortedBySizeDescending([a] + s)
  {
    var r := [a] + s;
    forall i, j | 0 <= i < j < |r|
      ensures r[i].Size() >= r[j].Size()
    {
      assert r[j] == s[j - 1];
      if i > 0 {
        assert r[i] == s[i - 1];
      }
    }
  }

  function SortBySize(s: seq<UnwrappedLine>): (r: seq<UnwrappedLine>)
    ensures |r| == |s|
    ensures multiset(r) == multiset(s)
    ensures SortedBySizeDescending(r)
  {
    if |s| == 0 then []
    else
      assert s == [s[0]] + s[1..];
      InsertBySize(s[0], SortBySize(s[1..]))
  }

  /** A prefix of a sorted sequence holds its largest elements. */
  lemma SortedPrefixIsLargest(s: seq<UnwrappedLine>, k: nat)
    requires SortedBySizeDescending(s) && k <= |s|
    ensures multiset(s[..k]) <= multiset(s)
    ensures multiset(s) - multiset(s[..k]) == multiset(s[k..])
    ensures forall x :: x in multiset(s[k..]) ==> forall i :: 0 <= i < k ==> x.Size() <= s[i].Size()
  {
    assert s == s[..k] + s[k..];
    forall x | x in multiset(s[k..])
      ensures forall i :: 0 <= i < k ==> x.Size() <= s[i].Size()
    {
      assert x in s[k..];
      var j :| 0 <= j < |s[k..]| && s[k..][j] == x;
      assert s[k + j] == x;
    }
  }

  function Min(a: int, b: int): int { if a <= b then a else b }

  /** The `n` largest lines of `s`, largest first. */
  function LargestLines(s: seq<UnwrappedLine>, n: nat): (r: seq<UnwrappedLine>)
    ensures |r| == Min(n, |s|)
    ensures multiset(r) <= multiset(s)
    ensures SortedBySizeDescending(r)
    ensures forall x :: x in multiset(s) - multiset(r) ==>
      forall i :: 0 <= i < |r| ==> x.Size() <= r[i].Size()
  {
    var sorted := SortBySize(s);
    var k := Min(n, |sorted|);
    SortedPrefixIsLargest(sorted, k);
    assert multiset(s) - multiset(sorted[..k]) == multiset(sorted[k..]);
    sorted[..k]
  }

  /** FindLargestPartitions: at most `n` leaf partitions, largest first, and
      no leaf left out is larger than any leaf returned. Among leaves of
      equal size the order is not fixed by the source; this model keeps
      pre-order. */
  function FindLargestPartitions(t: Partition, n: nat): (r: seq<UnwrappedLine>)
    ensures |r| == Min(n, |Leaves(t)|)
    ensures multiset(r) <= multiset(Leaves(t))
    ensures SortedBySizeDescending(r)
    ensures forall x :: x in multiset(Leaves(t)) - multiset(r) ==>
      forall i :: 0 <= i < |r| ==> x.Size() <= r[i].Size()
  {
    LargestLines(Leaves(t), n)
  }

  // ---------------------------------------------------------------------
  // MergeConsecutiveSiblings

  datatype MergeError = TooFewSiblings | RangeDiscontinuity

  /** MergeConsecutiveSiblings: child `pos + 1` is folded into child `pos`;
      the merged child spans both ranges and owns both lists of children.
      Without a child `pos + 1`, or when the two ranges do not meet, the
      source aborts. */
  function MergeConsecutiveSiblings(t: Partition, pos: nat): (r: Result<Partition, MergeError>)
    ensures pos + 1 >= |t.children| <==> r == Err(TooFewSiblings)
    ensures r == Err(RangeDiscontinuity) <==>
      pos + 1 < |t.children| && t.children[pos].line.end != t.children[pos + 1].line.begin
    ensures r.Ok? ==>
      && r.value.line == t.line
      && |r.value.children| == |t.children| - 1
      && var left := t.children[pos];
      var right := t.children[pos + 1];
      var merged := r.value.children[pos];
      && r.value.children[..pos] == t.children[..pos]
      && r.value.children[pos + 1..] == t.children[pos + 2..]
      && merged.line.begin == left.line.begin && merged.line.end == right.line.end
      && merged.line.indentation == left.line.indentation && merged.line.policy == left.line.policy
      && merged.children == left.children + right.children
  {
    if pos + 1 >= |t.children| then Err(TooFewSiblings)
    else
      var left := t.children[pos];
      var right := t.children[pos + 1];
      if left.line.end != right.line.begin then Err(RangeDiscontinuity)
      else
        var merged := Partition(left.line.SpanUpToToken(right.line.end), left.children + right.children);
        Ok(t.(children := t.children[..pos] + [merged] + t.children[pos + 2..]))
  }

  /** Merging two siblings of a well-formed tree that are both leaves or both
      inner nodes succeeds and keeps the tree well-formed. */
  lemma MergeConsecutiveSiblingsPreservesWellFormed(t: Partition, pos: nat)
    requires WellFormed(t)
    requires pos + 1 < |t.children|
    requires IsLeaf(t.children[pos]) <==> IsLeaf(t.children[pos + 1])
    ensures MergeConsecutiveSiblings(t, pos).Ok?
    ensures WellFormed(MergeConsecutiveSiblings(t, pos).value)
  {
    var ch := t.children;
    assert Lines(ch)[pos + 1] == ch[pos + 1].line && Lines(ch)[pos] == ch[pos].line;
    var merged := MergeConsecutiveSiblings(t, pos).value.children[pos];
    MergedNodeWellFormed(ch[pos], ch[pos + 1]);
    ReplacePairWellFormed(t, pos, merged);
  }

  lemma MergedNodeWellFormed(left: Partition, right: Partition)
    requires WellFormed(left) && WellFormed(right)
    requires left.line.end == right.line.begin
    requires IsLeaf(left) <==> IsLeaf(right)
    ensures WellFormed(Partition(left.line.SpanUpToToken(right.line.end), left.children + right.children))
  {
    var merged := Partition(left.line.SpanUpToToken(right.line.end), left.children + right.children);
    if !IsLeaf(left) {
      assert NodeCovers(merged) by {
        CoversAppend(Lines(left.children), Lines(right.children),
                     left.line.begin, left.line.end, right.line.end);
        LinesAppend(left.children, right.children);
      }
      ChildrenWellFormedAppend(left.children, right.children);
    }
  }

  lemma ChildrenWellFormedAppend(a: seq<Partition>, b: seq<Partition>)
    requires forall i :: 0 <= i < |a| ==> WellFormed(a[i])
    requires forall i :: 0 <= i < |b| ==> WellFormed(b[i])
    ensures forall i :: 0 <= i < |a + b| ==> WellFormed((a + b)[i])
  {
    forall i | 0 <= i < |a + b|
      ensures WellFormed((a + b)[i])
    {
      if i < |a| {
        assert (a + b)[i] == a[i];
      } else {
        assert (a + b)[i] == b[i - |a|];
      }
    }
  }

  /** Replacing children `pos` and `pos + 1` by one well-formed node spanning
      both keeps a well-formed tree well-formed. */
  lemma ReplacePairWellFormed(t: Partition, pos: nat, merged: Partition)
    requires WellFormed(t) && WellFormed(merged)
    requires pos + 1 < |t.children|
    requires merged.line.begin == t.children[pos].line.begin
    requires merged.line.end == t.children[pos + 1].line.end
    ensures WellFormed(t.(children := t.children[..pos] + [merged] + t.children[pos + 2..]))
  {
    var ch := t.children;
    var rc := ch[..pos] + [merged] + ch[pos + 2..];
    var r := t.(children := rc);
    forall i | 0 <= i < |rc|
      ensures WellFormed(rc[i])
      ensures rc[i].line == (if i < pos then ch[i].line else if i == pos then merged.line else ch[i + 1].line)
    {
      if i < pos {
        assert rc[i] == ch[i];
      } else if i > pos {
        assert rc[i] == ch[i + 1];
      }
    }
    var ls := Lines(ch);
    var rs := Lines(rc);
    assert ls[0] == ch[0].line;
    forall i | 0 < i < |rc|
      ensures rs[i].begin == rs[i - 1].end
    {
      if i > pos + 1 {
        assert ls[i + 1].begin == ls[i].end;
      } else if i == pos + 1 {
        assert ls[pos + 2].begin == ls[pos + 1].end;
      } else {
        assert ls[i].begin == ls[i - 1].end;
      }
    }
    assert ls[|ch| - 1] == ch[|ch| - 1].line;
    assert NodeCovers(r);
  }

  /** Merging two inner siblings leaves the leaf partitioning unchanged. */
  lemma MergeInnerSiblingsKeepsLeaves(t: Partition, pos: nat)
    requires MergeConsecutiveSiblings(t, pos).Ok?
    requires !IsLeaf(t.children[pos]) && !IsLeaf(t.children[pos + 1])
    ensures Leaves(MergeConsecutiveSiblings(t, pos).value) == Leaves(t)
  {
    var ch := t.children;
    var left := ch[pos];
    var right := ch[pos + 1];
    var merged := MergeConsecutiveSiblings(t, pos).value.children[pos];
    var rc := ch[..pos] + [merged] + ch[pos + 2..];
    assert MergeConsecutiveSiblings(t, pos).value.children == rc;
    CutAllAppend(ch[..pos] + [merged], ch[pos + 2..], ExpandAll);
    CutAllAppend(ch[..pos], [merged], ExpandAll);
    CutAllSingle(merged, ExpandAll);
    CutAllAppend(left.children, right.children, ExpandAll);
    assert ch == ch[..pos] + [left, right] + ch[pos + 2..];
    CutAllAppend(ch[..pos] + [left, right], ch[pos + 2..], ExpandAll);
    CutAllAppend(ch[..pos], [left, right], ExpandAll);
    assert [left, right] == [left] + [right];
    CutAllAppend([left], [right], ExpandAll);
    CutAllSingle(left, ExpandAll);
    CutAllSingle(right, ExpandAll);
  }

  lemma LinesAppend(a: seq<Partition>, b: seq<Partition>)
    ensures Lines(a + b) == Lines(a) + Lines(b)
  {
  }

  // ---------------------------------------------------------------------
  // MoveLastLeafIntoPreviousSibling

  lemma CutAllSnoc(a: seq<Partition>, x: Partition, expand: Partition -> bool)
    ensures CutAll(a + [x], expand) == CutAll(a, expand) + Cut(x, expand)
  {
    assert (a + [x])[..|a|] == a;
  }

  /** The leaves of an inner node: those of all but the last child, then
      those of the last child. */
  lemma LeavesOfInnerNode(t: Partition)
    requires |t.children| > 0
    ensures var k := |t.children|;
      Leaves(t) == CutAll(t.children[..k - 1], ExpandAll) + Leaves(t.children[k - 1])
  {
    assert ExpandAll(t);
    assert Leaves(t) == CutAll(t.children, ExpandAll);
  }

  /** Extends the range of `t` and of its rightmost descendants up to `e`. */
  function ExtendRightmost(t: Partition, e: nat): (r: Partition)
    ensures r.line == t.line.SpanUpToToken(e)
    ensures |r.children| == |t.children|
    decreases t
  {
    if |t.children| == 0 then Partition(t.line.SpanUpToToken(e), [])
    else
      var k := |t.children|;
      Partition(t.line.SpanUpToToken(e), t.children[..k - 1] + [ExtendRightmost(t.children[k - 1], e)])
  }

  /** Removes the rightmost leaf from its parent; the nodes above it stay,
      even a parent left without children. */
  function PopRightmostLeaf(t: Partition): (r: Partition)
    requires |t.children| > 0
    ensures r.line == t.line
    decreases t
  {
    var k := |t.children|;
    var last := t.children[k - 1];
    if IsLeaf(last) then t.(children := t.children[..k - 1])
    else t.(children := t.children[..k - 1] + [PopRightmostLeaf(last)])
  }

  /** The tree after the move: the previous leaf and its ancestors are
      extended to `e`, and the rightmost leaf is removed. */
  function MoveLast(t: Partition, e: nat): (r: Partition)
    requires |Leaves(t)| >= 2
    ensures r.line == t.line.SpanUpToToken(e)
    decreases t
  {
    var k := |t.children|;
    LeavesOfInnerNode(t);
    var last := t.children[k - 1];
    if |Leaves(last)| >= 2 then
      Partition(t.line.SpanUpToToken(e), t.children[..k - 1] + [MoveLast(last, e)])
    else
      assert k >= 2;
      var target := ExtendRightmost(t.children[k - 2], e);
      Partition(t.line.SpanUpToToken(e),
                t.children[..k - 2] + [target] + (if IsLeaf(last) then [] else [PopRightmostLeaf(last)]))
  }

  datatype MoveResult = NoPreviousLeaf | Moved(tree: Partition) | CheckFailed

  /** MoveLastLeafIntoPreviousSibling: the rightmost leaf's range is absorbed
      by the leaf before it, whose ancestors are extended likewise, and the
      rightmost leaf is removed. Nothing happens without a previous leaf.
      The source aborts when the two leaves do not meet, and when the tree
      fails the full range check afterwards. */
  function MoveLastLeafIntoPreviousSibling(t: Partition): (r: MoveResult)
    ensures r == NoPreviousLeaf <==> |Leaves(t)| < 2
    ensures var ls := Leaves(t);
      |ls| >= 2 && ls[|ls| - 2].end != ls[|ls| - 1].begin ==> r == CheckFailed
    ensures r.Moved? ==>
      && WellFormed(r.tree)
      && |Leaves(t)| >= 2
      && r.tree.line == t.line.SpanUpToToken(Leaves(t)[|Leaves(t)| - 1].end)
  {
    var ls := Leaves(t);
    if |ls| < 2 then NoPreviousLeaf
    else if ls[|ls| - 2].end != ls[|ls| - 1].begin then CheckFailed
    else
      var moved := MoveLast(t, ls[|ls| - 1].end);
      if WellFormed(moved) then Moved(moved) else CheckFailed
  }

  /** The rightmost leaf has a sibling (it is not an only child). */
  predicate RightmostLeafHasSibling(t: Partition)
    decreases t
  {
    && |t.children| > 0
    && var last := t.children[|t.children| - 1];
    if IsLeaf(last) then |t.children| >= 2 else RightmostLeafHasSibling(last)
  }

  lemma {:induction false} HasSiblingHasTwoLeaves(t: Partition)
    requires RightmostLeafHasSibling(t)
    ensures |Leaves(t)| >= 2
    decreases t
  {
    var k := |t.children|;
    LeavesOfInnerNode(t);
    var last := t.children[k - 1];
    CutAllNonEmpty(t.children[..k - 1], ExpandAll);
    if IsLeaf(last) {
      CutNonEmpty(last, ExpandAll);
    } else {
      HasSiblingHasTwoLeaves(last);
    }
  }

  lemma CoversExtendAt(ls: seq<UnwrappedLine>, j: nat, b: nat, e0: nat, e: nat)
    requires Covers(ls, b, e0) && j < |ls|
    ensures Covers(ls[..j] + [ls[j].SpanUpToToken(e)], b, e)
  {
    var r := ls[..j] + [ls[j].SpanUpToToken(e)];
    forall i | 0 < i < |r|
      ensures r[i].begin == r[i - 1].end
    {
      assert ls[i].begin == ls[i - 1].end;
    }
  }

  lemma {:induction false} ExtendRightmostWellFormed(t: Partition, e: nat)
    requires WellFormed(t)
    ensures WellFormed(ExtendRightmost(t, e))
    decreases t
  {
    if |t.children| > 0 {
      var k := |t.children|;
      var ch := t.children;
      var ext := ExtendRightmost(ch[k - 1], e);
      ExtendRightmostWellFormed(ch[k - 1], e);
      var rc := ch[..k - 1] + [ext];
      assert Lines(rc) == Lines(ch)[..k - 1] + [Lines(ch)[k - 1].SpanUpToToken(e)] by {
        assert rc[..k - 1] == ch[..k - 1];
        assert Lines(ch)[..k - 1] == Lines(ch[..k - 1]);
      }
      CoversExtendAt(Lines(ch), k - 1, t.line.begin, t.line.end, e);
      forall i | 0 <= i < k
        ensures WellFormed(rc[i])
      {
        if i < k - 1 {
          assert rc[i] == ch[i];
        }
      }
    }
  }

  lemma {:induction false} ExtendRightmostLeaves(t: Partition, e: nat)
    ensures var ls := Leaves(t);
      |ls| >= 1 && Leaves(ExtendRightmost(t, e)) == ls[..|ls| - 1] + [ls[|ls| - 1].SpanUpToToken(e)]
    decreases t
  {
    CutNonEmpty(t, ExpandAll);
    if |t.children| > 0 {
      var k := |t.children|;
      var ch := t.children;
      var ext := ExtendRightmost(ch[k - 1], e);
      ExtendRightmostLeaves(ch[k - 1], e);
      LeavesOfInnerNode(t);
      LeavesOfInnerNode(ExtendRightmost(t, e));
      assert ExtendRightmost(t, e).children[..k - 1] == ch[..k - 1];
    }
  }

  /** In a well-formed tree whose rightmost leaf has a sibling, the move
      keeps the tree well-formed and merges the last two leaves into one
      leaf spanning both. */
  lemma {:induction false} MoveLastMergesLastTwoLeaves(t: Partition, e: nat)
    requires WellFormed(t) && RightmostLeafHasSibling(t)
    requires e == t.line.end
    ensures |Leaves(t)| >= 2
    ensures var ls := Leaves(t);
      && WellFormed(MoveLast(t, e))
      && Leaves(MoveLast(t, e)) == ls[..|ls| - 2] + [ls[|ls| - 2].SpanUpToToken(e)]
    decreases t
  {
    HasSiblingHasTwoLeaves(t);
    var ch := t.children;
    var last := ch[|ch| - 1];
    if IsLeaf(last) {
      MoveLastLeafChild(t, e);
    } else {
      assert RightmostLeafHasSibling(last);
      assert Lines(ch)[|ch| - 1] == last.line;
      MoveLastMergesLastTwoLeaves(last, e);
      MoveLastInnerChild(t, e);
    }
  }

  /** The case where the rightmost leaf is the last child itself. */
  lemma MoveLastLeafChild(t: Partition, e: nat)
    requires WellFormed(t) && |t.children| >= 2 && IsLeaf(t.children[|t.children| - 1])
    requires e == t.line.end
    ensures |Leaves(t)| >= 2
    ensures var ls := Leaves(t);
      && WellFormed(MoveLast(t, e))
      && Leaves(MoveLast(t, e)) == ls[..|ls| - 2] + [ls[|ls| - 2].SpanUpToToken(e)]
  {
    MoveLastLeafChildWellFormed(t, e);
    MoveLastLeafChildLeaves(t, e);
  }

  lemma MoveLastLeafChildWellFormed(t: Partition, e: nat)
    requires WellFormed(t) && |t.children| >= 2 && IsLeaf(t.children[|t.children| - 1])
    requires e == t.line.end
    ensures |Leaves(t)| >= 2
    ensures WellFormed(MoveLast(t, e))
  {
    var ch := t.children;
    var k := |ch|;
    var last := ch[k - 1];
    var prev := ch[k - 2];
    LeavesOfInnerNode(t);
    assert Leaves(last) == [last.line];
    CutNonEmpty(prev, ExpandAll);
    assert ch[..k - 1] == ch[..k - 2] + [prev];
    CutAllSnoc(ch[..k - 2], prev, ExpandAll);
    var r := MoveLast(t, e);
    var target := ExtendRightmost(prev, e);
    var rc := ch[..k - 2] + [target];
    assert r.children == rc;
    assert WellFormed(prev);
    ExtendRightmostWellFormed(prev, e);
    assert Lines(rc) == Lines(ch)[..k - 2] + [Lines(ch)[k - 2].SpanUpToToken(e)] by {
      assert rc[..k - 2] == ch[..k - 2];
      assert Lines(ch)[..k - 2] == Lines(ch[..k - 2]);
      assert Lines(ch)[k - 2] == prev.line;
    }
    CoversExtendAt(Lines(ch), k - 2, t.line.begin, t.line.end, e);
    forall i | 0 <= i < |rc|
      ensures WellFormed(rc[i])
    {
      if i < k - 2 {
        assert rc[i] == ch[i];
      }
    }
  }

  lemma MoveLastLeafChildLeaves(t: Partition, e: nat)
    requires |t.children| >= 2 && IsLeaf(t.children[|t.children| - 1])
    ensures |Leaves(t)| >= 2
    ensures var ls := Leaves(t);
      Leaves(MoveLast(t, e)) == ls[..|ls| - 2] + [ls[|ls| - 2].SpanUpToToken(e)]
  {
    var ch := t.children;
    var k := |ch|;
    var pre := CutAll(ch[..k - 2], ExpandAll);
    var pl := Leaves(ch[k - 2]);
    LeavesBeforeLeafChild(t);
    LeavesAfterLeafChildMove(t, e);
    var ls := Leaves(t);
    assert ls[..|ls| - 2] == pre + pl[..|pl| - 1];
    assert ls[|ls| - 2] == pl[|pl| - 1];
  }

  /** Leaves of a node whose last child is a leaf: those of the children
      before the previous one, the previous child's, then the last child. */
  lemma LeavesBeforeLeafChild(t: Partition)
    requires |t.children| >= 2 && IsLeaf(t.children[|t.children| - 1])
    ensures var ch := t.children;
      var k := |ch|;
      && |Leaves(ch[k - 2])| >= 1
      && Leaves(t) == CutAll(ch[..k - 2], ExpandAll) + Leaves(ch[k - 2]) + [ch[k - 1].line]
  {
    var ch := t.children;
    var k := |ch|;
    LeavesOfInnerNode(t);
    assert Leaves(ch[k - 1]) == [ch[k - 1].line];
    CutNonEmpty(ch[k - 2], ExpandAll);
    assert ch[..k - 1] == ch[..k - 2] + [ch[k - 2]];
    CutAllSnoc(ch[..k - 2], ch[k - 2], ExpandAll);
  }

  /** After the move, the previous child's last leaf reaches `e` and the
      last child is gone. */
  lemma LeavesAfterLeafChildMove(t: Partition, e: nat)
    requires |t.children| >= 2 && IsLeaf(t.children[|t.children| - 1])
    ensures |Leaves(t)| >= 2
    ensures var ch := t.children;
      var k := |ch|;
      var pl := Leaves(ch[k - 2]);
      && |pl| >= 1
      && Leaves(MoveLast(t, e)) == CutAll(ch[..k - 2], ExpandAll) + (pl[..|pl| - 1] + [pl[|pl| - 1].SpanUpToToken(e)])
  {
    var ch := t.children;
    var k := |ch|;
    LeavesBeforeLeafChild(t);
    var r := MoveLast(t, e);
    var target := ExtendRightmost(ch[k - 2], e);
    var rc := ch[..k - 2] + [target];
    assert r.children == rc;
    CutAllSnoc(ch[..k - 2], target, ExpandAll);
    ExtendRightmostLeaves(ch[k - 2], e);
    LeavesOfInnerNode(r);
    assert r.children[..|rc| - 1] == ch[..k - 2];
  }

  /** The case where the rightmost leaf lies inside the last child, which has
      at least two leaves of its own. */
  lemma MoveLastInnerChild(t: Partition, e: nat)
    requires WellFormed(t) && |t.children| >= 1
    requires var last := t.children[|t.children| - 1];
      && e == t.line.end
      && |Leaves(last)| >= 2
      && var ll := Leaves(last);
      && WellFormed(MoveLast(last, e))
      && Leaves(MoveLast(last, e)) == ll[..|ll| - 2] + [ll[|ll| - 2].SpanUpToToken(e)]
    ensures |Leaves(t)| >= 2
    ensures var ls := Leaves(t);
      && WellFormed(MoveLast(t, e))
      && Leaves(MoveLast(t, e)) == ls[..|ls| - 2] + [ls[|ls| - 2].SpanUpToToken(e)]
  {
    LeavesOfInnerNode(t);
    MoveLastInnerChildWellFormed(t, e);
    MoveLastInnerChildLeaves(t, e);
  }

  lemma MoveLastInnerChildWellFormed(t: Partition, e: nat)
    requires WellFormed(t) && |t.children| >= 1
    requires var last := t.children[|t.children| - 1];
      && e == t.line.end
      && |Leaves(last)| >= 2
      && WellFormed(MoveLast(last, e))
    ensures |Leaves(t)| >= 2 && WellFormed(MoveLast(t, e))
  {
    var ch := t.children;
    var k := |ch|;
    var last := ch[k - 1];
    LeavesOfInnerNode(t);
    var r := MoveLast(t, e);
    var m := MoveLast(last, e);
    var rc := ch[..k - 1] + [m];
    assert r.children == rc;
    assert Lines(ch)[k - 1] == last.line;
    assert m.line == last.line;
    assert Lines(rc) == Lines(ch) by {
      assert rc[..k - 1] == ch[..k - 1];
      assert ch == ch[..k - 1] + [last];
    }
    forall i | 0 <= i < |rc|
      ensures WellFormed(rc[i])
    {
      if i < k - 1 {
        assert rc[i] == ch[i];
      }
    }
  }

  lemma MoveLastInnerChildLeaves(t: Partition, e: nat)
    requires |t.children| >= 1
    requires var last := t.children[|t.children| - 1];
      && |Leaves(last)| >= 2
      && var ll := Leaves(last);
      && Leaves(MoveLast(last, e)) == ll[..|ll| - 2] + [ll[|ll| - 2].SpanUpToToken(e)]
    ensures |Leaves(t)| >= 2
    ensures var ls := Leaves(t);
      Leaves(MoveLast(t, e)) == ls[..|ls| - 2] + [ls[|ls| - 2].SpanUpToToken(e)]
  {
    var ch := t.children;
    var k := |ch|;
    var last := ch[k - 1];
    LeavesOfInnerNode(t);
    var ls := Leaves(t);
    var pre := CutAll(ch[..k - 1], ExpandAll);
    var ll := Leaves(last);
    assert ls == pre + ll;
    var r := MoveLast(t, e);
    var m := MoveLast(last, e);
    assert r.children == ch[..k - 1] + [m];
    LeavesOfInnerNode(r);
    assert r.children[..k - 1] == ch[..k - 1];
    assert Leaves(r) == pre + (ll[..|ll| - 2] + [ll[|ll| - 2].SpanUpToToken(e)]);
    assert ls[..|ls| - 2] == pre + ll[..|ll| - 2];
    assert ls[|ls| - 2] == ll[|ll| - 2];
  }

  /** MoveLastLeafIntoPreviousSibling on a well-formed tree whose rightmost
      leaf has a sibling: the last two leaves become one. */
  lemma MoveLastLeafIntoPreviousSiblingMergesLeaves(t: Partition)
    requires WellFormed(t) && RightmostLeafHasSibling(t)
    ensures var ls := Leaves(t);
      && |ls| >= 2
      && MoveLastLeafIntoPreviousSibling(t).Moved?
      && Leaves(MoveLastLeafIntoPreviousSibling(t).tree)
         == ls[..|ls| - 2] + [ls[|ls| - 2].SpanUpToToken(ls[|ls| - 1].end)]
  {
    var ls := Leaves(t);
    LeavesCoverRange(t);
    MoveLastMergesLastTwoLeaves(t, t.line.end);
  }

  /** A well-formed tree whose rightmost leaf is the only child of its
      parent: after the move the emptied parent keeps its range, which no
      longer meets its extended sibling, and the source's final check
      aborts. */
  lemma MoveLastLeafOnlyChildFailsCheck()
    ensures var a := Partition(UnwrappedLine(0, 0, 1, AlwaysExpand), []);
      var c := Partition(UnwrappedLine(0, 1, 2, AlwaysExpand), []);
      var b := Partition(UnwrappedLine(0, 1, 2, AlwaysExpand), [c]);
      var t := Partition(UnwrappedLine(0, 0, 2, AlwaysExpand), [a, b]);
      WellFormed(t) && MoveLastLeafIntoPreviousSibling(t) == CheckFailed
  {
    var a := Partition(UnwrappedLine(0, 0, 1, AlwaysExpand), []);
    var c := Partition(UnwrappedLine(0, 1, 2, AlwaysExpand), []);
    var b := Partition(UnwrappedLine(0, 1, 2, AlwaysExpand), [c]);
    var t := Partition(UnwrappedLine(0, 0, 2, AlwaysExpand), [a, b]);
    assert Leaves(b) == [c.line] by {
      LeavesOfInnerNode(b);
      assert [c][..0] == [];
    }
    assert Leaves(t) == [a.line, c.line] by {
      assert [a, b][..1] == [a];
      LeavesOfInnerNode(t);
      CutAllSingle(a, ExpandAll);
    }
    assert WellFormed(t) by {
      assert Lines([c]) == [c.line];
      assert Lines([a, b]) == [a.line, b.line];
      assert WellFormed(a) && WellFormed(c);
      assert WellFormed(b);
    }
    var a2 := Partition(UnwrappedLine(0, 0, 2, AlwaysExpand), []);
    var b2 := Partition(UnwrappedLine(0, 1, 2, AlwaysExpand), []);
    var m := MoveLast(t, 2);
    assert !WellFormed(m) by {
      assert ExtendRightmost(a, 2) == a2;
      assert PopRightmostLeaf(b) == b2;
      assert m.children == [a2, b2];
      assert Lines([a2, b2]) == [a2.line, b2.line];
    }
  }

  // ---------------------------------------------------------------------
  // AppendFittingSubpartitions and ReshapeFittingSubpartitions

  /** What FitsOnLine reports for a line under the formatting style: whether
      it fits within the column limit and the column where it ends. */
  datatype FitResult = FitResult(fits: bool, finalColumn: nat)

  /** FitsOnLine for a fixed style and token sequence; its implementation
      (common/formatting/line_wrap_searcher.cc) is not part of this model. */
  type FitOracle = UnwrappedLine -> FitResult

  /** A group of consecutive partitions that will share one line. */
  datatype Group = Group(line: UnwrappedLine, members: seq<Partition>)

  /** The group's line starts at its first member and ends at its last. */
  predicate SpansMembers(g: Group) {
    && |g.members| > 0
    && g.line.begin == g.members[0].line.begin
    && g.line.end == g.members[|g.members| - 1].line.end
  }

  /** The members of all groups, in order. */
  function Flatten(gs: seq<Group>): seq<Partition> {
    if |gs| == 0 then [] else gs[0].members + Flatten(gs[1..])
  }

  /** Greedy grouping: each argument joins the current group when the
      group's line extended to the argument's end fits; otherwise it starts a
      new group indented by `indent`. */
  function GroupArgs(fits: FitOracle, indent: nat, current: Group, args: seq<Partition>): (gs: seq<Group>)
    requires SpansMembers(current)
    ensures |gs| >= 1
    ensures Flatten(gs) == current.members + args
    ensures forall k :: 0 <= k < |gs| ==> SpansMembers(gs[k])
    ensures gs[0].line.indentation == current.line.indentation
    ensures forall k :: 0 < k < |gs| ==> gs[k].line.indentation == indent
    decreases |args|
  {
    if |args| == 0 then
      assert Flatten([current]) == current.members;
      [current]
    else
      var arg := args[0];
      var candidate := current.line.SpanUpToToken(arg.line.end);
      if fits(candidate).fits then
        var gs := GroupArgs(fits, indent, Group(candidate, current.members + [arg]), args[1..]);
        assert (current.members + [arg]) + args[1..] == current.members + args;
        gs
      else
        var rest := GroupArgs(fits, indent, Group(arg.line.(indentation := indent), [arg]), args[1..]);
        ConsGroup(current, rest);
        assert [arg] + args[1..] == args;
        [current] + rest
  }

  /** A group put in front of others: its members come first, and the
      others keep their places after it. */
  lemma ConsGroup(first: Group, rest: seq<Group>)
    ensures Flatten([first] + rest) == first.members + Flatten(rest)
    ensures forall k :: 0 < k < |rest| + 1 ==> ([first] + rest)[k] == rest[k - 1]
  {
    assert ([first] + rest)[1..] == rest;
  }

  /** The first group extends the current one: same start and policy, and
      the current members come first. */
  lemma {:induction false} GroupArgsExtendsCurrent(fits: FitOracle, indent: nat, current: Group, args: seq<Partition>)
    requires SpansMembers(current)
    ensures var gs := GroupArgs(fits, indent, current, args);
      && gs[0].line.begin == current.line.begin
      && gs[0].line.policy == current.line.policy
      && |gs[0].members| >= |current.members|
      && gs[0].members[..|current.members|] == current.members
    decreases |args|
  {
    if |args| > 0 {
      var arg := args[0];
      var candidate := current.line.SpanUpToToken(arg.line.end);
      if fits(candidate).fits {
        var next := Group(candidate, current.members + [arg]);
        GroupArgsExtendsCurrent(fits, indent, next, args[1..]);
        var gs := GroupArgs(fits, indent, next, args[1..]);
        assert gs[0].members[..|current.members|] == (gs[0].members[..|next.members|])[..|current.members|];
      }
    }
  }

  /** Members from index `from` on were appended because the group's line,
      extended up to them, fit. */
  predicate MembersFitFrom(fits: FitOracle, g: Group, from: nat) {
    forall j :: from <= j < |g.members| ==> fits(g.line.SpanUpToToken(g.members[j].line.end)).fits
  }

  /** Each group from index `from` on was closed because its line, extended
      to the next group's first member, did not fit. */
  predicate BreaksDidNotFitFrom(fits: FitOracle, gs: seq<Group>, from: nat)
    requires forall k :: 0 <= k < |gs| ==> |gs[k].members| > 0
  {
    forall k :: from <= k < |gs| - 1 ==>
      !fits(gs[k].line.SpanUpToToken(gs[k + 1].members[0].line.end)).fits
  }

  /** GroupArgs only appends what fits: each appended argument was added
      because the group's line, extended up to it, fit. */
  lemma {:induction false} GroupArgsAppendsWhatFits(fits: FitOracle, indent: nat, current: Group, args: seq<Partition>)
    requires SpansMembers(current)
    ensures var gs := GroupArgs(fits, indent, current, args);
      && MembersFitFrom(fits, gs[0], |current.members|)
      && (forall k :: 0 < k < |gs| ==> MembersFitFrom(fits, gs[k], 1))
    decreases |args|
  {
    var gs := GroupArgs(fits, indent, current, args);
    if |args| > 0 {
      var arg := args[0];
      var candidate := current.line.SpanUpToToken(arg.line.end);
      if fits(candidate).fits {
        var next := Group(candidate, current.members + [arg]);
        GroupArgsAppendsWhatFits(fits, indent, next, args[1..]);
        GroupArgsExtendsCurrent(fits, indent, next, args[1..]);
        assert gs[0].members[|current.members|] == arg by {
          assert gs[0].members[..|next.members|] == next.members;
        }
        assert gs[0].line.SpanUpToToken(arg.line.end) == candidate;
      } else {
        var next := Group(arg.line.(indentation := indent), [arg]);
        GroupArgsAppendsWhatFits(fits, indent, next, args[1..]);
        var rest := GroupArgs(fits, indent, next, args[1..]);
        assert gs == [current] + rest;
        forall k | 0 < k < |gs|
          ensures MembersFitFrom(fits, gs[k], 1)
        {
          assert gs[k] == rest[k - 1];
        }
      }
    }
  }

  /** GroupArgs breaks only when forced: each group was closed because its
      line, extended to the next group's first member, did not fit. */
  lemma {:induction false} GroupArgsBreaksWhenNotFitting(fits: FitOracle, indent: nat, current: Group, args: seq<Partition>)
    requires SpansMembers(current)
    ensures BreaksDidNotFitFrom(fits, GroupArgs(fits, indent, current, args), 0)
    decreases |args|
  {
    var gs := GroupArgs(fits, indent, current, args);
    if |args| > 0 {
      var arg := args[0];
      var candidate := current.line.SpanUpToToken(arg.line.end);
      if fits(candidate).fits {
        var next := Group(candidate, current.members + [arg]);
        GroupArgsBreaksWhenNotFitting(fits, indent, next, args[1..]);
      } else {
        var next := Group(arg.line.(indentation := indent), [arg]);
        GroupArgsBreaksWhenNotFitting(fits, indent, next, args[1..]);
        var rest := GroupArgs(fits, indent, next, args[1..]);
        assert gs == [current] + rest;
        assert rest[0].members[0] == arg by {
          GroupArgsExtendsCurrent(fits, indent, next, args[1..]);
          assert rest[0].members[..1] == [arg];
        }
        forall k | 0 <= k < |gs| - 1
          ensures !fits(gs[k].line.SpanUpToToken(gs[k + 1].members[0].line.end)).fits
        {
          if k > 0 {
            assert gs[k] == rest[k - 1] && gs[k + 1] == rest[k];
          }
        }
      }
    }
  }

  datatype ReshapeError = NotTwoChildren | NoArguments

  /** The indentation of every group after the first. */
  function GroupIndentation(fits: FitOracle, wrapSpaces: nat, header: Partition, wrapped: bool): nat {
    if wrapped then wrapSpaces + header.line.indentation else fits(header.line).finalColumn
  }

  /** AppendFittingSubpartitions: `node` has a header child and a child
      whose children are the arguments. The header forms the first group;
      the first argument joins it unless wrapping is requested or the two
      do not fit together, and the remaining arguments are grouped greedily.
      The boolean tells whether the first argument was wrapped. */
  function AppendFittingSubpartitions(fits: FitOracle, wrapSpaces: nat, node: Partition, wrapFirst: bool)
    : (r: Result<(seq<Group>, bool), ReshapeError>)
    ensures |node.children| != 2 <==> r == Err(NotTwoChildren)
    ensures r == Err(NoArguments) <==> |node.children| == 2 && |node.children[1].children| == 0
    ensures r.Ok? ==>
      var header := node.children[0];
      var args := node.children[1].children;
      var (gs, wrapped) := r.value;
      && |gs| >= 1
      && Flatten(gs) == [header] + args
      && (forall k :: 0 <= k < |gs| ==> SpansMembers(gs[k]))
      && wrapped == (wrapFirst || !fits(header.line.SpanUpToToken(args[0].line.end)).fits)
      && gs[0].line.begin == header.line.begin
      && gs[0].line.indentation == header.line.indentation
      && (wrapped ==> |gs| >= 2 && gs[0] == Group(header.line, [header]))
      && (!wrapped ==> |gs[0].members| >= 2 && gs[0].members[..2] == [header, args[0]])
      && forall k :: 0 < k < |gs| ==>
           gs[k].line.indentation == GroupIndentation(fits, wrapSpaces, header, wrapped)
  {
    if |node.children| != 2 then Err(NotTwoChildren)
    else
      var header := node.children[0];
      var args := node.children[1].children;
      if |args| == 0 then Err(NoArguments)
      else
        var withFirst := header.line.SpanUpToToken(args[0].line.end);
        if wrapFirst || !fits(withFirst).fits then
          var indent := wrapSpaces + header.line.indentation;
          var first := Group(header.line, [header]);
          var rest := GroupArgs(fits, indent, Group(args[0].line.(indentation := indent), [args[0]]), args[1..]);
          WrappedGroups(fits, indent, header, args);
          Ok(([first] + rest, true))
        else
          var indent := fits(header.line).finalColumn;
          var current := Group(withFirst, [header, args[0]]);
          var gs := GroupArgs(fits, indent, current, args[1..]);
          JoinedGroups(fits, indent, header, args);
          Ok((gs, false))
  }

  /** With the first argument wrapped, the header stands alone and the
      arguments are grouped after it. */
  lemma WrappedGroups(fits: FitOracle, indent: nat, header: Partition, args: seq<Partition>)
    requires |args| > 0
    ensures var rest := GroupArgs(fits, indent, Group(args[0].line.(indentation := indent), [args[0]]), args[1..]);
      var gs := [Group(header.line, [header])] + rest;
      && |gs| >= 2
      && Flatten(gs) == [header] + args
      && (forall k :: 0 <= k < |gs| ==> SpansMembers(gs[k]))
      && (forall k :: 0 < k < |gs| ==> gs[k].line.indentation == indent)
  {
    var rest := GroupArgs(fits, indent, Group(args[0].line.(indentation := indent), [args[0]]), args[1..]);
    ConsGroup(Group(header.line, [header]), rest);
    assert args == [args[0]] + args[1..];
  }

  /** With the first argument joined to the header, the first group starts
      with both. */
  lemma JoinedGroups(fits: FitOracle, indent: nat, header: Partition, args: seq<Partition>)
    requires |args| > 0
    ensures var current := Group(header.line.SpanUpToToken(args[0].line.end), [header, args[0]]);
      var gs := GroupArgs(fits, indent, current, args[1..]);
      && Flatten(gs) == [header] + args
      && gs[0].line.begin == header.line.begin
      && |gs[0].members| >= 2
      && gs[0].members[..2] == [header, args[0]]
  {
    var current := Group(header.line.SpanUpToToken(args[0].line.end), [header, args[0]]);
    GroupArgsExtendsCurrent(fits, indent, current, args[1..]);
    assert args == [args[0]] + args[1..];
  }

  /** Both directions of the greedy choice hold for AppendFittingSubpartitions:
      every appended partition fit, and every break after the first group was
      forced (the break after the header may be requested instead). */
  lemma AppendFittingSubpartitionsIsGreedy(fits: FitOracle, wrapSpaces: nat, node: Partition, wrapFirst: bool)
    requires AppendFittingSubpartitions(fits, wrapSpaces, node, wrapFirst).Ok?
    ensures var (gs, wrapped) := AppendFittingSubpartitions(fits, wrapSpaces, node, wrapFirst).value;
      && (forall k :: 0 <= k < |gs| ==> MembersFitFrom(fits, gs[k], 1))
      && BreaksDidNotFitFrom(fits, gs, if wrapped then 1 else 0)
  {
    var header := node.children[0];
    var args := node.children[1].children;
    var (gs, wrapped) := AppendFittingSubpartitions(fits, wrapSpaces, node, wrapFirst).value;
    var withFirst := header.line.SpanUpToToken(args[0].line.end);
    if wrapped {
      var indent := wrapSpaces + header.line.indentation;
      var cur := Group(args[0].line.(indentation := indent), [args[0]]);
      GroupArgsAppendsWhatFits(fits, indent, cur, args[1..]);
      GroupArgsBreaksWhenNotFitting(fits, indent, cur, args[1..]);
      var rest := GroupArgs(fits, indent, cur, args[1..]);
      assert gs == [Group(header.line, [header])] + rest;
      forall k | 0 < k < |gs|
        ensures MembersFitFrom(fits, gs[k], 1)
      {
        assert gs[k] == rest[k - 1];
      }
      forall k | 1 <= k < |gs| - 1
        ensures !fits(gs[k].line.SpanUpToToken(gs[k + 1].members[0].line.end)).fits
      {
        assert gs[k] == rest[k - 1] && gs[k + 1] == rest[k];
      }
    } else {
      var indent := fits(header.line).finalColumn;
      var cur := Group(withFirst, [header, args[0]]);
      GroupArgsAppendsWhatFits(fits, indent, cur, args[1..]);
      GroupArgsBreaksWhenNotFitting(fits, indent, cur, args[1..]);
      GroupArgsExtendsCurrent(fits, indent, cur, args[1..]);
      assert gs[0].members[..2] == [header, args[0]];
      assert gs[0].line.SpanUpToToken(args[0].line.end) == withFirst;
    }
  }

  /** The partitions of a grouping: one node per group, with the
      fit-else-expand policy, adopting the group's members as children. */
  function Regroup(gs: seq<Group>): (ps: seq<Partition>)
    ensures |ps| == |gs|
    ensures forall k :: 0 <= k < |gs| ==>
      ps[k] == Partition(gs[k].line.(policy := FitOnLineElseExpand), gs[k].members)
  {
    if |gs| == 0 then [] else [Partition(gs[0].line.(policy := FitOnLineElseExpand), gs[0].members)] + Regroup(gs[1..])
  }

  /** The children of all partitions, in order. */
  function Grandchildren(ps: seq<Partition>): seq<Partition> {
    if |ps| == 0 then [] else ps[0].children + Grandchildren(ps[1..])
  }

  lemma {:induction false} GrandchildrenOfRegroup(gs: seq<Group>)
    ensures Grandchildren(Regroup(gs)) == Flatten(gs)
    decreases |gs|
  {
    if |gs| > 0 {
      assert Regroup(gs)[1..] == Regroup(gs[1..]);
      GrandchildrenOfRegroup(gs[1..]);
    }
  }

  /** ReshapeFittingSubpartitions: nodes with fewer than two children are
      left alone. Otherwise the arguments are grouped twice, keeping the
      header line and wrapping after it, and the wrapped grouping is chosen
      only when the first argument fit after the header and wrapping needs
      strictly fewer groups. The groups become the node's new children. */
  function ReshapeFittingSubpartitions(fits: FitOracle, wrapSpaces: nat, node: Partition)
    : (r: Result<Partition, ReshapeError>)
    ensures |node.children| <= 1 ==> r == Ok(node)
    ensures r == Err(NoArguments) <==> |node.children| >= 2 && |node.children[1].children| == 0
    ensures r == Err(NotTwoChildren) <==> |node.children| > 2 && |node.children[1].children| > 0
    ensures r.Ok? ==> r.value.line == node.line
    ensures r.Ok? && |node.children| == 2 ==>
      var (unwrapped, wrappedFirst) := AppendFittingSubpartitions(fits, wrapSpaces, node, false).value;
      var wrapped := AppendFittingSubpartitions(fits, wrapSpaces, node, true).value.0;
      && (forall k :: 0 <= k < |r.value.children| ==> r.value.children[k].line.policy == FitOnLineElseExpand)
      && Grandchildren(r.value.children) == [node.children[0]] + node.children[1].children
      && |r.value.children| <= |unwrapped|
      && (!wrappedFirst ==> |r.value.children| <= |wrapped|)
      && r.value.children == Regroup(if !wrappedFirst && |wrapped| < |unwrapped| then wrapped else unwrapped)
  {
    if |node.children| <= 1 then Ok(node)
    else if |node.children[1].children| == 0 then Err(NoArguments)
    else
      match AppendFittingSubpartitions(fits, wrapSpaces, node, false)
      case Err(e) => Err(e)
      case Ok((unwrapped, wrappedFirst)) =>
        var chosen :=
          if wrappedFirst then unwrapped
          else
            var wrapped := AppendFittingSubpartitions(fits, wrapSpaces, node, true).value.0;
            if |unwrapped| <= |wrapped| then unwrapped else wrapped;
        GrandchildrenOfRegroup(chosen);
        Ok(node.(children := Regroup(chosen)))
  }

  lemma ContiguousSplit(a: seq<UnwrappedLine>, b: seq<UnwrappedLine>)
    requires Contiguous(a + b)
    ensures Contiguous(a) && Contiguous(b)
    ensures |a| > 0 && |b| > 0 ==> b[0].begin == a[|a| - 1].end
  {
    var ab := a + b;
    forall i | 0 < i < |a|
      ensures a[i].begin == a[i - 1].end
    {
      assert ab[i] == a[i] && ab[i - 1] == a[i - 1];
    }
    forall i | 0 < i < |b|
      ensures b[i].begin == b[i - 1].end
    {
      assert ab[|a| + i] == b[i] && ab[|a| + i - 1] == b[i - 1];
    }
    if |a| > 0 && |b| > 0 {
      assert ab[|a|] == b[0] && ab[|a| - 1] == a[|a| - 1];
    }
  }

  predicate AllWellFormed(ps: seq<Partition>) {
    forall i :: 0 <= i < |ps| ==> WellFormed(ps[i])
  }

  lemma AllWellFormedAppend(a: seq<Partition>, b: seq<Partition>)
    ensures AllWellFormed(a + b) <==> AllWellFormed(a) && AllWellFormed(b)
  {
    if AllWellFormed(a + b) {
      assert forall i :: 0 <= i < |a| ==> (a + b)[i] == a[i];
      assert forall i :: 0 <= i < |b| ==> (a + b)[|a| + i] == b[i];
    }
  }

  lemma GroupNodeWellFormed(g: Group)
    requires SpansMembers(g) && Contiguous(Lines(g.members)) && AllWellFormed(g.members)
    ensures WellFormed(Partition(g.line.(policy := FitOnLineElseExpand), g.members))
  {
    var m := g.members;
    assert Lines(m)[0] == m[0].line && Lines(m)[|m| - 1] == m[|m| - 1].line;
  }

  /** Groups that span their members, over a contiguous run of partitions,
      become nodes covering the whole run. */
  lemma {:induction false} RegroupCovers(gs: seq<Group>)
    requires |gs| > 0
    requires forall k :: 0 <= k < |gs| ==> SpansMembers(gs[k])
    requires Contiguous(Lines(Flatten(gs)))
    ensures |Flatten(gs)| > 0
    ensures var flat := Flatten(gs);
      Covers(Lines(Regroup(gs)), flat[0].line.begin, flat[|flat| - 1].line.end)
    decreases |gs|
  {
    var g := gs[0];
    var m := g.members;
    var tail := Flatten(gs[1..]);
    var flat := Flatten(gs);
    assert flat == m + tail;
    assert flat[0] == m[0];
    LinesAppend(m, tail);
    ContiguousSplit(Lines(m), Lines(tail));
    var p := Partition(g.line.(policy := FitOnLineElseExpand), m);
    RegroupCons(gs);
    var rest := Regroup(gs[1..]);
    assert Lines([p]) == [p.line];
    if |gs| == 1 {
      assert tail == [];
      assert Regroup(gs) == [p];
      assert flat[|flat| - 1] == m[|m| - 1];
    } else {
      RegroupCovers(gs[1..]);
      assert flat[|flat| - 1] == tail[|tail| - 1];
      LinesAppend([p], rest);
      assert Lines(Regroup(gs)) == [p.line] + Lines(rest);
      assert Lines(tail)[0] == tail[0].line;
      assert Lines(m)[|m| - 1] == m[|m| - 1].line;
      CoversAppend([p.line], Lines(rest), m[0].line.begin, m[|m| - 1].line.end, tail[|tail| - 1].line.end);
    }
  }

  /** Groups that span their members, over a contiguous run of well-formed
      partitions, become well-formed nodes. */
  lemma {:induction false} RegroupWellFormed(gs: seq<Group>)
    requires forall k :: 0 <= k < |gs| ==> SpansMembers(gs[k])
    requires Contiguous(Lines(Flatten(gs)))
    requires AllWellFormed(Flatten(gs))
    ensures AllWellFormed(Regroup(gs))
    decreases |gs|
  {
    if |gs| > 0 {
      var g := gs[0];
      var m := g.members;
      var tail := Flatten(gs[1..]);
      assert Flatten(gs) == m + tail;
      LinesAppend(m, tail);
      ContiguousSplit(Lines(m), Lines(tail));
      AllWellFormedAppend(m, tail);
      GroupNodeWellFormed(g);
      RegroupCons(gs);
      RegroupWellFormed(gs[1..]);
      AllWellFormedAppend([Partition(g.line.(policy := FitOnLineElseExpand), m)], Regroup(gs[1..]));
    }
  }

  lemma RegroupCons(gs: seq<Group>)
    requires |gs| > 0
    ensures Regroup(gs) == [Partition(gs[0].line.(policy := FitOnLineElseExpand), gs[0].members)] + Regroup(gs[1..])
  {
  }

  /** A grouping of a well-formed node's header and arguments, with groups
      spanning their members, makes the node well-formed again. */
  lemma GroupingKeepsWellFormed(node: Partition, gs: seq<Group>)
    requires WellFormed(node) && |node.children| == 2 && |node.children[1].children| > 0
    requires |gs| > 0 && Flatten(gs) == [node.children[0]] + node.children[1].children
    requires forall k :: 0 <= k < |gs| ==> SpansMembers(gs[k])
    ensures WellFormed(node.(children := Regroup(gs)))
  {
    var header := node.children[0];
    var argNode := node.children[1];
    var args := argNode.children;
    var flat := Flatten(gs);
    assert Lines(node.children) == [header.line, argNode.line] by {
      assert node.children[..1] == [header];
      assert Lines([header]) == [header.line];
    }
    assert WellFormed(header) && WellFormed(argNode);
    LinesAppend([header], args);
    assert Lines([header]) == [header.line];
    assert Lines(args)[0] == args[0].line;
    CoversAppend([header.line], Lines(args), header.line.begin, header.line.end, argNode.line.end);
    assert AllWellFormed(args);
    AllWellFormedAppend([header], args);
    RegroupCovers(gs);
    RegroupWellFormed(gs);
    assert flat[|flat| - 1] == args[|args| - 1];
    assert Lines(args)[|args| - 1] == args[|args| - 1].line;
  }

  /** Reshaping keeps a well-formed node well-formed. */
  lemma ReshapeFittingSubpartitionsPreservesWellFormed(fits: FitOracle, wrapSpaces: nat, node: Partition)
    requires WellFormed(node)
    requires ReshapeFittingSubpartitions(fits, wrapSpaces, node).Ok?
    ensures WellFormed(ReshapeFittingSubpartitions(fits, wrapSpaces, node).value)
  {
    if |node.children| == 2 {
      var (unwrapped, wrappedFirst) := AppendFittingSubpartitions(fits, wrapSpaces, node, false).value;
      var wrapped := AppendFittingSubpartitions(fits, wrapSpaces, node, true).value.0;
      var chosen := if !wrappedFirst && |wrapped| < |unwrapped| then wrapped else unwrapped;
      GroupingKeepsWellFormed(node, chosen);
    }
  }
}

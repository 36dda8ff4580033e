# Verible formatter core, modelled in Dafny

This project models the core of the Verible SystemVerilog formatter and a few
of the analysis tools around it, and proves properties of that model. It
covers:

- the token-partition tree operations: coverage check, largest-leaf search,
  merging siblings, folding the last leaf into its predecessor, and greedy
  regrouping of fitting sub-partitions;
- the formatter driver: the expand/collapse decision, the unwrapped-line
  worklist, byte-range token selection, marking disabled ranges `Preserve`,
  and the status flow of `FormatVerilog`;
- the leaf cost model of the layout optimizer;
- unwrapped-line rendering;
- the lint waiver builder;
- token classification;
- the line-range detector tool;
- three lint rules: mismatched labels, port name suffixes and disable
  statements.

## How it is modelled

- Token ranges are `[begin, end)` pairs of naturals over an abstract token
  sequence.
- A partition tree is the datatype `Partition(line, children)`.
- Syntax trees, label lookups and the matchers are inputs: each rule receives
  the facts the source extracts from the tree.
- Oracles become parameters:
  - `FitsOnLine` is a function-typed parameter returning whether a line fits
    and its final column.
  - The analyzer, the equivalence check and the line-wrap search become
    booleans and statuses.

Each module follows one source file:

| module | file |
|---|---|
| `Wrappers` | shared Option/Result/Outcome types |
| `Strings` | shared Join/Split/number rendering helpers |
| `TokenPartitionTrees` | `token_partition_tree.dfy` |
| `Formatter` | `formatter.dfy` |
| `LayoutOptimizer` | `layout_optimizer.dfy` |
| `UnwrappedLines` | `unwrapped_line.dfy` |
| `LintWaivers` | `lint_waiver.dfy` |
| `VerilogTokens` | `verilog_token.dfy` |
| `VerilogDetect` | `verilog_detect.dfy` |
| `LintRuleStatus` | shared violation and report types of the lint rules |
| `MismatchedLabels` | `mismatched_labels_rule.dfy` |
| `PortNameSuffix` | `port_name_suffix_rule.dfy` |
| `DisableFork` | `disable_fork_rule.dfy` |

A `CHECK` failure that the tests pin down becomes an error result. Those are:
a merge with too few siblings, a broken coverage check, and reshaping a node
without exactly two children. A `CHECK` on a caller's argument, as in
`SetIndentationSpaces` and `ByteOffsetRange`, becomes a precondition.

## Model

| member | source | states |
|---|---|---|
| TokenPartitionTrees.VerifyTreeNodeFormatTokenRanges | common/formatting/token_partition_tree.cc:32-75 | passes iff the first child begins at the parent's begin, the last child ends at the parent's end and siblings are contiguous; the failure reported is the first check that fails, a sibling gap naming the first gap |
| TokenPartitionTrees.VerifyFullTreeFormatTokenRanges | common/formatting/token_partition_tree.cc:77-84 | passes iff every node of the tree passes the node check |
| TokenPartitionTrees.LeavesCoverRange | common/formatting/token_partition_tree.cc:43-72 | the leaves of a checked tree are a contiguous run spanning exactly the root's range |
| TokenPartitionTrees.CutCovers | common/formatting/token_partition_tree.cc:43-72 | any frontier of a checked tree, for any expansion choice, spans the node's range contiguously |
| TokenPartitionTrees.SortBySize | common/formatting/token_partition_tree.cc:86-90 | a permutation of its input ordered by size, largest first |
| TokenPartitionTrees.SortedPrefixIsLargest | common/formatting/token_partition_tree.cc:92-103 | in a size-ordered sequence no element after the first k is larger than any of the first k |
| TokenPartitionTrees.FindLargestPartitions | common/formatting/token_partition_tree.cc:92-103 | returns min(N, leaf count) leaves of the tree, ordered by size non-increasing, and no leaf left out is larger than one returned |
| TokenPartitionTrees.MergeConsecutiveSiblings | common/formatting/token_partition_tree.cc:135-143 | fewer than two siblings at pos is an error, a gap between them is an error; otherwise one child fewer, the merged child spans both ranges, keeps the left child's indentation and policy and holds both child lists concatenated, and all other children are unchanged |
| TokenPartitionTrees.MergeConsecutiveSiblingsPreservesWellFormed | common/formatting/token_partition_tree.cc:135-143 | merging two checked siblings of the same kind (both leaves or both inner) keeps the tree passing the coverage check |
| TokenPartitionTrees.MergeInnerSiblingsKeepsLeaves | common/formatting/token_partition_tree.cc:135-143 | merging two inner siblings leaves the sequence of leaves unchanged |
| TokenPartitionTrees.MoveLastLeafIntoPreviousSibling | common/formatting/token_partition_tree.cc:145-183 | no previous leaf (fewer than two leaves) gives the null result; leaves that do not meet fail the check; a moved tree passes the coverage check and spans up to the removed leaf's end |
| TokenPartitionTrees.MoveLastLeafIntoPreviousSiblingMergesLeaves | common/formatting/token_partition_tree.cc:153-182 | when the rightmost leaf has a sibling, the leaves after the move are the old leaves with the last two fused into one spanning both |
| TokenPartitionTrees.MoveLastLeafOnlyChildFailsCheck | common/formatting/token_partition_tree.cc:157-180 | for the tree with leaf 0-1 and node 1-2 whose only child is leaf 1-2, which is well-formed, the move fails the post-move check because the emptied parent keeps its range |
| TokenPartitionTrees.ExtendRightmostWellFormed | common/formatting/token_partition_tree.cc:165-178 | extending the previous leaf and its ancestors to the removed leaf's end keeps the coverage invariant |
| TokenPartitionTrees.GroupArgs | common/formatting/token_partition_tree.cc:330-352 | the groups hold the current group's members then every argument, in order; each group spans its members; the first keeps its indentation, later ones get the wrap indentation |
| TokenPartitionTrees.GroupArgsAppendsWhatFits | common/formatting/token_partition_tree.cc:330-352 | every argument appended to a group made the extended group fit |
| TokenPartitionTrees.GroupArgsBreaksWhenNotFitting | common/formatting/token_partition_tree.cc:330-352 | every new group started because the previous group extended by its first argument did not fit |
| TokenPartitionTrees.AppendFittingSubpartitions | common/formatting/token_partition_tree.cc:276-355 | not exactly two children or no arguments is an error; otherwise the groups hold header then arguments in order, the first argument is wrapped iff asked or header plus it does not fit, and later groups are indented by wrap_spaces + indentation when wrapped, else by the header's final column |
| TokenPartitionTrees.AppendFittingSubpartitionsIsGreedy | common/formatting/token_partition_tree.cc:300-352 | every argument joined its group because the group then fit, and every group break happened because it did not |
| TokenPartitionTrees.Regroup | common/formatting/token_partition_tree.cc:404-421 | one partition per group, with the group's range and indentation, policy fit-else-expand, and the group's members as children |
| TokenPartitionTrees.GrandchildrenOfRegroup | common/formatting/token_partition_tree.cc:404-421 | the leaves below the regrouped children are the grouped partitions in their original order |
| TokenPartitionTrees.ReshapeFittingSubpartitions | common/formatting/token_partition_tree.cc:357-428 | a no-op with 0 or 1 children; errors without arguments or with more than two children; otherwise every new child has policy fit-else-expand, header then arguments keep their order, and the wrapped grouping is chosen iff the first argument was not wrapped and wrapping gives strictly fewer groups; otherwise the unwrapped grouping is kept |
| TokenPartitionTrees.ReshapeFittingSubpartitionsPreservesWellFormed | common/formatting/token_partition_tree.cc:357-428 | reshaping a checked node yields a node that passes the coverage check |
| Formatter.DeterminePartitionExpansion | verilog/formatting/formatter.cc:207-256 | a leaf is unexpanded; an expanded child forces expansion; always-expand expands with more than one child and otherwise keeps the prior state; the fitting policies are unexpanded iff the line fits |
| Formatter.ExpandedIffSomeNodeDemands | verilog/formatting/formatter.cc:207-272 | with the decision applied post-order, a node is expanded iff some node in its subtree demands expansion by its own policy |
| Formatter.AncestorsOfExpandedAreExpanded | verilog/formatting/formatter.cc:219-231 | every ancestor of an expanded node is expanded |
| Formatter.ExpandedViewCoversRange | verilog/formatting/formatter.cc:259-281 | the expanded view of a checked tree is a contiguous run of lines spanning the whole tree |
| Formatter.CollapsedRootIsOneLine | verilog/formatting/formatter.cc:259-281 | an unexpanded root yields its own line as the only view line |
| Formatter.DropTrailingEmpty | verilog/formatting/formatter.cc:274-280 | a prefix of the input that does not end with an empty line, after which only empty lines were dropped |
| Formatter.MakeUnwrappedLinesWorklist | verilog/formatting/formatter.cc:259-281 | the expanded view with exactly its trailing empty lines removed; it never ends with an empty line |
| Formatter.WorklistKeepsAllTokens | verilog/formatting/formatter.cc:259-281 | for a non-empty checked tree the worklist still spans every token of the tree contiguously |
| Formatter.FindFormatTokensInByteOffsetRange | verilog/formatting/formatter.cc:309-324 | on ordered tokens, the two binary searches return exactly the contiguous run of tokens that start at or after the range's first byte and end at or before its last |
| Formatter.SearchLowerBound | verilog/formatting/formatter.cc:313-317 | the halving search over ordered tokens lands on the first token from the start index that does not begin before the given byte, the index a token-by-token scan finds |
| Formatter.SearchUpperBound | verilog/formatting/formatter.cc:318-322 | the halving search over ordered tokens lands on the first token from the start index that ends after the given byte, the index a token-by-token scan finds |
| Formatter.SearchSelectsTokensInRange | verilog/formatting/formatter.cc:309-324 | lower bound then upper bound select a token iff it lies inside the byte range |
| Formatter.MarkPreserve | verilog/formatting/formatter.cc:345-349 | exactly the tokens of the run get break decision Preserve, all others are unchanged |
| Formatter.PreserveRange | verilog/formatting/formatter.cc:338-365 | one disabled range: exactly the tokens inside it become Preserve, and only its first token, when it follows an end-of-line comment, has its preserved-space start advanced by one |
| Formatter.PreserveSpacesOnDisabledTokenRanges | verilog/formatting/formatter.cc:326-367 | token texts, offsets and spacing are kept; a token's decision becomes Preserve iff it lies in some disabled range, others keep theirs; its preserved-space start grows by one iff it opens a non-empty range right after an end-of-line comment |
| Formatter.PreserveTwiceKeepsDecisions | verilog/formatting/formatter.cc:326-367 | marking twice gives the same break decisions as marking once |
| Formatter.PreserveTwiceBumpsTwice | verilog/formatting/formatter.cc:357-363 | the preserved-space adjustment is not idempotent: a second marking advances it again |
| Formatter.EolCommentExample | verilog/formatting/formatter.cc:357-363 | a range starting after `// c` moves the next token's preserved space start from 4 to 5 |
| Formatter.ByteOffsetRange | verilog/formatting/formatter.cc:374-384 | for a non-empty sub-range it returns [offset + 1, offset + length), inside the full text |
| Formatter.ByteOffsetRangeSparesFirstToken | verilog/formatting/formatter.cc:374-384 | a token inside the sub-range is selected by the adjusted range iff it does not start at the sub-range's first byte |
| Formatter.FormatStatus | verilog/formatting/formatter.cc:446-505 | Format returns OK or ResourceExhausted, the latter iff no diagnostic stop happened and some line's search did not complete |
| Formatter.VerifyFormatting | verilog/formatting/formatter.cc:95-145 | DataLoss when the re-lex/parse failed with token errors or the output is not equivalent, OK otherwise |
| Formatter.SilentReparseFailurePasses | verilog/formatting/formatter.cc:109-118 | a failed re-parse without token error messages does not fail verification |
| Formatter.FormatVerilog | verilog/formatting/formatter.cc:147-203 | a lex/parse failure returns InvalidArgument with the syntax errors and writes nothing; text is written iff parsing succeeded, Format returned OK or ResourceExhausted, no diagnostic stop happened and verification passed, and then the returned status is Format's |
| Formatter.FormatVerilogEarlyExits | verilog/formatting/formatter.cc:151-186 | InvalidArgument iff the input failed to lex or parse; Cancelled iff it parsed and a diagnostic stop was requested |
| Formatter.FormatVerilogDataLoss | verilog/formatting/formatter.cc:189-198 | DataLoss iff verification failed after a successful format, and then nothing is written |
| Formatter.FormatVerilogResourceExhausted | verilog/formatting/formatter.cc:173-202 | ResourceExhausted iff some search did not complete and the output verified, and then the formatted text is still written |
| Formatter.FormatVerilogOk | verilog/formatting/formatter.cc:147-203 | OK iff parsing succeeded, no stop, verification passed and every line's search completed |
| LayoutOptimizer.LayoutOfType | verilog/formatting/layout_optimizer.cc:60 | a layout of a given type has no indentation and no tokens |
| LayoutOptimizer.LayoutOfLine | verilog/formatting/layout_optimizer.cc:62-66 | a layout built from a line has type line, the line's indentation and exactly the line's tokens |
| LayoutOptimizer.TextRecoversTokens | verilog/formatting/layout_optimizer.cc:85-90 | Text joins the token texts with single spaces: splitting it on spaces gives the texts back |
| LayoutOptimizer.Length | verilog/formatting/layout_optimizer.cc:92-101 | for a non-empty layout, the sum over tokens of spaces required plus text length, minus the first token's spaces; at least the first token's length |
| LayoutOptimizer.LengthOfSingleSpacedIsTextLength | verilog/formatting/layout_optimizer.cc:85-101 | with one space between tokens, Length equals the length of Text |
| LayoutOptimizer.MustWrapExcludesMustAppend | verilog/formatting/layout_optimizer.cc:103-111 | MustWrap and MustAppend depend on the first token's break decision only, and never both hold |
| LayoutOptimizer.PlusConst | verilog/formatting/layout_optimizer.cc:214-224 | same number and order of knots, each intercept raised by c, columns, spans, gradients and layouts unchanged |
| LayoutOptimizer.PlusConstRaisesCost | verilog/formatting/layout_optimizer.cc:214-224 | the cost at any column rises by exactly c |
| LayoutOptimizer.PlusConstComposes | verilog/formatting/layout_optimizer.cc:214-224 | adding a then b is adding a + b, and adding 0 changes nothing |
| LayoutOptimizer.LeafKnotSet | verilog/formatting/layout_optimizer.cc:276-287 | a span below the limit gives the two knots (0, span, 0, 0) and (limit - span, span, 0, penalty) with ascending columns; otherwise the one knot (0, span, (span - limit) * penalty, penalty), whose intercept is 0 iff span equals the limit or the penalty is 0 |
| LayoutOptimizer.LeafCostIsOverflowPenalty | verilog/formatting/layout_optimizer.cc:276-287 | under the documented cost, the leaf knot set at start column c costs max(0, c + span - limit) * penalty |
| LayoutOptimizer.OptimizeTokenPartitionTree | verilog/formatting/layout_optimizer.cc:254-295 | one leaf knot set per leaf partition, in tree order, built from that leaf's layout and length |
| LayoutOptimizer.LeafCostsPriceOverflow | verilog/formatting/layout_optimizer.cc:254-295 | every leaf's knot set prices exactly the columns its line runs past the limit |
| UnwrappedLines.PolicyName | common/formatting/unwrapped_line.cc:36-44 | each partition policy has a non-empty name |
| UnwrappedLines.PolicyNamesDistinct | common/formatting/unwrapped_line.cc:36-44 | the names "always-expand", "fit-else-expand" and "append-fitting-sub-partitions" are pairwise distinct |
| UnwrappedLines.SetIndentationSpaces | common/formatting/unwrapped_line.cc:56-59 | a non-negative indentation is set exactly; range and policy are kept |
| UnwrappedLines.AsCode | common/formatting/unwrapped_line.cc:61-69 | indentation markers, then a bracketed token list |
| UnwrappedLines.AsCodeRecoversLine | common/formatting/unwrapped_line.cc:61-69 | the marker count is the indentation, and the text between the brackets splits back into the token texts |
| UnwrappedLines.MakeFormattedExcerpt | common/formatting/unwrapped_line.cc:75-86 | one formatted token per line token, same texts and decisions in order; the first token's spaces are the line's indentation |
| UnwrappedLines.FormattedText | common/formatting/unwrapped_line.cc:92-105 | with indentation, every token with its spacing; without, the first token's bare text then the rest with spacing |
| UnwrappedLines.Render | common/formatting/unwrapped_line.cc:114-118 | the first token's spacing followed by the text without indentation, i.e. the indented formatted text |
| VerilogTokens.GetFormatTokenType | verilog/formatting/verilog_token.cc:555-604 | a named token takes its table category or unknown; a character token is binary_operator iff one of + - * / % & \| ^ ? =, hierarchy iff `.`, open_group iff ( [ {, close_group iff ) ] }, else unknown |
| VerilogTokens.CommentPredicatesAgree | verilog/formatting/verilog_token.cc:546-613 | a token's category is a comment type iff the token is a comment block or end-of-line comment |
| VerilogTokens.OperatorsBothUnaryAndBinary | verilog/formatting/verilog_token.cc:561-636 | + - & \| ^ are unary operators and classified binary; ~ and ! are unary and classified unknown |
| VerilogTokens.NamedUnaryOperatorCategories | verilog/formatting/verilog_token.cc:615-636 | the named unary operators classify as unary, except the xnor operator, classified binary |
| VerilogTokens.DefinesAreNotControlFlow | verilog/formatting/verilog_token.cc:638-650 | define, include and undef are not preprocessor control flow; else is |
| VerilogTokens.JoinKeywordsAreNotEndKeywords | verilog/formatting/verilog_token.cc:652-672 | join, join_any and join_none are not end keywords |
| VerilogTokens.EndKeywordsAreKeywords | verilog/formatting/verilog_token.cc:652-672 | every one of the twelve end keywords is a named token that the category table (which lists each of them, lines 84-243) classifies as keyword |
| LintWaivers.LineRange | common/analysis/lint_waiver.cc:40-48 | exactly the lines in [b, e) |
| LintWaivers.WaiveLineRange | common/analysis/lint_waiver.cc:40-48 | the rule becomes waived on [b, e) in addition to before and gains an entry; no other rule changes |
| LintWaivers.WaiveOneLine | common/analysis/lint_waiver.cc:40-43 | waiving one line is waiving [n, n + 1) |
| LintWaivers.WaiveOneLineWaivesExactlyThatLine | common/analysis/lint_waiver.cc:40-54 | after waiving line n, the rule is waived on l iff it was before or l = n |
| LintWaivers.EmptyIffNothingWaived | common/analysis/lint_waiver.cc:50-63 | Empty holds iff no rule is waived on any line |
| LintWaivers.EmptyRangeKeepsEmpty | common/analysis/lint_waiver.cc:44-63 | waiving an empty range adds an entry but keeps the waiver empty |
| LintWaivers.ExtractWaivedRuleFromComment | common/analysis/lint_waiver.cc:65-86 | returns the third word iff there are at least three words, the first is the trigger and the second a command, else "" |
| LintWaivers.ExtractRecoversDirective | common/analysis/lint_waiver.cc:65-86 | a comment made of space-free words, the trigger then a command, is recognised and yields its third word as the rule, whatever words follow |
| LintWaivers.OtherCommentsAreNotDirectives | common/analysis/lint_waiver.cc:65-86 | a comment not starting with the trigger yields "" |
| LintWaivers.ApplyPending | common/analysis/lint_waiver.cc:104-115 | each pending rule becomes waived on this line, nothing else changes |
| LintWaivers.ApplyDirective | common/analysis/lint_waiver.cc:117-155 | waive-line waives the line if it has code, else defers; range-start opens the rule unless already open; range-stop waives [start, line) and closes it; an unmatched stop changes nothing |
| LintWaivers.ProcessLine | common/analysis/lint_waiver.cc:88-156 | a blank line only clears pending waivers; a line with code applies and clears them; a comment-only line keeps them; waived lines only grow and stay below the next line |
| LintWaivers.DeferredWaiverAppliesToNextCodeLine | common/analysis/lint_waiver.cc:104-138 | a waive-line on a comment-only line waives the next code line; a blank line in between discards it |
| LintWaivers.FlushOpenRanges | common/analysis/lint_waiver.cc:175-182 | every open range is waived through the last line and no range stays open |
| LintWaivers.ProcessTokenRangesByLine | common/analysis/lint_waiver.cc:158-183 | processing all lines closes every range, only adds waived lines, and waives no line past the end |
| LintWaivers.UnclosedRangeRunsToEndOfFile | common/analysis/lint_waiver.cc:175-182 | a range opened on the first line and never closed waives every line of the file |
| LintWaivers.ApplyExternalEntryAsWritten | common/analysis/lint_waiver.cc:215-247 | line N ≥ 1 waives N-1, range B..E with 1 ≤ B ≤ E waives [B-1, E), invalid numbers are ignored, and an inactive rule's entry goes to the empty rule name |
| LintWaivers.InactiveRuleEntryWaivesEmptyRule | common/analysis/lint_waiver.cc:208-219 | an entry for a rule that is not active leaves the waiver non-empty, with the empty rule name waived |
| LintWaivers.ApplyExternalEntry | common/analysis/lint_waiver.cc:215-247 | inactive rules gain nothing; an active rule is waived on l iff it was before or the valid entry covers l |
| LintWaivers.ApplyExternalWaivers | common/analysis/lint_waiver.cc:185-253 | folds the corrected entry handling of Findings row 1: an unreadable file changes nothing; waived lines only grow; rules that are not active are unchanged; an active rule is waived on line l iff it was before or some entry of the file names it and covers l |
| LintWaivers.EntryWaivesOnlyItsRule | common/analysis/lint_waiver.cc:221-247 | an entry for an active rule leaves every other active rule as it was, and waives its own rule exactly on the lines it covers |
| LintWaivers.EntriesCoverCons | common/analysis/lint_waiver.cc:196-200 | an entry of the file covers the line iff the first entry or one of the rest does |
| VerilogDetect.ParseMode | verilog/tools/detector/verilog_detect.cc:62-75 | a parsed name is the name of the mode it gives |
| VerilogDetect.ModeNamesRoundTrip | verilog/tools/detector/verilog_detect.cc:62-81 | "auto", "sv" and "lib" map one-to-one to the three modes: each name parses back to its mode, and only names of modes parse |
| VerilogDetect.Visit | verilog/tools/detector/verilog_detect.cc:185-253 | after visiting a subtree, abort is set iff it was or the subtree holds a function call inside a function call outside nested item lists; the first leaf is kept once set; the last leaf is the subtree's last; ranges only grow |
| VerilogDetect.VisitItems | verilog/tools/detector/verilog_detect.cc:210-246 | a module item list restores abort, first and last leaf after each item, and only appends ranges |
| VerilogDetect.ModuleItemsRecordNestedCalls | verilog/tools/detector/verilog_detect.cc:210-246 | for flat items, a range (first line + 1, last line + 1) is recorded exactly for each item that holds a nested function call and has leaves, in item order |
| VerilogDetect.GapsArePairs | verilog/tools/detector/verilog_detect.cc:289-296 | gap `i` runs from `itr` (for the first) or the line after excluded range `i-1` to the line before excluded range `i` |
| VerilogDetect.GapsOutside | verilog/tools/detector/verilog_detect.cc:289-296 | for ordered ranges the gaps hold no line before the first gap start and none after the last excluded range |
| VerilogDetect.GapsComplement | verilog/tools/detector/verilog_detect.cc:289-296 | for ordered ranges, between the first gap start and the line after the last range, a line is in a gap iff no excluded range holds it |
| VerilogDetect.ComplementAsWritten | verilog/tools/detector/verilog_detect.cc:289-302 | the complement as computed is never empty; what it lists is stated by `ComplementAsWrittenIncludedLines` |
| VerilogDetect.ComplementAsWrittenIncludedLines | verilog/tools/detector/verilog_detect.cc:289-302 | for ordered excluded ranges within the file, a line is listed iff no excluded range holds it, except the last line when the last range ends just before it |
| VerilogDetect.Complement | verilog/tools/detector/verilog_detect.cc:289-302 | the complement keeping the trailing range whenever it holds a line, never empty |
| VerilogDetect.ComplementIsExactlyTheIncludedLines | verilog/tools/detector/verilog_detect.cc:289-302 | for ordered disjoint excluded ranges within the file, a line of the file is reported iff no excluded range holds it |
| VerilogDetect.ComplementAsWrittenLosesLastLine | verilog/tools/detector/verilog_detect.cc:297-299 | with 4 lines and lines 2-3 excluded the output is only 1-1, so line 4 is neither excluded nor reported |
| VerilogDetect.ExclusionAtFirstLineGivesEmptyPair | verilog/tools/detector/verilog_detect.cc:292-296 | an excluded range starting at line 1 yields the empty pair 1-0 |
| VerilogDetect.RangesToStringIsJoin | verilog/tools/detector/verilog_detect.cc:304-310 | writing "a-b," per range and dropping the last character is joining the "a-b" pieces with commas |
| VerilogDetect.RangesToStringRoundTrip | verilog/tools/detector/verilog_detect.cc:304-310 | the printed list reads back as the ranges it was printed from |
| VerilogDetect.PrintedErrorCount | verilog/tools/detector/verilog_detect.cc:149-159 | all messages with limit 0; otherwise min(count, limit), and one message for a negative limit |
| VerilogDetect.FileStatus | verilog/tools/detector/verilog_detect.cc:139-162 | 1 iff the file is unreadable or fails to lex or parse, else 0 |
| VerilogDetect.ExitStatus | verilog/tools/detector/verilog_detect.cc:316-336 | the maximum of the file statuses: 1 iff some file is unreadable or has a syntax error |
| LintRuleStatus.Insert | verilog/analysis/checkers/mismatched_labels_rule.cc:75-84 | a reported violation is in the rule's set, which grows by at most that violation |
| MismatchedLabels.HandleSymbol | verilog/analysis/checkers/mismatched_labels_rule.cc:57-87 | no end label, or equal labels: the set is unchanged; an end label without a begin label: exactly the "missing" violation at the block symbol's offset is added; different labels: exactly the "mismatch" violation at the end label's offset and text is added |
| MismatchedLabels.MissingLabelsAtTwoPlacesCount | verilog/analysis/checkers/mismatched_labels_rule.cc:72-77 | two blocks at different offsets that both lack a begin label give two violations |
| MismatchedLabels.AcceptedIffLabelsAgree | verilog/analysis/checkers/mismatched_labels_rule.cc:67-86 | nothing is reported iff the symbol did not match, has no end label, or both labels are present and equal |
| PortNameSuffix.Expected | verilog/analysis/checkers/port_name_suffix_rule.cc:85-97 | input, output and inout, and only these, demand a suffix |
| PortNameSuffix.HandleSymbol | verilog/analysis/checkers/port_name_suffix_rule.cc:74-99 | an input without "_i", an output without "_o", an inout without "_io" adds exactly one violation, at the identifier's offset and text with its direction's message; a suffixed name or any other direction leaves the set unchanged |
| PortNameSuffix.SuffixedNameAccepted | verilog/analysis/checkers/port_name_suffix_rule.cc:85-97 | a name ending in its direction's suffix is never reported |
| PortNameSuffix.SuffixesExclusive | verilog/analysis/checkers/port_name_suffix_rule.cc:85-97 | no name ends in two of "_i", "_o" and "_io" |
| PortNameSuffix.WrongDirectionReported | verilog/analysis/checkers/port_name_suffix_rule.cc:85-88 | an input port named "data_o" is reported with the input message, and a second such port at another offset is a second violation |
| DisableFork.HandleSymbol | verilog/analysis/checkers/disable_fork_rule.cc:65-107 | a violation iff the statement matched, has a label, and no enclosing sequential block below the outermost context node has a begin child with that label while not being the body of initial, final or always |
| DisableFork.Handle | verilog/analysis/checkers/disable_fork_rule.cc:65-107 | the set gains exactly the fixed-message violation at the statement's offset when the search finds no allowing block, and is otherwise unchanged |
| DisableFork.NestedLabelledBlockAllows | verilog/analysis/checkers/disable_fork_rule.cc:74-100 | a labelled block nested in an initial block's body allows disabling its label |

## Left out

- Lexing, parsing, the tree unwrapper, formatting annotation, disabled-range
  discovery and the equivalence check: their code is not part of this model.
  Their results are inputs: statuses, booleans, token sequences and syntax
  trees.
- `FitsOnLine`, `SearchLineWraps` and whitespace emission live in other
  files. `FitsOnLine` is a function parameter. Line-wrap search is
  represented by one completed-or-not flag per line. Emission is the given
  text.
- The pre-order application of `ReshapeFittingSubpartitions` inside
  `Formatter::Format`: the reshaping of one node is modelled, not the
  traversal that applies it.
- The layout optimizer's `SolutionSet` and knot-set combinators: they are not
  implemented in the source. Integer overflow of `Layout::Length` and of the
  knot costs is not modelled, because the source uses `int` on small values.
- LayoutOptimizer.MustWrapExcludesMustAppend: states the first-token
  dependence and exclusivity, not each predicate's exact value. Those values
  follow from the definitions directly.
- The lint waiver's regular expression for waiver files, and the file reading:
  entries arrive already parsed. The comment text arrives stripped of its
  comment markers, and line-level tokens arrive already classified.
- The generated enum-to-category table for named tokens: it is an abstract
  map, and only the entries the predicates rely on are constrained.
- The syntax-tree context visitor, `line_column_map` and the identifier
  searches of the lint rules: leaves carry their 0-based line; rules receive
  labels, directions and context tags already extracted; null children are
  left out.
- Printing, VLOG output, flags, `main`'s argument handling, and the
  `EnumNameMap` error text: the model keeps only the name map and the exit
  status. The printed range list is the sequence `Complement` returns; the
  `string_view` at verilog_detect.cc:309 views a temporary string that is
  gone by the next line, which the model, having no printing, does not show.
- Each rule's `Report`: it only pairs the collected violations with the
  rule's name and topic, which each rule module declares as `RuleName` and
  `Topic`.
- The status texts of the formatter keep the source's fixed text only: the
  list of partially formatted lines and the closing
  "*** end of partially formatted partition list" line after
  `IncompleteSearchMessage`, and the diff details after `NotEquivalentMessage`,
  are not modelled, because they print lines and diffs the model does not
  render.
- TokenPartitionTrees.MoveLastLeafIntoPreviousSibling: the source returns a
  pointer to the removed leaf's former parent (`rightmost_leaf_parent`); the
  model has no node identity, so `Moved` carries the whole tree after the
  move instead. In the source a previous leaf outside the given subtree also
  gives the null result; the model's tree has nothing outside it, so that
  case is the one with fewer than two leaves.
- TokenPartitionTrees.MoveLastLeafOnlyChildFailsCheck: shows one well-formed
  tree whose only-child rightmost leaf makes the move fail its check; no
  general statement over all such trees is proved.
- VerilogDetect.FileStatus: after a failed lex or parse the source still
  walks the syntax tree (verilog_detect.cc:283) without the null check that
  `VerifyParseTree` makes (line 124); the model gives such a file status 1
  and does not model a walk over a missing tree.
- Lint violations are compared as whole values, anchor offset included; the
  ordering of the violation set is declared in lint_rule_status.h, which is
  not part of this model.
- UnwrappedLines.AsCode: the verbose form, which writes each token's
  spacing in `CompactNotation` before its text, is not modelled, because
  `CompactNotation` lives in another file; only the non-verbose form that
  `operator<<` prints is.
- Concurrency: none exists in the modelled code.

## Findings

| source | as written | input that shows it | evidently intended | confidence | as-written member | corrected member |
|---|---|---|---|---|---|---|
| common/analysis/lint_waiver.cc:215-219 | an entry whose rule is not active only logs a warning and goes on to waive the empty rule name | waiver entry `waive no-tabs 5` with only `always-comb` active: the empty rule becomes waived on line 4, so the waiver is no longer empty | skip the entry, as the warning "Ignoring waiver file entry" says | medium, not executed | LintWaivers.InactiveRuleEntryWaivesEmptyRule | LintWaivers.ApplyExternalEntry |
| verilog/tools/detector/verilog_detect.cc:297 | the trailing range is added only when `itr_range < lines_of_code` | 4 lines with lines 2-3 excluded: output `1-1`, line 4 is neither excluded nor listed | `itr_range <= lines_of_code`, so that a single remaining last line is listed | medium, not executed | VerilogDetect.ComplementAsWrittenIncludedLines | VerilogDetect.ComplementIsExactlyTheIncludedLines |

The corrected definitions are `LintWaivers.ApplyExternalEntry`, which
`ApplyExternalWaivers` uses, and `VerilogDetect.Complement`. An excluded range
that starts at line 1 also makes the source print an empty pair such as
`1-0`. The model keeps that pair, because it holds no line
(`VerilogDetect.ExclusionAtFirstLineGivesEmptyPair`).

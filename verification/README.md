# Verible's common layer, modelled and verified in Dafny

This project models the algorithmic core of Verible's language-independent `common/` layer and of
the diff engine it ships, and proves what that code is for. Each operation is written in the form the
source has (loops and classes where the source updates state, functions where it computes), is proved
against a definition that does not mention it, and is followed by lemmas about that definition.

`dafny verify dfyconfig.toml` checks everything.

## What is proved

**Diff engine** (`EditGraph`, `MiddleSnake`, `SnakeRecord`, `Edits`, `EditScript`). Cost in the edit graph is
defined by the textbook recurrence. The bidirectional search over the interleaved array `w`, with its trimmed
diagonals, never reads out of bounds, records on every diagonal the furthest point that the round can
reach, and stops at a point of a cheapest path that is never a corner. From this `Generate` terminates, and the
script is minimal over *every* script that turns the first sequence into the second, as the head of the file
promises; its edits are non-empty, contiguous and never alike next to each other.

**Layout optimizer** (`LayoutFunction`, `LayoutChoice`, `LayoutStack`, `LayoutJuxtaposition`, `LayoutWrap`,
`LayoutWrapPrice`, `LayoutOptimizer`, `LayoutRows`, `LayoutReconstruction`, `LayoutHanging`, `LayoutPolicies`). The
combinators that sweep over knots agree at every column with their pointwise definitions and have knots just where those
change. `Wrap` costs at every column the least, over all ways of breaking a list into lines, of the lines and a stated
price per break, less a discount on the first break that is stated exactly; without one it is the optimum. For every
consistent partition tree the layout function is, policy by policy, what the combinators make of those of the children,
and every layout arranges the tree's tokens once and in order; for nodes of plain leaves the rows that each policy gives
are stated on the page. The tree built back from the layout chosen has the same tokens in just the lines that the layout
means; where its last line ends, against the span that was predicted, is an equation. `LayoutBeyondLimit` and
`LayoutLostIndentation` hold the inputs at which the two predictions fail.

**Line-wrap search** (`StateNodes`, `LineWrapSearch`, `LineWrapText`). The column that a state predicts is the length of
the last line of the text finally rendered, multi-line tokens included; the cost of a state is the sum of the prices that
its decisions have in that text; a wrapped token lands at the column of the innermost open group. The search returns
wrappings of least cost over all decisions that the tokens allow, terminating even without a state limit; a limit no
smaller than the tree of decisions never aborts it.

**Partition trees** (`PartitionTree`, `PartitionSurgery`, `PartitionEdit`). Merging a leaf into either neighbour and grouping
it with the previous one, however distant the relatives, keep at every node both range invariants, and do to
the list of leaves exactly what they should.

**Tabular alignment** (`Alignment`). Cells of a column line up in all printed rows at any depth of nesting: flush-left
cells start together, flush-right cells end together, every cell keeps at least the spaces that it requires, and no
spacing is negative unless the last row decides on a delimiter.

**Patches** (`DiffHunks`, `Patch`, `PatchApply`, `PatchEdges`). Hunks cut from a script replay to the new text and show
an unchanged token exactly if it is within the context of a change; splitting a hunk cuts its groups of changes apart and
conserves lines, counts and line numbers; for every patch, file and sequence of answers the outcome of picking hunks is a
function of the answers, and what is written is the original with exactly the accepted parts replaced.

**Language server** (`MessageStream`, `MessageFraming`, `Utf8`, `TextBuffer`). Whatever messages are sent, in any division into reads,
the same messages come out and no byte is lost; the incrementally edited lines always spell out the flat document with the same splices applied.

**Line and token index** (`LineIndex`). Binary search over line starts counts newlines, both constructions of the index agree,
tokens are grouped by the line they start on, and positions found for offsets lead the text buffer back to them.

`Seqs` holds facts about sequences that the proofs use by name.

## Where the code differs from what one would expect

- `LayoutFunctionFactory::Indent` by 0 is not the identity: at a knot past the column limit it lowers the cost
  (`LayoutStack.IndentByZero` says exactly when). `Wrap` indents even when the hanging indentation is 0, so the first
  break is given back the charge for the knot in force in the rest (`LayoutWrap.DiscountIsZero` says exactly when that is
  nothing). At column 12 of a list of three fragments `Wrap` promises 1306 where every breaking costs 1506 or more
  (`LayoutBeyondLimit.WrapFallsShort`).
- The branch of `InsertEditAt` that would merge into the following edit is never taken
  (`EditScript.PrefixInserted`).
- A full replacement by an empty text resets the length and keeps the lines; the buffer then stays consistent
  if and only if the document was empty before (`TextBuffer.EditTextBuffer.ApplyChange`).
- A line edit whose end lies beyond the line is cut back to the end of the line, and it is refused if and only if the
  start then lies after that end (`TextBuffer.EditTextBuffer.LineEdit`).
- In a wrapped list a fragment that must start a line can be indented by the hanging indentation twice
  (`LayoutHanging.HangsTwice`), because a tie goes to the layout that joins it to its line first. Without such fragments all
  lines after the first hang by just that (`LayoutHanging.WrappedRowsHang`).
- In an edit across lines a character beyond the last line of the range stands behind its newline, which is then
  swallowed: the list goes on with two lines where the text has one. Lines are kept exactly under the condition of
  `TextBuffer.KeepsExactly`; `TextBuffer.NewlineSwallowed` is an edit where they are not.
- Indentation of a layout that gets appended to a line is discarded by the reconstruction, and the texts of tokens that
  go over several lines are counted whole there but only up to the first line break in spans. So the last line ends at
  the predicted column, short of the former and beyond by the latter (`LayoutRows.SpanMissedBy`); nothing is discarded
  exactly if nothing that is appended on the way is indented (`LayoutRows.DiscardsNothing`).
  `LayoutLostIndentation.LastLineIsNarrower` is a partition whose line ends 4 columns early.
- A delimiter column is given no width when the last row has the one longest cell before it; all columns still line
  up, but a spacing can then be negative (`Alignment.NegativeSpacing`). Otherwise none is.
- A hunk that only adds lines at line 0 passes the verification, and accepting it makes the code read before the
  first line as soon as it goes on (`PatchEdges.StartZeroReadsOutside`, `PatchEdges.OutOfRangeExactly`).
- The test for the order of hunks lets the last line of a hunk be taken up again by the next one
  (`PatchEdges.OverlapByOne`, `PatchEdges.OrderExactly`).
- The answers 'a' and 'd' of `PickApply` act as 'y' and 'n' for one hunk, because the prompt is rebuilt on each pass
  (`PatchEdges.DecidesOneHunk`, `PatchEdges.AcceptsRemaining`).

## Model

| member | source | states |
|---|---|---|
| EditGraph.CostParity | external_libs/editscript.h:337-448 | the cost of reaching a point has the parity of its coordinates' sum, the reason why only one of the two passes looks for an overlap |
| EditGraph.CostBoundsDiagonal | external_libs/editscript.h:367-444 | a point on diagonal k costs at least k edits in either direction, so round d need not look beyond diagonals -d to d |
| EditGraph.Triangle | external_libs/editscript.h:386-401 | a path through any point costs at least the distance |
| EditGraph.BackwardsIsMirrored | external_libs/editscript.h:404-424 | the costs that the reverse pass computes are those of the forward pass on reversed sequences |
| EditGraph.Waypoint | external_libs/editscript.h:337-448 | for every cost up to the distance there is a point of a cheapest path with that cost before it |
| MiddleSnake.StepFurthest | external_libs/editscript.h:369-384 | taking the further of the two neighbours and sliding along matches gives the furthest point that d edits reach on a diagonal |
| MiddleSnake.SnakeReached | external_libs/editscript.h:379-383 | sliding along matching tokens costs no edit |
| MiddleSnake.OverlapIsCheapest | external_libs/editscript.h:389-401 | when the two passes overlap on a diagonal, the point found lies on a cheapest path, with exactly the edits of either pass before and after it |
| MiddleSnake.NoOverlapNoMeeting | external_libs/editscript.h:389-401 | without an overlap on a diagonal no point there is reached from both ends with the edits spent so far |
| MiddleSnake.NoMeetingNotCheapest | external_libs/editscript.h:367-448 | rounds without a meeting show that the distance is larger than the edits spent |
| MiddleSnake.SomeCleanDiagonal | external_libs/editscript.h:367-448 | in every round up to the distance some diagonal has not left the rectangle, so trimming never leaves a round empty |
| MiddleSnake.AtLeastTwoEdits | external_libs/editscript.h:264-325 | runs without a common first or last token are at least two edits apart |
| SnakeRecord.StartIsSound | external_libs/editscript.h:369-378 | every diagonal visited in a round has a neighbour that an earlier round set, and its start column is reachable |
| SnakeRecord.PartialStep | external_libs/editscript.h:369-384 | writing one slot of the array extends the part of the round whose entries are furthest, and leaves the other pass alone |
| SnakeRecord.TrimmedNotClean | external_libs/editscript.h:385-388 | a diagonal that a cheapest path may still use is never trimmed |
| SnakeRecord.RoundIsDone | external_libs/editscript.h:367-403 | after a pass over its untrimmed diagonals, the whole round is recorded |
| SnakeRecord.RoundExcludes | external_libs/editscript.h:367-444 | a round that returned nothing excludes every meeting with its number of edits |
| Edits.PathSpells | external_libs/editscript.h:42-48 | EQUALS and DELETE of a contiguous script concatenate to the first sequence, EQUALS and INSERT to the second |
| Edits.ScriptCostsDistance | external_libs/editscript.h:24-26 | every script that turns one sequence into the other, however it is cut, costs at least the distance |
| Edits.StripPrefix | external_libs/editscript.h:231-241 | a common prefix does not change the distance |
| Edits.StripSuffix | external_libs/editscript.h:231-241 | a common suffix does not change the distance |
| Edits.FuseAssociative | external_libs/editscript.h:97-106 | appending edit by edit with fusion is the same as joining whole blocks |
| Edits.FusePath | external_libs/editscript.h:97-106 | joining two contiguous blocks with fusion keeps them contiguous and leaves no equal operations side by side |
| EditScript.EditList.AppendEdit | external_libs/editscript.h:97-106 | the vector becomes the old one joined with the new edit |
| EditScript.PrefixInserted | external_libs/editscript.h:117-138 | a common prefix put back before its block is the block with the prefix joined in front, and the merge into the next edit never happens |
| EditScript.CommonAffix | external_libs/editscript.h:161-173 | the longest common prefix |
| EditScript.Search | external_libs/editscript.h:281-321 | the first occurrence of a pattern, or the end if there is none |
| EditScript.Diff.WalkFront | external_libs/editscript.h:368-403 | one forward pass: the array records the round, or a split of a cheapest path is returned |
| EditScript.Diff.WalkReverse | external_libs/editscript.h:405-443 | one reverse pass: the same from the other end |
| EditScript.Diff.GetBisectSplitPoints | external_libs/editscript.h:337-448 | the split lies inside the rectangle, is neither corner and lies on a cheapest path; no split means the runs have nothing in common |
| EditScript.SubstringSolves | external_libs/editscript.h:281-321 | keeping the shorter run inside the longer one is optimal |
| EditScript.SplitSolves | external_libs/editscript.h:458-472 | optimal scripts of the two halves of a cheapest split join to an optimal script |
| EditScript.Diff.Generate | external_libs/editscript.h:205-253 | appends an optimal, contiguous block for the two ranges, and terminates |
| EditScript.Diff.Compute | external_libs/editscript.h:264-325 | the same for ranges without common ends |
| EditScript.Diff.Bisect | external_libs/editscript.h:458-472 | the same by recursion on strictly smaller ranges |
| EditScript.GetTokenDiffs | external_libs/editscript.h:480-488 | the script transforms tokens1 into tokens2, is contiguous without empty or like neighbouring edits, and no other script costs less |
| LayoutFunction.AtUnique | verible/common/formatting/layout-optimizer.cc:193-203 | the segment at or to the left of a column is the only one in force there |
| LayoutFunction.MoveToKnotAtOrToTheLeftOf | verible/common/formatting/layout-optimizer-internal.h:386-400 | stepping an index from anywhere ends at the segment in force at the column |
| LayoutFunction.Adopt | verible/common/formatting/layout-optimizer.cc:70-88 | adopting, flattened or not, appends the pieces of the source after those of the destination |
| LayoutFunction.AdoptSpan | verible/common/formatting/layout-optimizer.cc:70-88 | flattening changes no span: a stack takes the span of its last part, a juxtaposition adds spacing and span |
| LayoutChoice.StaysBehind | verible/common/formatting/layout-optimizer.cc:440-470 | a segment that is not preferred at a column is not preferred before the rounded-up crossover |
| LayoutChoice.Choice | verible/common/formatting/layout-optimizer.cc:414-478 | at every column below infinity the result is the operand that is least by cost, gradient and position, and its knots are just the columns where that operand or its segment changes |
| LayoutStack.Line | verible/common/formatting/layout-optimizer.cc:220-238 | at any column the cost is the penalty for the columns that the line takes beyond the limit; spacing, wrapping flag, span, gradients and the one knot are those of the line |
| LayoutStack.Stack | verible/common/formatting/layout-optimizer.cc:359-412 | at every column the sum of the operands' costs plus one break between each two, with the last operand's span, the flattened stack of the layouts and all pieces in order; knots are those of the operands |
| LayoutStack.Indent | verible/common/formatting/layout-optimizer.cc:240-276 | at every column the layout of the shifted column, indented, less the charge for its knot beyond the limit |
| LayoutStack.IndentWithinLimit | verible/common/formatting/layout-optimizer.cc:240-276 | up to the column limit indenting only shifts the cost |
| LayoutStack.IndentByZero | verible/common/formatting/layout-optimizer.cc:240-276 | indenting by 0 keeps the cost at a column if and only if there is no penalty or the knot in force lies within the limit |
| LayoutJuxtaposition.Juxtaposition | verible/common/formatting/layout-optimizer.cc:278-357 | at every column the left layout of that column and the right layout of the column where the left one ends, with knots just where either changes; a right side that must wrap is stacked at a huge price |
| LayoutJuxtaposition.JuxtapositionCost | verible/common/formatting/layout-optimizer.cc:303-311 | at every column the cost is that of both sides where they stand, less the charge left of the right side if the knot in force puts it beyond the limit |
| LayoutJuxtaposition.LayStep | verible/common/formatting/layout-optimizer.cc:313-354 | between a knot of the result and the next change of either side nothing changes |
| LayoutWrap.BestFirstLine | verible/common/formatting/layout-optimizer-internal.h:670-712 | the best first line followed by the best for the rest is the best over all breakings, whatever the first break is given back |
| LayoutWrap.RowIsLeast | verible/common/formatting/layout-optimizer-internal.h:670-712 | choosing among the candidates of a row gives, at every column, the least cost from that element on, in row 0 less what the first break is given back |
| LayoutWrap.DiscountIsZero | verible/common/formatting/layout-optimizer-internal.h:674-678 | nothing is given back if and only if there is no penalty or neither the knot in force in the rest nor the hanging indentation lies beyond the limit |
| LayoutWrap.WrapIsLeast | verible/common/formatting/layout-optimizer-internal.h:656-714 | at every column the cost is the minimum, over all ways of cutting the list into lines, of the lines' costs plus the price of each break, less what the first break is given back |
| LayoutWrap.WrapIsOptimal | verible/common/formatting/layout-optimizer-internal.h:656-714 | the plain minimum, at every column at which no knot in force lies beyond the limit, and everywhere without a penalty |
| LayoutWrap.WrapNeverAbove | verible/common/formatting/layout-optimizer-internal.h:656-714 | with a penalty that is not negative no breaking is cheaper than promised, and the promise is the minimum if and only if some breaking of that cost is given back nothing |
| LayoutWrap.Wrap | verible/common/formatting/layout-optimizer-internal.h:656-714 | the table of lines, the best from every element on and the result are those of the recurrence, for any hanging indentation and any elements that must wrap; the cost at every column is the least one less what is given back, and all pieces stay in order |
| LayoutWrapPrice.TokensWrapAtLeastPrice | verible/common/formatting/layout-optimizer-internal.h:670-712 | wrapping tokens costs at every column the least, over all cuts, of the lines plus, for every token that starts a later line, the line break, the penalty for passing the limit and that token's break penalty, less what the first break is given back |
| LayoutWrapPrice.ChildrenWrapAtLeastPrice | verible/common/formatting/layout-optimizer.cc:572-597 | wrapping children costs the same with one line break for every later line |
| LayoutBeyondLimit.WrapFallsShort | verible/common/formatting/layout-optimizer-internal.h:674-678 | at column 12 of a line and two stacks with limit 10 the result costs 1306, while the least over all breakings is 1506 |
| LayoutBeyondLimit.WrapBeyondLimit | verible/common/formatting/layout-optimizer-internal.h:656-714 | Line, Stack and Wrap on that list: the cost is 200 below the least |
| LayoutOptimizer.PiecesSpell | verible/common/formatting/layout-optimizer.cc:499-511 | the pieces of a consistent tree spell out its tokens once and in order, and none is empty |
| LayoutOptimizer.LineOf | verible/common/formatting/layout-optimizer-internal.h:75-83 | the layout function of one unwrapped line with its own spacing and wrapping flag, and the cost of a line |
| LayoutOptimizer.WrappedLine | verible/common/formatting/layout-optimizer.cc:205-218 | every token becomes a line of its own, and the result is what Wrap makes of them at the price of their break penalties; all in order |
| LayoutOptimizer.WrapsAtLeastCost | verible/common/formatting/layout-optimizer.cc:572-597 | where a policy wraps, the cost is the least over all ways of breaking its list of children, less what the first break is given back |
| LayoutOptimizer.CombineLayouts | verible/common/formatting/layout-optimizer.cc:565-676 | each policy uses its own combinator, on the children's layouts indented as the policy says, and the result arranges the pieces of all children in order |
| LayoutOptimizer.CalculateOptimalLayout | verible/common/formatting/layout-optimizer.cc:499-676 | for every consistent partition tree the layout function is the combination, node by node, that the policies ask for, and every layout arranges exactly the tree's pieces |
| LayoutHanging.WrappedRowsHang | verible/common/formatting/layout-optimizer.cc:572-597 | of plain leaves that are wrapped, none but the first of which must start a line, the first row stands at the node's column and all others at the second child's relative indentation, if that is deeper |
| LayoutHanging.WrappedTokensHang | verible/common/formatting/layout-optimizer.cc:205-218 | the rows of wrapped tokens after the first stand wrapSpaces further |
| LayoutHanging.HangsTwice | verible/common/formatting/layout-optimizer-internal.h:696-711 | three fragments, the last of which must wrap: it stands at twice the hanging indentation |
| LayoutHanging.WrapHangsTwice | verible/common/formatting/layout-optimizer-internal.h:656-714 | Line and Wrap on such fragments |
| LayoutPolicies.StackPolicies | verible/common/formatting/layout-optimizer.cc:531-556 | kStack, kAlwaysExpand and kTabularAlignment give every plain child a row of its own at its relative indentation |
| LayoutPolicies.JuxtapositionPolicy | verible/common/formatting/layout-optimizer.cc:568-569 | kJuxtaposition gives one row with all tokens and the spaces that they require, unless a later child must start a line |
| LayoutPolicies.ForcedBelow | verible/common/formatting/layout-optimizer.cc:283-293 | a second child that must start a line does so all the same |
| LayoutPolicies.EitherPolicy | verible/common/formatting/layout-optimizer.cc:599-621 | kJuxtapositionOrIndentedStack gives either, and only the stack if a later child must start a line |
| LayoutPolicies.FittingPolicies | verible/common/formatting/layout-optimizer.cc:657-659 | kAppendFittingSubPartitions and kFitOnLineElseExpand start every row at the node's column |
| LayoutPolicies.FormattedPolicy | verible/common/formatting/layout-optimizer.cc:632-655 | kAlreadyFormatted gives one row that starts at the first slice's indentation and keeps the spacing of the slices |
| LayoutPolicies.LeafIsOneRow | verible/common/formatting/layout-optimizer.cc:499-511 | a leaf is one row, unless it wraps and has 2 to 24 tokens |
| LayoutPolicies.WrappedLeafHangs | verible/common/formatting/layout-optimizer.cc:499-511 | otherwise its tokens are wrapped and the later rows hang by wrapSpaces |
| LayoutReconstruction.AlreadyFormattedPartitionLength | verible/common/formatting/layout-optimizer.cc:90-117 | 0 without tokens; otherwise counting all required spacing and correcting it per slice gives indentation plus spacing and text of every slice |
| LayoutRows.RowsEnd | verible/common/formatting/layout-optimizer.cc:678-772 | the last of the lines that a layout means ends where the layout reaches |
| LayoutRows.SpanMissedBy | verible/common/formatting/layout-optimizer.cc:678-772 | that reach is the span, short of the indentation of what is appended on the way and beyond by what multi-line tokens have behind their first line break |
| LayoutRows.DiscardsNothing | verible/common/formatting/layout-optimizer.cc:691-732 | no indentation is discarded if and only if nothing that is appended on the way to the last line is indented |
| LayoutRows.AddsNothing | verible/common/formatting/layout-optimizer-internal.h:137-158 | nothing is added if and only if every token of the last line is of one line |
| LayoutReconstruction.AppendedOk | verible/common/formatting/layout-optimizer.cc:701-730 | appending a piece keeps the slices a partition of the line, and the line grows by the piece's spacing and text |
| LayoutReconstruction.TreeReconstructor.TraverseTree | verible/common/formatting/layout-optimizer.cc:678-772 | the lines gain exactly the layout's tokens, the contiguity check never fails, and the lines are those that the layout means at the current column: start, tokens and end of each |
| LayoutReconstruction.TreeReconstructor.PlaceLine | verible/common/formatting/layout-optimizer.cc:691-732 | a line of the layout starts a line at the current indentation or extends the current one by its spacing and text |
| LayoutReconstruction.Optimize | verible/common/formatting/layout-optimizer.cc:480-497 | the layout chosen is the one of the tree's layout function at the indentation; the partition that takes the node's place has the same tokens in just the lines which that layout means, made up of their slices, and its last line ends at the predicted column less the indentation discarded plus the tails of multi-line tokens |
| LayoutLostIndentation.IndentationIsLost | verible/common/formatting/layout-optimizer.cc:678-772 | a token beside a stack of one indented child: at every column the layout chosen discards the indentation of 4 |
| LayoutLostIndentation.LastLineIsNarrower | verible/common/formatting/layout-optimizer.cc:480-497 | the optimizer on that partition: the line ends 4 columns before the predicted end |
| StateNodes.PathInvariant | verible/common/formatting/state-node.cc:77-127 | on every decision path the wrap stack is never empty and no column is negative |
| StateNodes.ColumnIsRendered | verible/common/formatting/state-node.cc:137-212 | for every decision path the current column is the length of the last line of the rendered text |
| StateNodes.SpacingNotNegative | verible/common/formatting/state-node.cc:347-386 | no reconstructed spacing is negative |
| StateNodes.FormattedExcerpt.ReconstructFormatDecisions | verible/common/formatting/state-node.cc:347-386 | walking the parents backwards writes every decision to its token and leaves the tokens beyond the path alone |
| StateNodes.FormattedExcerpt.Render | verible/common/formatting/unwrapped-line.cc:120-147 | the stream receives the rendered text of the decided tokens |
| StateNodes.Depth | verible/common/formatting/state-node.h:120-128 | counting ancestors gives the number of tokens decided |
| LineWrapSearch.CostGrows | verible/common/formatting/state-node.cc:214-239 | with penalties that are not negative a longer decision sequence never costs less |
| LineWrapText.CostIsPrice | verible/common/formatting/state-node.cc:214-239 | for every sequence of decisions the cost is the sum of their prices in the rendered text: a wrap its break penalty, an append past the limit the penalty and one for every column beyond, up to the token's first line break |
| LineWrapText.CheapestOnThePage | verible/common/formatting/line-wrap-searcher.cc:69-150 | no decisions have a lower price on the page than those of a state returned as cheapest |
| LineWrapText.SpacingIsAllowed | verible/common/formatting/line-wrap-searcher.cc:112-141 | what is printed before a token is a line break if it must wrap, its own spaces if it must be appended, its original spacing if that is preserved, and otherwise either of the first two |
| LineWrapText.BothAreLegal | verible/common/formatting/line-wrap-searcher.cc:112-141 | both are tried for an undecided token, and some decision for every token |
| LineWrapText.StackIsGroups | verible/common/formatting/state-node.cc:241-314 | the wrap columns are those of the open groups: where the text ended behind the opening if the next token was appended, a wrap further than the group around it if that was wrapped; a wrapped token is printed at the innermost one |
| LineWrapSearch.WinnersAreCheapest | verible/common/formatting/line-wrap-searcher.cc:72-102 | a finished state that costs no more than every open one is cheapest over all complete decision sequences |
| LineWrapSearch.PopTop | verible/common/formatting/line-wrap-searcher.cc:75-76 | takes a least state by cost and column off the worklist and keeps the others |
| LineWrapSearch.Explore | verible/common/formatting/line-wrap-searcher.cc:69-150 | terminates without a state limit; every state returned is complete and cheapest, except that an aborted search ends in one finished greedily; it is not aborted if the tree of decisions has at most one state more than the limit, and it is if the limit is below the number of tokens |
| LineWrapSearch.SearchLineWraps | verible/common/formatting/line-wrap-searcher.cc:47-166 | every formatting returned holds the decisions of a winner, all of least cost but for the last one of an aborted search, which is finished greedily, and is marked incomplete just then; a line without tokens gives one default excerpt |
| LineWrapSearch.QuickFinish | verible/common/formatting/state-node.cc:335-345 | completes a state by the greedy decision at every token: wrap if the token must or would not fit, else append |
| LineWrapText.GreedyOnThePage | verible/common/formatting/state-node.cc:316-333 | the greedy decision appends a token exactly if it need not wrap and the printed line with it stays within the limit |
| LineWrapSearch.FitsOnLine | verible/common/formatting/line-wrap-searcher.cc:180-210 | true if and only if no token must wrap and every prefix appended on one line stays within the limit; the column is that of the whole line, or of the first token that fails |
| PartitionTree.VerifyNodeRanges | verible/common/formatting/token-partition-tree.cc:47-89 | accepts just the nodes that span their children with contiguous siblings |
| PartitionTree.VerifyTreeRanges | verible/common/formatting/token-partition-tree.cc:91-97 | accepts just the trees all of whose nodes are consistent |
| PartitionTree.PreviousLeaf | verible/common/util/tree-operations.h:530-554 | the last leaf of the sibling before the nearest ancestor that has one; none exactly for first leaves |
| PartitionTree.NextLeaf | verible/common/util/tree-operations.h:495-520 | the first leaf of the sibling after the nearest ancestor that has one |
| PartitionTree.NearestCommonAncestor | verible/common/util/tree-operations.h:436-461 | climbing from both nodes in turn finds the deepest common ancestor |
| PartitionTree.LeavesPut | verible/common/util/tree-operations.h:609-614 | replacing a subtree replaces just its leaves in the list of leaves |
| PartitionSurgery.MergedBackOk | verible/common/formatting/token-partition-tree.cc:453-496 | moving the boundary between two neighbouring leaves keeps both range invariants at every node below the common ancestor |
| PartitionSurgery.GroupedBackOk | verible/common/formatting/token-partition-tree.cc:403-450 | so does grouping them |
| PartitionSurgery.MergedForwardOk | verible/common/formatting/token-partition-tree.cc:499-542 | so does merging forward |
| PartitionSurgery.LeavesMergedBack | verible/common/formatting/token-partition-tree.cc:453-496 | two leaves become one with both ranges; a parent left without children stays as an empty leaf |
| PartitionSurgery.LeavesGroupedBack | verible/common/formatting/token-partition-tree.cc:403-450 | all leaves are kept |
| PartitionSurgery.LeavesMergedForward | verible/common/formatting/token-partition-tree.cc:499-542 | two leaves become one with both ranges |
| PartitionEdit.TokenPartitionTree.UpdateTokenRangeUpperBound | verible/common/formatting/token-partition-tree.cc:394-401 | walking up changes the end of exactly the nodes on the path below the last one |
| PartitionEdit.TokenPartitionTree.UpdateTokenRangeLowerBound | verible/common/formatting/token-partition-tree.cc:383-390 | walking up changes the begin of exactly the nodes on the path below the last one |
| PartitionEdit.TokenPartitionTree.MergeLeafIntoPreviousLeaf | verible/common/formatting/token-partition-tree.cc:453-496 | the in-place steps amount to the merge at the nearest common ancestor; every node stays consistent, the overall range and all other leaves stay; nothing happens to the first leaf |
| PartitionEdit.TokenPartitionTree.GroupLeafWithPreviousLeaf | verible/common/formatting/token-partition-tree.cc:403-450 | the same for grouping; the group stands in place of the previous leaf with both leaves as children |
| PartitionEdit.TokenPartitionTree.MergeLeafIntoNextLeaf | verible/common/formatting/token-partition-tree.cc:499-542 | the same towards the next leaf; nothing happens to the last leaf |
| Alignment.WidthNotNegative | verible/common/formatting/align.cc:82-97 | the effective width of a cell is never negative |
| Alignment.WidthIsLength | verible/common/formatting/align.cc:82-97 | the width of a cell is the length of its text, its tokens with their own spaces between them |
| Alignment.RowWidths | verible/common/formatting/align.cc:574-605 | a cell without tokens starts and ends where its subcells do, the leftmost cells have no border, and no width is negative |
| Alignment.AlignToLastRow | verible/common/formatting/align.cc:619-641 | true if and only if there is a delimiter and the last row has the one longest cell before the first one |
| Alignment.WidenedOk | verible/common/formatting/align.cc:665-680 | after widening every column covers its subcolumns |
| Alignment.ComputeColumnWidths | verible/common/formatting/align.cc:609-684 | the columns are the maxima over all rows, widened; every cell of every row fits its column with its border (delimiter columns without width and overridden borders excepted) and every column covers its subcolumns |
| Alignment.PlaceCell | verible/common/formatting/align.cc:749-773 | spacing, text and leftover spaces add up to the width of the column, neither is negative when the cell fits, and the column's border is kept |
| Alignment.ComputeAlignedRowCellSpacings | verible/common/formatting/align.cc:705-782 | the text so far, with the widths of the cells, plus accrued spaces always equals the width of the columns passed; every cell with tokens gets one spacing and stands where its column says |
| Alignment.EveryCellIsPrinted | verible/common/formatting/align.cc:705-782 | every cell with text gets a spacing, unless it lies inside a cell with tokens of its own |
| Alignment.CellStandsThere | verible/common/formatting/align.cc:705-782 | in the printed row the text of a cell stands between the offsets that are compared |
| Alignment.AlignRows | verible/common/formatting/align.cc:869-989 | for any two rows, cells of one column, measured by their widths, start together if flush left and end together if flush right, at any depth, and so do their texts in the printed rows where no spacing is negative; unless the last row decides on a delimiter no spacing is negative and every cell keeps at least the spaces that its first token requires |
| Alignment.NegativeSpacing | verible/common/formatting/align.cc:619-660 | in a table whose last row is longest before a delimiter of width 2, whatever is aligned has a spacing of -1 |
| DiffHunks.DiffEditsToPatchHunks | verible/common/strings/diff.cc:98-158 | replaying the hunks yields the new sequence, all changes are kept once and in order, only unchanged tokens are left out, and the hunks are just the groups of changes between long runs, each with its context |
| DiffHunks.ShownExactly | verible/common/strings/diff.cc:98-158 | an unchanged token is in a hunk if and only if it is within the context of a change |
| DiffHunks.TogetherExactly | verible/common/strings/diff.cc:117-133 | two neighbouring changes are in one hunk if and only if at most two contexts separate them |
| DiffHunks.DiffToHunks | verible/common/strings/diff.cc:160-164 | the hunks of a computed diff replay to the new sequence with the least number of changed tokens |
| Patch.CountMarkedLines | verible/common/strings/patch.cc:172-193 | the lengths of the old and the new text of a hunk |
| Patch.AddedLines | verible/common/strings/patch.cc:216-225 | the numbers that the added lines have in the new file |
| Patch.CutPoints | verible/common/strings/patch.cc:249-287 | the cuts are those that the definition gives, and every part has a change if the hunk has one |
| Patch.CutsAreCuts | verible/common/strings/patch.cc:249-287 | a position is a cut if and only if a change is followed there by common lines and a change comes later |
| Patch.GroupsComeApart | verible/common/strings/patch.cc:249-287 | two changed lines with only common lines between them are cut apart if and only if there are any |
| Patch.Split | verible/common/strings/patch.cc:268-307 | the parts are the recounted runs between the cuts; they chain up, are valid and conserve lines, counts and the old and new line numbers of every line |
| PatchApply.VerifyAgainstOriginalLines | verible/common/strings/patch.cc:227-247 | for any hunk: matches if its old lines, if any, stand in the file where it says, differs if they do not, and reads outside if they start before line 1 |
| PatchEdges.MatchesExactly | verible/common/strings/patch.cc:227-247 | a hunk matches if and only if every line of it that is not added stands in the file at its old number |
| PatchEdges.MatchesIsInPlace | verible/common/strings/patch.cc:227-247 | a hunk whose header counts its lines is in place if and only if it matches and ends within the file |
| PatchApply.SplitKeepsRest | verible/common/strings/patch.cc:493-502 | replacing a hunk by its parts in the worklist keeps the rest applicable and its lines the same |
| PatchApply.AcceptHunk | verible/common/strings/patch.cc:473-483 | writing the new lines of an accepted hunk continues the patched file |
| PatchApply.PickApply | verible/common/strings/patch.cc:410-532 | for every file, patch and sequence of answers the outcome is the one that the answers determine: a mismatch, a quit that leaves the file alone, hunks out of order, a failed check, a read outside of the file, or the file written; for hunks in place that is the original with exactly the accepted hunks or parts applied |
| PatchApply.RunIsAnswered | verible/common/strings/patch.cc:441-519 | hunks in place never end the questions early: what is decided depends on the answers alone |
| PatchApply.FinishedDecidesAll | verible/common/strings/patch.cc:493-502 | when all questions are answered the decided parts are all lines of the patch, however hunks were split |
| PatchEdges.DecidesEach | verible/common/strings/patch.cc:441-519 | a yes or no for every hunk decides just that |
| PatchEdges.GivesUpAt | verible/common/strings/patch.cc:504-507 | giving up, or running out of answers, at any hunk leaves the file alone |
| PatchEdges.SplitsThenDecides | verible/common/strings/patch.cc:493-502 | splitting puts the parts of a hunk to the question, one by one and before the rest |
| PatchApply.AcceptAllIsWholePatch | verible/common/strings/patch.cc:473-502 | answers without a rejection that decide everything apply the whole patch, however hunks were split |
| PatchApply.RejectAllIsOriginal | verible/common/strings/patch.cc:485-492 | answers without an acceptance leave the original |
| PatchEdges.StartZeroReadsOutside | verible/common/strings/patch.cc:449-483 | a hunk that adds a line at line 0 matches, and accepting it reads before the first line |
| PatchEdges.OutOfRangeExactly | verible/common/strings/patch.cc:449-526 | in an ordered patch that fits, lines before the first are read if and only if a part that starts at line 0 is accepted and the run goes on |
| PatchEdges.OrderExactly | verible/common/strings/patch.cc:447-452 | hunks are reported out of order if and only if one starts before the lines used up when it is reached |
| PatchEdges.OverlapByOne | verible/common/strings/patch.cc:447-452 | two hunks that share a line match and are both applied |
| PatchEdges.DecidesOneHunk | verible/common/strings/patch.cc:460-492 | the answers for all remaining hunks decide as those for one hunk do |
| PatchEdges.AcceptsRemaining | verible/common/strings/patch.cc:468-473 | 'a' accepts all remaining hunks if and only if one remains |
| MessageStream.HeaderExtends | verible/common/lsp/message-stream-splitter.cc:45-72 | a header that is complete or garbled stays so when more bytes arrive |
| MessageFraming.AnnouncesLength | verible/common/lsp/message-stream-splitter.cc:45-72 | a header with a length line, whatever other lines stand around it, announces the number written there, and is garbled if that exceeds the largest int |
| MessageFraming.WithoutLengthGarbled | verible/common/lsp/message-stream-splitter.cc:45-72 | a header without a length is garbled |
| MessageFraming.MessageReadsBack | verible/common/lsp/message-stream-splitter.cc:77-105 | a message that is sent comes out as it was, and reading goes on behind it |
| MessageFraming.RoundTrip | verible/common/lsp/message-stream-splitter.cc:77-105 | whatever messages are sent are received, with nothing left over |
| MessageFraming.ReceivedHoweverDivided | verible/common/lsp/message-stream-splitter.cc:109-146 | the same in any division into reads |
| MessageStream.ParseExtends | verible/common/lsp/message-stream-splitter.cc:77-105 | parsing can stop anywhere and go on with what was left over |
| MessageStream.DivisionDoesNotMatter | verible/common/lsp/message-stream-splitter.cc:109-146 | however the stream is divided into reads, the messages, the pending bytes and the failure are those of parsing it at once |
| MessageStream.NothingIsLost | verible/common/lsp/message-stream-splitter.cc:77-105 | delivered messages and pending bytes spell out the stream |
| MessageStream.EveryMessageIsFramed | verible/common/lsp/message-stream-splitter.cc:45-72 | every delivered message has a header that announces the length of its body |
| MessageStream.MessageStreamSplitter.ProcessContainedMessages | verible/common/lsp/message-stream-splitter.cc:77-105 | delivers the messages of the data in order and keeps the rest, with the largest body recorded |
| MessageStream.MessageStreamSplitter.ReadInput | verible/common/lsp/message-stream-splitter.cc:109-146 | after every read the messages delivered are those of the whole stream so far, bytes read are counted, and end of input is data loss exactly when bytes are pending |
| Utf8.LenIsCharCount | verible/common/strings/utf8.h:24-27 | on valid text, counting bytes that do not continue a character counts characters |
| Utf8.Utf8Substr | verible/common/strings/utf8.h:31-47 | of any bytes, what follows the first position at which no announced byte is outstanding; of valid text, the text from a character on |
| Utf8.Utf8Substring | verible/common/strings/utf8.h:49-54 | the text between two characters, and for any bytes what is skipped for the length behind what is skipped for the start |
| Utf8.CutBetweenChars | verible/common/strings/utf8.h:31-54 | cutting between characters leaves valid text on both sides |
| TextBuffer.GenerateLines | verible/common/lsp/lsp-text-buffer.cc:57-73 | the lines spell out the content, each but the last with its only newline at its end |
| TextBuffer.EditTextBuffer.ReplaceDocument | verible/common/lsp/lsp-text-buffer.cc:75-79 | the document becomes the text, unless that is empty |
| TextBuffer.EditTextBuffer.LineEdit | verible/common/lsp/lsp-text-buffer.cc:82-100 | the flat document with the change, its end cut back to the line, spliced in; refused exactly when the start lies after that end |
| TextBuffer.EditTextBuffer.MultiLineEdit | verible/common/lsp/lsp-text-buffer.cc:103-133 | for any characters the flat document with the text spliced in between the positions found, and the length kept right; lines stay lines if and only if the edit reaches the last line or leaves a newline at the end of what it writes |
| TextBuffer.WellFormedIsWide | verible/common/lsp/lsp-text-buffer.cc:103-133 | for a change within its lines those positions are the positions of the flat document |
| TextBuffer.KeepsExactly | verible/common/lsp/lsp-text-buffer.cc:103-133 | lines stay lines if and only if the end lies within its line or what stands before it ends in a newline |
| TextBuffer.NewlineSwallowed | verible/common/lsp/lsp-text-buffer.cc:103-133 | an edit that ends beyond its line joins two lines of the text and leaves them apart in the list |
| TextBuffer.EditTextBuffer.ApplyChange | verible/common/lsp/lsp-text-buffer.cc:40-55 | every well-formed change splices the flat document, in the line after the last one too; edits in one line are cut back or refused, edits across lines splice where their characters are found |
| TextBuffer.EditTextBuffer.ApplyChanges | verible/common/lsp/lsp-text-buffer.cc:35-38 | after any run of changes that are well-formed or lie in one line, cut back and refused ones included, the lines spell out the flat document after the same splices |
| LineIndex.IndexOfText | verible/common/strings/line-column-map.cc:58-69 | the index holds 0 and every position after a newline, in order |
| LineIndex.IndexOfLines | verible/common/strings/line-column-map.cc:73-79 | the index of the text from its lines |
| LineIndex.IndexUnique | verible/common/strings/line-column-map.cc:58-79 | a text has only one index |
| LineIndex.IndexBothWays | verible/common/strings/line-column-map.cc:58-79 | both constructors agree on a text and its lines |
| LineIndex.LineAtOffset | verible/common/strings/line-column-map.cc:93-99 | the line of an offset is the number of newlines before it |
| LineIndex.GetLineColAtOffset | verible/common/strings/line-column-map.cc:81-91 | the line, and the characters since the last newline |
| LineIndex.PositionRoundTrip | verible/common/strings/line-column-map.cc:81-91 | the line and column found for a position between characters is the same position for the text buffer |
| LineIndex.TextStructureView.GetLinesInfo | verible/common/text/text-structure.cc:293-302 | the cached lines and index are those of the contents |
| LineIndex.TextStructureView.GetLineTokenMap | verible/common/text/text-structure.cc:99-119 | the cached map partitions the tokens, each in the line of its start |
| LineIndex.CutsGiveMap | verible/common/text/text-structure.cc:99-119 | tokens cut at the starts of the lines are grouped by line |
| LineIndex.TextStructureView.TokenRangeOnLine | verible/common/text/text-structure.cc:163-169 | exactly the tokens that start on the line; none for a line beyond the text |
| LineIndex.TextStructureView.TokenRangeSpanningOffsets | verible/common/text/text-structure.cc:121-132 | exactly the tokens that start between the offsets |
| LineIndex.TextStructureView.FindTokenAt | verible/common/text/text-structure.cc:171-178 | the first token starting on the position's line that covers it, and none if there is none |

## Left out

- Floating point and machine integers: intercepts, costs and counts are mathematical integers, columns stay below the largest 32-bit value.
- Files, terminals, logging, colours, JSON and the language-server dispatcher: answers and reads are input sequences.
- Lexers, parsers, syntax trees, lint rules and waivers.
- The text formats of patches (parsing and printing of unified diffs): hunks are values here.
- Partition trees are values addressed by paths and edited through one variable; parent pointers and the invalidation of references into vectors are not captured. Alignment trees and state nodes are values as well.
- Completeness of the search: that all equally cheap wrappings are returned is not claimed, because the code stops at a tie-breaker on columns.
- Which columns a row has, user-intent inference, and the column-limit check of alignment; columns and cells are given.
- Reshaping of partitions that fit (`AppendFittingSubpartitions`, `ReshapeFittingSubpartitions`) and merging of consecutive siblings.
- The syntax-tree side of text structures (trimming, expansion, and rebasing, after which a token map built earlier is not dropped).
- Aligned tokens in the line-wrap search, on which the code aborts.
- LayoutOptimizer.CalculateOptimalLayout: already formatted partitions are taken to hold inline slices only, indented stacks no child that is indented less than its parent, and inner nodes a policy; the code logs an error or aborts otherwise.
- LayoutHanging.WrappedRowsHang: stated for children that are lines; rows inside children of several lines start where their own layouts say.
- StateNodes.ColumnIsRendered: preserved tokens have a known original spacing; without one the code renders a spacing that the column does not count.
- PatchApply.PickApply: the lines written are stated for hunks that are ordered, disjoint and fit the file; for other patches the outcome is stated, not what is written.
- MessageStream.MessageStreamSplitter.ReadInput: after a garbled header the splitter is not used again, and the sum of header and body size does not wrap around.
- TextBuffer.EditTextBuffer.ApplyChange: ranges whose lines lie beyond the document, on which the code indexes outside of its list, are not covered, and neither is text that is not valid UTF-8.
- TextBuffer.EditTextBuffer.ApplyChanges: runs in which an edit across lines ends beyond its line are not covered, because the list of lines may then not match the text any more.
- DiffHunks.DiffEditsToPatchHunks: the script is not empty, because the code trims the last edit of a hunk that is then empty.

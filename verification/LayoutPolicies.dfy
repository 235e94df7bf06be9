/** What each partition policy does to a node of plain leaves, on the page: the rows of every layout that
    TokenPartitionsLayoutOptimizer::CalculateOptimalLayout computes for it. */
module LayoutPolicies {
  import Seqs
  import opened LayoutFunction
  import opened LayoutChoice
  import opened LayoutStack
  import opened LayoutJuxtaposition
  import opened LayoutWrap
  import opened LayoutOptimizer
  import opened LayoutRows
  import opened LayoutReconstruction
  import opened LayoutHanging

  /** A leaf that becomes a line of its own. */
  predicate IsPlainChild(p: Partition) {
    IsLeaf(p) && p.tokens != [] && 0 <= p.indentation && p.policy != PInline && p.policy != PAlreadyFormatted && p.policy != PWrap
  }

  /** How much deeper than its parent a child is. */
  function Relative(p: Partition, k: nat): nat
    requires k < |p.children|
  {
    if p.children[k].indentation > p.indentation then p.children[k].indentation - p.indentation else 0
  }

  predicate PlainNode(p: Partition) {
    0 <= p.indentation && p.children != [] && forall k :: 0 <= k < |p.children| ==> IsPlainChild(p.children[k])
  }

  /** The line of a plain child: its tokens with the spacing and the flag of the first. */
  function LineOfChild(p: Partition): Layout
    requires p.tokens != []
  {
    LineLayout(p.tokens, p.tokens[0].spacesRequired, p.tokens[0].mustWrap)
  }

  lemma ChildIsLine(style: Style, wrapSpaces: nat, p: Partition, lf: LayoutFn)
    requires IsPlainChild(p) && LaidOutAs(style, wrapSpaces, p, lf)
    ensures Operand(lf) && All(lf, l => l == LineOfChild(p)) && MustWrap(lf) == p.tokens[0].mustWrap
  {
    assert IsLine(style, p.tokens, SpacesBefore(p), LineMustWrap(p), lf);
    LineIsPlain(style, p.tokens, SpacesBefore(p), LineMustWrap(p), lf);
  }

  /** The layouts of the children of a plain node. */
  ghost predicate ChildLines(p: Partition, layouts: seq<LayoutFn>)
    requires PlainNode(p)
  {
    && |layouts| == |p.children|
    && forall k :: 0 <= k < |layouts| ==> Operand(layouts[k]) && All(layouts[k], l => l == LineOfChild(p.children[k]))
                                          && MustWrap(layouts[k]) == p.children[k].tokens[0].mustWrap
  }

  lemma ChildrenAreLines(style: Style, wrapSpaces: nat, p: Partition, lf: LayoutFn) returns (layouts: seq<LayoutFn>)
    requires PlainNode(p) && LaidOutAs(style, wrapSpaces, p, lf) && p.policy != PInline
    ensures ChildLines(p, layouts) && CombinedAs(style, p, layouts, lf)
  {
    hide CombinedAs, Operand, All;
    layouts :| ChildrenLaidOutAs(style, wrapSpaces, p, layouts) && CombinedAs(style, p, layouts, lf);
    forall k | 0 <= k < |layouts|
      ensures Operand(layouts[k]) && layouts[k] != [] && All(layouts[k], l => l == LineOfChild(p.children[k]))
      ensures MustWrap(layouts[k]) == p.children[k].tokens[0].mustWrap
    {
      assert LaidOutAs(style, wrapSpaces, p.children[k], layouts[k]);
      ChildIsLine(style, wrapSpaces, p.children[k], layouts[k]);
      OperandNotEmpty(layouts[k]);
    }
  }

  lemma OperandNotEmpty(lf: LayoutFn)
    requires Operand(lf)
    ensures lf != []
  {
  }

  // ----- one below the other

  predicate AllLeaves(ls: seq<Layout>) { forall k :: 0 <= k < |ls| ==> ls[k].children == [] }

  lemma {:induction false} LeavesGathered(kind: LayoutType, ls: seq<Layout>)
    requires AllLeaves(ls)
    ensures Gathered(kind, ls) == ls
  {
    if ls != [] {
      var n := |ls| - 1;
      LeavesGathered(kind, ls[..n]);
      assert ls == ls[..n] + [ls[n]];
    }
  }

  /** The row of a leaf. */
  function LeafRow(l: Layout, column: int): Row {
    Row(column + l.indentation, l.tokens, column + l.indentation + TextWidth(l.tokens))
  }

  lemma {:induction false} RowsOfLeaves(ls: seq<Layout>, column: int)
    requires AllLeaves(ls)
    ensures var rows := StackRows(ls, column, false);
            |rows| == |ls| && forall k :: 0 <= k < |ls| ==> rows[k] == LeafRow(ls[k], column)
    decreases |ls|
  {
    if ls != [] {
      RowsOfLeaves(ls[..|ls| - 1], column);
    }
  }

  lemma RowsOfStackedLeaves(ls: seq<Layout>, column: int)
    requires ls != [] && AllLeaves(ls)
    ensures var rows := Rows(StackLayout(ls), column, false);
            |rows| == |ls| && forall k :: 0 <= k < |ls| ==> rows[k] == LeafRow(ls[k], column)
  {
    if |ls| > 1 {
      LeavesGathered(KStack, ls);
      RowsOfLeaves(ls, column);
    }
  }

  /** The indented lines of the children. */
  function IndentedLines(p: Partition): (ls: seq<Layout>)
    requires PlainNode(p)
    ensures |ls| == |p.children| && AllLeaves(ls)
  {
    seq(|p.children|, k requires 0 <= k < |p.children| => LineOfChild(p.children[k]).(indentation := Relative(p, k)))
  }

  lemma IndentedChild(style: Style, p: Partition, layouts: seq<LayoutFn>, k: nat, result: LayoutFn)
    requires PlainNode(p) && ChildLines(p, layouts) && k < |layouts| && ChildIndented(style, p, k, layouts[k], result)
    ensures All(result, l => l == IndentedLines(p)[k])
  {
    hide Operand;
    var lf, line := layouts[k], LineOfChild(p.children[k]);
    assert All(lf, l => l == line);
    assert line.(indentation := 0) == line;
  }

  /** Every layout of a stack of such functions stacks their lines. */
  lemma StackIsOfLines(style: Style, lfs: seq<LayoutFn>, ls: seq<Layout>, result: LayoutFn, i: nat)
    requires |lfs| == |ls| > 0 && IsStacked(style, lfs, result) && i < |result|
    requires forall k :: 0 <= k < |lfs| ==> All(lfs[k], l => l == ls[k])
    ensures result[i].layout == StackLayout(ls)
  {
    hide SegmentOk, StackKnots, Pieces, SumCost, SumGradient, StackLayout, AllPieces;
    var x := result[i].column;
    AtUnique(result, x, i);
    assert StacksAt(style, lfs, result, x);
    var segs := Slice(lfs, x);
    forall k | 0 <= k < |lfs| ensures segs[k].layout == ls[k] {
      assert All(lfs[k], l => l == ls[k]);
    }
    assert Layouts(segs) == ls;
  }

  lemma StackedNode(style: Style, p: Partition, layouts: seq<LayoutFn>, lf: LayoutFn)
    requires PlainNode(p) && ChildLines(p, layouts) && StackedAs(style, p, layouts, lf)
    ensures All(lf, l => l == StackLayout(IndentedLines(p)))
  {
    hide Operand, IsStacked, StackLayout, ChildIndented, IndentedLines;
    var indented :| ChildrenIndented(style, p, layouts, indented, |layouts|) && IsStacked(style, indented, lf);
    forall k | 0 <= k < |indented| ensures All(indented[k], l => l == IndentedLines(p)[k]) {
      IndentedChild(style, p, layouts, k, indented[k]);
    }
    forall i | 0 <= i < |lf| ensures lf[i].layout == StackLayout(IndentedLines(p)) {
      StackIsOfLines(style, indented, IndentedLines(p), lf, i);
    }
  }

  /** The rows of the children one below the other: each at its indentation relative to the node. */
  ghost predicate OnePerChild(p: Partition, rows: seq<Row>, column: int) {
    && |rows| == |p.children|
    && forall k :: 0 <= k < |rows| ==>
         var start := column + Relative(p, k);
         rows[k] == Row(start, p.children[k].tokens, start + TextWidth(p.children[k].tokens))
  }

  lemma StackedRows(p: Partition, column: int)
    requires PlainNode(p)
    ensures OnePerChild(p, Rows(StackLayout(IndentedLines(p)), column, false), column)
  {
    hide StackLayout, Rows;
    RowsOfStackedLeaves(IndentedLines(p), column);
  }

  /** kStack, kAlwaysExpand and kTabularAlignment put every child on a line of its own. */
  lemma StackPolicies(style: Style, wrapSpaces: nat, p: Partition, lf: LayoutFn, i: nat, column: int)
    requires PlainNode(p) && (p.policy == PStack || p.policy == PAlwaysExpand || p.policy == PTabularAlignment)
    requires LaidOutAs(style, wrapSpaces, p, lf) && i < |lf|
    ensures OnePerChild(p, Rows(lf[i].layout, column, false), column)
  {
    hide LaidOutAs, ChildLines, StackLayout, Rows, OnePerChild;
    var layouts := ChildrenAreLines(style, wrapSpaces, p, lf);
    assert |layouts| == |p.children| by { ChildCount(p, layouts); }
    StackedNode(style, p, layouts, lf);
    StackedRows(p, column);
  }

  lemma ChildCount(p: Partition, layouts: seq<LayoutFn>)
    requires PlainNode(p) && ChildLines(p, layouts)
    ensures |layouts| == |p.children|
  {
  }

  // ----- side by side

  predicate AllLines(ls: seq<Layout>) {
    forall k :: 0 <= k < |ls| ==> ls[k].kind == KLine && ls[k].children == [] && (0 < k ==> ls[k].indentation == 0)
  }

  /** The layout that puts lines side by side. */
  function SideLayout(ls: seq<Layout>): Layout
    requires ls != []
  {
    if |ls| == 1 then ls[0] else Layout(KJuxtaposition, 0, [], ls[0].spacesBefore, ls[0].mustWrap, ls)
  }

  lemma BesideLine(ls: seq<Layout>, r: Layout)
    requires ls != [] && AllLines(ls) && r.kind == KLine && r.children == []
    ensures LayoutOk(SideLayout(ls)) && LayoutOk(r) && BesideLayout(SideLayout(ls), r) == SideLayout(ls + [r])
  {
    assert [] + ls == ls;
    if |ls| == 1 {
      assert ls == [ls[0]];
    }
  }

  /** What stands side by side after k + 1 fragments. */
  lemma {:induction false} SideIsOfLines(
      style: Style, lfs: seq<LayoutFn>, ls: seq<Layout>, rows: seq<LayoutFn>, result: LayoutFn, k: nat)
    requires |lfs| == |ls| && JuxtaposedBy(style, lfs, rows, result) && k < |rows| && AllLines(ls)
    requires forall j :: 0 <= j < |lfs| ==> lfs[j] != [] && All(lfs[j], l => l == ls[j]) && (0 < j ==> !MustWrap(lfs[j]))
    ensures All(rows[k], l => l == SideLayout(ls[..k + 1]))
    decreases k
  {
    if k == 0 {
      assert ls[..1] == [ls[0]] && All(lfs[0], l => l == ls[0]);
    } else {
      hide IsJuxtaposition, Operand, SideLayout, AllLines;
      SideIsOfLines(style, lfs, ls, rows, result, k - 1);
      assert IsNextInRow(style, rows[k - 1], lfs[k], rows[k]);
      assert All(lfs[k], l => l == ls[k]);
      assert ls[..k + 1] == ls[..k] + [ls[k]];
      forall m | 0 <= m < |rows[k]| ensures rows[k][m].layout == SideLayout(ls[..k + 1]) {
        SideSegment(style, rows[k - 1], lfs[k], rows[k], ls[..k], ls[k], m) by { LinesUpTo(ls, k); }
      }
    }
  }

  lemma LinesUpTo(ls: seq<Layout>, k: nat)
    requires AllLines(ls) && 0 < k < |ls|
    ensures ls[..k] != [] && AllLines(ls[..k]) && ls[k].kind == KLine && ls[k].children == []
  {
  }

  lemma SideSegment(
      style: Style, left: LayoutFn, right: LayoutFn, result: LayoutFn, ls: seq<Layout>, r: Layout, m: nat)
    requires Operand(left) && Operand(right) && !MustWrap(right) && IsJuxtaposition(style, left, right, result) && m < |result|
    requires ls != [] && AllLines(ls) && r.kind == KLine && r.children == []
    requires All(left, l => l == SideLayout(ls)) && All(right, l => l == r)
    ensures result[m].layout == SideLayout(ls + [r])
  {
    hide IsJuxtaposition, BesideLayout, SideLayout, AllLines;
    assert Valid(result) by { JuxtaposedAt(style, left, right, result, 0); }
    var x := result[m].column;
    AtUnique(result, x, m);
    JuxtaposedAt(style, left, right, result, x);
    BesideLine(ls, r);
  }

  function JoinedTokens(ls: seq<Layout>): seq<Token> {
    if ls == [] then [] else JoinedTokens(ls[..|ls| - 1]) + ls[|ls| - 1].tokens
  }

  function JoinedWidth(ls: seq<Layout>): int {
    if ls == [] then 0 else
      var n := |ls| - 1;
      JoinedWidth(ls[..n]) + (if n == 0 then 0 else ls[n].spacesBefore) + TextWidth(ls[n].tokens)
  }

  lemma {:induction false} SideOfLeaves(ls: seq<Layout>, column: int)
    requires ls != [] && AllLines(ls)
    ensures var start := column + ls[0].indentation;
            SideRows(ls, column, false) == [Row(start, JoinedTokens(ls), start + JoinedWidth(ls))]
    ensures SideReach(ls, false) == ls[0].indentation + JoinedWidth(ls)
    decreases |ls|
  {
    var n := |ls| - 1;
    if n == 0 {
      assert ls[..0] == [];
      assert JoinedTokens(ls[..0]) + ls[0].tokens == ls[0].tokens;
      assert SideRows(ls, column, false) == Glue([], Rows(ls[0], column, false));
    } else {
      SideOfLeaves(ls[..n], column);
    }
  }

  /** Side by side there is one row. */
  lemma RowOfSide(ls: seq<Layout>, column: int)
    requires ls != [] && AllLines(ls)
    ensures var start := column + ls[0].indentation;
            Rows(SideLayout(ls), column, false) == [Row(start, JoinedTokens(ls), start + JoinedWidth(ls))]
  {
    SideOfLeaves(ls, column);
    if |ls| == 1 {
      assert ls[..0] == [];
      assert JoinedTokens(ls[..0]) + ls[0].tokens == ls[0].tokens;
    }
  }

  function ChildLinesOf(p: Partition): (ls: seq<Layout>)
    requires PlainNode(p)
    ensures |ls| == |p.children| && AllLines(ls)
  {
    seq(|p.children|, k requires 0 <= k < |p.children| => LineOfChild(p.children[k]))
  }

  lemma {:induction false} JoinedIsNode(ps: seq<Partition>, ls: seq<Layout>)
    requires |ps| == |ls| && forall k :: 0 <= k < |ps| ==> ps[k].tokens != [] && ls[k] == LineOfChild(ps[k])
    ensures JoinedTokens(ls) == TokensOf(ps) && (ps != [] ==> TokensOf(ps) != [] && JoinedWidth(ls) == TextWidth(TokensOf(ps)))
    decreases |ps|
  {
    if ps != [] {
      var n := |ps| - 1;
      JoinedIsNode(ps[..n], ls[..n]);
      assert ps == ps[..n] + [ps[n]];
      OneMorePart(ps[..n], ps[n]);
      if n > 0 {
        WidthConcat(TokensOf(ps[..n]), ps[n].tokens);
      } else {
        assert ps[..0] == [] && TokensOf(ps) == ps[0].tokens;
      }
    }
  }

  /** No child but the first must start a line. */
  predicate NoneForced(p: Partition)
    requires PlainNode(p)
  {
    forall k :: 0 < k < |p.children| ==> !p.children[k].tokens[0].mustWrap
  }

  /** One row with all the tokens, each with the spaces that it requires. */
  ghost predicate OneRow(p: Partition, rows: seq<Row>, column: int) {
    rows == [Row(column, TokensOf(p.children), column + TextWidth(TokensOf(p.children)))]
  }

  lemma JuxtaposedNode(style: Style, p: Partition, layouts: seq<LayoutFn>, lf: LayoutFn)
    requires PlainNode(p) && ChildLines(p, layouts) && NoneForced(p) && JuxtaposedAs(style, layouts, lf)
    ensures All(lf, l => l == SideLayout(ChildLinesOf(p)))
  {
    hide SideLayout, JuxtaposedBy, Operand;
    var rows :| JuxtaposedBy(style, layouts, rows, lf);
    var n := LastRowIs(style, layouts, rows, lf);
    forall k | 0 <= k < |layouts| ensures layouts[k] != [] {
      OperandNotEmpty(layouts[k]);
    }
    SideIsOfLines(style, layouts, ChildLinesOf(p), rows, lf, n);
    assert ChildLinesOf(p)[..n + 1] == ChildLinesOf(p);
  }

  lemma LastRowIs(style: Style, layouts: seq<LayoutFn>, rows: seq<LayoutFn>, lf: LayoutFn) returns (n: nat)
    requires JuxtaposedBy(style, layouts, rows, lf)
    ensures n + 1 == |rows| == |layouts| && lf == rows[n]
  {
    n := |rows| - 1;
  }

  lemma SideRowIs(p: Partition, column: int)
    requires PlainNode(p)
    ensures OneRow(p, Rows(SideLayout(ChildLinesOf(p)), column, false), column)
  {
    hide SideLayout, Rows;
    RowOfSide(ChildLinesOf(p), column);
    JoinedIsNode(p.children, ChildLinesOf(p));
  }

  /** kJuxtaposition puts all children on one line if none of them must start one. */
  lemma JuxtapositionPolicy(style: Style, wrapSpaces: nat, p: Partition, lf: LayoutFn, i: nat, column: int)
    requires PlainNode(p) && p.policy == PJuxtaposition && NoneForced(p)
    requires LaidOutAs(style, wrapSpaces, p, lf) && i < |lf|
    ensures OneRow(p, Rows(lf[i].layout, column, false), column)
  {
    hide LaidOutAs, ChildLines, SideLayout, Rows, OneRow, JuxtaposedAs;
    var layouts := ChildrenAreLines(style, wrapSpaces, p, lf);
    assert |layouts| == |p.children| by { ChildCount(p, layouts); }
    JuxtaposedNode(style, p, layouts, lf);
    SideRowIs(p, column);
  }

  /** kJuxtapositionOrIndentedStack does either if no child must start a line, and stacks them otherwise. */
  lemma EitherPolicy(style: Style, wrapSpaces: nat, p: Partition, lf: LayoutFn, i: nat, column: int)
    requires PlainNode(p) && p.policy == PJuxtapositionOrIndentedStack
    requires LaidOutAs(style, wrapSpaces, p, lf) && i < |lf|
    ensures var rows := Rows(lf[i].layout, column, false);
            OnePerChild(p, rows, column) || (NoneForced(p) && OneRow(p, rows, column))
  {
    hide LaidOutAs, SideLayout, StackLayout, Rows, OneRow, OnePerChild, JuxtaposedAs, StackedAs, IsChoice, Operand;
    var layouts := ChildrenAreLines(style, wrapSpaces, p, lf);
    var side, below := SideLayout(ChildLinesOf(p)), StackLayout(IndentedLines(p));
    SideRowIs(p, column);
    StackedRows(p, column);
    if NoneMustWrap(layouts) {
      var row, stack :| JuxtaposedAs(style, layouts, row) && StackedAs(style, p, layouts, stack) && IsChoice([row, stack], lf);
      JuxtaposedNode(style, p, layouts, row);
      StackedNode(style, p, layouts, stack);
      EitherKept(row, stack, lf, side, below);
    } else {
      StackedNode(style, p, layouts, lf);
    }
  }

  lemma EitherKept(row: LayoutFn, stack: LayoutFn, lf: LayoutFn, side: Layout, below: Layout)
    requires IsChoice([row, stack], lf) && All(row, l => l == side) && All(stack, l => l == below)
    ensures forall i :: 0 <= i < |lf| ==> lf[i].layout == side || lf[i].layout == below
  {
    var p: Layout -> bool := l => l == side || l == below;
    assert All(row, p) && All(stack, p);
    ChoiceKeeps([row, stack], lf, p);
  }

  /** kAppendFittingSubPartitions and kFitOnLineElseExpand start every line at the column of the node. */
  lemma FittingPolicies(style: Style, wrapSpaces: nat, p: Partition, lf: LayoutFn, i: nat, column: int)
    requires PlainNode(p) && NoneForced(p) && (p.policy == PAppendFittingSubPartitions || p.policy == PFitOnLineElseExpand)
    requires LaidOutAs(style, wrapSpaces, p, lf) && i < |lf|
    ensures var rows := Rows(lf[i].layout, column, false);
            rows != [] && forall k :: 0 <= k < |rows| ==> rows[k].start == column
  {
    hide LaidOutAs, Rows, IsWrapped, Operand, Hangs;
    var layouts := ChildrenAreLines(style, wrapSpaces, p, lf);
    var pen := ChildPenalties(style, p);
    forall j | 0 <= j < |layouts| ensures Operand(layouts[j]) && layouts[j] != [] && All(layouts[j], IsPlainLine) {
      OperandNotEmpty(layouts[j]);
      assert All(layouts[j], l => l == LineOfChild(p.children[j]));
    }
    var table, rests :| IsWrapped(style, pen, 0, layouts, table, rests) && rests != [] && lf == rests[0];
    WrapHangs(style, pen, 0, layouts, table, rests);
    RowsOfHanging(lf[i].layout, column, 0);
  }

  /** A second child that must start a line does so even under kJuxtaposition. */
  lemma ForcedBelow(style: Style, wrapSpaces: nat, p: Partition, lf: LayoutFn, i: nat, column: int)
    requires PlainNode(p) && p.policy == PJuxtaposition && |p.children| == 2 && p.children[1].tokens[0].mustWrap
    requires LaidOutAs(style, wrapSpaces, p, lf) && i < |lf|
    ensures var rows := Rows(lf[i].layout, column, false);
            |rows| == 2 && forall k :: 0 <= k < 2 ==> rows[k].start == column && rows[k].tokens == p.children[k].tokens
  {
    hide LaidOutAs, Rows, Operand, StackLayout, IsStacked;
    var layouts := ChildrenAreLines(style, wrapSpaces, p, lf);
    var rows :| JuxtaposedBy(style, layouts, rows, lf);
    assert IsNextInRow(style, rows[0], layouts[1], rows[1]);
    var stacked :| IsStacked(style, [layouts[0], layouts[1]], stacked) && lf == Raise(stacked, MUST_WRAP_PENALTY);
    var lfs, ls := [layouts[0], layouts[1]], [LineOfChild(p.children[0]), LineOfChild(p.children[1])];
    forall k | 0 <= k < 2 ensures All(lfs[k], l => l == ls[k]) {
      assert All(layouts[k], l => l == LineOfChild(p.children[k]));
    }
    StackIsOfLines(style, lfs, ls, stacked, i);
    RowsOfStackedLeaves(ls, column);
  }

  // ----- leaves

  /** A leaf is one row, unless it wraps and has more than one but less than 25 tokens. */
  lemma LeafIsOneRow(style: Style, wrapSpaces: nat, p: Partition, lf: LayoutFn, i: nat, column: int)
    requires IsLeaf(p) && 0 <= p.indentation && LaidOutAs(style, wrapSpaces, p, lf) && i < |lf|
    requires p.policy != PWrap || |p.tokens| <= 1 || 25 <= |p.tokens|
    ensures Rows(lf[i].layout, column, false) == [Row(column, p.tokens, column + TextWidth(p.tokens))]
  {
    assert IsLine(style, p.tokens, SpacesBefore(p), LineMustWrap(p), lf);
  }

  /** Otherwise its tokens are wrapped, and the later rows hang. */
  lemma WrappedLeafHangs(style: Style, wrapSpaces: nat, p: Partition, lf: LayoutFn, i: nat, column: int)
    requires IsLeaf(p) && 0 <= p.indentation && LaidOutAs(style, wrapSpaces, p, lf) && i < |lf|
    requires p.policy == PWrap && 1 < |p.tokens| < 25 && forall j :: 0 < j < |p.tokens| ==> !p.tokens[j].mustWrap
    ensures var rows := Rows(lf[i].layout, column, false);
            && rows != [] && rows[0].start == column && forall k :: 0 < k < |rows| ==> rows[k].start == column + wrapSpaces
  {
    WrappedTokensHang(style, wrapSpaces, p.tokens, lf, i, column);
  }

  // ----- lines that are formatted already

  /** A formatted line: inline slices with tokens. */
  predicate FormattedNode(p: Partition) {
    && 0 <= p.indentation && p.policy == PAlreadyFormatted && p.children != []
    && forall k :: 0 <= k < |p.children| ==>
         IsLeaf(p.children[k]) && p.children[k].policy == PInline && p.children[k].tokens != [] && 0 <= p.children[k].indentation
  }

  function SliceLines(p: Partition): (ls: seq<Layout>)
    requires FormattedNode(p)
    ensures |ls| == |p.children| && AllLines(ls)
  {
    seq(|p.children|, k requires 0 <= k < |p.children| =>
          var line := LineLayout(p.children[k].tokens, p.children[k].indentation, k == 0);
          if k == 0 then line.(indentation := p.children[0].indentation) else line)
  }

  lemma {:induction false} JoinedSlices(ps: seq<Partition>, ls: seq<Layout>)
    requires |ps| == |ls| && forall k :: 0 <= k < |ps| ==>
               ps[k].indentation >= 0 && ls[k].tokens == ps[k].tokens && ls[k].spacesBefore == ps[k].indentation
    ensures JoinedTokens(ls) == TokensOf(ps)
    ensures ps != [] ==> ps[0].indentation + JoinedWidth(ls) == SlicesWidth(ps)
    decreases |ps|
  {
    if ps != [] {
      var n := |ps| - 1;
      JoinedSlices(ps[..n], ls[..n]);
      assert ps == ps[..n] + [ps[n]];
      OneMorePart(ps[..n], ps[n]);
      if n == 0 {
        assert ps[..0] == [] && ls[..0] == [];
      }
    }
  }

  lemma SliceIsLine(style: Style, wrapSpaces: nat, p: Partition, lf: LayoutFn)
    requires IsLeaf(p) && p.policy == PInline && 0 <= p.indentation && LaidOutAs(style, wrapSpaces, p, lf)
    ensures Operand(lf) && lf != [] && All(lf, l => l == LineLayout(p.tokens, p.indentation, false)) && !MustWrap(lf)
  {
    assert IsLine(style, p.tokens, p.indentation, false, lf);
    LineIsPlain(style, p.tokens, p.indentation, false, lf);
  }

  lemma FirstSlice(style: Style, lf: LayoutFn, indentation: nat, first: LayoutFn, line: Layout)
    requires All(lf, l => l == line) && FirstIndented(style, lf, indentation, first) && line.indentation == 0
    ensures All(first, l => l == line.(mustWrap := true, indentation := indentation))
  {
    hide SegmentOk;
  }

  /** kAlreadyFormatted keeps the line: one row that starts at the indentation of the first slice, with the spacing of
      the slices. */
  lemma FormattedPolicy(style: Style, wrapSpaces: nat, p: Partition, lf: LayoutFn, i: nat, column: int)
    requires FormattedNode(p) && LaidOutAs(style, wrapSpaces, p, lf) && i < |lf|
    ensures Rows(lf[i].layout, column, false)
         == [Row(column + p.children[0].indentation, TokensOf(p.children), column + SlicesWidth(p.children))]
  {
    hide Rows, SideLayout, JuxtaposedBy, FirstIndented, TokensOf, SlicesWidth, Operand;
    var layouts :| ChildrenLaidOutAs(style, wrapSpaces, p, layouts) && CombinedAs(style, p, layouts, lf);
    var first :| FirstIndented(style, layouts[0], p.children[0].indentation, first) && JuxtaposedAs(style, layouts[0 := first], lf);
    var lfs, ls := layouts[0 := first], SliceLines(p);
    forall k | 0 <= k < |layouts|
      ensures Operand(layouts[k]) && layouts[k] != [] && !MustWrap(layouts[k])
      ensures All(layouts[k], l => l == LineLayout(p.children[k].tokens, p.children[k].indentation, false))
    {
      assert LaidOutAs(style, wrapSpaces, p.children[k], layouts[k]);
      SliceIsLine(style, wrapSpaces, p.children[k], layouts[k]);
    }
    FirstSlice(style, layouts[0], p.children[0].indentation, first, LineLayout(p.children[0].tokens, p.children[0].indentation, false));
    var rows :| JuxtaposedBy(style, lfs, rows, lf);
    var n := LastRowIs(style, lfs, rows, lf);
    assert first != [] by { FirstNotEmpty(style, layouts[0], p.children[0].indentation, first); }
    SideIsOfLines(style, lfs, ls, rows, lf, n);
    assert ls[..n + 1] == ls;
    RowOfSide(ls, column);
    JoinedSlices(p.children, ls);
  }

  lemma FirstNotEmpty(style: Style, lf: LayoutFn, indentation: nat, first: LayoutFn)
    requires FirstIndented(style, lf, indentation, first)
    ensures first != []
  {
    SegmentFound(WithMustWrap(lf), indentation);
  }
}

/** Where the lines of a wrapped node start: LayoutFunctionFactory::Wrap with a hanging indentation, on the page. */
module LayoutHanging {
  import Seqs
  import opened LayoutFunction
  import opened LayoutChoice
  import opened LayoutStack
  import opened LayoutJuxtaposition
  import opened LayoutWrap
  import opened LayoutOptimizer
  import opened LayoutRows

  // ----- layouts of plain lines

  predicate IsPlainLine(l: Layout) { l.kind == KLine && l.indentation == 0 && l.children == [] }

  /** A line, or lines side by side. */
  predicate OneLine(l: Layout) {
    || IsPlainLine(l)
    || (l.kind == KJuxtaposition && l.indentation == 0 && l.children != []
        && forall i :: 0 <= i < |l.children| ==> IsPlainLine(l.children[i]))
  }

  /** Lines below each other, all at the same column. */
  predicate Flush(l: Layout) {
    || OneLine(l)
    || (l.kind == KStack && l.indentation == 0 && |l.children| > 1 && forall i :: 0 <= i < |l.children| ==> OneLine(l.children[i]))
  }

  predicate FlushAt(l: Layout, hang: nat) { l.indentation == hang && Flush(l.(indentation := 0)) }

  /** A line, and below it lines that hang by so much. */
  predicate Hangs(l: Layout, hang: nat) {
    || OneLine(l)
    || (l.kind == KStack && l.indentation == 0 && |l.children| > 1 && OneLine(l.children[0])
        && forall i :: 0 < i < |l.children| ==> FlushAt(l.children[i], hang))
  }

  // ----- their rows

  lemma {:induction false} SideOfLines(ls: seq<Layout>, column: int, appended: bool)
    requires ls != [] && forall i :: 0 <= i < |ls| ==> IsPlainLine(ls[i])
    ensures var rows := SideRows(ls, column, appended); |rows| == 1 && rows[0].start == column
    decreases |ls|
  {
    var n := |ls| - 1;
    if n == 0 {
      assert ls[..0] == [];
    } else {
      SideOfLines(ls[..n], column, appended);
    }
  }

  lemma RowsOfLine(l: Layout, column: int, appended: bool)
    requires OneLine(l)
    ensures var rows := Rows(l, column, appended); |rows| == 1 && rows[0].start == column
  {
    if l.children != [] {
      SideOfLines(l.children, column, appended);
    }
  }

  lemma {:induction false} RowsOfLines(ls: seq<Layout>, column: int, appended: bool)
    requires forall i :: 0 <= i < |ls| ==> OneLine(ls[i])
    ensures var rows := StackRows(ls, column, appended);
            |rows| == |ls| && forall k :: 0 <= k < |rows| ==> rows[k].start == column
    decreases |ls|
  {
    if ls != [] {
      var n := |ls| - 1;
      RowsOfLines(ls[..n], column, appended);
      RowsOfLine(ls[n], column, appended && n == 0);
    }
  }

  lemma RowsOfFlush(l: Layout, column: int)
    requires Flush(l)
    ensures forall k :: 0 <= k < |Rows(l, column, false)| ==> Rows(l, column, false)[k].start == column
  {
    if OneLine(l) {
      RowsOfLine(l, column, false);
    } else {
      RowsOfLines(l.children, column, false);
    }
  }

  lemma RowsOfFlushAt(l: Layout, column: int, hang: nat)
    requires FlushAt(l, hang)
    ensures forall k :: 0 <= k < |Rows(l, column, false)| ==> Rows(l, column, false)[k].start == column + hang
  {
    assert Rows(l, column, false) == Rows(l.(indentation := 0), column + hang, false);
    RowsOfFlush(l.(indentation := 0), column + hang);
  }

  lemma {:induction false} RowsBelow(ls: seq<Layout>, column: int, hang: nat)
    requires ls != [] && OneLine(ls[0]) && forall i :: 0 < i < |ls| ==> FlushAt(ls[i], hang)
    ensures var rows := StackRows(ls, column, false);
            && rows != [] && rows[0].start == column && forall k :: 0 < k < |rows| ==> rows[k].start == column + hang
    decreases |ls|
  {
    var n := |ls| - 1;
    if n == 0 {
      assert ls[..0] == [] && ls == [ls[0]];
      RowsOfLine(ls[0], column, false);
      assert StackRows(ls, column, false) == [] + Rows(ls[0], column, false);
    } else {
      RowsBelow(ls[..n], column, hang);
      RowsOfFlushAt(ls[n], column, hang);
    }
  }

  /** The first row stands at the column, and all others hang. */
  lemma RowsOfHanging(l: Layout, column: int, hang: nat)
    requires Hangs(l, hang)
    ensures var rows := Rows(l, column, false);
            && rows != [] && rows[0].start == column && forall k :: 0 < k < |rows| ==> rows[k].start == column + hang
  {
    if OneLine(l) {
      RowsOfLine(l, column, false);
    } else {
      RowsBelow(l.children, column, hang);
    }
  }

  // ----- the combinators keep them

  ghost predicate All(lf: LayoutFn, p: Layout -> bool) { forall i :: 0 <= i < |lf| ==> p(lf[i].layout) }

  lemma ChoiceKeeps(lfs: seq<LayoutFn>, result: LayoutFn, p: Layout -> bool)
    requires IsChoice(lfs, result) && forall o :: 0 <= o < |lfs| ==> All(lfs[o], p)
    ensures All(result, p)
  {
    hide SegmentOk, ChoiceKnots, Better;
    forall i | 0 <= i < |result| ensures p(result[i].layout) {
      var x := result[i].column;
      AtUnique(result, x, i);
      assert PicksBest(lfs, result, x);
      var m :| IsBest(Slice(lfs, x), x, m) && LooksLike(result[i], Slice(lfs, x)[m], x);
      assert All(lfs[m], p);
    }
  }

  /** A segment of a stack of two has the stacked layout of a segment of each. */
  lemma StackedLayouts(style: Style, top: LayoutFn, bottom: LayoutFn, result: LayoutFn, i: nat) returns (s: nat, t: nat)
    requires IsStacked(style, [top, bottom], result) && i < |result|
    ensures s < |top| && t < |bottom| && result[i].layout == StackLayout([top[s].layout, bottom[t].layout])
  {
    hide SegmentOk, StackKnots, Pieces, SumCost, SumGradient, StackLayout;
    var x := result[i].column;
    AtUnique(result, x, i);
    assert Valid([top, bottom][0]) && Valid([top, bottom][1]);
    assert StacksAt(style, [top, bottom], result, x);
    s, t := At(top, x), At(bottom, x);
    assert Layouts(Slice([top, bottom], x)) == [top[s].layout, bottom[t].layout];
  }

  lemma StackOfLines(a: Layout, b: Layout, hang: nat)
    requires OneLine(a) && FlushAt(b, hang)
    ensures Hangs(StackLayout([a, b]), hang)
    ensures hang == 0 ==> Flush(StackLayout([a, b]))
  {
    var ls := [a, b];
    assert ls[..1] == [a] && [a][..0] == [];
    assert Gathered(KStack, [a]) == Gathered(KStack, [a][..0]) + Adoptable(KStack, a);
    assert Gathered(KStack, ls) == Gathered(KStack, ls[..1]) + Adoptable(KStack, b);
    assert Gathered(KStack, ls) == [a] + Adoptable(KStack, b);
    if hang == 0 {
      assert b.(indentation := 0) == b;
      forall c: Layout | OneLine(c) ensures FlushAt(c, 0) {
        assert c.(indentation := 0) == c;
      }
    }
  }

  lemma BesideOneLine(l: Layout, r: Layout)
    requires OneLine(l) && IsPlainLine(r) && LayoutOk(l) && LayoutOk(r)
    ensures OneLine(BesideLayout(l, r))
  {
  }

  lemma RowsAreLines(style: Style, hang: nat, lfs: seq<LayoutFn>, i: nat, row: seq<LayoutFn>, k: nat)
    requires IsRow(style, hang, lfs, i, row) && k < |row|
    requires forall j :: 0 <= j < |lfs| ==> Operand(lfs[j]) && All(lfs[j], IsPlainLine) && (0 < j ==> !MustWrap(lfs[j]))
    ensures All(row[k], OneLine)
    decreases k
  {
    if k == 0 {
      assert All(lfs[i], IsPlainLine);
    } else {
      RowsAreLines(style, hang, lfs, i, row, k - 1);
      var next := lfs[i + k];
      assert Operand(row[k - 1]);
      assert Joins(style, hang, row[k - 1], lfs[i + (k - 1) + 1], row[k]);
      forall m | 0 <= m < |row[k]| ensures OneLine(row[k][m].layout) {
        JoinedLine(style, row[k - 1], next, row[k], m);
      }
    }
  }

  lemma JoinedLine(style: Style, left: LayoutFn, right: LayoutFn, result: LayoutFn, m: nat)
    requires Operand(left) && Operand(right) && !MustWrap(right) && IsJuxtaposition(style, left, right, result) && m < |result|
    requires All(left, OneLine) && All(right, IsPlainLine)
    ensures OneLine(result[m].layout)
  {
    hide IsJuxtaposition, OneLine, IsPlainLine, BesideLayout;
    assert Valid(result) by { JuxtaposedAt(style, left, right, result, 0); }
    var x := result[m].column;
    AtUnique(result, x, m);
    JuxtaposedAt(style, left, right, result, x);
    var l, r := left[At(left, x)].layout, right[At(right, RightColumn(left, right, x))].layout;
    BesideOneLine(l, r);
  }

  /** Indenting flush lines makes them hang. */
  lemma IndentedHang(style: Style, lf: LayoutFn, hang: nat, result: LayoutFn)
    requires Valid(lf) && IsIndented(style, lf, hang, result) && All(lf, Flush)
    ensures All(result, l => FlushAt(l, hang))
  {
    hide SegmentOk;
    forall i | 0 <= i < |result| ensures FlushAt(result[i].layout, hang) {
      var l := lf[At(lf, hang) + i].layout;
      assert Flush(l) && l.indentation == 0;
      assert result[i].layout.(indentation := 0) == l;
    }
  }

  lemma BreakHangs(style: Style, i: int, hang: nat, penalty: int, line: LayoutFn, rest: LayoutFn, candidate: LayoutFn)
    requires IsBreak(style, i, hang, penalty, line, rest, candidate) && All(line, OneLine) && All(rest, Flush)
    ensures i == 0 ==> All(candidate, l => Hangs(l, hang))
    ensures i != 0 ==> All(candidate, Flush)
  {
    hide OneLine, Flush, Hangs, FlushAt, IsStacked, StackLayout, Valid;
    var below: LayoutFn, stacked: LayoutFn :|
      && (if i == 0 then IsIndented(style, rest, hang, below) else below == rest)
      && IsStacked(style, [line, below], stacked) && candidate == Raise(stacked, penalty);
    var depth := if i == 0 then hang else 0;
    assert All(below, l => FlushAt(l, depth)) by {
      if i == 0 {
        IndentedHang(style, rest, hang, below);
      } else {
        NotIndented(rest);
      }
    }
    forall k | 0 <= k < |candidate|
      ensures Hangs(candidate[k].layout, depth) && (depth == 0 ==> Flush(candidate[k].layout))
    {
      var s, t := StackedLayouts(style, line, below, stacked, k);
      StackOfLines(line[s].layout, below[t].layout, depth);
    }
  }

  lemma NotIndented(lf: LayoutFn)
    requires All(lf, Flush)
    ensures All(lf, l => FlushAt(l, 0))
  {
    forall i | 0 <= i < |lf| ensures FlushAt(lf[i].layout, 0) {
      assert lf[i].layout.(indentation := 0) == lf[i].layout;
    }
  }

  /** The fragments are plain lines, and none but the first must wrap. */
  ghost predicate PlainFragments(lfs: seq<LayoutFn>) {
    forall j :: 0 <= j < |lfs| ==> Operand(lfs[j]) && All(lfs[j], IsPlainLine) && (0 < j ==> !MustWrap(lfs[j]))
  }

  lemma CandidateHangs(
      style: Style, pen: seq<int>, i: int, hang: nat, row: seq<LayoutFn>, results: seq<LayoutFn>, k: int, candidate: LayoutFn)
    requires IsCandidate(style, pen, i, hang, row, results, k, candidate) && All(row[k], OneLine) && |row| == |results| - i
    requires forall j :: i < j < |results| ==> All(results[j], Flush)
    ensures i == 0 ==> All(candidate, l => Hangs(l, hang))
    ensures i != 0 ==> All(candidate, Flush)
  {
    hide IsBreak;
    if i + k + 1 < |results| {
      BreakHangs(style, i, hang, Penalty(pen, i + k + 1) - style.lineBreakPenalty, row[k], results[i + k + 1], candidate);
    }
  }

  lemma RowHangs(
      style: Style, pen: seq<int>, hang: nat, lfs: seq<LayoutFn>, table: seq<seq<LayoutFn>>, results: seq<LayoutFn>, i: nat)
    requires IsWrapped(style, pen, hang, lfs, table, results) && PlainFragments(lfs) && i < |lfs|
    requires forall j :: i < j < |results| ==> All(results[j], Flush)
    ensures |results| == |lfs|
    ensures i == 0 ==> All(results[i], l => Hangs(l, hang))
    ensures i != 0 ==> All(results[i], Flush)
  {
    hide IsCandidate, IsChoice, Joins, Flush, Hangs, OneLine, IsPlainLine, Operand;
    assert IsRow(style, hang, lfs, i, table[i]) && IsSolved(style, pen, hang, i, table[i], results);
    var candidates :| SolvedBy(style, pen, hang, i, table[i], results, candidates);
    var p: Layout -> bool := if i == 0 then l => Hangs(l, hang) else Flush;
    var rev := Seqs.Reversed(candidates);
    forall o | 0 <= o < |rev| ensures All(rev[o], p) {
      var k := |candidates| - 1 - o;
      RowsAreLines(style, hang, lfs, i, table[i], k);
      CandidateHangs(style, pen, i, hang, table[i], results, k, candidates[k]);
    }
    ChoiceKeeps(rev, results[i], p);
  }

  lemma {:induction false} RestsAreFlush(
      style: Style, pen: seq<int>, hang: nat, lfs: seq<LayoutFn>, table: seq<seq<LayoutFn>>, results: seq<LayoutFn>, i: nat)
    requires IsWrapped(style, pen, hang, lfs, table, results) && PlainFragments(lfs) && 0 < i <= |lfs|
    ensures |results| == |lfs| && forall j :: i <= j < |results| ==> All(results[j], Flush)
    decreases |lfs| - i
  {
    hide IsTable, IsSolved, PlainFragments, All;
    if i < |lfs| {
      RestsAreFlush(style, pen, hang, lfs, table, results, i + 1);
      RowHangs(style, pen, hang, lfs, table, results, i);
    }
  }

  /** Every layout of wrapped lines is a line with lines below it that hang. */
  lemma WrapHangs(
      style: Style, pen: seq<int>, hang: nat, lfs: seq<LayoutFn>, table: seq<seq<LayoutFn>>, results: seq<LayoutFn>)
    requires IsWrapped(style, pen, hang, lfs, table, results) && PlainFragments(lfs) && lfs != []
    ensures |results| == |lfs| && All(results[0], l => Hangs(l, hang))
  {
    RestsAreFlush(style, pen, hang, lfs, table, results, 1);
    RowHangs(style, pen, hang, lfs, table, results, 0);
  }

  // ----- a node that wraps its children

  /** A leaf that becomes one line and need not start it. */
  predicate PlainLeaf(p: Partition) { IsLeaf(p) && !WrapsTokens(p) && 0 <= p.indentation }

  lemma LeafIsPlain(style: Style, wrapSpaces: nat, p: Partition, lf: LayoutFn)
    requires PlainLeaf(p) && LaidOutAs(style, wrapSpaces, p, lf)
    ensures Operand(lf) && All(lf, IsPlainLine) && MustWrap(lf) == LineMustWrap(p)
  {
    LineIsPlain(style, p.tokens, SpacesBefore(p), LineMustWrap(p), lf);
  }

  lemma LineIsPlain(style: Style, tokens: Piece, spaces: nat, mustWrap: bool, lf: LayoutFn)
    requires IsLine(style, tokens, spaces, mustWrap, lf)
    ensures Operand(lf) && All(lf, IsPlainLine) && MustWrap(lf) == mustWrap && lf[0].layout.spacesBefore == spaces
  {
    hide SegmentOk;
    assert lf[0].layout == LineLayout(tokens, spaces, mustWrap);
    assert forall i :: 0 <= i < |lf| ==> lf[i].layout == LineLayout(tokens, spaces, mustWrap) && 0 <= lf[i].span;
  }

  /** The children of a node that wraps are put on lines of which the first stands at the column of the node, and all
      others at the indentation of the second child relative to the node, if that is deeper. */
  lemma WrappedRowsHang(style: Style, wrapSpaces: nat, p: Partition, lf: LayoutFn, i: nat, column: int)
    requires 0 <= p.indentation && p.policy == PWrap && |p.children| > 1 && LaidOutAs(style, wrapSpaces, p, lf) && i < |lf|
    requires forall j :: 0 <= j < |p.children| ==> PlainLeaf(p.children[j]) && (0 < j ==> !LineMustWrap(p.children[j]))
    ensures var rows, relative := Rows(lf[i].layout, column, false), p.children[1].indentation - p.indentation;
            && rows != [] && rows[0].start == column
            && forall k :: 0 < k < |rows| ==> rows[k].start == column + if relative > 0 then relative else 0
  {
    hide IsWrapped, Rows, SegmentOk, Uniform;
    var layouts :| ChildrenLaidOutAs(style, wrapSpaces, p, layouts) && CombinedAs(style, p, layouts, lf);
    forall j | 0 <= j < |layouts| ensures Operand(layouts[j]) && All(layouts[j], IsPlainLine) && (0 < j ==> !MustWrap(layouts[j])) {
      assert LaidOutAs(style, wrapSpaces, p.children[j], layouts[j]);
      LeafIsPlain(style, wrapSpaces, p.children[j], layouts[j]);
    }
    var pen := ChildPenalties(style, p);
    var table, rests :| IsWrapped(style, pen, Hanging(p), layouts, table, rests) && rests != [] && lf == rests[0];
    WrapHangs(style, pen, Hanging(p), layouts, table, rests);
    RowsOfHanging(lf[i].layout, column, Hanging(p));
  }

  /** The same for the tokens of a line that are wrapped. */
  lemma WrappedTokensHang(style: Style, wrapSpaces: nat, tokens: seq<Token>, lf: LayoutFn, i: nat, column: int)
    requires TokensWrapAs(style, wrapSpaces, tokens, lf) && tokens != [] && i < |lf|
    requires forall j :: 0 < j < |tokens| ==> !tokens[j].mustWrap
    ensures var rows := Rows(lf[i].layout, column, false);
            && rows != [] && rows[0].start == column && forall k :: 0 < k < |rows| ==> rows[k].start == column + wrapSpaces
  {
    hide IsWrapped, Rows, Penalties;
    var pen := Penalties(style, true, TokenPieces(tokens));
    var lfs :| TokenLines(style, tokens, lfs) && WrapsAs(style, pen, wrapSpaces, lfs, lf);
    forall j | 0 <= j < |lfs| ensures Operand(lfs[j]) && All(lfs[j], IsPlainLine) && (0 < j ==> !MustWrap(lfs[j])) {
      LineIsPlain(style, [tokens[j]], tokens[j].spacesRequired, tokens[j].mustWrap, lfs[j]);
    }
    var table, rests :| IsWrapped(style, pen, wrapSpaces, lfs, table, rests) && rests != [] && lf == rests[0];
    WrapHangs(style, pen, wrapSpaces, lfs, table, rests);
    RowsOfHanging(lf[i].layout, column, wrapSpaces);
  }

  // ----- a fragment that must wrap hangs twice

  /** What is in force at a column. */
  ghost predicate InForce(lf: LayoutFn, x: int, cost: int, gradient: int, layout: Layout) {
    Valid(lf) && 0 <= x && var s := lf[At(lf, x)]; s.CostAt(x) == cost && s.gradient == gradient && s.layout == layout
  }

  lemma LineInForce(style: Style, tokens: Piece, spaces: nat, mustWrap: bool, lf: LayoutFn, x: int)
    requires IsLine(style, tokens, spaces, mustWrap, lf) && 0 <= x && x + Width(tokens) < style.columnLimit
    ensures InForce(lf, x, 0, 0, LineLayout(tokens, spaces, mustWrap))
  {
    assert Cost(lf, x) == 0;
  }

  lemma StackInForce(
      style: Style, top: LayoutFn, bottom: LayoutFn, result: LayoutFn, x: int, c: int, g: int, l: Layout, d: int, h: int, m: Layout)
    requires IsStacked(style, [top, bottom], result) && x < INFINITY && InForce(top, x, c, g, l) && InForce(bottom, x, d, h, m)
    ensures InForce(result, x, c + d + style.lineBreakPenalty, g + h, StackLayout([l, m]))
  {
    hide Valid, StackKnots, At, Pieces, StackLayout, SumGradient;
    assert StacksAt(style, [top, bottom], result, x);
    StackOfTwo(style, top, bottom, result, x);
    var s, t := top[At(top, x)], bottom[At(bottom, x)];
    assert Slice([top, bottom], x) == [s, t] && Layouts([s, t]) == [l, m];
    GradientOfTwo(s, t);
  }

  lemma IndentInForce(style: Style, lf: LayoutFn, hang: nat, result: LayoutFn, x: int, c: int, g: int, l: Layout)
    requires Valid(lf) && IsIndented(style, lf, hang, result) && 0 <= x && x + hang <= style.columnLimit && hang < INFINITY
    requires InForce(lf, x + hang, c, g, l)
    ensures InForce(result, x, c, g, l.(indentation := l.indentation + hang))
  {
    hide SegmentOk;
    IndentIsValid(style, lf, hang, result, At(lf, hang));
    IndentPointwise(style, lf, hang, result, At(lf, hang), x);
    hide IsIndented;
  }

  lemma RaiseInForce(lf: LayoutFn, penalty: int, x: int, c: int, g: int, l: Layout)
    requires InForce(lf, x, c, g, l)
    ensures InForce(Raise(lf, penalty), x, c + penalty, g, l)
  {
    RaisedCost(lf, penalty, x);
  }

  /** The first of two that are even is chosen. */
  lemma FirstInForce(first: LayoutFn, second: LayoutFn, result: LayoutFn, x: int, c: int, g: int, l: Layout, m: Layout)
    requires IsChoice([first, second], result) && x < INFINITY && InForce(first, x, c, g, l) && InForce(second, x, c, g, m)
    ensures InForce(result, x, c, g, l)
  {
    hide Valid, At, ChoiceKnots;
    assert PicksBest([first, second], result, x);
    assert Slice([first, second], x) == [first[At(first, x)], second[At(second, x)]];
    var k :| IsBest(Slice([first, second], x), x, k) && LooksLike(result[At(result, x)], Slice([first, second], x)[k], x);
    assert k == 0 by {
      assert !Better(Slice([first, second], x)[1], Slice([first, second], x)[0], x);
    }
  }

  /** The only cheapest of three is chosen. */
  lemma LastInForce(first: LayoutFn, second: LayoutFn, third: LayoutFn, result: LayoutFn, x: int, c: int, g: int, l: Layout)
    requires IsChoice([first, second, third], result) && 0 <= x < INFINITY && Valid(first) && Valid(second)
    requires c < Cost(first, x) && c < Cost(second, x) && InForce(third, x, c, g, l)
    ensures InForce(result, x, c, g, l)
  {
    hide Valid, At, ChoiceKnots;
    var lfs := [first, second, third];
    assert PicksBest(lfs, result, x);
    var segs := Slice(lfs, x);
    assert segs == [first[At(first, x)], second[At(second, x)], third[At(third, x)]];
    var k :| IsBest(segs, x, k) && LooksLike(result[At(result, x)], segs[k], x);
    assert !Better(segs[2], segs[k], x);
    assert k == 2;
  }

  lemma OnlyInForce(only: LayoutFn, result: LayoutFn, x: int, c: int, g: int, l: Layout)
    requires IsChoice([only], result) && x < INFINITY && InForce(only, x, c, g, l)
    ensures InForce(result, x, c, g, l)
  {
    hide Valid, At, ChoiceKnots;
    assert PicksBest([only], result, x);
    assert Slice([only], x) == [only[At(only, x)]];
  }

  const STYLE: Style := Style(9, 100, 2)

  const PEN: seq<int> := [2, 2, 2]

  /** Three tokens of widths 5, 4 and 1, the last of which must wrap. */
  ghost predicate ThreeFragments(a: Token, b: Token, c: Token, lfs: seq<LayoutFn>) {
    && |lfs| == 3 && a.head == 5 && b.head == 4 && c.head == 1
    && IsLine(STYLE, [a], 1, false, lfs[0]) && IsLine(STYLE, [b], 1, false, lfs[1]) && IsLine(STYLE, [c], 1, true, lfs[2])
  }

  /** The last two as the code lays them out below the first: the third hangs below the second. */
  function LowerTwo(b: Token, c: Token): Layout {
    StackLayout([LineLayout([b], 1, false), LineLayout([c], 1, true).(indentation := 2)])
  }

  lemma LineOfOne(t: Token, spaces: nat, mustWrap: bool, lf: LayoutFn, x: int)
    requires IsLine(STYLE, [t], spaces, mustWrap, lf) && 0 <= x && x + t.head < 9
    ensures InForce(lf, x, 0, 0, LineLayout([t], spaces, mustWrap))
  {
    LineInForce(STYLE, [t], spaces, mustWrap, lf, x);
  }

  lemma Candidates(
      lfs: seq<LayoutFn>, table: seq<seq<LayoutFn>>, results: seq<LayoutFn>, i: nat)
    returns (candidates: seq<LayoutFn>)
    requires IsWrapped(STYLE, PEN, 2, lfs, table, results) && |lfs| == 3 && i < 3
    ensures |table| == |results| == 3 && |table[i]| == |candidates| == 3 - i
    ensures forall k :: 0 <= k < 3 - i ==> IsCandidate(STYLE, PEN, i, 2, table[i], results, k, candidates[k])
    ensures IsChoice(Seqs.Reversed(candidates), results[i]) && IsRow(STYLE, 2, lfs, i, table[i])
  {
    hide IsCandidate, IsChoice, Joins, Operand;
    assert IsSolved(STYLE, PEN, 2, i, table[i], results);
    candidates :| SolvedBy(STYLE, PEN, 2, i, table[i], results, candidates);
  }

  lemma LastAlone(a: Token, b: Token, c: Token, lfs: seq<LayoutFn>, table: seq<seq<LayoutFn>>, results: seq<LayoutFn>)
    requires ThreeFragments(a, b, c, lfs) && IsWrapped(STYLE, PEN, 2, lfs, table, results)
    ensures |results| == 3 && InForce(results[2], 2, 0, 0, LineLayout([c], 1, true))
  {
    hide IsWrapped, IsChoice, InForce, IsLine, Joins, Operand, IsBreak;
    var candidates := Candidates(lfs, table, results, 2);
    LineOfOne(c, 1, true, lfs[2], 2);
    assert IsCandidate(STYLE, PEN, 2, 2, table[2], results, 0, candidates[0]);
    assert Seqs.Reversed(candidates) == [lfs[2]];
    OnlyInForce(lfs[2], results[2], 2, 0, 0, LineLayout([c], 1, true));
  }

  /** Behind the second fragment, the third below it costs as much indented as not; the indented one comes first. */
  lemma LastTwo(a: Token, b: Token, c: Token, lfs: seq<LayoutFn>, table: seq<seq<LayoutFn>>, results: seq<LayoutFn>)
    requires ThreeFragments(a, b, c, lfs) && IsWrapped(STYLE, PEN, 2, lfs, table, results)
    ensures |results| == 3 && InForce(results[1], 2, 2, 0, LowerTwo(b, c))
  {
    hide IsWrapped, IsChoice, InForce, IsLine, Operand, IsIndented, IsStacked, StackLayout, Valid;
    var candidates := Candidates(lfs, table, results, 1);
    LastAlone(a, b, c, lfs, table, results);
    var lb, lc := LineLayout([b], 1, false), LineLayout([c], 1, true);
    LineOfOne(b, 1, false, lfs[1], 2);
    LineOfOne(c, 1, true, lfs[2], 4);
    MustWrapLine(c, lfs[2]);
    assert Joins(STYLE, 2, table[1][0], lfs[1 + 0 + 1], table[1][1]);
    HangsBelow(lfs[1], lfs[2], table[1][1], 2, lb, lc, 0, 0);
    assert IsCandidate(STYLE, PEN, 1, 2, table[1], results, 1, candidates[1]);
    assert IsCandidate(STYLE, PEN, 1, 2, table[1], results, 0, candidates[0]);
    NotIndentedBelow(lfs[1], results[2], candidates[0], 2, lb, lc);
    assert Seqs.Reversed(candidates) == [table[1][1], candidates[0]];
    FirstInForce(table[1][1], candidates[0], results[1], 2, 2, 0, LowerTwo(b, c), StackLayout([lb, lc]));
  }

  lemma MustWrapLine(c: Token, lf: LayoutFn)
    requires IsLine(STYLE, [c], 1, true, lf)
    ensures Operand(lf) && MustWrap(lf) && Valid(lf)
  {
    LineIsPlain(STYLE, [c], 1, true, lf);
  }

  lemma HangsBelow(group: LayoutFn, next: LayoutFn, joined: LayoutFn, x: int, l: Layout, m: Layout, cost: int, g: int)
    requires Joins(STYLE, 2, group, next, joined) && MustWrap(next) && 0 <= x <= 7
    requires InForce(group, x, cost, g, l) && InForce(next, x + 2, 0, 0, m) && m.indentation == 0
    ensures InForce(joined, x, cost + 2, g, StackLayout([l, m.(indentation := 2)]))
  {
    hide InForce, IsIndented, IsStacked, StackLayout, IsJuxtaposition, SegmentOk, Uniform;
    var below :| IsIndented(STYLE, next, 2, below) && IsStacked(STYLE, [group, below], joined);
    IndentInForce(STYLE, next, 2, below, x, 0, 0, m);
    StackInForce(STYLE, group, below, joined, x, cost, g, l, 0, 0, m.(indentation := 2));
  }

  lemma NotIndentedBelow(line: LayoutFn, rest: LayoutFn, candidate: LayoutFn, x: int, l: Layout, m: Layout)
    requires IsBreak(STYLE, 1, 2, 0, line, rest, candidate) && InForce(line, x, 0, 0, l) && InForce(rest, x, 0, 0, m) && x < INFINITY
    ensures InForce(candidate, x, 2, 0, StackLayout([l, m]))
  {
    hide InForce, IsStacked, StackLayout, Valid, Raise;
    var below: LayoutFn, stacked: LayoutFn :| below == rest && IsStacked(STYLE, [line, below], stacked) && candidate == Raise(stacked, 0);
    StackInForce(STYLE, line, rest, stacked, x, 0, 0, l, 0, 0, m);
    RaiseInForce(stacked, 0, x, 2, 0, StackLayout([l, m]));
  }

  /** The first two do not fit on a line. */
  lemma FirstTwoOverflow(a: Token, b: Token, left: LayoutFn, right: LayoutFn, joined: LayoutFn)
    requires a.head == 5 && b.head == 4 && IsLine(STYLE, [a], 1, false, left) && IsLine(STYLE, [b], 1, false, right)
    requires Operand(left) && Operand(right) && IsJuxtaposition(STYLE, left, right, joined)
    ensures Valid(joined) && Cost(joined, 0) == 100
  {
    LineIsPlain(STYLE, [a], 1, false, left);
    LineIsPlain(STYLE, [b], 1, false, right);
    assert Cost(left, 0) == 0 && Cost(right, 6) == 100 && left[At(left, 0)].span == 5;
    hide IsJuxtaposition, IsLine, SegmentOk;
    JuxtaposedAt(STYLE, left, right, joined, 0);
    JuxtapositionCost(STYLE, left, right, joined, 0);
  }

  /** At column 0 the third fragment stands at column 4, although the hanging indentation is 2. */
  lemma HangsTwice(a: Token, b: Token, c: Token, lfs: seq<LayoutFn>, table: seq<seq<LayoutFn>>, results: seq<LayoutFn>)
    requires ThreeFragments(a, b, c, lfs) && IsWrapped(STYLE, PEN, 2, lfs, table, results)
    ensures |results| == 3 && Valid(results[0])
    ensures var rows := Rows(results[0][At(results[0], 0)].layout, 0, false);
            |rows| == 3 && rows[0].start == 0 && rows[1].start == 2 && rows[2].start == 4
  {
    hide IsWrapped, IsChoice, IsLine, IsIndented, IsStacked, StackLayout, IsJuxtaposition, Rows, IsCandidate, LowerTwo;
    var candidates := Candidates(lfs, table, results, 0);
    LastTwo(a, b, c, lfs, table, results);
    var la, lower := LineLayout([a], 1, false), LowerTwo(b, c);
    FirstCandidate(a, b, c, lfs, table, results, candidates[0]);
    SecondCandidate(a, b, c, lfs, table, results, candidates[1]);
    ThirdCandidate(a, b, c, lfs, table, results, candidates[2]);
    assert Seqs.Reversed(candidates) == [candidates[2], candidates[1], candidates[0]];
    LastInForce(candidates[2], candidates[1], candidates[0], results[0], 0, 4, 0, StackLayout([la, lower.(indentation := 2)]));
    ThreeRows(la, b, c);
  }

  lemma FirstCandidate(
      a: Token, b: Token, c: Token, lfs: seq<LayoutFn>, table: seq<seq<LayoutFn>>, results: seq<LayoutFn>, candidate: LayoutFn)
    requires ThreeFragments(a, b, c, lfs) && |table| == |results| == 3 && IsRow(STYLE, 2, lfs, 0, table[0])
    requires IsCandidate(STYLE, PEN, 0, 2, table[0], results, 0, candidate) && InForce(results[1], 2, 2, 0, LowerTwo(b, c))
    ensures InForce(candidate, 0, 4, 0, StackLayout([LineLayout([a], 1, false), LowerTwo(b, c).(indentation := 2)]))
  {
    hide InForce, IsStacked, StackLayout, Valid, Raise, IsLine, IsIndented, LowerTwo, Joins, Operand;
    LowerTwoIsStack(b, c);
    assert table[0][0] == lfs[0];
    var la, lower := LineLayout([a], 1, false), LowerTwo(b, c);
    var below: LayoutFn, stacked: LayoutFn :|
      IsIndented(STYLE, results[1], 2, below) && IsStacked(STYLE, [table[0][0], below], stacked) && candidate == Raise(stacked, 0);
    LineOfOne(a, 1, false, lfs[0], 0);
    IndentInForce(STYLE, results[1], 2, below, 0, 2, 0, lower);
    StackInForce(STYLE, lfs[0], below, stacked, 0, 0, 0, la, 2, 0, lower.(indentation := 2));
    RaiseInForce(stacked, 0, 0, 4, 0, StackLayout([la, lower.(indentation := 2)]));
  }

  lemma LowerTwoIsStack(b: Token, c: Token)
    ensures LowerTwo(b, c).indentation == 0
  {
  }

  lemma FirstRow(a: Token, b: Token, c: Token, lfs: seq<LayoutFn>, row: seq<LayoutFn>)
    requires ThreeFragments(a, b, c, lfs) && IsRow(STYLE, 2, lfs, 0, row) && |row| == 3
    ensures row[0] == lfs[0] && Valid(row[1]) && Cost(row[1], 0) == 100 && Joins(STYLE, 2, row[1], lfs[2], row[2])
  {
    hide IsLine, IsJuxtaposition, IsIndented, IsStacked;
    LineIsPlain(STYLE, [b], 1, false, lfs[1]);
    assert Joins(STYLE, 2, row[0], lfs[0 + 0 + 1], row[1]);
    assert Joins(STYLE, 2, row[1], lfs[0 + 1 + 1], row[2]);
    FirstTwoOverflow(a, b, lfs[0], lfs[1], row[1]);
  }

  lemma SecondCandidate(
      a: Token, b: Token, c: Token, lfs: seq<LayoutFn>, table: seq<seq<LayoutFn>>, results: seq<LayoutFn>, candidate: LayoutFn)
    requires ThreeFragments(a, b, c, lfs) && IsWrapped(STYLE, PEN, 2, lfs, table, results)
    requires |table| == |results| == 3 && |table[0]| == 3 && IsRow(STYLE, 2, lfs, 0, table[0])
    requires IsCandidate(STYLE, PEN, 0, 2, table[0], results, 1, candidate)
    ensures Valid(candidate) && Cost(candidate, 0) == 102
  {
    hide IsWrapped, IsLine, IsBreak, Joins, Cost, IsRow;
    FirstRow(a, b, c, lfs, table[0]);
    LastAlone(a, b, c, lfs, table, results);
    BreakCost(STYLE, 0, 2, 0, table[0][1], results[2], candidate, 0);
    DiscountIsZero(STYLE, results[2], 2, 2);
    assert Cost(results[2], 2) == 0 by { CostInForce(results[2], 2, 0, 0, LineLayout([c], 1, true)); }
  }

  lemma CostInForce(lf: LayoutFn, x: int, c: int, g: int, l: Layout)
    requires InForce(lf, x, c, g, l)
    ensures Valid(lf) && Cost(lf, x) == c
  {
  }

  lemma ThirdCandidate(
      a: Token, b: Token, c: Token, lfs: seq<LayoutFn>, table: seq<seq<LayoutFn>>, results: seq<LayoutFn>, candidate: LayoutFn)
    requires ThreeFragments(a, b, c, lfs) && |table| == |results| == 3 && |table[0]| == 3 && IsRow(STYLE, 2, lfs, 0, table[0])
    requires IsCandidate(STYLE, PEN, 0, 2, table[0], results, 2, candidate)
    ensures Valid(candidate) && Cost(candidate, 0) == 102
  {
    hide IsLine, IsRow, IsIndented, IsStacked;
    FirstRow(a, b, c, lfs, table[0]);
    LineOfOne(c, 1, true, lfs[2], 2);
    MustWrapLine(c, lfs[2]);
    var row := table[0][1];
    var s := row[At(row, 0)];
    HangsBelow(row, lfs[2], candidate, 0, s.layout, LineLayout([c], 1, true), 100, s.gradient);
  }

  lemma ThreeRows(la: Layout, b: Token, c: Token)
    requires la == LineLayout(la.tokens, la.spacesBefore, la.mustWrap)
    ensures var rows := Rows(StackLayout([la, LowerTwo(b, c).(indentation := 2)]), 0, false);
            |rows| == 3 && rows[0].start == 0 && rows[1].start == 2 && rows[2].start == 4
  {
    var lb, lc := LineLayout([b], 1, false), LineLayout([c], 1, true).(indentation := 2);
    TwoRows(lb, lc, 2);
    GatheredTwo(lb, lc);
    var lower := LowerTwo(b, c).(indentation := 2);
    assert lower.children == [lb, lc];
    TwoRows(la, lower, 0);
    GatheredTwo(la, lower);
    assert Rows(lower, 0, false) == StackRows([lb, lc], 2, false);
  }

  lemma TwoRows(l: Layout, m: Layout, column: int)
    ensures StackRows([l, m], column, false) == Rows(l, column, false) + Rows(m, column, false)
  {
    hide Rows;
    assert [l, m][..1] == [l] && [l][..0] == [];
    assert StackRows([l], column, false) == StackRows([l][..0], column, false) + Rows(l, column, false);
  }

  lemma GatheredTwo(l: Layout, m: Layout)
    requires l.children == [] && (m.children == [] || m.indentation != 0)
    ensures StackLayout([l, m]).children == [l, m] && StackLayout([l, m]).kind == KStack && StackLayout([l, m]).indentation == 0
  {
    assert [l, m][..1] == [l] && [l][..0] == [];
    assert Gathered(KStack, [l]) == Gathered(KStack, [l][..0]) + Adoptable(KStack, l);
    assert Gathered(KStack, [l, m]) == Gathered(KStack, [l, m][..1]) + Adoptable(KStack, m);
  }

  /** Line and Wrap on such tokens. */
  method WrapHangsTwice(a: Token, b: Token, c: Token) returns (lf: LayoutFn)
    requires a.head == 5 && b.head == 4 && c.head == 1
    ensures Valid(lf)
    ensures var rows := Rows(lf[At(lf, 0)].layout, 0, false);
            |rows| == 3 && rows[0].start == 0 && rows[1].start == 2 && rows[2].start == 4
  {
    hide IsLine, IsWrapped, IsLeastLess, Arranges, Rows, Operand;
    var first := Line(STYLE, [a], 1, false);
    var second := Line(STYLE, [b], 1, false);
    var third := Line(STYLE, [c], 1, true);
    LineIsPlain(STYLE, [a], 1, false, first);
    LineIsPlain(STYLE, [b], 1, false, second);
    MustWrapLine(c, third);
    var lfs := [first, second, third];
    ghost var ts := [[[a]], [[b]], [[c]]];
    ghost var table, rests;
    lf, table, rests := Wrap(STYLE, lfs, false, 2, ts);
    assert Penalties(STYLE, false, ts) == PEN;
    HangsTwice(a, b, c, lfs, table, rests);
  }
}

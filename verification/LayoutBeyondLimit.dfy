/** Where Wrap falls short of its optimum: a list of fragments, and a column beyond the limit, at which the
    first break is given back the charge for a knot of the rest (LayoutFunctionFactory::Wrap and Indent). */
module LayoutBeyondLimit {
  import Seqs
  import opened LayoutFunction
  import opened LayoutChoice
  import opened LayoutStack
  import opened LayoutJuxtaposition
  import opened LayoutWrap

  const STYLE: Style := Style(10, 100, 2)

  /** From column 9 up to n, lf costs a + g * x and is w wide, and the knot in force is not before 9. */
  ghost predicate Tail(lf: LayoutFn, n: int, a: int, g: int, w: nat) {
    && Operand(lf) && !MustWrap(lf) && lf[0].layout.spacesBefore == 1 && n <= INFINITY
    && forall x :: 9 <= x < n ==> TailAt(lf, x, a, g, w)
  }

  ghost predicate TailAt(lf: LayoutFn, x: int, a: int, g: int, w: nat)
    requires Valid(lf) && 9 <= x
  {
    var s := lf[At(lf, x)];
    9 <= s.column && s.CostAt(x) == a + g * x && s.gradient == g && s.span == w
  }

  /** A knot at column 9 keeps everything before it out of force. */
  lemma FromKnot(lf: LayoutFn, x: int)
    requires Valid(lf) && KnotOf(lf, 9) && 9 <= x
    ensures 9 <= lf[At(lf, x)].column
  {
    hide SegmentOk;
    var k :| 0 <= k < |lf| && lf[k].column == 9;
    assert k <= At(lf, x);
  }

  /** A line of width 1. */
  lemma LineTail(token: Token, lf: LayoutFn)
    requires token.head == 1 && IsLine(STYLE, [token], 1, false, lf)
    ensures Tail(lf, 20, -900, 100, 1) && KnotOf(lf, 9)
  {
    assert Width([token]) == 1 && Operand(lf) && KnotOf(lf, 9);
    hide SegmentOk, Uniform, KnotOf;
    forall x | 9 <= x < 20 ensures TailAt(lf, x, -900, 100, 1) {
      FromKnot(lf, x);
      assert Cost(lf, x) == Overhang(STYLE, x + 1);
    }
  }

  lemma StackTail(top: LayoutFn, bottom: LayoutFn, result: LayoutFn, a: int, g: int, w: nat, b: int, h: int, v: nat)
    requires Tail(top, 20, a, g, w) && Tail(bottom, 20, b, h, v) && KnotOf(top, 9) && IsStacked(STYLE, [top, bottom], result)
    ensures Tail(result, 20, a + b + 2, g + h, v) && KnotOf(result, 9)
  {
    hide Uniform, KnotOf, StackKnots, SomeKnot, SegmentOk;
    StackIsOperand(STYLE, top, bottom, result);
    KnotKeptByStack(top, bottom, result);
    HeadIsOperand(top, result);
    var a', g' := a + b + 2, g + h;
    forall x | 9 <= x < 20 ensures TailAt(result, x, a', g', v) {
      StackedTailAt(top, bottom, result, a, g, w, b, h, v, x);
    }
  }

  lemma KnotKeptByStack(top: LayoutFn, bottom: LayoutFn, result: LayoutFn)
    requires IsStacked(STYLE, [top, bottom], result) && KnotOf(top, 9)
    ensures KnotOf(result, 9)
  {
    hide StacksAt, Valid, KnotOf;
    assert KnotOf([top, bottom][0], 9);
    assert SomeKnot([top, bottom], 9);
  }

  lemma HeadIsOperand(like: LayoutFn, lf: LayoutFn)
    requires SameHead(lf, like) && !MustWrap(like) && like[0].layout.spacesBefore == 1
    ensures Operand(lf) && !MustWrap(lf) && lf[0].layout.spacesBefore == 1
  {
  }

  lemma StackedTailAt(top: LayoutFn, bottom: LayoutFn, result: LayoutFn, a: int, g: int, w: nat, b: int, h: int, v: nat, x: int)
    requires Valid(top) && Valid(bottom) && Valid(result) && 9 <= x && KnotOf(result, 9)
    requires TailAt(top, x, a, g, w) && TailAt(bottom, x, b, h, v) && StacksAt(STYLE, [top, bottom], result, x)
    ensures TailAt(result, x, a + b + 2, g + h, v)
  {
    hide Valid, At, Pieces, AllPieces, KnotOf;
    FromKnot(result, x);
    StackOfTwo(STYLE, top, bottom, result, x);
    var s, t := top[At(top, x)], bottom[At(bottom, x)];
    assert Slice([top, bottom], x) == [s, t];
    assert SumGradient([s, t]) == s.gradient + t.gradient by { GradientOfTwo(s, t); }
    assert (g + h) * x == g * x + h * x;
  }

  lemma RowTail(
      left: LayoutFn, right: LayoutFn, result: LayoutFn, n: int, a: int, g: int, w: nat, b: int, h: int, v: nat)
    requires Tail(left, n, a, g, w) && Tail(right, 20, b, h, v) && IsJuxtaposition(STYLE, left, right, result) && n + w + 1 <= 20
    ensures Tail(result, n, a + b + h * (w + 1) - 100 * (w - 9), g + h - 100, w + v + 1)
  {
    hide Operand, IsJuxtaposition, Valid;
    assert SameHead(result, left) && Operand(result) && Valid(result) by { RowHead(left, right, result); }
    var a', g', w' := a + b + h * (w + 1) - 100 * (w - 9), g + h - 100, w + v + 1;
    forall x | 9 <= x < n ensures TailAt(result, x, a', g', w') {
      RowTailAt(left, right, result, a, g, w, b, h, v, x);
    }
  }

  lemma RowTailAt(left: LayoutFn, right: LayoutFn, result: LayoutFn, a: int, g: int, w: nat, b: int, h: int, v: nat, x: int)
    requires Operand(left) && Operand(right) && IsJuxtaposition(STYLE, left, right, result) && Valid(result)
    requires !MustWrap(right) && right[0].layout.spacesBefore == 1 && 9 <= x < INFINITY
    requires TailAt(left, x, a, g, w) && TailAt(right, x + w + 1, b, h, v)
    ensures TailAt(result, x, a + b + h * (w + 1) - 100 * (w - 9), g + h - 100, w + v + 1)
  {
    hide SegmentOk, IsJuxtaposition, Beside, At, Valid;
    JuxtaposedAt(STYLE, left, right, result, x);
    JuxtapositionCost(STYLE, left, right, result, x);
    var knot := result[At(result, x)].column;
    assert 9 <= knot by { KnotNotBefore(left, knot); }
    BesideParts(left[At(left, x)], right[At(right, x + w + 1)], knot, knot + w + 1);
    assert h * (x + w + 1) == h * x + h * (w + 1);
    assert (g + h - 100) * x == g * x + h * x - 100 * x;
  }

  lemma KnotNotBefore(lf: LayoutFn, x: int)
    requires Valid(lf) && 0 <= x
    ensures lf[At(lf, x)].column <= x
  {
  }

  lemma BesideParts(l: Segment, r: Segment, columnL: int, columnR: int)
    requires SegmentOk(l) && SegmentOk(r) && 10 <= columnR
    ensures var s := Beside(STYLE, l, r, columnL, columnR);
            s.gradient == l.gradient + r.gradient - 100 && s.span == l.span + r.span + r.layout.spacesBefore
  {
  }

  lemma RowHead(left: LayoutFn, right: LayoutFn, result: LayoutFn)
    requires Operand(left) && Operand(right) && IsJuxtaposition(STYLE, left, right, result)
    ensures SameHead(result, left) && Valid(result) && Operand(result)
  {
  }

  // ----- the list: a line of width 1 and two stacks of two such lines

  ghost predicate Input(line: LayoutFn, stack: LayoutFn) {
    Tail(line, 20, -900, 100, 1) && Tail(stack, 20, -1798, 200, 1)
  }

  lemma CostOfTail(lf: LayoutFn, n: int, a: int, g: int, w: nat, x: int)
    requires Tail(lf, n, a, g, w) && 9 <= x < n
    ensures Valid(lf) && Cost(lf, x) == a + g * x
  {
    hide Valid, Uniform;
    assert TailAt(lf, x, a, g, w);
  }

  lemma Joined(table: seq<seq<LayoutFn>>, lfs: seq<LayoutFn>, i: nat, k: nat)
    requires IsTable(STYLE, 0, lfs, table) && i < |lfs| && k + 1 < |lfs| - i && Operand(lfs[i + k + 1]) && !MustWrap(lfs[i + k + 1])
    ensures |table[i]| == |lfs| - i && Operand(table[i][k]) && IsJuxtaposition(STYLE, table[i][k], lfs[i + k + 1], table[i][k + 1])
  {
    hide Operand, IsJuxtaposition, IsStacked, IsIndented;
    assert IsRow(STYLE, 0, lfs, i, table[i]);
    assert Joins(STYLE, 0, table[i][k], lfs[i + k + 1], table[i][k + 1]);
  }

  /** All lines that can be formed. */
  lemma LinesOfTable(line: LayoutFn, stack: LayoutFn, table: seq<seq<LayoutFn>>)
    requires Input(line, stack) && IsTable(STYLE, 0, [line, stack, stack], table)
    ensures |table| == 3 && |table[0]| == 3 && |table[1]| == 2 && |table[2]| == 1
    ensures table[0][0] == line && table[1][0] == table[2][0] == stack
    ensures Tail(table[0][1], 15, -1498, 200, 3) && Tail(table[0][2], 15, -1896, 300, 5) && Tail(table[1][1], 15, -2396, 300, 3)
  {
    hide Joins, TailAt, IsJuxtaposition, Operand;
    var lfs := [line, stack, stack];
    assert IsRow(STYLE, 0, lfs, 0, table[0]) && IsRow(STYLE, 0, lfs, 1, table[1]) && IsRow(STYLE, 0, lfs, 2, table[2]);
    Joined(table, lfs, 0, 0);
    RowTail(line, stack, table[0][1], 15, -900, 100, 1, -1798, 200, 1);
    Joined(table, lfs, 0, 1);
    RowTail(table[0][1], stack, table[0][2], 15, -1498, 200, 3, -1798, 200, 1);
    Joined(table, lfs, 1, 0);
    RowTail(stack, stack, table[1][1], 15, -1798, 200, 1, -1798, 200, 1);
  }

  /** The last fragment alone costs what it costs. */
  lemma LastIsStack(table: seq<seq<LayoutFn>>, results: seq<LayoutFn>, cands: seq<LayoutFn>, stack: LayoutFn, x: int)
    requires |table| == |results| == 3 && table[2] == [stack] && SolvedBy(STYLE, PEN, 0, 2, table[2], results, cands)
    requires Valid(stack) && 0 <= x < INFINITY
    ensures Valid(results[2]) && Cost(results[2], x) == Cost(stack, x)
  {
    hide Valid, At, ChoiceKnots;
    assert IsCandidate(STYLE, PEN, 2, 0, table[2], results, 0, cands[0]);
    assert cands == [stack] && Seqs.Reversed(cands) == [stack];
    assert PicksBest([stack], results[2], x);
    ChoiceIsLeast([stack], results[2], x);
  }

  /** Below, broken before the last stack, or side by side: what each costs. */
  lemma TwoStacks(
      table: seq<seq<LayoutFn>>, results: seq<LayoutFn>, cands: seq<LayoutFn>, stack: LayoutFn, beside: LayoutFn, x: int)
    requires |table| == |results| == 3 && table[1] == [stack, beside] && SolvedBy(STYLE, PEN, 0, 1, table[1], results, cands)
    requires Valid(stack) && Valid(results[2]) && 0 <= x < INFINITY
    ensures Seqs.Reversed(cands) == [beside, cands[0]] && Valid(cands[0])
    ensures Cost(cands[0], x) == Cost(stack, x) + 2 + Cost(results[2], x)
  {
    hide Valid, At, IsChoice, IsBreak, Cost;
    assert IsCandidate(STYLE, PEN, 1, 0, table[1], results, 0, cands[0]);
    assert IsCandidate(STYLE, PEN, 1, 0, table[1], results, 1, cands[1]);
    assert Seqs.Reversed(cands) == [beside, cands[0]];
    BreakCost(STYLE, 1, 0, 0, stack, results[2], cands[0], x);
  }

  /** Where one operand overtakes the other there is a knot. */
  lemma Overtakes(first: LayoutFn, second: LayoutFn, result: LayoutFn, c: int)
    requires IsChoice([first, second], result) && Valid(first) && Valid(second) && 0 < c < INFINITY
    requires Cost(second, c - 1) < Cost(first, c - 1) && Cost(first, c) < Cost(second, c)
    ensures Valid(result) && result[At(result, c)].column == c
  {
    hide SegmentOk, Valid, At, PicksBest;
    var lfs := [first, second];
    assert Slice(lfs, c) == [first[At(first, c)], second[At(second, c)]];
    assert Slice(lfs, c - 1) == [first[At(first, c - 1)], second[At(second, c - 1)]];
    assert Chosen(lfs, c, 0, At(first, c)) && Chosen(lfs, c - 1, 1, At(second, c - 1));
    ChangesIs(lfs, c, 0, At(first, c), 1, At(second, c - 1));
    KnotInForce(result, c);
  }

  lemma KnotInForce(lf: LayoutFn, c: int)
    requires Valid(lf) && KnotOf(lf, c) && 0 <= c
    ensures lf[At(lf, c)].column == c
  {
    hide SegmentOk;
    var k :| 0 <= k < |lf| && lf[k].column == c;
    AtUnique(lf, c, k);
  }

  const PEN: seq<int> := [2, 2, 2]

  lemma RestCosts(
      table: seq<seq<LayoutFn>>, results: seq<LayoutFn>, last: seq<LayoutFn>, cands: seq<LayoutFn>,
      stack: LayoutFn, beside: LayoutFn, x: int)
    requires |table| == |results| == 3 && table[1] == [stack, beside] && table[2] == [stack]
    requires SolvedBy(STYLE, PEN, 0, 1, table[1], results, cands) && SolvedBy(STYLE, PEN, 0, 2, table[2], results, last)
    requires Tail(stack, 20, -1798, 200, 1) && Tail(beside, 15, -2396, 300, 3) && 9 <= x < 15
    ensures Valid(beside) && Seqs.Reversed(cands) == [beside, cands[0]] && Valid(cands[0])
    ensures Cost(cands[0], x) == 400 * x - 3594 && Cost(beside, x) == 300 * x - 2396
  {
    hide SolvedBy, Tail, Cost, Valid;
    CostOfTail(stack, 20, -1798, 200, 1, x);
    CostOfTail(beside, 15, -2396, 300, 3, x);
    LastIsStack(table, results, last, stack, x);
    TwoStacks(table, results, cands, stack, beside, x);
  }

  /** The best for the last two fragments: broken up to column 11, side by side from column 12 on. */
  lemma RestHasKnot(line: LayoutFn, stack: LayoutFn, table: seq<seq<LayoutFn>>, results: seq<LayoutFn>)
    requires Input(line, stack) && IsWrapped(STYLE, PEN, 0, [line, stack, stack], table, results)
    ensures |results| == 3 && Valid(results[1]) && results[1][At(results[1], 12)].column == 12
  {
    var lfs := [line, stack, stack];
    hide IsWrapped, SolvedBy, IsChoice, Tail, Cost, At, Valid, IsTable;
    WrappedTable(lfs, table, results);
    LinesOfTable(line, stack, table);
    var last := WrappedRow(STYLE, PEN, 0, lfs, table, results, 2);
    var cands := WrappedRow(STYLE, PEN, 0, lfs, table, results, 1);
    var beside := table[1][1];
    assert table[2] == [stack] && table[1] == [stack, beside];
    RestCosts(table, results, last, cands, stack, beside, 11);
    RestCosts(table, results, last, cands, stack, beside, 12);
    assert IsChoice(Seqs.Reversed(cands), results[1]) by { SolvedIsChoice(table, results, cands); }
    Overtakes(beside, cands[0], results[1], 12);
  }

  lemma WrappedTable(lfs: seq<LayoutFn>, table: seq<seq<LayoutFn>>, results: seq<LayoutFn>)
    requires IsWrapped(STYLE, PEN, 0, lfs, table, results)
    ensures IsTable(STYLE, 0, lfs, table)
  {
  }

  lemma SolvedIsChoice(table: seq<seq<LayoutFn>>, results: seq<LayoutFn>, cands: seq<LayoutFn>)
    requires |table| == |results| == 3 && SolvedBy(STYLE, PEN, 0, 1, table[1], results, cands)
    ensures IsChoice(Seqs.Reversed(cands), results[1])
  {
  }

  /** Every breaking of the list costs at least 1506 at column 12. */
  lemma EveryBreaking(line: LayoutFn, stack: LayoutFn, table: seq<seq<LayoutFn>>, sizes: seq<int>)
    requires Input(line, stack) && IsTable(STYLE, 0, [line, stack, stack], table) && sizes != [] && Breaks(sizes, 3)
    ensures 1506 <= LinesCost(table, PEN, 0, sizes, 12, 12)
    ensures sizes == [1, 2] ==> LinesCost(table, PEN, 0, sizes, 12, 12) == 1506
  {
    hide IsTable, Tail, Cost, Valid;
    LinesOfTable(line, stack, table);
    CostOfTail(line, 20, -900, 100, 1, 12);
    CostOfTail(stack, 20, -1798, 200, 1, 12);
    CostOfTail(table[0][1], 15, -1498, 200, 3, 12);
    CostOfTail(table[0][2], 15, -1896, 300, 5, 12);
    CostOfTail(table[1][1], 15, -2396, 300, 3, 12);
    Breakings(sizes);
    CostOfBreaking(table, sizes);
  }

  /** There are four ways of breaking three fragments. */
  lemma Breakings(sizes: seq<int>)
    requires sizes != [] && Breaks(sizes, 3)
    ensures sizes == [3] || sizes == [1, 2] || sizes == [2, 1] || sizes == [1, 1, 1]
  {
    var t := sizes[1..];
    if t != [] {
      var u := t[1..];
      assert Breaks(u, 3 - sizes[0] - t[0]);
      if u != [] {
        assert Breaks(u[1..], 0);
        assert u == [u[0]];
      }
      assert t == [t[0]] + u;
    }
    assert sizes == [sizes[0]] + t;
  }

  lemma CostOfBreaking(table: seq<seq<LayoutFn>>, sizes: seq<int>)
    requires LineCost(table, 0, 0, 12) == 300 && LineCost(table, 0, 1, 12) == 902 && LineCost(table, 0, 2, 12) == 1704
    requires LineCost(table, 1, 0, 12) == LineCost(table, 2, 0, 12) == 602 && LineCost(table, 1, 1, 12) == 1204
    requires sizes == [3] || sizes == [1, 2] || sizes == [2, 1] || sizes == [1, 1, 1]
    ensures 1506 <= LinesCost(table, PEN, 0, sizes, 12, 12)
    ensures sizes == [1, 2] ==> LinesCost(table, PEN, 0, sizes, 12, 12) == 1506
  {
    hide LineCost;
    if sizes == [1, 2] || sizes == [2, 1] {
      assert sizes[1..] == [sizes[1]];
    } else if sizes == [1, 1, 1] {
      assert sizes[1..] == [1, 1] && [1, 1][1..] == [1];
      assert LinesCost(table, PEN, 2, [1], 12, 12) == 602;
      assert LinesCost(table, PEN, 1, [1, 1], 12, 12) == 1206;
    }
  }

  /** At column 12 no breaking of the list costs less than 1506, one costs just that, and yet Wrap promises 1306. */
  lemma WrapFallsShort(line: LayoutFn, stack: LayoutFn, table: seq<seq<LayoutFn>>, results: seq<LayoutFn>)
    requires Input(line, stack) && IsWrapped(STYLE, PEN, 0, [line, stack, stack], table, results)
    ensures IsLeast(table, PEN, 3, 0, 12, 12, 1506)
    ensures |results| == 3 && Valid(results[0]) && Cost(results[0], 12) == 1306
  {
    hide IsWrapped, Cost, At, Valid, IsTable, Input, IsLeastLess, IsLeast, Discounts;
    var lfs := [line, stack, stack];
    WrappedTable(lfs, table, results);
    LeastBreaking(line, stack, table);
    RestHasKnot(line, stack, table, results);
    WrapIsLeast(STYLE, PEN, 0, lfs, table, results, 12);
    ChargesAtTwelve(results);
    LessTwoHundred(line, stack, table, Discounts(STYLE, results, 0, 12, 0), Cost(results[0], 12));
  }

  lemma ChargesAtTwelve(results: seq<LayoutFn>)
    requires |results| == 3 && Valid(results[1]) && results[1][At(results[1], 12)].column == 12
    ensures var dis := Discounts(STYLE, results, 0, 12, 0);
            dis[1] == 200 && forall j :: 0 <= j < 3 ==> dis[j] <= 200
  {
    hide Discount, Valid, At;
    ChargeAtTwelve(results[1]);
    var dis := Discounts(STYLE, results, 0, 12, 0);
    forall j | 0 <= j < 3 ensures dis[j] <= 200 {
      if Valid(results[j]) {
        ChargeAtTwelve(results[j]);
      }
    }
  }

  lemma LeastBreaking(line: LayoutFn, stack: LayoutFn, table: seq<seq<LayoutFn>>)
    requires Input(line, stack) && IsTable(STYLE, 0, [line, stack, stack], table)
    ensures IsLeast(table, PEN, 3, 0, 12, 12, 1506)
  {
    hide LinesCost, Breaks, Input, IsTable;
    forall sizes | sizes != [] && Breaks(sizes, 3 - 0) ensures 1506 <= LinesCost(table, PEN, 0, sizes, 12, 12) {
      EveryBreaking(line, stack, table, sizes);
    }
    BestBreaks();
    EveryBreaking(line, stack, table, [1, 2]);
  }

  lemma BestBreaks()
    ensures Breaks([1, 2], 3)
  {
    assert [1, 2][1..] == [2] && [2][1..] == [];
    assert Breaks([2], 2);
  }

  lemma LessTwoHundred(line: LayoutFn, stack: LayoutFn, table: seq<seq<LayoutFn>>, dis: seq<int>, cost: int)
    requires Input(line, stack) && IsTable(STYLE, 0, [line, stack, stack], table)
    requires IsLeastLess(table, PEN, 3, 0, 12, 12, dis, cost)
    requires |dis| == 3 && dis[1] == 200 && forall j :: 0 <= j < 3 ==> dis[j] <= 200
    ensures cost == 1306
  {
    hide LinesCost, Breaks, Input, IsTable;
    BestBreaks();
    EveryBreaking(line, stack, table, [1, 2]);
    var sizes :| sizes != [] && Breaks(sizes, 3 - 0)
                 && cost == LinesCost(table, PEN, 0, sizes, 12, 12) - FirstDiscount(dis, 0, sizes);
    EveryBreaking(line, stack, table, sizes);
    assert cost <= LinesCost(table, PEN, 0, [1, 2], 12, 12) - FirstDiscount(dis, 0, [1, 2]);
  }

  /** What indenting by nothing gives back at column 12. */
  lemma ChargeAtTwelve(lf: LayoutFn)
    requires Valid(lf)
    ensures Discount(STYLE, lf, 12, 0) <= 200
    ensures lf[At(lf, 12)].column == 12 ==> Discount(STYLE, lf, 12, 0) == 200
  {
  }

  /** The list as the other combinators make it, given to Wrap. */
  method WrapBeyondLimit(token: Token)
    returns (cost: int, leastCost: int, ghost table: seq<seq<LayoutFn>>)
    requires token.head == 1
    ensures IsLeast(table, PEN, 3, 0, 12, 12, leastCost) && cost == leastCost - 200
  {
    hide Arranges, IsStacked, IsWrapped, IsLeastLess, IsLeast, Tail, KnotOf, Discounts, SegmentOk;
    var line := Line(STYLE, [token], 1, false);
    LineTail(token, line);
    var stack := Stack(STYLE, [line, line]);
    StackTail(line, line, stack, -900, 100, 1, -900, 100, 1);
    ghost var ts := [[[token]], [[token], [token]], [[token], [token]]];
    FragmentsOk(line, stack, token, ts);
    var result;
    ghost var rests;
    result, table, rests := Wrap(STYLE, [line, stack, stack], false, 0, ts);
    assert Penalties(STYLE, false, ts) == PEN;
    WrapFallsShort(line, stack, table, rests);
    cost, leastCost := result[At(result, 12)].CostAt(12), 1506;
  }

  lemma FragmentsOk(line: LayoutFn, stack: LayoutFn, token: Token, ts: seq<seq<Piece>>)
    requires Operand(line) && Arranges(line, [[token]]) && IsStacked(STYLE, [line, line], stack)
    requires ts == [[[token]], [[token], [token]], [[token], [token]]]
    ensures var lfs := [line, stack, stack]; forall j :: 0 <= j < 3 ==> Operand(lfs[j]) && Arranges(lfs[j], ts[j])
  {
    StackIsOperand(STYLE, line, line, stack);
    assert [[token]] + [[token]] == [[token], [token]];
    hide Operand, Arranges;
  }
}

/** What wrapping costs in terms of the lines that a cut makes: the lines, and a price for each line but the first
    (LayoutFunctionFactory::Wrap and WrappedLine, and the policies that wrap). */
module LayoutWrapPrice {
  import opened LayoutFunction
  import opened LayoutStack
  import opened LayoutWrap
  import opened LayoutOptimizer

  /** The elements with which the later lines of a cut start. */
  function LineStarts(i: int, sizes: seq<int>): seq<int>
    decreases |sizes|
  {
    if |sizes| <= 1 then [] else [i + sizes[0]] + LineStarts(i + sizes[0], sizes[1..])
  }

  /** The lines of a cut, without any price for breaking. */
  ghost function LinesOnly(table: seq<seq<LayoutFn>>, i: int, sizes: seq<int>, x: int, z: int): int
    decreases |sizes|
  {
    if sizes == [] then 0
    else LineCost(table, i, sizes[0] - 1, x) + LinesOnly(table, i + sizes[0], sizes[1..], z, z)
  }

  ghost function SumAt(prices: seq<int>, at: seq<int>): int {
    if at == [] then 0 else Penalty(prices, at[0]) + SumAt(prices, at[1..])
  }

  /** Lines and breaks are priced apart. */
  lemma {:induction false} LinesAndBreaks(table: seq<seq<LayoutFn>>, pen: seq<int>, i: int, sizes: seq<int>, x: int, z: int)
    requires sizes != []
    ensures LinesCost(table, pen, i, sizes, x, z) == LinesOnly(table, i, sizes, x, z) + SumAt(pen, LineStarts(i, sizes))
    decreases |sizes|
  {
    hide LineCost, Penalty;
    if |sizes| > 1 {
      LinesAndBreaks(table, pen, i + sizes[0], sizes[1..], z, z);
      assert LineStarts(i, sizes)[1..] == LineStarts(i + sizes[0], sizes[1..]);
    } else {
      assert sizes[1..] == [];
    }
  }

  /** A cut of the tokens costs a line break, the penalty for passing the limit and the token's own break penalty
      for every token that starts a later line. */
  function TokenBreaks(style: Style, tokens: seq<Token>, at: seq<int>): int {
    if at == [] then 0 else
      (if 0 <= at[0] < |tokens| then
         style.lineBreakPenalty + style.overColumnLimitPenalty + tokens[at[0]].breakPenalty else 0)
      + TokenBreaks(style, tokens, at[1..])
  }

  lemma {:induction false} TokenBreaksAre(style: Style, tokens: seq<Token>, at: seq<int>)
    ensures SumAt(Penalties(style, true, TokenPieces(tokens)), at) == TokenBreaks(style, tokens, at)
  {
    if at != [] {
      TokenBreaksAre(style, tokens, at[1..]);
    }
  }

  lemma {:induction false} ChildBreaksAre(style: Style, p: Partition, at: seq<int>)
    requires forall k :: 0 <= k < |at| ==> 0 <= at[k] < |p.children|
    ensures SumAt(ChildPenalties(style, p), at) == |at| * style.lineBreakPenalty
  {
    if at != [] {
      ChildBreaksAre(style, p, at[1..]);
    }
  }

  /** Later lines start with elements of the list. */
  lemma {:induction false} StartsInList(i: int, sizes: seq<int>, n: int)
    requires 0 <= i <= n && Breaks(sizes, n - i)
    ensures forall k :: 0 <= k < |LineStarts(i, sizes)| ==> i < LineStarts(i, sizes)[k] < n
    ensures sizes != [] ==> |LineStarts(i, sizes)| == |sizes| - 1
    decreases |sizes|
  {
    if |sizes| > 1 {
      StartsInList(i + sizes[0], sizes[1..], n);
      assert sizes[1..][0] > 0;
    }
  }

  /** cost is the least, over all cuts of n elements, of the lines and the breaks, less what the first break is
      given back. */
  ghost predicate IsLeastOver(
      table: seq<seq<LayoutFn>>, n: int, x: int, z: int, dis: seq<int>, breaks: seq<int> -> int, cost: int) {
    && (forall sizes :: sizes != [] && Breaks(sizes, n) ==>
          cost <= LinesOnly(table, 0, sizes, x, z) + breaks(LineStarts(0, sizes)) - FirstDiscount(dis, 0, sizes))
    && (exists sizes :: sizes != [] && Breaks(sizes, n)
                        && cost == LinesOnly(table, 0, sizes, x, z) + breaks(LineStarts(0, sizes)) - FirstDiscount(dis, 0, sizes))
  }

  lemma LeastOver(
      table: seq<seq<LayoutFn>>, pen: seq<int>, n: int, x: int, z: int, dis: seq<int>, breaks: seq<int> -> int, cost: int)
    requires 0 < n && IsLeastLess(table, pen, n, 0, x, z, dis, cost)
    requires forall sizes :: sizes != [] && Breaks(sizes, n) ==> SumAt(pen, LineStarts(0, sizes)) == breaks(LineStarts(0, sizes))
    ensures IsLeastOver(table, n, x, z, dis, breaks, cost)
  {
    hide LinesCost, LinesOnly, Breaks, FirstDiscount, LineStarts, SumAt;
    forall sizes | sizes != [] && Breaks(sizes, n)
      ensures LinesCost(table, pen, 0, sizes, x, z) == LinesOnly(table, 0, sizes, x, z) + breaks(LineStarts(0, sizes))
    {
      LinesAndBreaks(table, pen, 0, sizes, x, z);
    }
    forall sizes | sizes != [] && Breaks(sizes, n)
      ensures cost <= LinesOnly(table, 0, sizes, x, z) + breaks(LineStarts(0, sizes)) - FirstDiscount(dis, 0, sizes)
    {
      assert Breaks(sizes, n - 0);
    }
    var sizes :| sizes != [] && Breaks(sizes, n - 0)
                 && cost == LinesCost(table, pen, 0, sizes, x, z) - FirstDiscount(dis, 0, sizes);
    assert Breaks(sizes, n);
  }

  /** Wrapping the tokens of a line: at every column the cost is the least, over all cuts, of the lines, plus for
      every later line the line break, the penalty for passing the limit and the break penalty of its first
      token, less what the first break is given back. */
  lemma TokensWrapAtLeastPrice(style: Style, wrapSpaces: nat, tokens: seq<Token>, lf: LayoutFn, x: int)
    returns (lfs: seq<LayoutFn>, table: seq<seq<LayoutFn>>, rests: seq<LayoutFn>)
    requires TokensWrapAs(style, wrapSpaces, tokens, lf) && 0 <= x && x + wrapSpaces < INFINITY
    ensures TokenLines(style, tokens, lfs) && IsTable(style, wrapSpaces, lfs, table)
    ensures Valid(lf) && |rests| == |tokens| > 0 && lf == rests[0]
    ensures IsLeastOver(table, |tokens|, x, x + wrapSpaces, Discounts(style, rests, 0, x + wrapSpaces, wrapSpaces),
                        at => TokenBreaks(style, tokens, at), Cost(lf, x))
  {
    hide IsTable, IsLeastLess, IsLeastOver, Penalties, IsLine;
    var pen := Penalties(style, true, TokenPieces(tokens));
    lfs :| TokenLines(style, tokens, lfs) && WrapsAs(style, pen, wrapSpaces, lfs, lf);
    table, rests := WrapsAtLeastCost(style, pen, wrapSpaces, lfs, lf, x);
    forall sizes | sizes != [] && Breaks(sizes, |tokens|)
      ensures SumAt(pen, LineStarts(0, sizes)) == TokenBreaks(style, tokens, LineStarts(0, sizes))
    {
      TokenBreaksAre(style, tokens, LineStarts(0, sizes));
    }
    LeastOver(table, pen, |tokens|, x, x + wrapSpaces, Discounts(style, rests, 0, x + wrapSpaces, wrapSpaces),
              at => TokenBreaks(style, tokens, at), Cost(lf, x));
  }

  /** Wrapping the children of a node: the same with a line break for every later line. */
  lemma ChildrenWrapAtLeastPrice(style: Style, p: Partition, hang: nat, layouts: seq<LayoutFn>, lf: LayoutFn, x: int)
    returns (table: seq<seq<LayoutFn>>, rests: seq<LayoutFn>)
    requires |layouts| == |p.children| && WrapsAs(style, ChildPenalties(style, p), hang, layouts, lf)
    requires 0 <= x && x + hang < INFINITY
    ensures IsTable(style, hang, layouts, table) && Valid(lf) && |rests| == |layouts| > 0 && lf == rests[0]
    ensures IsLeastOver(table, |layouts|, x, x + hang, Discounts(style, rests, 0, x + hang, hang),
                        at => |at| * style.lineBreakPenalty, Cost(lf, x))
  {
    hide IsTable, IsLeastLess, IsLeastOver, ChildPenalties;
    var pen := ChildPenalties(style, p);
    table, rests := WrapsAtLeastCost(style, pen, hang, layouts, lf, x);
    forall sizes | sizes != [] && Breaks(sizes, |layouts|)
      ensures SumAt(pen, LineStarts(0, sizes)) == |LineStarts(0, sizes)| * style.lineBreakPenalty
    {
      StartsInList(0, sizes, |layouts|);
      ChildBreaksAre(style, p, LineStarts(0, sizes));
    }
    LeastOver(table, pen, |layouts|, x, x + hang, Discounts(style, rests, 0, x + hang, hang),
              at => |at| * style.lineBreakPenalty, Cost(lf, x));
  }
}

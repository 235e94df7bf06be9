/** Breaking a list of fragments into lines at least cost: LayoutFunctionFactory::Wrap. */
module LayoutWrap {
  import Seqs
  import opened LayoutFunction
  import opened LayoutChoice
  import opened LayoutStack
  import opened LayoutJuxtaposition

  // ----- the lines that can be formed

  /** group' is group with the next fragment added to the same line, or below it if it must wrap. */
  ghost predicate Joins(style: Style, hang: nat, group: LayoutFn, next: LayoutFn, group': LayoutFn) {
    && Operand(group) && Operand(next)
    && (!MustWrap(next) ==> IsJuxtaposition(style, group, next, group'))
    && (MustWrap(next) ==>
          exists below :: IsIndented(style, next, hang, below) && IsStacked(style, [group, below], group'))
  }

  /** row[k] lays out the fragments i .. i + k on one line. */
  ghost predicate IsRow(style: Style, hang: nat, lfs: seq<LayoutFn>, i: nat, row: seq<LayoutFn>) {
    && 0 < |row| && i + |row| <= |lfs| && row[0] == lfs[i]
    && (forall k :: 0 <= k < |row| ==> Operand(row[k]))
    && (forall k :: 0 <= k < |row| - 1 ==> Joins(style, hang, row[k], lfs[i + k + 1], row[k + 1]))
  }

  ghost predicate IsTable(style: Style, hang: nat, lfs: seq<LayoutFn>, table: seq<seq<LayoutFn>>) {
    && |table| == |lfs|
    && forall i :: 0 <= i < |lfs| ==> |table[i]| == |lfs| - i && IsRow(style, hang, lfs, i, table[i])
  }

  // ----- all ways of breaking the list

  /** Sizes of consecutive lines that use up n fragments. */
  ghost predicate Breaks(sizes: seq<int>, n: int)
    decreases |sizes|
  {
    if sizes == [] then n == 0 else 0 < sizes[0] <= n && Breaks(sizes[1..], n - sizes[0])
  }

  ghost function LineCost(table: seq<seq<LayoutFn>>, i: int, k: int, x: int): int {
    if 0 <= i < |table| && 0 <= k < |table[i]| && Valid(table[i][k]) && 0 <= x then Cost(table[i][k], x) else 0
  }

  ghost function Penalty(pen: seq<int>, i: int): int {
    if 0 <= i < |pen| then pen[i] else 0
  }

  /** The cost of breaking the fragments from i on into lines of the given sizes, the first
      line at column x and every later one at column z; pen[j] is the price of a break before j. */
  ghost function LinesCost(table: seq<seq<LayoutFn>>, pen: seq<int>, i: int, sizes: seq<int>, x: int, z: int): int
    requires sizes != []
    decreases |sizes|
  {
    var line := LineCost(table, i, sizes[0] - 1, x);
    if |sizes| == 1 then line
    else line + Penalty(pen, i + sizes[0]) + LinesCost(table, pen, i + sizes[0], sizes[1..], z, z)
  }

  /** No way of breaking the n fragments from i on is cheaper, and some way costs exactly this. */
  ghost predicate IsLeast(table: seq<seq<LayoutFn>>, pen: seq<int>, n: int, i: int, x: int, z: int, cost: int) {
    && (forall sizes :: sizes != [] && Breaks(sizes, n - i) ==> cost <= LinesCost(table, pen, i, sizes, x, z))
    && (exists sizes :: sizes != [] && Breaks(sizes, n - i) && cost == LinesCost(table, pen, i, sizes, x, z))
  }

  /** What the first break of a breaking that starts at fragment i is given back. */
  ghost function FirstDiscount(dis: seq<int>, i: int, sizes: seq<int>): int
    requires sizes != []
  {
    if |sizes| > 1 && 0 <= i + sizes[0] < |dis| then dis[i + sizes[0]] else 0
  }

  /** The same with something given back for the first break. */
  ghost predicate IsLeastLess(
      table: seq<seq<LayoutFn>>, pen: seq<int>, n: int, i: int, x: int, z: int, dis: seq<int>, cost: int) {
    && (forall sizes :: sizes != [] && Breaks(sizes, n - i) ==>
          cost <= LinesCost(table, pen, i, sizes, x, z) - FirstDiscount(dis, i, sizes))
    && (exists sizes :: sizes != [] && Breaks(sizes, n - i)
                        && cost == LinesCost(table, pen, i, sizes, x, z) - FirstDiscount(dis, i, sizes))
  }

  /** The cost of a first line of k + 1 fragments followed by the best for the rest. */
  ghost function Candidate(
      table: seq<seq<LayoutFn>>, pen: seq<int>, n: int, i: int, x: int, rest: seq<int>, dis: seq<int>, k: int): int
  {
    var j := i + k + 1;
    LineCost(table, i, k, x) + if 0 <= j < n && j < |rest| && j < |dis| then Penalty(pen, j) + rest[j] - dis[j] else 0
  }

  /** No breaking is cheaper than its first line followed by the best for the rest. */
  lemma NoCheaper(
      table: seq<seq<LayoutFn>>, pen: seq<int>, n: int, i: int, x: int, z: int, rest: seq<int>, dis: seq<int>, sizes: seq<int>)
    requires 0 <= i < n == |rest| == |dis| && sizes != [] && Breaks(sizes, n - i)
    requires forall j :: i < j < n ==> IsLeast(table, pen, n, j, z, z, rest[j])
    ensures Candidate(table, pen, n, i, x, rest, dis, sizes[0] - 1)
         <= LinesCost(table, pen, i, sizes, x, z) - FirstDiscount(dis, i, sizes)
  {
    hide LineCost, Penalty;
    var j := i + sizes[0];
    if |sizes| > 1 {
      assert Breaks(sizes[1..], n - j);
      assert IsLeast(table, pen, n, j, z, z, rest[j]);
    } else {
      assert sizes[1..] == [];
    }
  }

  /** Some breaking costs just as much as a first line followed by the best for the rest. */
  lemma Attained(
      table: seq<seq<LayoutFn>>, pen: seq<int>, n: int, i: int, x: int, z: int, rest: seq<int>, dis: seq<int>, k: int)
    returns (sizes: seq<int>)
    requires 0 <= i < n == |rest| == |dis| && 0 <= k < n - i
    requires forall j :: i < j < n ==> IsLeast(table, pen, n, j, z, z, rest[j])
    ensures sizes != [] && Breaks(sizes, n - i)
    ensures Candidate(table, pen, n, i, x, rest, dis, k)
         == LinesCost(table, pen, i, sizes, x, z) - FirstDiscount(dis, i, sizes)
  {
    hide LineCost, Penalty;
    var j := i + k + 1;
    sizes := [k + 1];
    if j == n {
      assert sizes[1..] == [];
    } else {
      assert IsLeast(table, pen, n, j, z, z, rest[j]);
      var later: seq<int> :| later != [] && Breaks(later, n - j) && rest[j] == LinesCost(table, pen, j, later, z, z);
      sizes := sizes + later;
      assert sizes[1..] == later;
    }
  }

  /** Bellman's principle for the breaks: the best first line with the best rest is best. */
  lemma BestFirstLine(
      table: seq<seq<LayoutFn>>, pen: seq<int>, n: int, i: int, x: int, z: int, rest: seq<int>, dis: seq<int>, best: int)
    requires 0 <= i < n == |rest| == |dis|
    requires forall j :: i < j < n ==> IsLeast(table, pen, n, j, z, z, rest[j])
    requires forall k :: 0 <= k < n - i ==> best <= Candidate(table, pen, n, i, x, rest, dis, k)
    requires exists k :: 0 <= k < n - i && best == Candidate(table, pen, n, i, x, rest, dis, k)
    ensures IsLeastLess(table, pen, n, i, x, z, dis, best)
  {
    hide LinesCost, Candidate, FirstDiscount;
    forall sizes | sizes != [] && Breaks(sizes, n - i)
      ensures best <= LinesCost(table, pen, i, sizes, x, z) - FirstDiscount(dis, i, sizes)
    {
      NoCheaper(table, pen, n, i, x, z, rest, dis, sizes);
      assert best <= Candidate(table, pen, n, i, x, rest, dis, sizes[0] - 1);
    }
    var k :| 0 <= k < n - i && best == Candidate(table, pen, n, i, x, rest, dis, k);
    var sizes := Attained(table, pen, n, i, x, z, rest, dis, k);
    assert sizes != [] && Breaks(sizes, n - i)
        && best == LinesCost(table, pen, i, sizes, x, z) - FirstDiscount(dis, i, sizes);
  }

  /** Giving nothing back leaves the plain minimum. */
  lemma NothingGivenBack(
      table: seq<seq<LayoutFn>>, pen: seq<int>, n: int, i: int, x: int, z: int, dis: seq<int>, cost: int)
    requires IsLeastLess(table, pen, n, i, x, z, dis, cost)
    requires forall j :: 0 <= j < |dis| ==> dis[j] == 0
    ensures IsLeast(table, pen, n, i, x, z, cost)
  {
    hide LinesCost, Breaks;
    forall sizes | sizes != [] && Breaks(sizes, n - i) ensures cost <= LinesCost(table, pen, i, sizes, x, z) {
      assert FirstDiscount(dis, i, sizes) == 0;
    }
    var sizes :| sizes != [] && Breaks(sizes, n - i)
                 && cost == LinesCost(table, pen, i, sizes, x, z) - FirstDiscount(dis, i, sizes);
    assert FirstDiscount(dis, i, sizes) == 0;
  }

  /** What is given back never makes the result dearer than any breaking. */
  lemma NeverAbove(
      table: seq<seq<LayoutFn>>, pen: seq<int>, n: int, i: int, x: int, z: int, dis: seq<int>, cost: int, sizes: seq<int>)
    requires IsLeastLess(table, pen, n, i, x, z, dis, cost) && sizes != [] && Breaks(sizes, n - i)
    requires forall j :: 0 <= j < |dis| ==> 0 <= dis[j]
    ensures cost <= LinesCost(table, pen, i, sizes, x, z)
  {
    hide LinesCost, Breaks;
    assert 0 <= FirstDiscount(dis, i, sizes);
  }

  /** The plain minimum is met exactly if some cheapest breaking is given back nothing. */
  lemma LeastExactly(
      table: seq<seq<LayoutFn>>, pen: seq<int>, n: int, i: int, x: int, z: int, dis: seq<int>, cost: int)
    requires IsLeastLess(table, pen, n, i, x, z, dis, cost) && forall j :: 0 <= j < |dis| ==> 0 <= dis[j]
    ensures IsLeast(table, pen, n, i, x, z, cost) <==> SomeFullPrice(table, pen, n, i, x, z, dis, cost)
  {
    hide LinesCost, Breaks, FirstDiscount;
    forall sizes | sizes != [] && Breaks(sizes, n - i) ensures cost <= LinesCost(table, pen, i, sizes, x, z) {
      NeverAbove(table, pen, n, i, x, z, dis, cost, sizes);
    }
    if IsLeast(table, pen, n, i, x, z, cost) {
      var sizes :| sizes != [] && Breaks(sizes, n - i) && cost == LinesCost(table, pen, i, sizes, x, z);
      assert FirstDiscount(dis, i, sizes) == 0 by { NotNegative(dis, i, sizes); }
    }
  }

  /** Some breaking of this cost is given back nothing for its first break. */
  ghost predicate SomeFullPrice(
      table: seq<seq<LayoutFn>>, pen: seq<int>, n: int, i: int, x: int, z: int, dis: seq<int>, cost: int) {
    exists sizes :: && sizes != [] && Breaks(sizes, n - i) && FirstDiscount(dis, i, sizes) == 0
                    && cost == LinesCost(table, pen, i, sizes, x, z)
  }

  lemma NotNegative(dis: seq<int>, i: int, sizes: seq<int>)
    requires sizes != [] && forall j :: 0 <= j < |dis| ==> 0 <= dis[j]
    ensures 0 <= FirstDiscount(dis, i, sizes)
  {
  }

  // ----- the tokens

  function Flatten(ts: seq<seq<Piece>>): seq<Piece> {
    if ts == [] then [] else ts[0] + Flatten(ts[1..])
  }

  /** The price of a break before a fragment that starts with the given token. */
  function BreakPenalty(style: Style, useTokensBreakPenalty: bool, ts: seq<Piece>): int
    requires useTokensBreakPenalty ==> StartsWithToken(ts)
  {
    if useTokensBreakPenalty then style.overColumnLimitPenalty + ts[0][0].breakPenalty else 0
  }

  predicate StartsWithToken(ts: seq<Piece>) { ts != [] && ts[0] != [] }

  /** The price of a break before each fragment, the line break included. */
  ghost function Penalties(style: Style, useTokensBreakPenalty: bool, ts: seq<seq<Piece>>): (pen: seq<int>)
    requires useTokensBreakPenalty ==> forall i :: 0 <= i < |ts| ==> StartsWithToken(ts[i])
    ensures |pen| == |ts|
  {
    seq(|ts|, i requires 0 <= i < |ts| => style.lineBreakPenalty + BreakPenalty(style, useTokensBreakPenalty, ts[i]))
  }

  // ----- the combinators once more, with what Wrap needs of them

  lemma IndentIsOperand(style: Style, lf: LayoutFn, indent: nat, result: LayoutFn)
    requires Valid(lf) && Valid(result) && forall x :: 0 <= x ==> IndentsAt(style, lf, indent, result, x)
    ensures forall s :: Arranges(lf, s) ==> Arranges(result, s)
    ensures Operand(lf) ==> SameHead(result, lf)
  {
    forall i | 0 <= i < |result|
      ensures exists j :: 0 <= j < |lf| && result[i].layout == lf[j].layout.(indentation := lf[j].layout.indentation + indent)
                          && result[i].span == indent + lf[j].span
    {
      var x := result[i].column;
      AtUnique(result, x, i);
      assert IndentsAt(style, lf, indent, result, x);
    }
    forall s | Arranges(lf, s) ensures Arranges(result, s) {
      forall i | 0 <= i < |result| ensures Pieces(result[i].layout) == s {
        var j :| 0 <= j < |lf| && result[i].layout == lf[j].layout.(indentation := lf[j].layout.indentation + indent);
        SamePieces(lf[j].layout, lf[j].layout.indentation + indent);
      }
    }
  }

  lemma ChoiceIsLeast(lfs: seq<LayoutFn>, result: LayoutFn, x: int)
    requires (forall o :: 0 <= o < |lfs| ==> Valid(lfs[o])) && Valid(result) && 0 <= x
    requires PicksBest(lfs, result, x)
    ensures forall o :: 0 <= o < |lfs| ==> Cost(result, x) <= Cost(lfs[o], x)
    ensures exists o :: 0 <= o < |lfs| && Cost(result, x) == Cost(lfs[o], x)
  {
    var segs := Slice(lfs, x);
    var m :| IsBest(segs, x, m) && LooksLike(result[At(result, x)], segs[m], x);
    forall o | 0 <= o < |lfs| ensures Cost(result, x) <= Cost(lfs[o], x) {
      assert !Better(segs[o], segs[m], x);
    }
    assert Cost(result, x) == Cost(lfs[m], x);
  }

  lemma ChoiceArranges(lfs: seq<LayoutFn>, result: LayoutFn, s: seq<Piece>, like: LayoutFn)
    requires IsChoice(lfs, result) && like != []
    requires forall o :: 0 <= o < |lfs| ==> SameHead(lfs[o], like) && Arranges(lfs[o], s)
    ensures Arranges(result, s) && SameHead(result, like)
  {
    hide SegmentOk, ChoiceKnots;
    forall i | 0 <= i < |result|
      ensures Pieces(result[i].layout) == s && 0 <= result[i].span
      ensures result[i].layout.spacesBefore == like[0].layout.spacesBefore
      ensures result[i].layout.mustWrap == like[0].layout.mustWrap
    {
      ChosenSegment(lfs, result, s, like, i);
    }
  }

  lemma ChosenSegment(lfs: seq<LayoutFn>, result: LayoutFn, s: seq<Piece>, like: LayoutFn, i: nat)
    requires IsChoice(lfs, result) && like != [] && i < |result|
    requires forall o :: 0 <= o < |lfs| ==> SameHead(lfs[o], like) && Arranges(lfs[o], s)
    ensures Pieces(result[i].layout) == s && 0 <= result[i].span
    ensures result[i].layout.spacesBefore == like[0].layout.spacesBefore
    ensures result[i].layout.mustWrap == like[0].layout.mustWrap
  {
    hide SegmentOk, ChoiceKnots, Pieces, Better;
    var x := result[i].column;
    AtUnique(result, x, i);
    assert PicksBest(lfs, result, x);
    var m :| IsBest(Slice(lfs, x), x, m) && LooksLike(result[i], Slice(lfs, x)[m], x);
    assert SameHead(lfs[m], like) && Arranges(lfs[m], s);
  }

  // ----- breaking after a line

  /** What indenting by hang gives back at column z: the charge for the knot in force there. */
  function Discount(style: Style, rest: LayoutFn, z: int, hang: nat): int
    requires Valid(rest) && 0 <= z
  {
    var knot := rest[At(rest, z)].column;
    Overhang(style, if knot > hang then knot else hang)
  }

  /** Nothing is given back if and only if there is no penalty or neither the knot in force nor the hanging
      indentation lies beyond the column limit. */
  lemma DiscountIsZero(style: Style, rest: LayoutFn, z: int, hang: nat)
    requires Valid(rest) && 0 <= z
    ensures Discount(style, rest, z, hang) == 0 <==>
              style.overColumnLimitPenalty == 0 || (rest[At(rest, z)].column <= style.columnLimit && hang <= style.columnLimit)
    ensures 0 <= style.overColumnLimitPenalty ==> 0 <= Discount(style, rest, z, hang)
    ensures hang <= z <= style.columnLimit ==> Discount(style, rest, z, hang) == 0
  {
    var knot := rest[At(rest, z)].column;
    var c := if knot > hang then knot else hang;
    if c > style.columnLimit {
      ProductIsZero(style.overColumnLimitPenalty, c - style.columnLimit);
    }
  }

  lemma ProductIsZero(a: int, b: int)
    requires 0 < b
    ensures a * b == 0 <==> a == 0
    ensures 0 <= a ==> 0 <= a * b
  {
  }

  /** candidate puts the line on top of the rest, which row 0 indents, and adds a penalty. */
  ghost predicate IsBreak(
      style: Style, i: int, hang: nat, penalty: int, line: LayoutFn, rest: LayoutFn, candidate: LayoutFn)
  {
    Valid(rest) && exists below, stacked ::
      && (if i == 0 then IsIndented(style, rest, hang, below) else below == rest)
      && IsStacked(style, [line, below], stacked) && candidate == Raise(stacked, penalty)
  }

  /** The cost of a break at any column. */
  lemma BreakCost(
      style: Style, i: int, hang: nat, penalty: int, line: LayoutFn, rest: LayoutFn, candidate: LayoutFn, x: int)
    requires IsBreak(style, i, hang, penalty, line, rest, candidate) && Valid(line) && 0 <= x < INFINITY && hang < INFINITY
    ensures Valid(candidate)
    ensures var z := if i == 0 then x + hang else x;
            Cost(candidate, x) == Cost(line, x) + style.lineBreakPenalty + penalty + Cost(rest, z)
                                  - if i == 0 then Discount(style, rest, z, hang) else 0
  {
    var below, stacked :| (if i == 0 then IsIndented(style, rest, hang, below) else below == rest)
                          && IsStacked(style, [line, below], stacked) && candidate == Raise(stacked, penalty);
    hide IsIndented, SegmentOk, StackKnots, At, Valid;
    assert Valid([line, below][1]);
    StackOfTwo(style, line, below, stacked, x);
    RaisedCost(stacked, penalty, x);
    if i == 0 {
      IndentedAt(style, rest, hang, below, x);
    }
  }

  lemma IndentedAt(style: Style, lf: LayoutFn, indent: nat, result: LayoutFn, x: int)
    requires Valid(lf) && Valid(result) && IsIndented(style, lf, indent, result) && indent < INFINITY && 0 <= x
    ensures IndentsAt(style, lf, indent, result, x)
    ensures Cost(result, x) == Cost(lf, x + indent) - Discount(style, lf, x + indent, indent)
  {
    IndentPointwise(style, lf, indent, result, At(lf, indent), x);
  }

  /** Puts the current line on top of the best for the rest and adds the price of the break. */
  method BreakHere(
      style: Style, line: LayoutFn, rest: LayoutFn, i: int, hang: nat, penalty: int,
      ghost s: seq<Piece>, ghost t: seq<Piece>)
    returns (candidate: LayoutFn)
    requires Operand(line) && Operand(rest) && hang < INFINITY && style.columnLimit < INFINITY && 0 <= i
    requires Arranges(line, s) && Arranges(rest, t)
    ensures IsBreak(style, i, hang, penalty, line, rest, candidate)
    ensures SameHead(candidate, line) && Arranges(candidate, s + t)
  {
    hide SegmentOk, Arranges, IsIndented;
    var below := rest;
    if i == 0 {
      below := Indent(style, rest, hang);
      IndentIsOperand(style, rest, hang, below);
    }
    var stacked := Stack(style, [line, below]);
    candidate := Raise(stacked, penalty);
    StackIsOperand(style, line, below, stacked);
    RaisedOperand(stacked, penalty);
  }

  /** Adds the next fragment to the line. */
  method Join(style: Style, hang: nat, group: LayoutFn, next: LayoutFn, ghost s: seq<Piece>, ghost t: seq<Piece>)
    returns (group': LayoutFn)
    requires Operand(group) && Operand(next) && hang < INFINITY && Arranges(group, s) && Arranges(next, t)
    ensures Joins(style, hang, group, next, group') && SameHead(group', group) && Arranges(group', s + t)
  {
    hide SegmentOk, Arranges, IsIndented;
    if MustWrap(next) {
      var below := Indent(style, next, hang);
      IndentIsOperand(style, next, hang, below);
      group' := Stack(style, [group, below]);
      StackIsOperand(style, group, below, group');
    } else {
      group' := Juxtaposition(style, group, next);
    }
  }

  lemma RowGrows(style: Style, hang: nat, lfs: seq<LayoutFn>, i: nat, row: seq<LayoutFn>, group: LayoutFn)
    requires IsRow(style, hang, lfs, i, row) && i + |row| < |lfs| && Operand(group)
    requires Joins(style, hang, row[|row| - 1], lfs[i + |row|], group)
    ensures IsRow(style, hang, lfs, i, row + [group])
  {
    var r := row + [group];
    forall k | 0 <= k < |r| - 1 ensures Joins(style, hang, r[k], lfs[i + k + 1], r[k + 1]) {
      if k < |row| - 1 {
        assert Joins(style, hang, row[k], lfs[i + k + 1], row[k + 1]);
      }
    }
  }

  // ----- the dynamic program

  /** Candidate k of row i: the first k + 1 fragments from i on in one line, then the best for the rest. */
  ghost predicate IsCandidate(
      style: Style, pen: seq<int>, i: int, hang: nat, row: seq<LayoutFn>, results: seq<LayoutFn>, k: int, candidate: LayoutFn)
  {
    && 0 <= i && 0 <= k < |row|
    && (i + k + 1 == |results| ==> candidate == row[k])
    && (i + k + 1 < |results| ==>
          IsBreak(style, i, hang, Penalty(pen, i + k + 1) - style.lineBreakPenalty, row[k], results[i + k + 1], candidate))
  }

  /** All candidates so far, with their tokens. */
  ghost predicate CandidatesUpTo(
      style: Style, pen: seq<int>, i: int, hang: nat, row: seq<LayoutFn>, results: seq<LayoutFn>,
      candidates: seq<LayoutFn>, tokens: seq<Piece>)
  {
    && row != []
    && forall k :: 0 <= k < |candidates| ==>
         && IsCandidate(style, pen, i, hang, row, results, k, candidates[k])
         && SameHead(candidates[k], row[0]) && Arranges(candidates[k], tokens)
  }

  lemma RowGrowsForCandidates(
      style: Style, pen: seq<int>, i: int, hang: nat, row: seq<LayoutFn>, results: seq<LayoutFn>,
      candidates: seq<LayoutFn>, tokens: seq<Piece>, group: LayoutFn)
    requires CandidatesUpTo(style, pen, i, hang, row, results, candidates, tokens)
    ensures CandidatesUpTo(style, pen, i, hang, row + [group], results, candidates, tokens)
  {
    hide IsBreak, SameHead, Arranges;
    forall k | 0 <= k < |candidates| ensures IsCandidate(style, pen, i, hang, row + [group], results, k, candidates[k]) {
      assert IsCandidate(style, pen, i, hang, row, results, k, candidates[k]);
    }
  }

  lemma CandidatesGrow(
      style: Style, pen: seq<int>, i: int, hang: nat, row: seq<LayoutFn>, results: seq<LayoutFn>,
      candidates: seq<LayoutFn>, tokens: seq<Piece>, candidate: LayoutFn)
    requires row != [] && CandidatesUpTo(style, pen, i, hang, row, results, candidates, tokens)
    requires SameHead(candidate, row[0]) && Arranges(candidate, tokens)
    requires IsCandidate(style, pen, i, hang, row, results, |candidates|, candidate)
    ensures CandidatesUpTo(style, pen, i, hang, row, results, candidates + [candidate], tokens)
  {
    hide IsCandidate, SameHead, Arranges;
  }

  /** The first token of the best for the rest is the first token of the next fragment. */
  lemma FirstTokenOfRest(ts: seq<seq<Piece>>, j: int, lf: LayoutFn)
    requires 0 <= j < |ts| && StartsWithToken(ts[j]) && lf != [] && Arranges(lf, Flatten(ts[j..]))
    ensures StartsWithToken(Pieces(lf[0].layout)) && Pieces(lf[0].layout)[0][0] == ts[j][0][0]
  {
    FlattenFirst(ts, j);
  }

  /** All ways to form the first line from fragment i on. */
  method LinesFrom(
      style: Style, lfs: seq<LayoutFn>, i: int, results: seq<LayoutFn>, useTokensBreakPenalty: bool, hang: nat,
      ghost ts: seq<seq<Piece>>, ghost pen: seq<int>)
    returns (candidates: seq<LayoutFn>, ghost row: seq<LayoutFn>)
    requires 0 <= i < |lfs| == |results| == |ts| && hang < INFINITY && style.columnLimit < INFINITY
    requires forall j :: 0 <= j < |lfs| ==> Operand(lfs[j]) && Arranges(lfs[j], ts[j])
    requires useTokensBreakPenalty ==> forall j :: 0 <= j < |ts| ==> StartsWithToken(ts[j])
    requires forall j :: i < j < |lfs| ==> Operand(results[j]) && Arranges(results[j], Flatten(ts[j..]))
    requires pen == Penalties(style, useTokensBreakPenalty, ts)
    ensures |candidates| == |row| == |lfs| - i && IsRow(style, hang, lfs, i, row)
    ensures CandidatesUpTo(style, pen, i, hang, row, results, candidates, Flatten(ts[i..]))
  {
    hide IsRow, CandidatesUpTo, Arranges, Joins, Flatten, Pieces, SameHead, Operand, IsBreak;
    assert IsRow(style, hang, lfs, i, [lfs[i]]) by { RowBegins(style, hang, lfs, i); }
    HeadOfItself(lfs[i]);
    candidates, row := [], [lfs[i]];
    var incremental := lfs[i];
    ghost var s := ts[i];
    var j := i;
    FlattenFirst(ts, i);
    NoCandidates(style, pen, i, hang, row, results, Flatten(ts[i..]));
    while j < |lfs| - 1
      invariant i <= j < |lfs| && |candidates| == j - i && |row| == j - i + 1
      invariant IsRow(style, hang, lfs, i, row) && row[0] == lfs[i] && incremental == row[j - i]
      invariant Operand(incremental) && Valid(incremental) && SameHead(incremental, lfs[i])
      invariant Arranges(incremental, s) && s + Flatten(ts[j + 1..]) == Flatten(ts[i..])
      invariant CandidatesUpTo(style, pen, i, hang, row, results, candidates, Flatten(ts[i..]))
      decreases |lfs| - j
    {
      FlattenFirst(ts, j + 1);
      HeadOfItself(results[j + 1]);
      var penalty := 0;
      if useTokensBreakPenalty {
        FirstTokenOfRest(ts, j + 1, results[j + 1]);
        var firstToken := Pieces(results[j + 1][0].layout)[0][0];
        penalty := style.overColumnLimitPenalty + firstToken.breakPenalty;
      }
      var candidate := BreakHere(style, incremental, results[j + 1], i, hang, penalty, s, Flatten(ts[j + 1..]));
      HeadMeans(candidate, incremental, lfs[i]);
      CandidatesGrow(style, pen, i, hang, row, results, candidates, Flatten(ts[i..]), candidate);
      candidates := candidates + [candidate];
      ghost var shorter := incremental;
      incremental := Join(style, hang, incremental, lfs[j + 1], s, ts[j + 1]);
      HeadMeans(incremental, shorter, lfs[i]);
      RowGrows(style, hang, lfs, i, row, incremental);
      RowGrowsForCandidates(style, pen, i, hang, row, results, candidates, Flatten(ts[i..]), incremental);
      row := row + [incremental];
      Seqs.Associative(s, ts[j + 1], Flatten(ts[j + 2..]));
      s := s + ts[j + 1];
      j := j + 1;
    }
    FlattenNothing(ts, j + 1, s);
    CandidatesGrow(style, pen, i, hang, row, results, candidates, Flatten(ts[i..]), incremental);
    candidates := candidates + [incremental];
  }

  lemma HeadOfItself(lf: LayoutFn)
    requires Operand(lf)
    ensures SameHead(lf, lf) && Valid(lf)
  {
  }

  lemma HeadMeans(lf: LayoutFn, like: LayoutFn, alike: LayoutFn)
    requires SameHead(lf, like) && SameHead(like, alike)
    ensures Operand(lf) && Valid(lf) && SameHead(lf, alike)
  {
  }

  lemma RowBegins(style: Style, hang: nat, lfs: seq<LayoutFn>, i: nat)
    requires i < |lfs| && Operand(lfs[i])
    ensures IsRow(style, hang, lfs, i, [lfs[i]])
  {
  }

  lemma NoCandidates(
      style: Style, pen: seq<int>, i: int, hang: nat, row: seq<LayoutFn>, results: seq<LayoutFn>, tokens: seq<Piece>)
    requires row != []
    ensures CandidatesUpTo(style, pen, i, hang, row, results, [], tokens)
  {
  }

  lemma FlattenFirst(ts: seq<seq<Piece>>, i: nat)
    requires i < |ts|
    ensures Flatten(ts[i..]) == ts[i] + Flatten(ts[i + 1..])
  {
    assert ts[i..][1..] == ts[i + 1..];
  }

  lemma FlattenNothing(ts: seq<seq<Piece>>, j: int, s: seq<Piece>)
    requires j == |ts|
    ensures s + Flatten(ts[j..]) == s
  {
  }

  /** Row i is solved: its result is the choice among its candidates, longer first lines first. */
  ghost predicate IsSolved(
      style: Style, pen: seq<int>, hang: nat, i: nat, row: seq<LayoutFn>, results: seq<LayoutFn>)
    requires i < |results|
  {
    exists candidates :: SolvedBy(style, pen, hang, i, row, results, candidates)
  }

  ghost predicate SolvedBy(
      style: Style, pen: seq<int>, hang: nat, i: nat, row: seq<LayoutFn>, results: seq<LayoutFn>, candidates: seq<LayoutFn>)
    requires i < |results|
  {
    && |candidates| == |row| == |results| - i
    && (forall k :: 0 <= k < |candidates| ==> IsCandidate(style, pen, i, hang, row, results, k, candidates[k]))
    && IsChoice(Seqs.Reversed(candidates), results[i])
  }

  /** What Wrap does, row by row from the last: the table of lines, and the best from each fragment on. */
  ghost predicate IsWrapped(
      style: Style, pen: seq<int>, hang: nat, lfs: seq<LayoutFn>, table: seq<seq<LayoutFn>>, results: seq<LayoutFn>)
  {
    && IsTable(style, hang, lfs, table) && |results| == |lfs|
    && forall i :: 0 <= i < |lfs| ==> Operand(results[i]) && IsSolved(style, pen, hang, i, table[i], results)
  }

  /** A row only looks at the results behind it. */
  lemma SolvedKept(
      style: Style, pen: seq<int>, hang: nat, i: nat, row: seq<LayoutFn>, results: seq<LayoutFn>, results': seq<LayoutFn>)
    requires i < |results| == |results'| && IsSolved(style, pen, hang, i, row, results)
    requires forall j :: i <= j < |results| ==> results[j] == results'[j]
    ensures IsSolved(style, pen, hang, i, row, results')
  {
    hide IsBreak, IsChoice;
    var candidates :| SolvedBy(style, pen, hang, i, row, results, candidates);
    forall k | 0 <= k < |candidates| ensures IsCandidate(style, pen, i, hang, row, results', k, candidates[k]) {
      assert IsCandidate(style, pen, i, hang, row, results, k, candidates[k]);
    }
    assert SolvedBy(style, pen, hang, i, row, results', candidates);
  }

  // ----- the results are least

  /** What the first break of row i is given back. */
  ghost function Discounts(style: Style, results: seq<LayoutFn>, i: int, z: int, hang: nat): (d: seq<int>)
    ensures |d| == |results|
  {
    seq(|results|, j requires 0 <= j < |results| =>
          if i == 0 && 0 < j && Valid(results[j]) && 0 <= z then Discount(style, results[j], z, hang) else 0)
  }

  lemma CandidateIsCost(
      style: Style, hang: nat, pen: seq<int>, i: int, table: seq<seq<LayoutFn>>, results: seq<LayoutFn>,
      candidate: LayoutFn, rest: seq<int>, k: int, x: int)
    requires 0 <= i < |table| == |results| == |rest| && |table[i]| == |table| - i && 0 <= k < |table| - i
    requires IsCandidate(style, pen, i, hang, table[i], results, k, candidate)
    requires 0 <= x < INFINITY && hang < INFINITY && Valid(table[i][k]) && forall j :: i < j < |results| ==> Valid(results[j])
    requires var z := if i == 0 then x + hang else x;
             forall j :: i < j < |results| ==> rest[j] == Cost(results[j], z)
    ensures Valid(candidate)
    ensures var z := if i == 0 then x + hang else x;
            Cost(candidate, x) == Candidate(table, pen, |table|, i, x, rest, Discounts(style, results, i, z, hang), k)
  {
    hide At, Cost, IsBreak, Discount;
    var j := i + k + 1;
    if j < |results| {
      BreakCost(style, i, hang, Penalty(pen, j) - style.lineBreakPenalty, table[i][k], results[j], candidate, x);
    }
  }

  /** Choosing the cheapest candidate for fragment i gives the least cost from there on. */
  lemma RowIsLeast(
      style: Style, hang: nat, pen: seq<int>, i: int, table: seq<seq<LayoutFn>>, results: seq<LayoutFn>,
      candidates: seq<LayoutFn>, x: int)
    requires 0 <= i < |table| == |results| && SolvedBy(style, pen, hang, i, table[i], results, candidates)
    requires 0 <= x < INFINITY && hang < INFINITY
    requires (forall k :: 0 <= k < |table[i]| ==> Valid(table[i][k])) && forall j :: i <= j < |results| ==> Valid(results[j])
    requires var z := if i == 0 then x + hang else x;
             forall j :: i < j < |results| ==> IsLeast(table, pen, |table|, j, z, z, Cost(results[j], z))
    ensures var z := if i == 0 then x + hang else x;
            IsLeastLess(table, pen, |table|, i, x, z, Discounts(style, results, i, z, hang), Cost(results[i], x))
  {
    hide At, Cost, IsLeast, IsLeastLess, Candidate, IsCandidate, Discounts, IsBest, Valid;
    var z, n := if i == 0 then x + hang else x, |table|;
    var rest := seq(n, j requires 0 <= j < n => if i < j then Cost(results[j], z) else 0);
    var dis := Discounts(style, results, i, z, hang);
    var rev := Seqs.Reversed(candidates);
    forall k | 0 <= k < n - i
      ensures Valid(candidates[k]) && Cost(candidates[k], x) == Candidate(table, pen, n, i, x, rest, dis, k)
    {
      CandidateIsCost(style, hang, pen, i, table, results, candidates[k], rest, k, x);
    }
    assert PicksBest(rev, results[i], x);
    ChoiceIsLeast(rev, results[i], x);
    forall k | 0 <= k < n - i ensures Cost(results[i], x) <= Candidate(table, pen, n, i, x, rest, dis, k) {
      assert rev[n - i - 1 - k] == candidates[k];
    }
    var o :| 0 <= o < |rev| && Cost(results[i], x) == Cost(rev[o], x);
    assert rev[o] == candidates[n - i - 1 - o];
    BestFirstLine(table, pen, n, i, x, z, rest, dis, Cost(results[i], x));
  }

  lemma WrappedRow(
      style: Style, pen: seq<int>, hang: nat, lfs: seq<LayoutFn>, table: seq<seq<LayoutFn>>, results: seq<LayoutFn>, i: nat)
    returns (candidates: seq<LayoutFn>)
    requires IsWrapped(style, pen, hang, lfs, table, results) && i < |lfs|
    ensures |table| == |results| == |lfs| && SolvedBy(style, pen, hang, i, table[i], results, candidates)
    ensures (forall k :: 0 <= k < |table[i]| ==> Valid(table[i][k])) && forall j :: i <= j < |results| ==> Valid(results[j])
  {
    hide SolvedBy, SegmentOk, Joins;
    assert IsSolved(style, pen, hang, i, table[i], results) && IsRow(style, hang, lfs, i, table[i]);
    candidates :| SolvedBy(style, pen, hang, i, table[i], results, candidates);
  }

  /** From every fragment but the first on, the result is the least at every column. */
  lemma {:induction false} RestsAreLeast(
      style: Style, pen: seq<int>, hang: nat, lfs: seq<LayoutFn>, table: seq<seq<LayoutFn>>, results: seq<LayoutFn>, i: nat, z: int)
    requires IsWrapped(style, pen, hang, lfs, table, results) && hang < INFINITY && 0 < i <= |lfs| && 0 <= z < INFINITY
    ensures |table| == |results| == |lfs| && forall j :: i <= j < |lfs| ==> Valid(results[j])
    ensures forall j :: i <= j < |lfs| ==> IsLeast(table, pen, |lfs|, j, z, z, Cost(results[j], z))
    decreases |lfs| - i
  {
    hide IsLeast, IsLeastLess, IsWrapped, SolvedBy, Cost;
    if i < |lfs| {
      RestsAreLeast(style, pen, hang, lfs, table, results, i + 1, z);
      var candidates := WrappedRow(style, pen, hang, lfs, table, results, i);
      RowIsLeast(style, hang, pen, i, table, results, candidates, z);
      NothingGivenBack(table, pen, |lfs|, i, z, z, Discounts(style, results, i, z, hang), Cost(results[i], z));
    } else {
      WrappedSizes(style, pen, hang, lfs, table, results);
    }
  }

  lemma WrappedSizes(
      style: Style, pen: seq<int>, hang: nat, lfs: seq<LayoutFn>, table: seq<seq<LayoutFn>>, results: seq<LayoutFn>)
    requires IsWrapped(style, pen, hang, lfs, table, results)
    ensures |table| == |results| == |lfs|
  {
  }

  /** Wrap is the least over all ways of breaking the list, except that the first break is given back the
      charge for the knot at which the rest is then indented. */
  lemma WrapIsLeast(
      style: Style, pen: seq<int>, hang: nat, lfs: seq<LayoutFn>, table: seq<seq<LayoutFn>>, results: seq<LayoutFn>, x: int)
    requires IsWrapped(style, pen, hang, lfs, table, results) && lfs != [] && 0 <= x && x + hang < INFINITY
    ensures |results| == |lfs| && Valid(results[0])
    ensures IsLeastLess(table, pen, |lfs|, 0, x, x + hang, Discounts(style, results, 0, x + hang, hang), Cost(results[0], x))
  {
    hide IsLeast, IsLeastLess, IsWrapped, SolvedBy, Cost;
    RestsAreLeast(style, pen, hang, lfs, table, results, 1, x + hang);
    var candidates := WrappedRow(style, pen, hang, lfs, table, results, 0);
    RowIsLeast(style, hang, pen, 0, table, results, candidates, x);
  }

  /** No knot in force in any rest, and not the hanging indentation, lies beyond the column limit. */
  predicate KnotsWithinLimit(style: Style, results: seq<LayoutFn>, z: int, hang: nat)
    requires 0 <= z && forall j :: 0 < j < |results| ==> Valid(results[j])
  {
    && (|results| > 1 ==> hang <= style.columnLimit)
    && forall j :: 0 < j < |results| ==> results[j][At(results[j], z)].column <= style.columnLimit
  }

  /** With the knots within the limit, or without a penalty, Wrap is the optimum. */
  lemma WrapIsOptimal(
      style: Style, pen: seq<int>, hang: nat, lfs: seq<LayoutFn>, table: seq<seq<LayoutFn>>, results: seq<LayoutFn>, x: int)
    requires IsWrapped(style, pen, hang, lfs, table, results) && lfs != [] && 0 <= x && x + hang < INFINITY
    requires forall j :: 0 <= j < |results| ==> Valid(results[j])
    requires style.overColumnLimitPenalty == 0 || KnotsWithinLimit(style, results, x + hang, hang)
    ensures |results| == |lfs| && IsLeast(table, pen, |lfs|, 0, x, x + hang, Cost(results[0], x))
  {
    hide IsLeast, IsLeastLess, IsWrapped, Cost;
    WrapIsLeast(style, pen, hang, lfs, table, results, x);
    var dis := Discounts(style, results, 0, x + hang, hang);
    forall j | 0 <= j < |dis| ensures dis[j] == 0 {
      if 0 < j {
        DiscountIsZero(style, results[j], x + hang, hang);
      }
    }
    NothingGivenBack(table, pen, |lfs|, 0, x, x + hang, dis, Cost(results[0], x));
  }

  /** Up to the column limit no knot in force lies beyond it. */
  lemma WithinLimit(style: Style, results: seq<LayoutFn>, z: int, hang: nat)
    requires hang <= z <= style.columnLimit && forall j :: 0 < j < |results| ==> Valid(results[j])
    ensures KnotsWithinLimit(style, results, z, hang)
  {
  }

  lemma DiscountsNotNegative(style: Style, results: seq<LayoutFn>, z: int, hang: nat)
    requires 0 <= style.overColumnLimitPenalty && 0 <= z
    ensures forall j :: 0 <= j < |results| ==> 0 <= Discounts(style, results, 0, z, hang)[j]
  {
    hide Discount;
    forall j | 0 <= j < |results| ensures 0 <= Discounts(style, results, 0, z, hang)[j] {
      if 0 < j && Valid(results[j]) {
        DiscountIsZero(style, results[j], z, hang);
      }
    }
  }

  /** With a penalty that is not negative Wrap never costs more than any breaking, and it is the optimum if and
      only if some breaking of its cost is given back nothing: DiscountIsZero says when that is so. */
  lemma WrapNeverAbove(
      style: Style, pen: seq<int>, hang: nat, lfs: seq<LayoutFn>, table: seq<seq<LayoutFn>>, results: seq<LayoutFn>, x: int)
    requires IsWrapped(style, pen, hang, lfs, table, results) && lfs != [] && 0 <= x && x + hang < INFINITY
    requires 0 <= style.overColumnLimitPenalty
    ensures |results| == |lfs| && Valid(results[0])
    ensures forall sizes :: sizes != [] && Breaks(sizes, |lfs|) ==>
              Cost(results[0], x) <= LinesCost(table, pen, 0, sizes, x, x + hang)
    ensures IsLeast(table, pen, |lfs|, 0, x, x + hang, Cost(results[0], x))
       <==> SomeFullPrice(table, pen, |lfs|, 0, x, x + hang, Discounts(style, results, 0, x + hang, hang), Cost(results[0], x))
  {
    hide IsLeast, IsLeastLess, IsWrapped, Cost, LinesCost, Breaks, Discounts, SomeFullPrice;
    WrapIsLeast(style, pen, hang, lfs, table, results, x);
    var dis := Discounts(style, results, 0, x + hang, hang);
    DiscountsNotNegative(style, results, x + hang, hang);
    forall sizes | sizes != [] && Breaks(sizes, |lfs|)
      ensures Cost(results[0], x) <= LinesCost(table, pen, 0, sizes, x, x + hang)
    {
      NeverAbove(table, pen, |lfs|, 0, x, x + hang, dis, Cost(results[0], x), sizes);
    }
    LeastExactly(table, pen, |lfs|, 0, x, x + hang, dis, Cost(results[0], x));
  }

  // ----- Wrap

  /** Joins fragments into lines. The table holds, for every run of fragments, the line they form, and
      results the best from every fragment on; results[0] is what Wrap returns. */
  method Wrap(
      style: Style, lfs: seq<LayoutFn>, useTokensBreakPenalty: bool, hang: nat, ghost ts: seq<seq<Piece>>)
    returns (result: LayoutFn, ghost table: seq<seq<LayoutFn>>, ghost rests: seq<LayoutFn>)
    requires |ts| == |lfs| && hang < INFINITY && style.columnLimit < INFINITY
    requires forall j :: 0 <= j < |lfs| ==> Operand(lfs[j]) && Arranges(lfs[j], ts[j])
    requires useTokensBreakPenalty ==> forall j :: 0 <= j < |ts| ==> StartsWithToken(ts[j])
    ensures lfs == [] ==> result == []
    ensures lfs != [] ==> SameHead(result, lfs[0]) && Arranges(result, Flatten(ts))
    ensures lfs != [] ==> IsWrapped(style, Penalties(style, useTokensBreakPenalty, ts), hang, lfs, table, rests)
    ensures lfs != [] ==> |rests| == |lfs| && result == rests[0]
    ensures lfs != [] ==> forall x :: 0 <= x && x + hang < INFINITY ==>
              IsLeastLess(table, Penalties(style, useTokensBreakPenalty, ts), |lfs|, 0, x, x + hang,
                          Discounts(style, rests, 0, x + hang, hang), Cost(result, x))
  {
    ghost var pen := Penalties(style, useTokensBreakPenalty, ts);
    if lfs == [] {
      return [], [], [];
    }
    hide IsSolved, IsRow, IsTable, CandidatesUpTo, Arranges, IsChoice, Flatten, Penalties, SameHead, Operand, IsLeastLess, IsWrapped,
      Discounts;
    if |lfs| == 1 {
      result, table, rests := lfs[0], [[lfs[0]]], [lfs[0]];
      SingleFragment(style, pen, hang, lfs, ts);
    } else {
      result, table, rests := WrapMany(style, lfs, useTokensBreakPenalty, hang, ts);
    }
    forall x | 0 <= x && x + hang < INFINITY
      ensures IsLeastLess(table, pen, |lfs|, 0, x, x + hang, Discounts(style, rests, 0, x + hang, hang), Cost(result, x))
    {
      WrapIsLeast(style, pen, hang, lfs, table, rests, x);
    }
  }

  /** Row i: the best from fragment i on. */
  method BestFrom(
      style: Style, lfs: seq<LayoutFn>, i: int, results: seq<LayoutFn>, useTokensBreakPenalty: bool, hang: nat,
      ghost ts: seq<seq<Piece>>, ghost pen: seq<int>)
    returns (chosen: LayoutFn, ghost row: seq<LayoutFn>)
    requires 0 <= i < |lfs| == |results| == |ts| && hang < INFINITY && style.columnLimit < INFINITY
    requires forall j :: 0 <= j < |lfs| ==> Operand(lfs[j]) && Arranges(lfs[j], ts[j])
    requires useTokensBreakPenalty ==> forall j :: 0 <= j < |ts| ==> StartsWithToken(ts[j])
    requires forall j :: i < j < |lfs| ==> Operand(results[j]) && Arranges(results[j], Flatten(ts[j..]))
    requires pen == Penalties(style, useTokensBreakPenalty, ts)
    ensures SameHead(chosen, lfs[i]) && Operand(chosen) && Valid(chosen) && Arranges(chosen, Flatten(ts[i..]))
    ensures |row| == |lfs| - i && IsRow(style, hang, lfs, i, row)
    ensures IsSolved(style, pen, hang, i, row, results[i := chosen])
  {
    hide IsSolved, IsRow, CandidatesUpTo, Arranges, IsChoice, Flatten, Penalties, SameHead, Operand, Valid;
    var candidates;
    candidates, row := LinesFrom(style, lfs, i, results, useTokensBreakPenalty, hang, ts, pen);
    RowStarts(style, hang, lfs, i, row);
    CandidatesAreValid(style, pen, i, hang, row, results, candidates, Flatten(ts[i..]));
    chosen := Choice(Seqs.Reversed(candidates));
    ChoiceArranges(Seqs.Reversed(candidates), chosen, Flatten(ts[i..]), lfs[i]);
    HeadIsValid(chosen, lfs[i]);
    RowSolved(style, pen, hang, i, row, results, results[i := chosen], candidates, Flatten(ts[i..]));
  }

  /** The loop over the rows, last first. */
  method WrapMany(
      style: Style, lfs: seq<LayoutFn>, useTokensBreakPenalty: bool, hang: nat, ghost ts: seq<seq<Piece>>)
    returns (result: LayoutFn, ghost table: seq<seq<LayoutFn>>, ghost rests: seq<LayoutFn>)
    requires |ts| == |lfs| > 0 && hang < INFINITY && style.columnLimit < INFINITY
    requires forall j :: 0 <= j < |lfs| ==> Operand(lfs[j]) && Arranges(lfs[j], ts[j])
    requires useTokensBreakPenalty ==> forall j :: 0 <= j < |ts| ==> StartsWithToken(ts[j])
    ensures SameHead(result, lfs[0]) && Arranges(result, Flatten(ts))
    ensures IsWrapped(style, Penalties(style, useTokensBreakPenalty, ts), hang, lfs, table, rests)
    ensures |rests| == |lfs| && result == rests[0] && Valid(result)
  {
    ghost var pen := Penalties(style, useTokensBreakPenalty, ts);
    hide IsSolved, IsRow, Arranges, Flatten, Penalties, SameHead, Operand, Valid, IsWrapped, RowsDone;
    var results: seq<LayoutFn> := seq(|lfs|, _ => []);
    table := seq(|lfs|, _ => []);
    var i := |lfs|;
    assert RowsDone(style, pen, hang, lfs, ts, table, results, i) by { NoRows(style, pen, hang, lfs, ts, table, results); }
    while i > 0
      invariant 0 <= i <= |lfs| == |results| == |table| && RowsDone(style, pen, hang, lfs, ts, table, results, i)
      decreases i
    {
      i := i - 1;
      RowsMean(style, pen, hang, lfs, ts, table, results, i + 1);
      var chosen;
      ghost var row;
      chosen, row := BestFrom(style, lfs, i, results, useTokensBreakPenalty, hang, ts, pen);
      RowAdded(style, pen, hang, lfs, ts, table, results, i, row, chosen);
      results, table := results[i := chosen], table[i := row];
    }
    result, rests := results[0], results;
    AllWrapped(style, pen, hang, lfs, ts, table, rests);
  }

  /** From fragment i on the rows are formed and solved. */
  ghost predicate RowsDone(
      style: Style, pen: seq<int>, hang: nat, lfs: seq<LayoutFn>, ts: seq<seq<Piece>>,
      table: seq<seq<LayoutFn>>, results: seq<LayoutFn>, i: nat)
  {
    && |results| == |table| == |lfs| == |ts|
    && forall j :: i <= j < |lfs| ==>
         && lfs[j] != [] && SameHead(results[j], lfs[j]) && Arranges(results[j], Flatten(ts[j..]))
         && |table[j]| == |lfs| - j && IsRow(style, hang, lfs, j, table[j])
         && IsSolved(style, pen, hang, j, table[j], results)
  }

  lemma NoRows(
      style: Style, pen: seq<int>, hang: nat, lfs: seq<LayoutFn>, ts: seq<seq<Piece>>,
      table: seq<seq<LayoutFn>>, results: seq<LayoutFn>)
    requires |results| == |table| == |lfs| == |ts|
    ensures RowsDone(style, pen, hang, lfs, ts, table, results, |lfs|)
  {
  }

  lemma RowsMean(
      style: Style, pen: seq<int>, hang: nat, lfs: seq<LayoutFn>, ts: seq<seq<Piece>>,
      table: seq<seq<LayoutFn>>, results: seq<LayoutFn>, i: nat)
    requires RowsDone(style, pen, hang, lfs, ts, table, results, i)
    ensures forall j :: i <= j < |lfs| ==> Operand(results[j]) && Arranges(results[j], Flatten(ts[j..]))
  {
    hide IsSolved, IsRow, Arranges, Flatten, Operand;
    forall j | i <= j < |lfs| ensures Operand(results[j]) && Arranges(results[j], Flatten(ts[j..])) {
      assert SameHead(results[j], lfs[j]);
    }
  }

  lemma RowAdded(
      style: Style, pen: seq<int>, hang: nat, lfs: seq<LayoutFn>, ts: seq<seq<Piece>>,
      table: seq<seq<LayoutFn>>, results: seq<LayoutFn>, i: nat, row: seq<LayoutFn>, chosen: LayoutFn)
    requires RowsDone(style, pen, hang, lfs, ts, table, results, i + 1) && i < |lfs|
    requires SameHead(chosen, lfs[i]) && Arranges(chosen, Flatten(ts[i..]))
    requires |row| == |lfs| - i && IsRow(style, hang, lfs, i, row)
    requires IsSolved(style, pen, hang, i, row, results[i := chosen])
    ensures RowsDone(style, pen, hang, lfs, ts, table[i := row], results[i := chosen], i)
  {
    hide IsSolved, IsRow, Arranges, Flatten, Operand;
    var results', table' := results[i := chosen], table[i := row];
    forall j | i < j < |lfs| ensures IsSolved(style, pen, hang, j, table'[j], results') {
      SolvedKept(style, pen, hang, j, table[j], results, results');
    }
  }

  lemma AllWrapped(
      style: Style, pen: seq<int>, hang: nat, lfs: seq<LayoutFn>, ts: seq<seq<Piece>>,
      table: seq<seq<LayoutFn>>, results: seq<LayoutFn>)
    requires RowsDone(style, pen, hang, lfs, ts, table, results, 0) && lfs != []
    ensures IsWrapped(style, pen, hang, lfs, table, results)
    ensures SameHead(results[0], lfs[0]) && Valid(results[0]) && Arranges(results[0], Flatten(ts))
  {
    hide IsRow, IsSolved, Valid, Uniform, Arranges, Flatten;
    assert ts[0..] == ts;
    forall j | 0 <= j < |lfs| ensures Operand(results[j]) {
      assert SameHead(results[j], lfs[j]);
    }
  }

  lemma RowStarts(style: Style, hang: nat, lfs: seq<LayoutFn>, i: nat, row: seq<LayoutFn>)
    requires IsRow(style, hang, lfs, i, row)
    ensures row != [] && row[0] == lfs[i] && lfs[i] != []
  {
    assert Operand(row[0]);
  }

  lemma HeadIsValid(lf: LayoutFn, like: LayoutFn)
    requires SameHead(lf, like)
    ensures Operand(lf) && Valid(lf)
  {
  }

  lemma RowSolved(
      style: Style, pen: seq<int>, hang: nat, i: nat, row: seq<LayoutFn>, before: seq<LayoutFn>, results: seq<LayoutFn>,
      candidates: seq<LayoutFn>, tokens: seq<Piece>)
    requires i < |results| == |before| && |candidates| == |row| == |results| - i
    requires CandidatesUpTo(style, pen, i, hang, row, before, candidates, tokens)
    requires (forall j :: i < j < |results| ==> results[j] == before[j]) && IsChoice(Seqs.Reversed(candidates), results[i])
    ensures IsSolved(style, pen, hang, i, row, results)
  {
    hide IsBreak, IsChoice, SameHead, Arranges;
    forall k | 0 <= k < |candidates| ensures IsCandidate(style, pen, i, hang, row, results, k, candidates[k]) {
      assert IsCandidate(style, pen, i, hang, row, before, k, candidates[k]);
    }
    assert SolvedBy(style, pen, hang, i, row, results, candidates);
  }

  lemma CandidatesAreValid(
      style: Style, pen: seq<int>, i: int, hang: nat, row: seq<LayoutFn>, results: seq<LayoutFn>,
      candidates: seq<LayoutFn>, tokens: seq<Piece>)
    requires CandidatesUpTo(style, pen, i, hang, row, results, candidates, tokens)
    ensures row != [] && forall k :: 0 <= k < |candidates| ==>
              Valid(Seqs.Reversed(candidates)[k]) && SameHead(Seqs.Reversed(candidates)[k], row[0]) && Arranges(Seqs.Reversed(candidates)[k], tokens)
  {
    hide IsCandidate, Arranges, SegmentOk;
    forall k | 0 <= k < |candidates|
      ensures Valid(Seqs.Reversed(candidates)[k]) && SameHead(Seqs.Reversed(candidates)[k], row[0]) && Arranges(Seqs.Reversed(candidates)[k], tokens)
    {
      assert SameHead(candidates[|candidates| - 1 - k], row[0]);
    }
  }

  lemma SingleFragment(style: Style, pen: seq<int>, hang: nat, lfs: seq<LayoutFn>, ts: seq<seq<Piece>>)
    requires |lfs| == |ts| == 1 && Operand(lfs[0]) && Arranges(lfs[0], ts[0])
    ensures IsWrapped(style, pen, hang, lfs, [[lfs[0]]], [lfs[0]]) && Arranges(lfs[0], Flatten(ts)) && SameHead(lfs[0], lfs[0])
    ensures Valid(lfs[0])
  {
    var c := [lfs[0]];
    assert ts == [ts[0]] && ts[1..] == [];
    assert Flatten(ts) == ts[0] + Flatten(ts[1..]);
    assert Seqs.Reversed(c) == c;
    OnlyChoice(c);
    hide IsChoice, SegmentOk, Arranges;
    RowBegins(style, hang, lfs, 0);
    assert SolvedBy(style, pen, hang, 0, [lfs[0]], c, c);
    assert IsSolved(style, pen, hang, 0, [lfs[0]], [lfs[0]]);
  }
}

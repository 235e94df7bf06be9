/** Horizontal combination: LayoutFunctionFactory::Juxtaposition. */
module LayoutJuxtaposition {
  import opened LayoutFunction
  import opened LayoutStack

  /** Whether to force a line break before the fragment: the flag of its first layout. */
  predicate MustWrap(lf: LayoutFn)
    requires lf != []
  {
    lf[0].layout.mustWrap
  }

  /** All layouts agree on what comes before the fragment. */
  predicate Uniform(lf: LayoutFn) {
    forall i :: 0 <= i < |lf| ==> lf[i].layout.spacesBefore == lf[0].layout.spacesBefore
                                  && lf[i].layout.mustWrap == lf[0].layout.mustWrap
  }

  predicate Operand(lf: LayoutFn) {
    Valid(lf) && Uniform(lf) && forall i :: 0 <= i < |lf| ==> 0 <= lf[i].span
  }

  /** An operand that other fragments see just as they see like. */
  predicate SameHead(lf: LayoutFn, like: LayoutFn) {
    && Operand(lf) && like != []
    && lf[0].layout.spacesBefore == like[0].layout.spacesBefore && lf[0].layout.mustWrap == like[0].layout.mustWrap
  }

  /** The column at which the right side starts when the left side is placed at x. */
  function RightColumn(left: LayoutFn, right: LayoutFn, x: int): (c: int)
    requires Operand(left) && Operand(right) && 0 <= x
    ensures x <= c
  {
    x + left[At(left, x)].span + right[0].layout.spacesBefore
  }

  function BesideLayout(l: Layout, r: Layout): Layout
    requires LayoutOk(l) && LayoutOk(r)
  {
    Adopt(Adopt(NewNode(KJuxtaposition, l), l), r)
  }

  lemma BesideLayoutOk(l: Layout, r: Layout)
    requires LayoutOk(l) && LayoutOk(r)
    ensures var s := BesideLayout(l, r);
            && LayoutOk(s) && Pieces(s) == Pieces(l) + Pieces(r) && Span(s) == Span(l) + r.spacesBefore + Span(r)
            && s.mustWrap == l.mustWrap && s.spacesBefore == l.spacesBefore
  {
    var empty := NewNode(KJuxtaposition, l);
    var first := Adopt(empty, l);
    AdoptSpan(empty, l);
    AdoptSpan(first, r);
    assert Pieces(first) == Pieces(l);
    hide Adopt, Span, Pieces;
  }

  /** The segment that puts r, standing at columnR, right of l, standing at columnL. */
  function Beside(style: Style, l: Segment, r: Segment, columnL: int, columnR: int): (s: Segment)
    requires SegmentOk(l) && SegmentOk(r)
    ensures SegmentOk(s) && Pieces(s.layout) == Pieces(l.layout) + Pieces(r.layout)
    ensures s.layout.mustWrap == l.layout.mustWrap && s.layout.spacesBefore == l.layout.spacesBefore
  {
    var over := columnR - style.columnLimit;
    BesideLayoutOk(l.layout, r.layout);
    Segment(columnL,
            BesideLayout(l.layout, r.layout),
            l.span + r.span + r.layout.spacesBefore,
            l.CostAt(columnL) + r.CostAt(columnR) - Overhang(style, columnR),
            l.gradient + r.gradient - if over >= 0 then style.overColumnLimitPenalty else 0)
  }

  /** At every column the result uses the left layout of that column and the right layout of
      the column where the left one ends; each knot is priced by adding the two. */
  predicate JuxtaposesAt(style: Style, left: LayoutFn, right: LayoutFn, result: LayoutFn, x: int)
    requires Operand(left) && Operand(right) && Valid(result) && 0 <= x
  {
    var r := result[At(result, x)];
    && 0 <= r.column <= x
    && At(left, x) == At(left, r.column)
    && At(right, RightColumn(left, right, x)) == At(right, RightColumn(left, right, r.column))
    && r == Knot(style, left, right, r.column)
  }

  /** The segment that belongs to a knot at column c. */
  function Knot(style: Style, left: LayoutFn, right: LayoutFn, c: int): (r: Segment)
    requires Operand(left) && Operand(right) && 0 <= c
    ensures r.column == c && SegmentOk(r)
    ensures Pieces(r.layout) == Pieces(left[At(left, c)].layout) + Pieces(right[At(right, RightColumn(left, right, c))].layout)
    ensures r.span == left[At(left, c)].span + right[0].layout.spacesBefore
                      + right[At(right, RightColumn(left, right, c))].span
    ensures r.layout.mustWrap == left[0].layout.mustWrap && r.layout.spacesBefore == left[0].layout.spacesBefore
  {
    var l := left[At(left, c)];
    var columnR := RightColumn(left, right, c);
    Beside(style, l, right[At(right, columnR)], c, columnR)
  }

  ghost predicate Laid(style: Style, left: LayoutFn, right: LayoutFn, result: LayoutFn, c: int)
    requires Operand(left) && Operand(right)
  {
    && (c == 0 ==> result == []) && RowKnots(left, right, result, c)
    && (0 < c ==> Valid(result) && result[|result| - 1].column < c
                  && (forall x :: 0 <= x < c ==> JuxtaposesAt(style, left, right, result, x)))
  }

  /** Either side changes at column d. */
  predicate SidesChange(left: LayoutFn, right: LayoutFn, d: int)
    requires Operand(left) && Operand(right)
  {
    0 < d && !SameSides(left, right, d - 1, d)
  }

  /** Up to column c the knots are just the columns where a side changes. */
  ghost predicate RowKnots(left: LayoutFn, right: LayoutFn, result: LayoutFn, c: int)
    requires Operand(left) && Operand(right)
  {
    forall d :: 0 <= d < c ==> (KnotOf(result, d) <==> d == 0 || SidesChange(left, right, d))
  }

  lemma RowKnotsStep(left: LayoutFn, right: LayoutFn, result: LayoutFn, k: Segment, c: int, next: int)
    requires Operand(left) && Operand(right) && 0 <= c < next && k.column == c
    requires RowKnots(left, right, result, c) && (c == 0 || SidesChange(left, right, c))
    requires if c == 0 then result == [] else Valid(result) && result[|result| - 1].column < c
    requires forall x :: c <= x < next ==> SameSides(left, right, c, x)
    ensures RowKnots(left, right, result + [k], next)
  {
    hide Operand, RightColumn, At, SegmentOk;
    forall d | 0 <= d < next ensures KnotOf(result + [k], d) <==> d == 0 || SidesChange(left, right, d) {
      KnotAppended(result, k, d);
      if c <= d && 0 < c {
        KnotsEnd(result, d);
      }
      if c < d {
        assert SameSides(left, right, c, d) && SameSides(left, right, c, d - 1);
      }
    }
  }

  lemma LaidNothing(style: Style, left: LayoutFn, right: LayoutFn)
    requires Operand(left) && Operand(right)
    ensures Laid(style, left, right, [], 0)
  {
  }

  lemma LaidMeans(style: Style, left: LayoutFn, right: LayoutFn, result: LayoutFn, c: int)
    requires Operand(left) && Operand(right) && 0 < c && Laid(style, left, right, result, c)
    ensures Valid(result) && forall x :: 0 <= x < c ==> JuxtaposesAt(style, left, right, result, x)
    ensures RowKnots(left, right, result, c)
  {
  }

  /** From column c up to x neither side changes. */
  predicate SameSides(left: LayoutFn, right: LayoutFn, c: int, x: int)
    requires Operand(left) && Operand(right) && 0 <= c <= x
  {
    && At(left, x) == At(left, c)
    && At(right, RightColumn(left, right, x)) == At(right, RightColumn(left, right, c))
  }

  lemma SidesStay(left: LayoutFn, right: LayoutFn, c: int, next: int, x: int)
    requires Operand(left) && Operand(right) && 0 <= c <= x < next
    requires var l := At(left, c); l + 1 < |left| ==> next <= left[l + 1].column
    requires var r := At(right, RightColumn(left, right, c));
             r + 1 < |right| ==> next - c <= right[r + 1].column - RightColumn(left, right, c)
    ensures SameSides(left, right, c, x)
  {
    hide Valid, Uniform;
    AtUnique(left, x, At(left, c));
    AtUnique(right, RightColumn(left, right, x), At(right, RightColumn(left, right, c)));
  }

  lemma KnotHolds(style: Style, left: LayoutFn, right: LayoutFn, result: LayoutFn, c: int, x: int)
    requires Operand(left) && Operand(right) && Valid(result) && 0 <= c <= x && SameSides(left, right, c, x)
    requires result[At(result, x)] == Knot(style, left, right, c)
    ensures JuxtaposesAt(style, left, right, result, x)
  {
  }

  lemma KnotKept(style: Style, left: LayoutFn, right: LayoutFn, result: LayoutFn, new_: LayoutFn, x: int)
    requires Operand(left) && Operand(right) && Valid(result) && Valid(new_) && 0 <= x
    requires JuxtaposesAt(style, left, right, result, x) && new_[At(new_, x)] == result[At(result, x)]
    ensures JuxtaposesAt(style, left, right, new_, x)
  {
  }

  lemma FirstKnot(k: Segment)
    requires k.column == 0 && SegmentOk(k)
    ensures Valid([k]) && forall x :: 0 <= x ==> At([k], x) == 0
  {
  }

  /** Between a knot and the next change of either side nothing changes. */
  lemma LayStep(style: Style, left: LayoutFn, right: LayoutFn, result: LayoutFn, c: int, next: int)
    requires Operand(left) && Operand(right) && 0 <= c < next && c < INFINITY
    requires Laid(style, left, right, result, c)
    requires var l := At(left, c); l + 1 < |left| ==> next <= left[l + 1].column
    requires var r := At(right, RightColumn(left, right, c));
             r + 1 < |right| ==> next - c <= right[r + 1].column - RightColumn(left, right, c)
    requires c == 0 || SidesChange(left, right, c)
    ensures Laid(style, left, right, result + [Knot(style, left, right, c)], next)
  {
    var k := Knot(style, left, right, c);
    var new_ := result + [k];
    hide Knot, JuxtaposesAt, SameSides, SidesChange, RowKnots, Operand, RightColumn, At, SegmentOk;
    forall x | c <= x < next ensures SameSides(left, right, c, x) {
      SidesStay(left, right, c, next, x);
    }
    RowKnotsStep(left, right, result, k, c, next);
    if 0 < c {
      AppendKnot(result, k);
    } else {
      FirstKnot(k);
      assert new_ == [k];
    }
    forall x | 0 <= x < next ensures JuxtaposesAt(style, left, right, new_, x) {
      if c <= x {
        KnotHolds(style, left, right, new_, c, x);
      } else {
        KnotKept(style, left, right, result, new_, x);
      }
    }
  }

  /** The sweep over the knots of both sides, when the right side need not wrap. */
  method Sweep(style: Style, left: LayoutFn, right: LayoutFn) returns (result: LayoutFn)
    requires Operand(left) && Operand(right)
    ensures Valid(result) && RowKnots(left, right, result, INFINITY)
    ensures forall x :: 0 <= x < INFINITY ==> JuxtaposesAt(style, left, right, result, x)
  {
    hide JuxtaposesAt, Laid, Beside, SegmentOk, RowKnots, SidesChange;
    result := [];
    LaidNothing(style, left, right);
    var l, r, columnL := 0, 0, 0;
    var columnR := left[l].span + right[r].layout.spacesBefore;
    AtUnique(left, 0, 0);
    r := At(right, columnR);
    while true
      invariant 0 <= columnL < INFINITY && l == At(left, columnL)
      invariant columnR == RightColumn(left, right, columnL) && r == At(right, columnR)
      invariant Laid(style, left, right, result, columnL) && (columnL == 0 || SidesChange(left, right, columnL))
      decreases |left| - l, |right| - r
    {
      ghost var before, c := result, columnL;
      result := result + [Beside(style, left[l], right[r], columnL, columnR)];
      var nextColumnL := if l + 1 != |left| then left[l + 1].column else INFINITY;
      var nextColumnR := if r + 1 != |right| then right[r + 1].column else INFINITY;
      if l + 1 == |left| && r + 1 == |right| {
        LayStep(style, left, right, before, c, INFINITY);
        LaidMeans(style, left, right, result, INFINITY);
        break;
      }
      if r + 1 == |right| || nextColumnL - columnL <= nextColumnR - columnR {
        LayStep(style, left, right, before, c, nextColumnL);
        columnL := nextColumnL;
        columnR := nextColumnL + left[l + 1].span + right[r].layout.spacesBefore;
        l := l + 1;
        AtUnique(left, columnL, l);
        LeftChanges(left, right, columnL, l);
        r := At(right, columnR);
      } else {
        columnR := nextColumnR;
        columnL := nextColumnR - left[l].span - right[r].layout.spacesBefore;
        LayStep(style, left, right, before, c, columnL);
        AtUnique(left, columnL, l);
        r := r + 1;
        AtUnique(right, columnR, r);
        RightChanges(left, right, c, columnL, l, r);
      }
    }
  }

  lemma LeftChanges(left: LayoutFn, right: LayoutFn, c: int, l: int)
    requires Operand(left) && Operand(right) && 0 < l < |left| && c == left[l].column
    ensures SidesChange(left, right, c)
  {
    hide SegmentOk;
    assert KnotOf(left, c);
    KnotsChange(left, c);
  }

  lemma RightChanges(left: LayoutFn, right: LayoutFn, b: int, c: int, l: int, r: int)
    requires Operand(left) && Operand(right) && 0 < r < |right| && 0 <= b < c
    requires l == At(left, b) == At(left, c) && RightColumn(left, right, c) == right[r].column
    ensures SidesChange(left, right, c)
  {
    hide SegmentOk;
    assert KnotOf(right, right[r].column);
    KnotsChange(right, right[r].column);
    AtUnique(left, c - 1, l);
  }

  /** What a juxtaposition must be, whichever way it is made. */
  ghost predicate IsJuxtaposition(style: Style, left: LayoutFn, right: LayoutFn, result: LayoutFn)
    requires Operand(left) && Operand(right)
  {
    && SameHead(result, left)
    && (!MustWrap(right) ==>
          RowKnots(left, right, result, INFINITY) && forall x :: 0 <= x < INFINITY ==> JuxtaposesAt(style, left, right, result, x))
    && (MustWrap(right) ==> exists stacked :: IsStacked(style, [left, right], stacked) && result == Raise(stacked, MUST_WRAP_PENALTY))
    && (MustWrap(right) ==> forall x :: 0 <= x < INFINITY ==>
          Cost(result, x) == Cost(left, x) + Cost(right, x) + style.lineBreakPenalty + MUST_WRAP_PENALTY)
    && (forall s, t :: Arranges(left, s) && Arranges(right, t) ==> Arranges(result, s + t))
  }

  method Juxtaposition(style: Style, left: LayoutFn, right: LayoutFn) returns (result: LayoutFn)
    requires Operand(left) && Operand(right)
    ensures IsJuxtaposition(style, left, right, result)
  {
    if MustWrap(right) {
      var stacked := Stack(style, [left, right]);
      result := Raise(stacked, MUST_WRAP_PENALTY);
      StackIsOperand(style, left, right, stacked);
      forall x | 0 <= x < INFINITY
        ensures Cost(result, x) == Cost(left, x) + Cost(right, x) + style.lineBreakPenalty + MUST_WRAP_PENALTY
      {
        StackOfTwo(style, left, right, stacked, x);
        RaisedCost(stacked, MUST_WRAP_PENALTY, x);
      }
      RaisedOperand(stacked, MUST_WRAP_PENALTY);
      return;
    }
    result := Sweep(style, left, right);
    SweepIsOperand(style, left, right, result);
  }

  /** The price of juxtaposing something that must wrap. */
  const MUST_WRAP_PENALTY: int := 2000000

  /** Adds a penalty to every segment. */
  function Raise(lf: LayoutFn, penalty: int): (r: LayoutFn)
    ensures |r| == |lf|
  {
    seq(|lf|, i requires 0 <= i < |lf| => lf[i].(intercept := lf[i].intercept + penalty))
  }

  lemma RaisedOperand(lf: LayoutFn, penalty: int)
    requires Valid(lf)
    ensures Valid(Raise(lf, penalty))
    ensures Operand(lf) ==> SameHead(Raise(lf, penalty), lf)
    ensures forall s :: Arranges(lf, s) ==> Arranges(Raise(lf, penalty), s)
  {
  }

  lemma RaisedCost(lf: LayoutFn, penalty: int, x: int)
    requires Valid(lf) && 0 <= x
    ensures Valid(Raise(lf, penalty)) && Cost(Raise(lf, penalty), x) == Cost(lf, x) + penalty
    ensures At(Raise(lf, penalty), x) == At(lf, x)
  {
    AtUnique(Raise(lf, penalty), x, At(lf, x));
  }

  /** The cost of two fragments side by side at any column: the sum of both where they stand, less the
      charge for the columns left of the right one if the knot in force puts that one beyond the limit. */
  lemma JuxtapositionCost(style: Style, left: LayoutFn, right: LayoutFn, result: LayoutFn, x: int)
    requires Operand(left) && Operand(right) && !MustWrap(right) && IsJuxtaposition(style, left, right, result)
    requires 0 <= x < INFINITY
    ensures var knot, c := result[At(result, x)].column, RightColumn(left, right, x);
            && 0 <= knot <= x && At(left, knot) == At(left, x)
            && Cost(result, x) == Cost(left, x) + Cost(right, c)
                                  - if RightColumn(left, right, knot) >= style.columnLimit
                                    then style.overColumnLimitPenalty * (c - style.columnLimit) else 0
  {
    hide SegmentOk, Operand, Valid, RightColumn, IsJuxtaposition, Beside, At;
    JuxtaposedAt(style, left, right, result, x);
    var knot, c := result[At(result, x)].column, RightColumn(left, right, x);
    BesideCost(style, left[At(left, x)], right[At(right, c)], knot, c - (x - knot), x);
  }

  lemma JuxtaposedAt(style: Style, left: LayoutFn, right: LayoutFn, result: LayoutFn, x: int)
    requires Operand(left) && Operand(right) && !MustWrap(right) && IsJuxtaposition(style, left, right, result)
    requires 0 <= x < INFINITY
    ensures Valid(result) && Valid(left) && Valid(right)
    ensures var knot, c := result[At(result, x)].column, RightColumn(left, right, x);
            && 0 <= knot <= x && At(left, knot) == At(left, x) && RightColumn(left, right, knot) == c - (x - knot)
            && SegmentOk(left[At(left, x)]) && SegmentOk(right[At(right, c)])
            && result[At(result, x)] == Beside(style, left[At(left, x)], right[At(right, c)], knot, c - (x - knot))
  {
    hide SegmentOk, Uniform, RowKnots, Beside;
    assert JuxtaposesAt(style, left, right, result, x);
  }

  lemma BesideCost(style: Style, l: Segment, r: Segment, columnL: int, columnR: int, x: int)
    requires SegmentOk(l) && SegmentOk(r)
    ensures Beside(style, l, r, columnL, columnR).CostAt(x)
         == l.CostAt(x) + r.CostAt(columnR + (x - columnL))
            - if columnR >= style.columnLimit
              then style.overColumnLimitPenalty * (columnR + (x - columnL) - style.columnLimit) else 0
  {
    var s := Beside(style, l, r, columnL, columnR);
    CostShift(s, columnL, x);
    CostShift(l, columnL, x);
    CostShift(r, columnR, columnR + (x - columnL));
    Distribute(l.gradient, r.gradient, style.overColumnLimitPenalty, x - columnL, columnR - style.columnLimit);
  }

  lemma Distribute(g: int, h: int, p: int, d: int, over: int)
    ensures (g + h - p) * d == g * d + h * d - p * d
    ensures (g + h) * d == g * d + h * d
    ensures p * (over + d) == p * over + p * d
  {
  }

  lemma StackIsOperand(style: Style, top: LayoutFn, bottom: LayoutFn, result: LayoutFn)
    requires Operand(top) && Operand(bottom) && Valid(result)
    requires forall x :: 0 <= x < INFINITY ==> StacksAt(style, [top, bottom], result, x)
    ensures SameHead(result, top)
    ensures forall s, t :: Arranges(top, s) && Arranges(bottom, t) ==> Arranges(result, s + t)
  {
    forall s, t | Arranges(top, s) && Arranges(bottom, t) ensures Arranges(result, s + t) {
      forall i | 0 <= i < |result| ensures Pieces(result[i].layout) == s + t {
        AtUnique(result, result[i].column, i);
        StackOfTwo(style, top, bottom, result, result[i].column);
      }
    }
    forall i | 0 <= i < |result|
      ensures 0 <= result[i].span && result[i].layout.spacesBefore == top[0].layout.spacesBefore
      ensures result[i].layout.mustWrap == top[0].layout.mustWrap
    {
      AtUnique(result, result[i].column, i);
      assert StacksAt(style, [top, bottom], result, result[i].column);
    }
  }

  lemma SweepIsOperand(style: Style, left: LayoutFn, right: LayoutFn, result: LayoutFn)
    requires Operand(left) && Operand(right) && Valid(result)
    requires forall x :: 0 <= x < INFINITY ==> JuxtaposesAt(style, left, right, result, x)
    ensures SameHead(result, left)
    ensures forall s, t :: Arranges(left, s) && Arranges(right, t) ==> Arranges(result, s + t)
  {
    forall s, t | Arranges(left, s) && Arranges(right, t) ensures Arranges(result, s + t) {
      forall i | 0 <= i < |result| ensures Pieces(result[i].layout) == s + t {
        AtUnique(result, result[i].column, i);
        assert JuxtaposesAt(style, left, right, result, result[i].column);
      }
    }
    forall i | 0 <= i < |result|
      ensures 0 <= result[i].span && result[i].layout.spacesBefore == left[0].layout.spacesBefore
      ensures result[i].layout.mustWrap == left[0].layout.mustWrap
    {
      AtUnique(result, result[i].column, i);
      assert JuxtaposesAt(style, left, right, result, result[i].column);
    }
  }
}

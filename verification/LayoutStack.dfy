/** Vertical combination and indentation: LayoutFunctionFactory::Stack, Indent and Line. */
module LayoutStack {
  import opened LayoutFunction
  import opened LayoutChoice

  // ----- the simple definition

  function SumCost(segs: seq<Segment>, x: int): int {
    if segs == [] then 0 else SumCost(segs[..|segs| - 1], x) + segs[|segs| - 1].CostAt(x)
  }

  function SumGradient(segs: seq<Segment>): int {
    if segs == [] then 0 else SumGradient(segs[..|segs| - 1]) + segs[|segs| - 1].gradient
  }

  function Layouts(segs: seq<Segment>): (ls: seq<Layout>)
    ensures |ls| == |segs|
  {
    seq(|segs|, i requires 0 <= i < |segs| => segs[i].layout)
  }

  /** All that a node of a kind takes over from some layouts. */
  function Gathered(kind: LayoutType, ls: seq<Layout>): seq<Layout> {
    if ls == [] then [] else Gathered(kind, ls[..|ls| - 1]) + Adoptable(kind, ls[|ls| - 1])
  }

  /** The layout that puts some below each other. */
  function StackLayout(ls: seq<Layout>): Layout
    requires ls != []
  {
    if |ls| == 1 then ls[0] else NewNode(KStack, ls[0]).(children := Gathered(KStack, ls))
  }

  /** r stacks the segments: every line costs what it costs alone, plus one break between
      each two, the last line's width remains, and the code is kept in order. */
  predicate IsStackOf(style: Style, segs: seq<Segment>, r: Segment, x: int)
    requires segs != []
  {
    && r.CostAt(x) == SumCost(segs, x) + (|segs| - 1) * style.lineBreakPenalty
    && r.gradient == SumGradient(segs)
    && r.span == segs[|segs| - 1].span
    && r.layout == StackLayout(Layouts(segs)) && Pieces(r.layout) == AllPieces(Layouts(segs))
    && r.layout.mustWrap == segs[0].layout.mustWrap
    && r.layout.spacesBefore == segs[0].layout.spacesBefore
  }

  predicate StacksAt(style: Style, lfs: seq<LayoutFn>, result: LayoutFn, x: int)
    requires lfs != [] && (forall o :: 0 <= o < |lfs| ==> Valid(lfs[o])) && Valid(result) && 0 <= x
  {
    IsStackOf(style, Slice(lfs, x), result[At(result, x)], x)
  }

  lemma {:induction false} SumShift(segs: seq<Segment>, c: int, x: int)
    ensures SumCost(segs, x) == SumCost(segs, c) + SumGradient(segs) * (x - c)
  {
    if segs != [] {
      var init, s := segs[..|segs| - 1], segs[|segs| - 1];
      SumShift(init, c, x);
      CostShift(s, c, x);
      assert SumGradient(segs) * (x - c) == SumGradient(init) * (x - c) + s.gradient * (x - c);
    }
  }

  lemma StackShift(style: Style, segs: seq<Segment>, r: Segment, c: int, x: int)
    requires segs != [] && IsStackOf(style, segs, r, c)
    ensures IsStackOf(style, segs, r, x)
  {
    SumShift(segs, c, x);
    CostShift(r, c, x);
  }

  // ----- the sweep

  lemma NothingStacked(segs: seq<Segment>)
    ensures AllPieces(Layouts(segs[..0])) == [] && Gathered(KStack, Layouts(segs[..0])) == []
  {
  }

  lemma OneMoreStacked(segs: seq<Segment>, i: nat, c: int)
    requires i < |segs|
    ensures SumCost(segs[..i + 1], c) == SumCost(segs[..i], c) + segs[i].CostAt(c)
    ensures SumGradient(segs[..i + 1]) == SumGradient(segs[..i]) + segs[i].gradient
    ensures AllPieces(Layouts(segs[..i + 1])) == AllPieces(Layouts(segs[..i])) + Pieces(segs[i].layout)
    ensures Gathered(KStack, Layouts(segs[..i + 1])) == Gathered(KStack, Layouts(segs[..i])) + Adoptable(KStack, segs[i].layout)
  {
    assert segs[..i + 1][..i] == segs[..i];
    assert Layouts(segs[..i + 1])[..i] == Layouts(segs[..i]);
    assert Layouts(segs[..i + 1]) == Layouts(segs[..i]) + [segs[i].layout];
    AllPiecesConcat(Layouts(segs[..i]), [segs[i].layout]);
    assert AllPieces([segs[i].layout]) == Pieces(segs[i].layout) + AllPieces([]);
  }

  /** The new segment at column c, as the inner loop of the code builds it. */
  method StackSegment(style: Style, segs: seq<Segment>, c: int) returns (r: Segment)
    requires |segs| > 1 && forall i :: 0 <= i < |segs| ==> SegmentOk(segs[i])
    ensures r.column == c && IsStackOf(style, segs, r, c) && SegmentOk(r)
  {
    hide Pieces, AllPieces, Gathered, Adoptable;
    var first := segs[0].layout;
    NothingStacked(segs);
    var intercept, gradient, layout := (|segs| - 1) * style.lineBreakPenalty, 0, NewNode(KStack, first);
    for i := 0 to |segs|
      invariant intercept == (|segs| - 1) * style.lineBreakPenalty + SumCost(segs[..i], c)
      invariant gradient == SumGradient(segs[..i])
      invariant 0 < i <==> layout.children != []
      invariant (if i == 0 then [] else Pieces(layout)) == AllPieces(Layouts(segs[..i]))
      invariant layout == NewNode(KStack, first).(children := Gathered(KStack, Layouts(segs[..i])))
      invariant 0 < i ==> LayoutOk(layout) && Span(layout) == segs[i - 1].span
    {
      OneMoreStacked(segs, i, c);
      intercept := intercept + segs[i].CostAt(c);
      gradient := gradient + segs[i].gradient;
      AdoptSpan(layout, segs[i].layout);
      layout := Adopt(layout, segs[i].layout);
    }
    assert segs[..|segs|] == segs;
    r := Segment(c, layout, segs[|segs| - 1].span, intercept, gradient);
    assert r.CostAt(c) == intercept;
  }

  ghost predicate Stacked(style: Style, lfs: seq<LayoutFn>, result: LayoutFn, c: int)
    requires lfs != [] && forall o :: 0 <= o < |lfs| ==> Valid(lfs[o])
  {
    && (c == 0 ==> result == []) && StackKnots(lfs, result, c)
    && (0 < c ==> Valid(result) && result[|result| - 1].column < c
                  && forall x :: 0 <= x < c ==> StacksAt(style, lfs, result, x))
  }

  /** Up to column c the knots are just those of the operands. */
  ghost predicate StackKnots(lfs: seq<LayoutFn>, result: LayoutFn, c: int) {
    forall d :: 0 <= d < c ==> (KnotOf(result, d) <==> SomeKnot(lfs, d))
  }

  /** What Stack yields, down to its knots. */
  ghost predicate IsStacked(style: Style, lfs: seq<LayoutFn>, result: LayoutFn) {
    && lfs != [] && (forall o :: 0 <= o < |lfs| ==> Valid(lfs[o])) && Valid(result)
    && (forall x :: 0 <= x < INFINITY ==> StacksAt(style, lfs, result, x))
    && StackKnots(lfs, result, INFINITY)
  }

  lemma KnotsMove(lfs: seq<LayoutFn>, result: LayoutFn, r: Segment, c: int, next: int)
    requires lfs != [] && (forall o :: 0 <= o < |lfs| ==> Valid(lfs[o])) && 0 <= c < next <= INFINITY
    requires StackKnots(lfs, result, c) && r.column == c && SomeKnot(lfs, c)
    requires if c == 0 then result == [] else Valid(result) && result[|result| - 1].column < c
    requires forall o, x :: 0 <= o < |lfs| && c <= x < next ==> At(lfs[o], x) == At(lfs[o], c)
    ensures StackKnots(lfs, result + [r], next)
  {
    hide SegmentOk;
    forall d | 0 <= d < next ensures KnotOf(result + [r], d) <==> SomeKnot(lfs, d) {
      KnotAppended(result, r, d);
      if c <= d && 0 < c {
        KnotsEnd(result, d);
      }
      if c < d {
        assert !SomeKnot(lfs, d) by {
          forall o | 0 <= o < |lfs| ensures !KnotOf(lfs[o], d) {
            KnotsChange(lfs[o], d);
          }
        }
      }
    }
  }

  lemma AllStartAtZero(lfs: seq<LayoutFn>)
    requires lfs != [] && forall o :: 0 <= o < |lfs| ==> Valid(lfs[o])
    ensures SomeKnot(lfs, 0)
  {
    assert lfs[0][0].column == 0;
    assert KnotOf(lfs[0], 0);
  }

  lemma StackStep(style: Style, lfs: seq<LayoutFn>, result: LayoutFn, r: Segment, c: int, next: int)
    requires lfs != [] && (forall o :: 0 <= o < |lfs| ==> Valid(lfs[o])) && 0 <= c < next <= INFINITY
    requires Stacked(style, lfs, result, c)
    requires r.column == c && IsStackOf(style, Slice(lfs, c), r, c) && SegmentOk(r)
    requires forall x :: c <= x < next ==> Slice(lfs, x) == Slice(lfs, c)
    requires SomeKnot(lfs, c) && forall o, x :: 0 <= o < |lfs| && c <= x < next ==> At(lfs[o], x) == At(lfs[o], c)
    ensures Stacked(style, lfs, result + [r], next)
  {
    hide SegmentOk, IsStackOf, SomeKnot, StackKnots;
    KnotsMove(lfs, result, r, c, next);
    var new_ := result + [r];
    if 0 < c {
      AppendKnot(result, r);
    }
    forall x | 0 <= x < next ensures StacksAt(style, lfs, new_, x) {
      if c <= x {
        AtUnique(new_, x, |result|);
        StackShift(style, Slice(lfs, c), r, c, x);
      } else {
        assert StacksAt(style, lfs, result, x);
      }
    }
  }

  method Stack(style: Style, lfs: seq<LayoutFn>) returns (result: LayoutFn)
    requires forall o :: 0 <= o < |lfs| ==> Valid(lfs[o])
    ensures lfs == [] ==> result == []
    ensures lfs != [] ==> IsStacked(style, lfs, result)
  {
    if lfs == [] {
      return [];
    }
    AllStartAtZero(lfs);
    if |lfs| == 1 {
      forall x | 0 <= x < INFINITY ensures StacksAt(style, lfs, lfs[0], x) {
        SingleStack(style, Slice(lfs, x), x);
      }
      return lfs[0];
    }
    hide SegmentOk, IsStackOf, StacksAt, SomeKnot, KnotOf, Stacked, IsStacked;
    NothingStackedYet(style, lfs);
    result := [];
    var its := seq(|lfs|, _ => 0);
    var c := 0;
    while c < INFINITY
      invariant 0 <= c <= INFINITY && |its| == |lfs| && forall o :: 0 <= o < |lfs| ==> 0 <= its[o] < |lfs[o]|
      invariant Stacked(style, lfs, result, c) && (c == INFINITY || SomeKnot(lfs, c))
      decreases INFINITY - c
    {
      var next;
      its, next := MoveAll(lfs, its, c);
      var segs := seq(|lfs|, o requires 0 <= o < |lfs| => lfs[o][its[o]]);
      assert segs == Slice(lfs, c);
      AllSegmentsOk(lfs, c);
      var r := StackSegment(style, segs, c);
      StackStep(style, lfs, result, r, c, next);
      result := result + [r];
      c := next;
    }
    StackedMeans(style, lfs, result);
  }

  lemma NothingStackedYet(style: Style, lfs: seq<LayoutFn>)
    requires lfs != [] && forall o :: 0 <= o < |lfs| ==> Valid(lfs[o])
    ensures Stacked(style, lfs, [], 0)
  {
  }

  lemma AllSegmentsOk(lfs: seq<LayoutFn>, c: int)
    requires (forall o :: 0 <= o < |lfs| ==> Valid(lfs[o])) && 0 <= c
    ensures forall o :: 0 <= o < |lfs| ==> SegmentOk(Slice(lfs, c)[o])
  {
  }

  lemma StackedMeans(style: Style, lfs: seq<LayoutFn>, result: LayoutFn)
    requires lfs != [] && (forall o :: 0 <= o < |lfs| ==> Valid(lfs[o])) && Stacked(style, lfs, result, INFINITY)
    ensures IsStacked(style, lfs, result)
  {
  }

  lemma SingleStack(style: Style, segs: seq<Segment>, x: int)
    requires |segs| == 1
    ensures IsStackOf(style, segs, segs[0], x)
  {
    assert segs[..0] == [] && Layouts(segs)[1..] == [];
    assert SumCost(segs, x) == SumCost(segs[..0], x) + segs[0].CostAt(x);
    assert SumGradient(segs) == SumGradient(segs[..0]) + segs[0].gradient;
    assert AllPieces(Layouts(segs)) == Pieces(segs[0].layout) + AllPieces(Layouts(segs)[1..]);
  }

  /** Two operands, the form Wrap uses. */
  lemma StackOfTwo(style: Style, top: LayoutFn, bottom: LayoutFn, result: LayoutFn, x: int)
    requires Valid(top) && Valid(bottom) && Valid(result) && 0 <= x
    requires StacksAt(style, [top, bottom], result, x)
    ensures Cost(result, x) == Cost(top, x) + Cost(bottom, x) + style.lineBreakPenalty
    ensures Pieces(result[At(result, x)].layout)
         == Pieces(top[At(top, x)].layout) + Pieces(bottom[At(bottom, x)].layout)
  {
    hide Valid, At, Pieces, IsStackOf;
    var s, t := top[At(top, x)], bottom[At(bottom, x)];
    assert Slice([top, bottom], x) == [s, t];
    StackedTwo(style, s, t, result[At(result, x)], x);
  }

  lemma StackedTwo(style: Style, s: Segment, t: Segment, r: Segment, x: int)
    requires IsStackOf(style, [s, t], r, x)
    ensures r.CostAt(x) == s.CostAt(x) + t.CostAt(x) + style.lineBreakPenalty
    ensures Pieces(r.layout) == Pieces(s.layout) + Pieces(t.layout)
  {
    hide SumCost, SumGradient, Pieces, AllPieces;
    assert Layouts([s, t]) == [s.layout, t.layout];
    SumOfTwo(s, t, x);
    PiecesOfTwo(s.layout, t.layout);
  }

  lemma SumOfTwo(s: Segment, t: Segment, x: int)
    ensures SumCost([s, t], x) == s.CostAt(x) + t.CostAt(x)
  {
    var segs := [s, t];
    assert segs[..1] == [s] && [s][..0] == [];
    assert SumCost([s], x) == SumCost([s][..0], x) + s.CostAt(x);
    assert SumCost(segs, x) == SumCost(segs[..1], x) + t.CostAt(x);
  }

  lemma GradientOfTwo(s: Segment, t: Segment)
    ensures SumGradient([s, t]) == s.gradient + t.gradient
  {
    assert [s, t][..1] == [s] && [s][..0] == [];
    assert SumGradient([s]) == SumGradient([s][..0]) + s.gradient;
  }

  lemma PiecesOfTwo(l: Layout, m: Layout)
    ensures AllPieces([l, m]) == Pieces(l) + Pieces(m)
  {
    assert [l, m][1..] == [m] && [m][1..] == [];
    assert AllPieces([m]) == Pieces(m) + AllPieces([]);
  }

  // ----- indentation

  /** The charge for columns beyond the limit that the indentation itself takes up. */
  function Overhang(style: Style, column: int): int {
    style.overColumnLimitPenalty * (if column > style.columnLimit then column - style.columnLimit else 0)
  }

  /** What Indent yields at column x: the layout of column x + indent, less the charge for the
      knot (or the indentation itself) it starts at. */
  predicate IndentsAt(style: Style, lf: LayoutFn, indent: int, result: LayoutFn, x: int)
    requires Valid(lf) && Valid(result) && 0 <= x && 0 <= indent
  {
    var s, r := lf[At(lf, x + indent)], result[At(result, x)];
    && r.CostAt(x) == s.CostAt(x + indent) - Overhang(style, if s.column > indent then s.column else indent)
    && r.gradient == s.gradient && r.span == indent + s.span
    && r.layout == s.layout.(indentation := s.layout.indentation + indent)
  }

  method Indent(style: Style, lf: LayoutFn, indent: int) returns (result: LayoutFn)
    requires Valid(lf) && 0 <= indent < INFINITY
    ensures Valid(result)
    ensures IsIndented(style, lf, indent, result)
    ensures forall x :: 0 <= x ==> IndentsAt(style, lf, indent, result, x)
    ensures forall i :: 0 <= i < |result| ==> exists j :: 0 <= j < |lf| && Pieces(result[i].layout) == Pieces(lf[j].layout)
  {
    hide SegmentOk, IsAt, Indented, IndentsAt, Pieces, IsIndented;
    result := [];
    var indentColumn, column := 0, indent;
    var first := At(lf, column);
    assert 0 <= first < |lf| && lf[first].column <= indent by { SegmentFound(lf, indent); }
    var k := first;
    while true
      invariant first <= k < |lf| && indentColumn == column - indent && |result| == k - first
      invariant column == if k == first then indent else lf[k].column
      invariant forall i :: 0 <= i < |result| ==> result[i] == Indented(style, lf, indent, first + i)
      decreases |lf| - k
    {
      result := result + [Indented(style, lf, indent, k)];
      k := k + 1;
      if k == |lf| {
        break;
      }
      column := lf[k].column;
      indentColumn := column - indent;
    }
    IndentIsValid(style, lf, indent, result, first);
    IndentMeans(style, lf, indent, result, first);
  }

  lemma SegmentFound(lf: LayoutFn, x: int)
    requires Valid(lf) && 0 <= x
    ensures 0 <= At(lf, x) < |lf| && lf[At(lf, x)].column <= x
  {
  }

  lemma IndentMeans(style: Style, lf: LayoutFn, indent: nat, result: LayoutFn, first: int)
    requires Valid(lf) && Valid(result) && first == At(lf, indent) && |result| == |lf| - first
    requires forall i :: 0 <= i < |result| ==> result[i] == Indented(style, lf, indent, first + i)
    ensures IsIndented(style, lf, indent, result)
    ensures forall x :: 0 <= x ==> IndentsAt(style, lf, indent, result, x)
    ensures forall i :: 0 <= i < |result| ==> exists j :: 0 <= j < |lf| && Pieces(result[i].layout) == Pieces(lf[j].layout)
  {
    forall x | 0 <= x ensures IndentsAt(style, lf, indent, result, x) {
      IndentPointwise(style, lf, indent, result, first, x);
    }
    hide IndentsAt, SegmentOk, Overhang;
    forall i | 0 <= i < |result|
      ensures exists j :: 0 <= j < |lf| && Pieces(result[i].layout) == Pieces(lf[j].layout)
    {
      SamePieces(lf[first + i].layout, lf[first + i].layout.indentation + indent);
    }
  }

  /** What Indent yields, segment by segment. */
  predicate IsIndented(style: Style, lf: LayoutFn, indent: nat, result: LayoutFn)
    requires Valid(lf)
  {
    var first := At(lf, indent);
    |result| == |lf| - first && forall i :: 0 <= i < |result| ==> result[i] == Indented(style, lf, indent, first + i)
  }

  /** The segment that Indent makes of segment k. */
  function Indented(style: Style, lf: LayoutFn, indent: nat, k: int): Segment
    requires 0 <= k < |lf|
  {
    var s := lf[k];
    var column := if s.column > indent then s.column else indent;
    Segment(column - indent, s.layout.(indentation := s.layout.indentation + indent), indent + s.span,
            s.CostAt(column) - Overhang(style, column), s.gradient)
  }

  lemma SamePieces(l: Layout, indentation: nat)
    ensures Pieces(l.(indentation := indentation)) == Pieces(l)
    ensures LayoutOk(l) ==> LayoutOk(l.(indentation := indentation))
    ensures Span(l.(indentation := indentation)) == Span(l) - l.indentation + indentation
  {
  }

  lemma IndentedOk(style: Style, lf: LayoutFn, indent: nat, k: int)
    requires 0 <= k < |lf| && SegmentOk(lf[k])
    ensures SegmentOk(Indented(style, lf, indent, k))
  {
    SamePieces(lf[k].layout, lf[k].layout.indentation + indent);
  }

  lemma IndentIsValid(style: Style, lf: LayoutFn, indent: nat, result: LayoutFn, first: int)
    requires Valid(lf) && first == At(lf, indent) && |result| == |lf| - first && indent < INFINITY
    requires forall i :: 0 <= i < |result| ==> result[i] == Indented(style, lf, indent, first + i)
    ensures Valid(result)
  {
    forall i | 0 <= i < |result| ensures SegmentOk(result[i]) {
      IndentedOk(style, lf, indent, first + i);
    }
    hide SegmentOk, Overhang;
    forall i | 0 <= i < |result| ensures 0 < i ==> 0 < result[i].column < INFINITY {
      assert result[i] == Indented(style, lf, indent, first + i);
    }
  }

  lemma IndentedSegment(lf: LayoutFn, style: Style, indent: nat, result: LayoutFn, first: int, x: int) returns (k: int)
    requires Valid(lf) && Valid(result) && first == At(lf, indent) && |result| == |lf| - first && 0 <= x
    requires forall i :: 0 <= i < |result| ==> result[i] == Indented(style, lf, indent, first + i)
    ensures k == At(lf, x + indent) && first <= k && At(result, x) == k - first
  {
    k := At(lf, x + indent);
    assert first <= k;
    assert result[k - first] == Indented(style, lf, indent, first + (k - first));
    if k + 1 < |lf| {
      assert result[k - first + 1] == Indented(style, lf, indent, first + (k - first + 1));
    }
    AtUnique(result, x, k - first);
  }

  lemma IndentedCost(style: Style, lf: LayoutFn, indent: nat, k: int, x: int)
    requires 0 <= k < |lf|
    ensures var s := lf[k];
            Indented(style, lf, indent, k).CostAt(x)
            == s.CostAt(x + indent) - Overhang(style, if s.column > indent then s.column else indent)
  {
    var s, r := lf[k], Indented(style, lf, indent, k);
    var column := if s.column > indent then s.column else indent;
    CostShift(s, column, x + indent);
    assert r.CostAt(x) == r.intercept + s.gradient * (x - (column - indent));
  }

  lemma IndentPointwise(style: Style, lf: LayoutFn, indent: nat, result: LayoutFn, first: int, x: int)
    requires Valid(lf) && Valid(result) && first == At(lf, indent) && |result| == |lf| - first && 0 <= x
    requires forall i :: 0 <= i < |result| ==> result[i] == Indented(style, lf, indent, first + i)
    ensures IndentsAt(style, lf, indent, result, x)
  {
    hide At, Overhang, SegmentOk;
    var k := IndentedSegment(lf, style, indent, result, first, x);
    IndentedCost(style, lf, indent, k, x);
    assert result[k - first] == Indented(style, lf, indent, first + (k - first));
  }

  /** Up to the column limit, indenting shifts the cost and nothing else. */
  lemma IndentWithinLimit(style: Style, lf: LayoutFn, indent: nat, result: LayoutFn, x: int)
    requires Valid(lf) && Valid(result) && 0 <= x && x + indent <= style.columnLimit
    requires IndentsAt(style, lf, indent, result, x)
    ensures Cost(result, x) == Cost(lf, x + indent)
  {
  }

  /** Beyond it, indenting by nothing at all lowers the cost whenever a knot lies past the limit. */
  lemma IndentByZero(style: Style, lf: LayoutFn, result: LayoutFn, x: int)
    requires Valid(lf) && Valid(result) && 0 <= x && 0 <= style.columnLimit
    requires IndentsAt(style, lf, 0, result, x)
    ensures Cost(result, x) == Cost(lf, x)
            <==> style.overColumnLimitPenalty == 0 || lf[At(lf, x)].column <= style.columnLimit
  {
    var s := lf[At(lf, x)];
    if s.column > style.columnLimit && style.overColumnLimitPenalty != 0 {
      assert style.overColumnLimitPenalty * (s.column - style.columnLimit) != 0;
    }
  }

  // ----- a single line

  function LineLayout(tokens: Piece, spacesBefore: nat, mustWrap: bool): Layout {
    Layout(KLine, 0, tokens, spacesBefore, mustWrap, [])
  }

  /** What Line yields: the one layout, whose cost at any column is the charge for the columns beyond the
      limit, with a knot where the line starts to pass it. */
  ghost predicate IsLine(style: Style, tokens: Piece, spacesBefore: nat, mustWrap: bool, lf: LayoutFn) {
    && Valid(lf)
    && (forall i :: 0 <= i < |lf| ==>
          && lf[i].layout == LineLayout(tokens, spacesBefore, mustWrap) && lf[i].span == Width(tokens)
          && lf[i].gradient == if style.columnLimit <= lf[i].column + Width(tokens) then style.overColumnLimitPenalty else 0)
    && (forall x :: 0 <= x ==> Cost(lf, x) == Overhang(style, x + Width(tokens)))
    && (forall c :: KnotOf(lf, c) <==> c == 0 || (0 < c && c + Width(tokens) == style.columnLimit))
  }

  method Line(style: Style, tokens: Piece, spacesBefore: nat, mustWrap: bool) returns (lf: LayoutFn)
    requires style.columnLimit < INFINITY
    ensures IsLine(style, tokens, spacesBefore, mustWrap, lf) && Arranges(lf, [tokens])
  {
    hide KnotOf, Width;
    var layout, span := LineLayout(tokens, spacesBefore, mustWrap), Width(tokens);
    if span < style.columnLimit {
      lf := [Segment(0, layout, span, 0, 0),
             Segment(style.columnLimit - span, layout, span, 0, style.overColumnLimitPenalty)];
      forall x | 0 <= x ensures Cost(lf, x) == Overhang(style, x + span) {
        AtUnique(lf, x, if x < style.columnLimit - span then 0 else 1);
      }
    } else {
      lf := [Segment(0, layout, span, (span - style.columnLimit) * style.overColumnLimitPenalty,
                     style.overColumnLimitPenalty)];
      forall x | 0 <= x ensures Cost(lf, x) == Overhang(style, x + span) {
        AtUnique(lf, x, 0);
        assert style.overColumnLimitPenalty * (x + span - style.columnLimit)
            == (span - style.columnLimit) * style.overColumnLimitPenalty + style.overColumnLimitPenalty * x;
      }
    }
    KnotsListed(lf);
  }

  lemma KnotsListed(lf: LayoutFn)
    requires 1 <= |lf| <= 2
    ensures forall c :: KnotOf(lf, c) <==> c == lf[0].column || (|lf| == 2 && c == lf[1].column)
  {
  }
}

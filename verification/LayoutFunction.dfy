/** Layout functions (verible/common/formatting/layout-optimizer-internal.h): for every
    starting column, a layout of a piece of code and its cost, as a piecewise linear
    function. Intercepts are integers here. */
module LayoutFunction {
  import Seqs

  /** Largest possible column, used as infinity. */
  const INFINITY: int := 0x7fff_ffff

  /** head counts the characters of the text up to the first line break, tail those from there on: a token of
      one line has no tail. index is the position of the token among all tokens. */
  datatype Token = Token(head: nat, tail: nat, spacesRequired: nat, breakPenalty: int, mustWrap: bool, index: int) {
    function Length(): nat { head + tail }
  }

  /** The tokens of one line of a layout. */
  type Piece = seq<Token>

  datatype LayoutType = KLine | KJuxtaposition | KStack

  /** A node of a layout tree; only lines, which are leaves, hold tokens. */
  datatype Layout = Layout(
    kind: LayoutType, indentation: nat, tokens: seq<Token>, spacesBefore: nat, mustWrap: bool, children: seq<Layout>)

  datatype Style = Style(columnLimit: int, overColumnLimitPenalty: int, lineBreakPenalty: int)

  /** A knot with the layout that is used from there up to the next knot. */
  datatype Segment = Segment(column: int, layout: Layout, span: int, intercept: int, gradient: int) {
    function CostAt(margin: int): int {
      intercept + gradient * (margin - column)
    }
  }

  type LayoutFn = seq<Segment>

  /** The lines of a layout in order, each with its tokens. */
  function Pieces(l: Layout): seq<Piece>
    decreases l, 1
  {
    if l.children == [] then [l.tokens] else AllPieces(l.children)
  }

  function AllPieces(ls: seq<Layout>): seq<Piece>
    decreases ls, 0
  {
    if ls == [] then [] else Pieces(ls[0]) + AllPieces(ls[1..])
  }

  lemma {:induction false} AllPiecesConcat(s: seq<Layout>, t: seq<Layout>)
    ensures AllPieces(s + t) == AllPieces(s) + AllPieces(t)
    decreases s
  {
    if s == [] {
      assert s + t == t;
    } else {
      hide Pieces;
      AllPiecesConcat(s[1..], t);
      Seqs.TailOfConcat(s, t);
      Seqs.Associative(Pieces(s[0]), AllPieces(s[1..]), AllPieces(t));
    }
  }

  /** Lines are leaves, and a combined layout stands for its first part: what the checks
      of AdoptLayoutAndFlattenIfSameType demand. */
  predicate LayoutOk(l: Layout) {
    && (l.kind == KLine <==> l.children == [])
    && (l.children != [] ==> l.children[0].mustWrap == l.mustWrap && l.children[0].spacesBefore == l.spacesBefore)
    && forall i :: 0 <= i < |l.children| ==> LayoutOk(l.children[i])
  }

  /** LayoutItem::Length, the width of a line: the spaces before its first token do not count, and of a token
      of several lines only the first one does. */
  function Width(tokens: Piece): nat {
    if tokens == [] then 0
    else if |tokens| == 1 then tokens[0].head
    else Width(tokens[..|tokens| - 1]) + tokens[|tokens| - 1].spacesRequired + tokens[|tokens| - 1].head
  }

  /** How far the last line of a layout reaches from the column at which the layout stands. */
  function Span(l: Layout): int
    decreases l, 1
  {
    l.indentation + if l.children == [] then Width(l.tokens)
                    else if l.kind == KStack then Span(l.children[|l.children| - 1])
                    else RowSpan(l.children)
  }

  function RowSpan(ls: seq<Layout>): int
    decreases ls, 0
  {
    if ls == [] then 0
    else
      var n := |ls| - 1;
      RowSpan(ls[..n]) + (if n == 0 then 0 else ls[n].spacesBefore) + Span(ls[n])
  }

  lemma {:induction false} RowSpanConcat(s: seq<Layout>, t: seq<Layout>)
    requires s != [] && t != []
    ensures RowSpan(s + t) == RowSpan(s) + t[0].spacesBefore + RowSpan(t)
    decreases |t|
  {
    Seqs.FrontOfConcat(s, t);
    if |t| > 1 {
      RowSpanConcat(s, t[..|t| - 1]);
    } else {
      assert t[..0] == [] && s + [] == s;
    }
  }

  lemma RowSpanOne(l: Layout)
    ensures RowSpan([l]) == Span(l)
  {
    assert [l][..0] == [];
  }

  /** The span of a segment is that of its layout. */
  predicate SegmentOk(s: Segment) { LayoutOk(s.layout) && s.span == Span(s.layout) }

  /** Knots start at 0 and increase. */
  predicate Valid(lf: LayoutFn) {
    && lf != [] && lf[0].column == 0
    && (forall i, j :: 0 <= i < j < |lf| ==> lf[i].column < lf[j].column)
    && (forall i :: 0 <= i < |lf| ==> lf[i].column < INFINITY && SegmentOk(lf[i]))
  }

  /** i is the segment in force at column x. */
  predicate IsAt(lf: LayoutFn, x: int, i: int) {
    0 <= i < |lf| && lf[i].column <= x && (i + 1 < |lf| ==> x < lf[i + 1].column)
  }

  /** The segment at or to the left of a column. */
  function At(lf: LayoutFn, x: int): (i: int)
    requires Valid(lf) && 0 <= x
    ensures IsAt(lf, x, i)
  {
    if lf[|lf| - 1].column <= x then |lf| - 1 else assert |lf| > 1; At(lf[..|lf| - 1], x)
  }

  lemma AtUnique(lf: LayoutFn, x: int, i: int)
    requires Valid(lf) && 0 <= x && IsAt(lf, x, i)
    ensures At(lf, x) == i
  {
  }

  /** The cost of the fragment when it is placed at column x. */
  function Cost(lf: LayoutFn, x: int): int
    requires Valid(lf) && 0 <= x
  {
    lf[At(lf, x)].CostAt(x)
  }

  lemma CostShift(s: Segment, c: int, x: int)
    ensures s.CostAt(x) == s.CostAt(c) + s.gradient * (x - c)
  {
    assert s.gradient * (x - s.column) == s.gradient * (c - s.column) + s.gradient * (x - c);
  }

  /** Every layout of lf arranges exactly the pieces ts. */
  predicate Arranges(lf: LayoutFn, ts: seq<Piece>) {
    forall i :: 0 <= i < |lf| ==> Pieces(lf[i].layout) == ts
  }

  /** c is where a segment starts. */
  predicate KnotOf(lf: LayoutFn, c: int) {
    exists k :: 0 <= k < |lf| && lf[k].column == c
  }

  /** The segment in force changes at the knots and nowhere else. */
  lemma KnotsChange(lf: LayoutFn, c: int)
    requires Valid(lf) && 0 < c
    ensures KnotOf(lf, c) <==> At(lf, c) != At(lf, c - 1)
  {
    hide SegmentOk;
    if KnotOf(lf, c) {
      var k :| 0 <= k < |lf| && lf[k].column == c;
      AtUnique(lf, c, k);
    } else {
      AtUnique(lf, c, At(lf, c - 1));
    }
  }

  lemma KnotAppended(lf: LayoutFn, s: Segment, c: int)
    ensures KnotOf(lf + [s], c) <==> KnotOf(lf, c) || c == s.column
  {
    var r := lf + [s];
    assert r[|lf|] == s;
    if KnotOf(lf, c) {
      var k :| 0 <= k < |lf| && lf[k].column == c;
      assert r[k].column == c;
    }
  }

  /** No knot lies behind the last segment. */
  lemma KnotsEnd(lf: LayoutFn, c: int)
    requires lf != [] && Valid(lf) && lf[|lf| - 1].column < c
    ensures !KnotOf(lf, c)
  {
  }

  /** Appending a later knot leaves everything before it alone. */
  lemma AppendKnot(lf: LayoutFn, s: Segment)
    requires Valid(lf) && lf[|lf| - 1].column < s.column < INFINITY && SegmentOk(s)
    ensures Valid(lf + [s])
    ensures forall x :: 0 <= x < s.column ==> At(lf + [s], x) == At(lf, x)
    ensures forall x :: s.column <= x ==> At(lf + [s], x) == |lf|
  {
    var r := lf + [s];
    hide SegmentOk;
    assert r[..|r| - 1] == lf;
    forall x | 0 <= x < s.column ensures At(r, x) == At(lf, x) {
      AtUnique(r, x, At(lf, x));
    }
  }

  /** Moves a segment index to the segment at or to the left of a column. */
  method MoveToKnotAtOrToTheLeftOf(lf: LayoutFn, index: int, column: int) returns (i: int)
    requires Valid(lf) && 0 <= column && 0 <= index < |lf|
    ensures i == At(lf, column)
  {
    i := index;
    if lf[i].column > column {
      while lf[i].column > column
        invariant 0 <= i < |lf| && (i + 1 < |lf| ==> column < lf[i + 1].column || lf[i].column > column)
        decreases i
      {
        assert i > 0;
        i := i - 1;
      }
    } else {
      while i != |lf| && lf[i].column <= column
        invariant index <= i <= |lf| && (0 < i ==> lf[i - 1].column <= column)
        decreases |lf| - i
      {
        i := i + 1;
      }
      i := i - 1;
    }
    AtUnique(lf, column, i);
  }

  // ----- combining layout trees

  /** What a node of a kind takes over: the source, or its sublayouts if it is of that kind and not indented. */
  function Adoptable(kind: LayoutType, source: Layout): seq<Layout> {
    if source.children != [] && source.kind == kind && source.indentation == 0 then source.children else [source]
  }

  /** AdoptLayoutAndFlattenIfSameType */
  function Adopt(destination: Layout, source: Layout): (r: Layout)
    requires LayoutOk(source) && forall i :: 0 <= i < |destination.children| ==> LayoutOk(destination.children[i])
    ensures forall i :: 0 <= i < |r.children| ==> LayoutOk(r.children[i])
    ensures Pieces(r) == (if destination.children == [] then [] else Pieces(destination)) + Pieces(source)
    ensures r.children != []
    ensures r == destination.(children := destination.children + Adoptable(destination.kind, source))
    ensures destination.children != [] ==> r.children[0] == destination.children[0]
    ensures destination.children == [] ==>
              r.children[0].mustWrap == source.mustWrap && r.children[0].spacesBefore == source.spacesBefore
  {
    var added := Adoptable(destination.kind, source);
    AllPiecesConcat(destination.children, added);
    assert AllPieces([source]) == Pieces(source) + AllPieces([]) == Pieces(source);
    destination.(children := destination.children + added)
  }

  /** What adopting a source does to the span. */
  lemma AdoptSpan(destination: Layout, source: Layout)
    requires LayoutOk(source) && (forall i :: 0 <= i < |destination.children| ==> LayoutOk(destination.children[i]))
    requires destination.kind != KLine && destination.indentation == 0
    ensures destination.kind == KStack ==> Span(Adopt(destination, source)) == Span(source)
    ensures destination.kind == KJuxtaposition ==>
              Span(Adopt(destination, source))
              == Span(source) + if destination.children == [] then 0 else Span(destination) + source.spacesBefore
  {
    var r := Adopt(destination, source);
    var added := Adoptable(destination.kind, source);
    assert r.children == destination.children + added;
    RowSpanOne(source);
    if destination.kind == KJuxtaposition {
      if destination.children == [] {
        assert r.children == added;
      } else {
        RowSpanConcat(destination.children, added);
      }
    }
  }

  function NewNode(kind: LayoutType, first: Layout): Layout {
    Layout(kind, 0, [], first.spacesBefore, first.mustWrap, [])
  }
}

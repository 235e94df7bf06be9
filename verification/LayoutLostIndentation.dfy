/** A partition whose layout is predicted to be wider than the line it becomes: the indentation of a stack of
    one child is charged by Indent, but TreeReconstructor appends the child and discards it. */
module LayoutLostIndentation {
  import opened LayoutFunction
  import opened LayoutChoice
  import opened LayoutStack
  import opened LayoutJuxtaposition
  import opened LayoutOptimizer
  import opened LayoutRows
  import opened LayoutReconstruction

  function Leaf(indentation: nat, token: Token): Partition { Partition(indentation, PUninitialized, [token], []) }

  /** The second token is indented by 4 below its own parent. */
  function StackOfOne(b: Token): Partition { Partition(0, PStack, [b], [Leaf(4, b)]) }

  /** Two tokens, to be put side by side. */
  function Example(a: Token, b: Token): Partition { Partition(0, PJuxtaposition, [a, b], [Leaf(0, a), StackOfOne(b)]) }

  lemma ExampleOk(a: Token, b: Token)
    ensures PartitionOk(Example(a, b))
  {
    assert TokensOf([Leaf(4, b)]) == [b] by { TokensOfOne(Leaf(4, b)); }
    assert PartitionOk(Leaf(4, b)) && PartitionOk(Leaf(0, a));
    assert PartitionOk(StackOfOne(b));
    assert TokensOf([Leaf(0, a)] + [StackOfOne(b)]) == [a] + [b] by {
      TokensOfConcat([Leaf(0, a)], [StackOfOne(b)]);
      TokensOfOne(Leaf(0, a));
      TokensOfOne(StackOfOne(b));
    }
    assert [Leaf(0, a)] + [StackOfOne(b)] == [Leaf(0, a), StackOfOne(b)];
  }

  ghost predicate AllLike(lf: LayoutFn, l: Layout) { forall i :: 0 <= i < |lf| ==> lf[i].layout == l }

  function LineA(a: Token): Layout { LineLayout([a], a.spacesRequired, a.mustWrap) }

  function LineB(b: Token): Layout { LineLayout([b], b.spacesRequired, b.mustWrap).(indentation := 4) }

  lemma OneStacked(style: Style, lf: LayoutFn, result: LayoutFn, l: Layout)
    requires AllLike(lf, l) && IsStacked(style, [lf], result)
    ensures AllLike(result, l)
  {
    hide SegmentOk, StackKnots, Pieces, AllPieces;
    forall i | 0 <= i < |result| ensures result[i].layout == l {
      var x := result[i].column;
      AtUnique(result, x, i);
      assert Valid([lf][0]);
      assert StacksAt(style, [lf], result, x);
      assert Layouts(Slice([lf], x)) == [lf[At(lf, x)].layout];
    }
  }

  lemma StackIsLine(style: Style, wrapSpaces: nat, b: Token, lf: LayoutFn)
    requires LaidOutAs(style, wrapSpaces, StackOfOne(b), lf)
    ensures AllLike(lf, LineB(b))
  {
    hide IsStacked, SegmentOk;
    var p := StackOfOne(b);
    var layouts :| ChildrenLaidOutAs(style, wrapSpaces, p, layouts) && CombinedAs(style, p, layouts, lf);
    var line := layouts[0];
    assert LaidOutAs(style, wrapSpaces, p.children[0], line);
    assert IsLine(style, [b], b.spacesRequired, b.mustWrap, line);
    var indented :| ChildrenIndented(style, p, layouts, indented, |layouts|) && IsStacked(style, indented, lf);
    assert ChildIndented(style, p, 0, line, indented[0]);
    assert AllLike(indented[0], LineB(b));
    assert indented == [indented[0]];
    OneStacked(style, indented[0], lf, LineB(b));
  }

  /** Both on one line. */
  function BothLayout(a: Token, b: Token): Layout {
    Layout(KJuxtaposition, 0, [], a.spacesRequired, a.mustWrap, [LineA(a), LineB(b)])
  }

  lemma BothBeside(style: Style, left: LayoutFn, right: LayoutFn, result: LayoutFn, a: Token, b: Token, x: int)
    requires AllLike(left, LineA(a)) && AllLike(right, LineB(b)) && !b.mustWrap && 0 <= x < INFINITY
    requires IsNextInRow(style, left, right, result)
    ensures Valid(result) && result[At(result, x)].layout == BothLayout(a, b)
  {
    hide SegmentOk, Valid, Uniform, IsJuxtaposition, At, Pieces;
    HeadOfRight(right);
    JuxtaposedAt(style, left, right, result, x);
    assert BesideLayout(LineA(a), LineB(b)) == BothLayout(a, b);
  }

  lemma HeadOfRight(lf: LayoutFn)
    requires Operand(lf)
    ensures lf != []
  {
  }

  /** At every column the layout chosen puts both tokens on one line and loses the indentation. */
  lemma IndentationIsLost(style: Style, wrapSpaces: nat, a: Token, b: Token, lf: LayoutFn, x: int)
    requires LaidOutAs(style, wrapSpaces, Example(a, b), lf) && !b.mustWrap && 0 <= x < INFINITY
    ensures Valid(lf) && lf[At(lf, x)].layout == BothLayout(a, b)
    ensures Discarded(BothLayout(a, b), false) == 4
  {
    hide IsLine, IsNextInRow, AllLike, SegmentOk;
    var p := Example(a, b);
    var layouts :| ChildrenLaidOutAs(style, wrapSpaces, p, layouts) && CombinedAs(style, p, layouts, lf);
    assert LaidOutAs(style, wrapSpaces, p.children[0], layouts[0]) && LaidOutAs(style, wrapSpaces, p.children[1], layouts[1]);
    LineIsAlike(style, a, layouts[0]);
    StackIsLine(style, wrapSpaces, b, layouts[1]);
    var rows :| JuxtaposedBy(style, layouts, rows, lf);
    assert IsNextInRow(style, rows[0], layouts[1], rows[1]);
    BothBeside(style, layouts[0], layouts[1], lf, a, b, x);
    FourLost(a, b);
  }

  lemma LineIsAlike(style: Style, a: Token, lf: LayoutFn)
    requires IsLine(style, [a], a.spacesRequired, a.mustWrap, lf)
    ensures AllLike(lf, LineA(a))
  {
  }

  lemma FourLost(a: Token, b: Token)
    ensures Discarded(BothLayout(a, b), false) == 4 && TailsOf(BothLayout(a, b)) == a.tail + b.tail
    ensures Span(BothLayout(a, b)) == a.head + b.spacesRequired + 4 + b.head
  {
    var la, lb := LineA(a), LineB(b);
    var ls := [la, lb];
    assert ls[..1] == [la] && [la][..0] == [] && [a][..0] == [] && [b][..0] == [];
    assert Discarded(la, false) == 0 && Discarded(lb, true) == 4;
    assert SideDiscarded([la], false) == SideDiscarded([la][..0], false) + Discarded(la, false);
    assert SideDiscarded(ls, false) == SideDiscarded(ls[..1], false) + Discarded(lb, true);
    assert Tails([a]) == Tails([a][..0]) + a.tail && Tails([b]) == Tails([b][..0]) + b.tail;
    assert TailsOf(la) == a.tail && TailsOf(lb) == b.tail;
    assert SideTails([la]) == SideTails([la][..0]) + TailsOf(la);
    assert SideTails(ls) == SideTails(ls[..1]) + TailsOf(lb);
    RowSpanOne(la);
    assert Span(la) == a.head && Span(lb) == 4 + b.head;
    assert RowSpan(ls) == RowSpan(ls[..1]) + lb.spacesBefore + Span(lb);
  }

  /** The optimizer on that partition: the line ends 4 columns before the end that was predicted, and the parts
      of tokens behind a line break lie beyond it. */
  method LastLineIsNarrower(style: Style, wrapSpaces: nat, a: Token, b: Token, indentation: nat)
    returns (r: Partition, ghost lf: LayoutFn, ghost chosen: Segment)
    requires style.columnLimit < INFINITY && wrapSpaces < INFINITY && indentation < INFINITY
    requires b.index == a.index + 1 && !b.mustWrap
    ensures LaidOutAs(style, wrapSpaces, Example(a, b), lf) && Valid(lf) && chosen == lf[At(lf, indentation)]
    ensures r.tokens == [a, b] && chosen.span == a.head + b.spacesRequired + 4 + b.head
    ensures LineWidth(LastLine(r)) == indentation + a.Length() + b.spacesRequired + b.Length()
  {
    hide LaidOutAs, PartitionOk, Rows, Discarded, TailsOf, LineWidth, Consistent, LineOk, LinesOk, Span;
    ExampleOk(a, b);
    r, lf, chosen := Optimize(style, wrapSpaces, Example(a, b), indentation);
    IndentationIsLost(style, wrapSpaces, a, b, lf, indentation);
    FourLost(a, b);
    assert SegmentOk(chosen);
  }
}

/** The layout of a partition tree: TokenPartitionsLayoutOptimizer::CalculateOptimalLayout. */
module LayoutOptimizer {
  import Seqs
  import opened LayoutFunction
  import opened LayoutChoice
  import opened LayoutStack
  import opened LayoutJuxtaposition
  import opened LayoutWrap

  datatype Policy =
    | PUninitialized | PFitOnLineElseExpand | PAlwaysExpand | PTabularAlignment | PAppendFittingSubPartitions
    | PJuxtaposition | PStack | PWrap | PJuxtapositionOrIndentedStack | PInline | PAlreadyFormatted

  /** A node of a partition tree with the tokens of its range. */
  datatype Partition = Partition(indentation: int, policy: Policy, tokens: seq<Token>, children: seq<Partition>)

  /** The tokens of consecutive partitions. */
  function TokensOf(ps: seq<Partition>): seq<Token> {
    if ps == [] then [] else ps[0].tokens + TokensOf(ps[1..])
  }

  predicate IsLeaf(p: Partition) { p.children == [] }

  /** Ranges are consistent, no leaf is empty, and the checks of the code hold: an inner node has
      a policy, already formatted lines consist of inline slices, and nothing is indented by less
      than nothing. */
  predicate PartitionOk(p: Partition) {
    && 0 <= p.indentation < INFINITY
    && (IsLeaf(p) ==> p.tokens != [])
    && (!IsLeaf(p) ==>
          && p.tokens == TokensOf(p.children) && p.policy != PUninitialized
          && (p.policy == PAlreadyFormatted ==> forall i :: 0 <= i < |p.children| ==> p.children[i].policy == PInline)
          && (p.policy == PJuxtapositionOrIndentedStack ==>
                forall i :: 0 <= i < |p.children| ==> p.indentation <= p.children[i].indentation))
    && forall i :: 0 <= i < |p.children| ==> PartitionOk(p.children[i])
  }

  // ----- the pieces that a layout must arrange

  function Singles(tokens: seq<Token>): (r: seq<Piece>)
    ensures |r| == |tokens| && forall i :: 0 <= i < |r| ==> r[i] == [tokens[i]]
  {
    seq(|tokens|, i requires 0 <= i < |tokens| => [tokens[i]])
  }

  const WRAP_TOKENS_LIMIT: int := 25

  predicate WrapsTokens(p: Partition) { p.policy == PWrap && 1 < |p.tokens| < WRAP_TOKENS_LIMIT }

  /** The lines that the tree of a partition is made of. */
  function NodePieces(p: Partition): seq<Piece>
    decreases p, 1
  {
    if IsLeaf(p) then if WrapsTokens(p) then Singles(p.tokens) else [p.tokens]
    else if p.policy == PInline then [p.tokens]
    else ChildPieces(p.children)
  }

  function ChildPieces(ps: seq<Partition>): seq<Piece>
    decreases ps, 0
  {
    if ps == [] then [] else NodePieces(ps[0]) + ChildPieces(ps[1..])
  }

  function Joined(pieces: seq<Piece>): seq<Token> {
    if pieces == [] then [] else pieces[0] + Joined(pieces[1..])
  }

  lemma {:induction false} JoinedConcat(s: seq<Piece>, t: seq<Piece>)
    ensures Joined(s + t) == Joined(s) + Joined(t)
  {
    if s == [] {
      assert s + t == t;
    } else {
      JoinedConcat(s[1..], t);
      Seqs.TailOfConcat(s, t);
      Seqs.Associative(s[0], Joined(s[1..]), Joined(t));
    }
  }

  lemma {:induction false} JoinedSingles(tokens: seq<Token>)
    ensures Joined(Singles(tokens)) == tokens
  {
    if tokens != [] {
      JoinedSingles(tokens[1..]);
      assert Singles(tokens)[1..] == Singles(tokens[1..]);
    }
  }

  predicate NoneEmpty(pieces: seq<Piece>) {
    forall i :: 0 <= i < |pieces| ==> pieces[i] != []
  }

  /** The pieces of a consistent tree spell out its tokens, once and in order. */
  lemma {:induction false} PiecesSpell(p: Partition)
    requires PartitionOk(p)
    ensures Joined(NodePieces(p)) == p.tokens && NoneEmpty(NodePieces(p)) && NodePieces(p) != [] && p.tokens != []
    decreases p, 1
  {
    if IsLeaf(p) {
      JoinedSingles(p.tokens);
      assert Joined([p.tokens]) == p.tokens + Joined([]) by { assert [p.tokens][1..] == []; }
    } else {
      ChildPiecesSpell(p.children);
      assert Joined([p.tokens]) == p.tokens + Joined([]) by { assert [p.tokens][1..] == []; }
    }
  }

  lemma {:induction false} ChildPiecesSpell(ps: seq<Partition>)
    requires forall i :: 0 <= i < |ps| ==> PartitionOk(ps[i])
    ensures Joined(ChildPieces(ps)) == TokensOf(ps) && NoneEmpty(ChildPieces(ps))
    ensures ps != [] ==> ChildPieces(ps) != [] && TokensOf(ps) != []
    decreases ps, 0
  {
    if ps != [] {
      PiecesSpell(ps[0]);
      ChildPiecesSpell(ps[1..]);
      JoinedConcat(NodePieces(ps[0]), ChildPieces(ps[1..]));
    }
  }

  /** The pieces of every child. */
  ghost function EachPieces(ps: seq<Partition>): (ts: seq<seq<Piece>>)
    ensures |ts| == |ps| && forall i :: 0 <= i < |ps| ==> ts[i] == NodePieces(ps[i])
  {
    seq(|ps|, i requires 0 <= i < |ps| => NodePieces(ps[i]))
  }

  lemma {:induction false} EachFlattens(ps: seq<Partition>)
    ensures Flatten(EachPieces(ps)) == ChildPieces(ps)
  {
    if ps != [] {
      EachFlattens(ps[1..]);
      assert EachPieces(ps)[1..] == EachPieces(ps[1..]);
    }
  }

  // ----- combining many layout functions

  /** What every step of the calculation yields. */
  ghost predicate LaysOut(lf: LayoutFn, ts: seq<Piece>) { Operand(lf) && Arranges(lf, ts) }

  ghost predicate AllLayOut(lfs: seq<LayoutFn>, ts: seq<seq<Piece>>) {
    |lfs| == |ts| && forall i :: 0 <= i < |lfs| ==> LaysOut(lfs[i], ts[i])
  }

  lemma {:induction false} SliceArranges(segs: seq<Segment>, ts: seq<seq<Piece>>)
    requires |segs| == |ts| && forall i :: 0 <= i < |segs| ==> Pieces(segs[i].layout) == ts[i]
    ensures AllPieces(Layouts(segs)) == Flatten(ts)
  {
    if segs != [] {
      SliceArranges(segs[1..], ts[1..]);
      assert Layouts(segs)[1..] == Layouts(segs[1..]);
    }
  }

  /** A stack of operands is an operand that looks like the first of them. */
  lemma StackLaysOut(style: Style, lfs: seq<LayoutFn>, ts: seq<seq<Piece>>, result: LayoutFn)
    requires lfs != [] && AllLayOut(lfs, ts) && Valid(result)
    requires forall o :: 0 <= o < |lfs| ==> Valid(lfs[o])
    requires forall x :: 0 <= x < INFINITY ==> StacksAt(style, lfs, result, x)
    ensures LaysOut(result, Flatten(ts)) && SameHead(result, lfs[0])
  {
    forall i | 0 <= i < |result|
      ensures Pieces(result[i].layout) == Flatten(ts) && 0 <= result[i].span
      ensures result[i].layout.spacesBefore == lfs[0][0].layout.spacesBefore
      ensures result[i].layout.mustWrap == lfs[0][0].layout.mustWrap
    {
      StackSegmentLaysOut(style, lfs, ts, result, i);
    }
  }

  lemma StackSegmentLaysOut(style: Style, lfs: seq<LayoutFn>, ts: seq<seq<Piece>>, result: LayoutFn, i: nat)
    requires lfs != [] && AllLayOut(lfs, ts) && Valid(result) && i < |result|
    requires forall o :: 0 <= o < |lfs| ==> Valid(lfs[o])
    requires forall x :: 0 <= x < INFINITY ==> StacksAt(style, lfs, result, x)
    ensures Pieces(result[i].layout) == Flatten(ts) && 0 <= result[i].span
    ensures result[i].layout.spacesBefore == lfs[0][0].layout.spacesBefore
    ensures result[i].layout.mustWrap == lfs[0][0].layout.mustWrap
  {
    hide Pieces, SumCost, SumGradient, Flatten;
    var x := result[i].column;
    AtUnique(result, x, i);
    assert StacksAt(style, lfs, result, x);
    var segs := Slice(lfs, x);
    forall o | 0 <= o < |lfs|
      ensures Pieces(segs[o].layout) == ts[o] && 0 <= segs[o].span
      ensures segs[o].layout.spacesBefore == lfs[o][0].layout.spacesBefore && segs[o].layout.mustWrap == lfs[o][0].layout.mustWrap
    {
      assert LaysOut(lfs[o], ts[o]);
    }
    SliceArranges(segs, ts);
  }

  method StackAll(style: Style, lfs: seq<LayoutFn>, ghost ts: seq<seq<Piece>>) returns (result: LayoutFn)
    requires lfs != [] && AllLayOut(lfs, ts)
    ensures LaysOut(result, Flatten(ts)) && SameHead(result, lfs[0]) && IsStacked(style, lfs, result)
  {
    forall o | 0 <= o < |lfs| ensures Valid(lfs[o]) {
      assert LaysOut(lfs[o], ts[o]);
    }
    result := Stack(style, lfs);
    StackLaysOut(style, lfs, ts, result);
  }

  lemma FlattenMore(ts: seq<seq<Piece>>, k: nat)
    requires k < |ts|
    ensures Flatten(ts[..k + 1]) == Flatten(ts[..k]) + ts[k]
    decreases k
  {
    if k == 0 {
      assert ts[..1][1..] == [];
    } else {
      FlattenMore(ts[1..], k - 1);
      assert ts[..k + 1][1..] == ts[1..][..k] && ts[..k][1..] == ts[1..][..k - 1];
      Seqs.Associative(ts[0], Flatten(ts[1..][..k - 1]), ts[k]);
    }
  }

  /** Left to right, each fragment beside what is there already. */
  ghost predicate JuxtaposedAs(style: Style, lfs: seq<LayoutFn>, result: LayoutFn) {
    exists rows :: JuxtaposedBy(style, lfs, rows, result)
  }

  /** rows[k] puts the first k + 1 fragments side by side. */
  ghost predicate JuxtaposedBy(style: Style, lfs: seq<LayoutFn>, rows: seq<LayoutFn>, result: LayoutFn) {
    && 0 < |rows| == |lfs| && rows[0] == lfs[0] && result == rows[|rows| - 1]
    && forall k :: 0 < k < |rows| ==> IsNextInRow(style, rows[k - 1], lfs[k], rows[k])
  }

  ghost predicate IsNextInRow(style: Style, left: LayoutFn, right: LayoutFn, result: LayoutFn) {
    Operand(left) && Operand(right) && IsJuxtaposition(style, left, right, result)
  }

  lemma RowExtended(style: Style, lfs: seq<LayoutFn>, rows: seq<LayoutFn>, result: LayoutFn, next: LayoutFn, k: nat)
    requires 0 < k < |lfs| && JuxtaposedBy(style, lfs[..k], rows, result) && IsNextInRow(style, result, lfs[k], next)
    ensures JuxtaposedBy(style, lfs[..k + 1], rows + [next], next)
  {
    hide IsNextInRow;
    var longer := rows + [next];
    forall j | 0 < j < |longer| ensures IsNextInRow(style, longer[j - 1], lfs[..k + 1][j], longer[j]) {
      if j < k {
        assert IsNextInRow(style, rows[j - 1], lfs[..k][j], rows[j]);
      }
    }
  }

  method JuxtaposeAll(style: Style, lfs: seq<LayoutFn>, ghost ts: seq<seq<Piece>>) returns (result: LayoutFn)
    requires lfs != [] && AllLayOut(lfs, ts)
    ensures LaysOut(result, Flatten(ts)) && SameHead(result, lfs[0]) && JuxtaposedAs(style, lfs, result)
  {
    hide Operand, Arranges, Flatten, SameHead, IsJuxtaposition, JuxtaposedBy;
    result := lfs[0];
    ghost var rows := [lfs[0]];
    assert JuxtaposedBy(style, lfs[..1], rows, result) by { RowOfOne(style, lfs); }
    assert LaysOut(lfs[0], ts[0]);
    HeadOfItself(lfs[0]);
    assert Flatten(ts[..1]) == ts[0] by { FirstFlattens(ts); }
    for k := 1 to |lfs|
      invariant Operand(result) && Arranges(result, Flatten(ts[..k])) && SameHead(result, lfs[0])
      invariant JuxtaposedBy(style, lfs[..k], rows, result)
    {
      assert LaysOut(lfs[k], ts[k]);
      ghost var before := result;
      result := Juxtaposition(style, result, lfs[k]);
      JuxtaposedMeans(style, before, lfs[k], result, Flatten(ts[..k]), ts[k]);
      HeadMeans(result, before, lfs[0]);
      RowExtended(style, lfs, rows, before, result, k);
      rows := rows + [result];
      FlattenMore(ts, k);
    }
    assert ts[..|ts|] == ts && lfs[..|lfs|] == lfs;
  }

  lemma RowOfOne(style: Style, lfs: seq<LayoutFn>)
    requires lfs != []
    ensures JuxtaposedBy(style, lfs[..1], [lfs[0]], lfs[0])
  {
  }

  lemma FirstFlattens(ts: seq<seq<Piece>>)
    requires ts != []
    ensures Flatten(ts[..1]) == ts[0]
  {
    assert ts[..1][1..] == [];
  }

  lemma JuxtaposedMeans(style: Style, left: LayoutFn, right: LayoutFn, result: LayoutFn, s: seq<Piece>, t: seq<Piece>)
    requires Operand(left) && Operand(right) && IsJuxtaposition(style, left, right, result)
    requires Arranges(left, s) && Arranges(right, t)
    ensures Operand(result) && Arranges(result, s + t) && SameHead(result, left)
  {
  }

  /** Indents when there is something to indent by. */
  method IndentBy(style: Style, lf: LayoutFn, indent: nat, ghost ts: seq<Piece>) returns (result: LayoutFn)
    requires LaysOut(lf, ts) && indent < INFINITY
    ensures LaysOut(result, ts) && SameHead(result, lf) && Valid(lf) && IsIndented(style, lf, indent, result)
  {
    result := Indent(style, lf, indent);
    IndentIsOperand(style, lf, indent, result);
  }

  // ----- the calculation

  /** SpacesRequiredBeforeUnwrappedLine */
  function SpacesBefore(p: Partition): nat
    requires 0 <= p.indentation
  {
    if p.policy == PInline then p.indentation else if p.tokens == [] then 0 else p.tokens[0].spacesRequired
  }

  /** UnwrappedLineMustWrap */
  predicate LineMustWrap(p: Partition) {
    p.tokens != [] && p.policy != PInline && (p.policy == PAlreadyFormatted || p.tokens[0].mustWrap)
  }

  ghost predicate OnlyLines(lf: LayoutFn) { forall i :: 0 <= i < |lf| ==> lf[i].layout.kind == KLine }

  method LineOf(style: Style, p: Partition) returns (lf: LayoutFn)
    requires style.columnLimit < INFINITY && 0 <= p.indentation
    ensures LaysOut(lf, [p.tokens]) && OnlyLines(lf)
    ensures IsLine(style, p.tokens, SpacesBefore(p), LineMustWrap(p), lf)
  {
    lf := Line(style, p.tokens, SpacesBefore(p), LineMustWrap(p));
  }

  /** result is what Wrap makes of the fragments. */
  ghost predicate WrapsAs(style: Style, pen: seq<int>, hang: nat, lfs: seq<LayoutFn>, result: LayoutFn) {
    exists table, rests :: IsWrapped(style, pen, hang, lfs, table, rests) && rests != [] && result == rests[0]
  }

  /** Every token is a fragment of its own. */
  ghost function TokenPieces(tokens: seq<Token>): (ts: seq<seq<Piece>>)
    ensures |ts| == |tokens| && forall i :: 0 <= i < |ts| ==> ts[i] == [[tokens[i]]]
  {
    seq(|tokens|, i requires 0 <= i < |tokens| => [[tokens[i]]])
  }

  ghost predicate TokenLines(style: Style, tokens: seq<Token>, lfs: seq<LayoutFn>) {
    && |lfs| == |tokens|
    && forall i :: 0 <= i < |lfs| ==> IsLine(style, [tokens[i]], tokens[i].spacesRequired, tokens[i].mustWrap, lfs[i])
  }

  /** Tokens are joined into lines at the price of their own break penalties. */
  ghost predicate TokensWrapAs(style: Style, wrapSpaces: nat, tokens: seq<Token>, lf: LayoutFn) {
    exists lfs :: TokenLines(style, tokens, lfs)
                  && WrapsAs(style, Penalties(style, true, TokenPieces(tokens)), wrapSpaces, lfs, lf)
  }

  /** Every token on a line of its own, to be joined as the column limit allows. */
  method WrappedLine(style: Style, wrapSpaces: nat, p: Partition) returns (lf: LayoutFn)
    requires style.columnLimit < INFINITY && wrapSpaces < INFINITY && p.tokens != []
    ensures LaysOut(lf, Singles(p.tokens)) && TokensWrapAs(style, wrapSpaces, p.tokens, lf)
  {
    hide Operand, Arranges, IsLine, OnlyLines, SameHead, IsWrapped, IsLeastLess;
    var lfs: seq<LayoutFn> := [];
    ghost var ts := TokenPieces(p.tokens);
    for i := 0 to |p.tokens|
      invariant |lfs| == i && forall j :: 0 <= j < i ==> LaysOut(lfs[j], ts[j])
      invariant TokenLines(style, p.tokens[..i], lfs)
    {
      var one := LineOf(style, Partition(0, PUninitialized, [p.tokens[i]], []));
      lfs := lfs + [one];
    }
    assert p.tokens[..|p.tokens|] == p.tokens;
    forall j | 0 <= j < |lfs| ensures Operand(lfs[j]) && Arranges(lfs[j], ts[j]) {
      assert LaysOut(lfs[j], ts[j]);
    }
    ghost var table, rests;
    lf, table, rests := Wrap(style, lfs, true, wrapSpaces, ts);
    HeadMeansOperand(lf, lfs[0]);
    SinglesFlatten(p.tokens, ts);
  }

  lemma HeadMeansOperand(lf: LayoutFn, like: LayoutFn)
    requires SameHead(lf, like)
    ensures Operand(lf)
  {
  }

  lemma {:induction false} SinglesFlatten(tokens: seq<Token>, ts: seq<seq<Piece>>)
    requires |ts| == |tokens| && forall i :: 0 <= i < |ts| ==> ts[i] == [[tokens[i]]]
    ensures Flatten(ts) == Singles(tokens)
  {
    if tokens != [] {
      SinglesFlatten(tokens[1..], ts[1..]);
      assert Singles(tokens) == [[tokens[0]]] + Singles(tokens[1..]);
    }
  }

  /** SetMustWrap on a layout function of plain lines. */
  function WithMustWrap(lf: LayoutFn): (r: LayoutFn)
    ensures |r| == |lf|
  {
    seq(|lf|, i requires 0 <= i < |lf| => lf[i].(layout := lf[i].layout.(mustWrap := true)))
  }

  lemma MustWrapLaysOut(lf: LayoutFn, ts: seq<Piece>)
    requires LaysOut(lf, ts) && OnlyLines(lf)
    ensures LaysOut(WithMustWrap(lf), ts)
  {
    var r := WithMustWrap(lf);
    forall i | 0 <= i < |r| ensures SegmentOk(r[i]) && Pieces(r[i].layout) == ts {
      assert SegmentOk(lf[i]) && Pieces(lf[i].layout) == ts;
    }
  }

  lemma OneReplaced(lfs: seq<LayoutFn>, ts: seq<seq<Piece>>, k: nat, lf: LayoutFn)
    requires AllLayOut(lfs, ts) && k < |lfs| && LaysOut(lf, ts[k])
    ensures AllLayOut(lfs[k := lf], ts)
  {
  }

  /** Children are indented relative to their parent, if they are indented further. */
  ghost predicate ChildrenIndented(style: Style, p: Partition, lfs: seq<LayoutFn>, result: seq<LayoutFn>, n: nat) {
    && |result| == |lfs| == |p.children| && n <= |lfs|
    && forall k :: 0 <= k < n ==> ChildIndented(style, p, k, lfs[k], result[k])
  }

  ghost predicate ChildIndented(style: Style, p: Partition, k: nat, lf: LayoutFn, result: LayoutFn)
    requires k < |p.children|
  {
    var relative := p.children[k].indentation - p.indentation;
    if relative > 0 || p.policy == PJuxtapositionOrIndentedStack
    then relative >= 0 && Valid(lf) && IsIndented(style, lf, relative, result)
    else result == lf
  }

  lemma RelativeOk(p: Partition, k: nat)
    requires PartitionOk(p) && k < |p.children|
    ensures var relative := p.children[k].indentation - p.indentation;
            relative < INFINITY && (p.policy == PJuxtapositionOrIndentedStack ==> 0 <= relative)
  {
    assert PartitionOk(p.children[k]);
  }

  method IndentChildren(style: Style, p: Partition, lfs: seq<LayoutFn>) returns (result: seq<LayoutFn>)
    requires PartitionOk(p) && AllLayOut(lfs, EachPieces(p.children))
    ensures AllLayOut(result, EachPieces(p.children)) && ChildrenIndented(style, p, lfs, result, |lfs|)
    ensures p.policy == PJuxtapositionOrIndentedStack && lfs != [] ==> SameHead(result[0], lfs[0])
  {
    hide LaysOut, SameHead, IsIndented, PartitionOk, Valid;
    result := lfs;
    ghost var ts := EachPieces(p.children);
    for k := 0 to |lfs|
      invariant AllLayOut(result, ts) && ChildrenIndented(style, p, lfs, result, k)
      invariant forall j :: k <= j < |lfs| ==> result[j] == lfs[j]
      invariant p.policy == PJuxtapositionOrIndentedStack && 0 < k ==> SameHead(result[0], lfs[0])
    {
      RelativeOk(p, k);
      var relative := p.children[k].indentation - p.indentation;
      if relative > 0 || p.policy == PJuxtapositionOrIndentedStack {
        var indented := IndentBy(style, result[k], relative, ts[k]);
        OneReplaced(result, ts, k, indented);
        result := result[k := indented];
      }
    }
  }

  /** What a node makes of the layouts of its children: which combinator each policy uses, and on what. */
  ghost predicate CombinedAs(style: Style, p: Partition, layouts: seq<LayoutFn>, lf: LayoutFn)
    requires |layouts| == |p.children| > 0
  {
    match p.policy
    case PJuxtaposition => JuxtaposedAs(style, layouts, lf)
    case PStack | PAlwaysExpand | PTabularAlignment => StackedAs(style, p, layouts, lf)
    case PWrap => WrapsAs(style, ChildPenalties(style, p), Hanging(p), layouts, lf)
    case PAppendFittingSubPartitions | PFitOnLineElseExpand => WrapsAs(style, ChildPenalties(style, p), 0, layouts, lf)
    case PJuxtapositionOrIndentedStack =>
      if NoneMustWrap(layouts)
      then exists row, stack :: JuxtaposedAs(style, layouts, row) && StackedAs(style, p, layouts, stack) && IsChoice([row, stack], lf)
      else StackedAs(style, p, layouts, lf)
    case PAlreadyFormatted =>
      exists first :: 0 <= p.children[0].indentation && FirstIndented(style, layouts[0], p.children[0].indentation, first)
                      && JuxtaposedAs(style, layouts[0 := first], lf)
    case _ => false
  }

  /** The children, indented relative to their parent, one below the other. */
  ghost predicate StackedAs(style: Style, p: Partition, layouts: seq<LayoutFn>, lf: LayoutFn) {
    exists indented :: ChildrenIndented(style, p, layouts, indented, |layouts|) && IsStacked(style, indented, lf)
  }

  ghost predicate FirstIndented(style: Style, lf: LayoutFn, indentation: nat, first: LayoutFn) {
    Valid(WithMustWrap(lf)) && IsIndented(style, WithMustWrap(lf), indentation, first)
  }

  /** The hanging indentation is that of the second child. */
  function Hanging(p: Partition): nat {
    if |p.children| > 1 && p.children[1].indentation > p.indentation then p.children[1].indentation - p.indentation else 0
  }

  ghost function ChildPenalties(style: Style, p: Partition): seq<int> {
    Penalties(style, false, EachPieces(p.children))
  }

  /** No fragment but the first must wrap. */
  predicate NoneMustWrap(lfs: seq<LayoutFn>) {
    forall i :: 0 < i < |lfs| ==> lfs[i] != [] && !MustWrap(lfs[i])
  }

  /** The layout function of a whole tree, combinator by combinator. */
  ghost predicate LaidOutAs(style: Style, wrapSpaces: nat, p: Partition, lf: LayoutFn)
    requires 0 <= p.indentation
    decreases p, 1
  {
    if IsLeaf(p) && WrapsTokens(p) then TokensWrapAs(style, wrapSpaces, p.tokens, lf)
    else if IsLeaf(p) || p.policy == PInline then IsLine(style, p.tokens, SpacesBefore(p), LineMustWrap(p), lf)
    else exists layouts :: ChildrenLaidOutAs(style, wrapSpaces, p, layouts) && CombinedAs(style, p, layouts, lf)
  }

  ghost predicate ChildrenLaidOutAs(style: Style, wrapSpaces: nat, p: Partition, layouts: seq<LayoutFn>)
    decreases p, 0
  {
    && |layouts| == |p.children|
    && forall i :: 0 <= i < |p.children| ==>
         0 <= p.children[i].indentation && LaidOutAs(style, wrapSpaces, p.children[i], layouts[i])
  }

  /** The layouts that a partition may have, with their costs: each arranges all of its pieces. */
  method CalculateOptimalLayout(style: Style, wrapSpaces: nat, p: Partition) returns (lf: LayoutFn)
    requires style.columnLimit < INFINITY && wrapSpaces < INFINITY && PartitionOk(p)
    ensures LaysOut(lf, NodePieces(p)) && LaidOutAs(style, wrapSpaces, p, lf)
    ensures p.policy == PInline ==> OnlyLines(lf)
    decreases p
  {
    hide LaysOut, OnlyLines, IsLine, TokensWrapAs, CombinedAs, LaidOutAs, PartitionOk, Flatten;
    NodeOk(p);
    if IsLeaf(p) {
      if WrapsTokens(p) {
        lf := WrappedLine(style, wrapSpaces, p);
      } else {
        lf := LineOf(style, p);
      }
      LeafLaidOut(style, wrapSpaces, p, lf);
      return;
    }
    if p.policy == PInline {
      lf := LineOf(style, p);
      LeafLaidOut(style, wrapSpaces, p, lf);
      return;
    }
    ghost var ts := EachPieces(p.children);
    EachFlattens(p.children);
    var layouts: seq<LayoutFn> := [];
    for i := 0 to |p.children|
      invariant |layouts| == i && forall j :: 0 <= j < i ==> LaysOut(layouts[j], ts[j])
      invariant forall j :: 0 <= j < i && p.children[j].policy == PInline ==> OnlyLines(layouts[j])
      invariant forall j :: 0 <= j < i ==> LaidOutAs(style, wrapSpaces, p.children[j], layouts[j])
    {
      var one := CalculateOptimalLayout(style, wrapSpaces, p.children[i]);
      layouts := layouts + [one];
    }
    lf := CombineLayouts(style, p, layouts);
    NodeLaidOut(style, wrapSpaces, p, layouts, lf);
  }

  lemma NodeOk(p: Partition)
    requires PartitionOk(p)
    ensures 0 <= p.indentation && (IsLeaf(p) ==> p.tokens != [])
    ensures forall i :: 0 <= i < |p.children| ==> PartitionOk(p.children[i]) && 0 <= p.children[i].indentation
  {
  }

  lemma LeafLaidOut(style: Style, wrapSpaces: nat, p: Partition, lf: LayoutFn)
    requires 0 <= p.indentation && (IsLeaf(p) || p.policy == PInline)
    requires if IsLeaf(p) && WrapsTokens(p) then TokensWrapAs(style, wrapSpaces, p.tokens, lf)
             else IsLine(style, p.tokens, SpacesBefore(p), LineMustWrap(p), lf)
    ensures LaidOutAs(style, wrapSpaces, p, lf)
  {
  }

  lemma NodeLaidOut(style: Style, wrapSpaces: nat, p: Partition, layouts: seq<LayoutFn>, lf: LayoutFn)
    requires 0 <= p.indentation && !IsLeaf(p) && p.policy != PInline && |layouts| == |p.children|
    requires forall i :: 0 <= i < |p.children| ==>
               0 <= p.children[i].indentation && LaidOutAs(style, wrapSpaces, p.children[i], layouts[i])
    requires CombinedAs(style, p, layouts, lf)
    ensures LaidOutAs(style, wrapSpaces, p, lf)
  {
    hide CombinedAs;
    assert ChildrenLaidOutAs(style, wrapSpaces, p, layouts);
  }

  /** What the policy of an inner node makes of the layouts of its children. */
  method CombineLayouts(style: Style, p: Partition, layouts: seq<LayoutFn>) returns (lf: LayoutFn)
    requires style.columnLimit < INFINITY && PartitionOk(p) && !IsLeaf(p) && p.policy != PInline
    requires AllLayOut(layouts, EachPieces(p.children))
    requires forall j :: 0 <= j < |p.children| && p.children[j].policy == PInline ==> OnlyLines(layouts[j])
    ensures LaysOut(lf, Flatten(EachPieces(p.children))) && CombinedAs(style, p, layouts, lf)
  {
    ghost var ts := EachPieces(p.children);
    hide LaysOut, Operand, Arranges, SameHead, OnlyLines, Flatten, NodePieces, JuxtaposedAs, WrapsAs, IsStacked, IsIndented,
      ChildrenIndented;
    match p.policy {
      case PJuxtaposition =>
        lf := JuxtaposeAll(style, layouts, ts);
      case PStack | PAlwaysExpand | PTabularAlignment =>
        var indented := IndentChildren(style, p, layouts);
        lf := StackAll(style, indented, ts);
        assert StackedAs(style, p, layouts, lf);
      case PWrap =>
        assert forall i :: 0 <= i < |p.children| ==> PartitionOk(p.children[i]);
        lf := WrapAll(style, layouts, Hanging(p), ts);
      case PAppendFittingSubPartitions | PFitOnLineElseExpand =>
        lf := WrapAll(style, layouts, 0, ts);
      case PJuxtapositionOrIndentedStack =>
        lf := JuxtaposeOrStack(style, p, layouts);
      case PAlreadyFormatted =>
        lf := KeepFormatting(style, p, layouts);
    }
  }

  /** The slices of a formatted line side by side, the first one indented. */
  method KeepFormatting(style: Style, p: Partition, layouts: seq<LayoutFn>) returns (lf: LayoutFn)
    requires PartitionOk(p) && !IsLeaf(p) && p.policy == PAlreadyFormatted && AllLayOut(layouts, EachPieces(p.children))
    requires forall j :: 0 <= j < |p.children| && p.children[j].policy == PInline ==> OnlyLines(layouts[j])
    ensures LaysOut(lf, Flatten(EachPieces(p.children))) && CombinedAs(style, p, layouts, lf)
  {
    ghost var ts := EachPieces(p.children);
    hide LaysOut, OnlyLines, Flatten, NodePieces, JuxtaposedAs, IsIndented, SameHead;
    assert p.children[0].policy == PInline && PartitionOk(p.children[0]);
    MustWrapLaysOut(layouts[0], ts[0]);
    var first := IndentBy(style, WithMustWrap(layouts[0]), p.children[0].indentation, ts[0]);
    OneReplaced(layouts, ts, 0, first);
    lf := JuxtaposeAll(style, layouts[0 := first], ts);
    assert FirstIndented(style, layouts[0], p.children[0].indentation, first);
  }

  method WrapAll(style: Style, lfs: seq<LayoutFn>, hang: nat, ghost ts: seq<seq<Piece>>) returns (result: LayoutFn)
    requires lfs != [] && AllLayOut(lfs, ts) && hang < INFINITY && style.columnLimit < INFINITY
    ensures LaysOut(result, Flatten(ts)) && WrapsAs(style, Penalties(style, false, ts), hang, lfs, result)
  {
    forall j | 0 <= j < |lfs| ensures Operand(lfs[j]) && Arranges(lfs[j], ts[j]) {
      assert LaysOut(lfs[j], ts[j]);
    }
    hide Operand, Arranges, Flatten, SameHead, IsWrapped, IsLeastLess;
    ghost var table, rests;
    result, table, rests := Wrap(style, lfs, false, hang, ts);
    HeadMeansOperand(result, lfs[0]);
  }

  lemma EitherWay(style: Style, p: Partition, layouts: seq<LayoutFn>, row: LayoutFn, stack: LayoutFn, lf: LayoutFn)
    requires |layouts| == |p.children| > 0 && p.policy == PJuxtapositionOrIndentedStack && NoneMustWrap(layouts)
    requires JuxtaposedAs(style, layouts, row) && StackedAs(style, p, layouts, stack) && IsChoice([row, stack], lf)
    ensures CombinedAs(style, p, layouts, lf)
  {
  }

  method JuxtaposeOrStack(style: Style, p: Partition, layouts: seq<LayoutFn>) returns (lf: LayoutFn)
    requires PartitionOk(p) && !IsLeaf(p) && p.policy == PJuxtapositionOrIndentedStack
    requires AllLayOut(layouts, EachPieces(p.children))
    ensures LaysOut(lf, Flatten(EachPieces(p.children))) && CombinedAs(style, p, layouts, lf)
  {
    ghost var ts := EachPieces(p.children);
    hide Flatten, NodePieces, Operand, Arranges, SameHead, IsChoice, IsStacked, JuxtaposedAs, ChildrenIndented;
    var juxtaposition: LayoutFn := [];
    var allowed := true;
    for i := 1 to |layouts|
      invariant allowed <==> forall j :: 0 < j < i ==> layouts[j] != [] && !MustWrap(layouts[j])
    {
      assert LaysOut(layouts[i], ts[i]);
      HeadOfItself(layouts[i]);
      if MustWrap(layouts[i]) {
        allowed := false;
      }
    }
    if allowed {
      juxtaposition := JuxtaposeAll(style, layouts, ts);
    }
    var indented := IndentChildren(style, p, layouts);
    var stack := StackAll(style, indented, ts);
    assert StackedAs(style, p, layouts, stack);
    if allowed {
      assert LaysOut(layouts[0], ts[0]);
      HeadMeans(stack, indented[0], layouts[0]);
      HeadOfItself(juxtaposition);
      HeadOfItself(layouts[0]);
      lf := Choice([juxtaposition, stack]);
      ChoiceArranges([juxtaposition, stack], lf, Flatten(ts), layouts[0]);
      HeadMeans(lf, layouts[0], layouts[0]);
      EitherWay(style, p, layouts, juxtaposition, stack, lf);
    } else {
      lf := stack;
    }
  }

  /** Where a policy wraps, the cost is the least over all ways of breaking its list of fragments, less what
      the first break is given back. */
  lemma WrapsAtLeastCost(style: Style, pen: seq<int>, hang: nat, lfs: seq<LayoutFn>, lf: LayoutFn, x: int)
    returns (table: seq<seq<LayoutFn>>, rests: seq<LayoutFn>)
    requires WrapsAs(style, pen, hang, lfs, lf) && 0 <= x && x + hang < INFINITY
    ensures Valid(lf) && IsTable(style, hang, lfs, table) && |rests| == |lfs| > 0 && lf == rests[0]
    ensures IsLeastLess(table, pen, |lfs|, 0, x, x + hang, Discounts(style, rests, 0, x + hang, hang), Cost(lf, x))
  {
    hide IsTable, IsSolved, IsLeastLess;
    table, rests :| IsWrapped(style, pen, hang, lfs, table, rests) && rests != [] && lf == rests[0];
    WrapIsLeast(style, pen, hang, lfs, table, rests, x);
  }
}

/** From the chosen layout back to a partition tree: TreeReconstructor and
    TokenPartitionsLayoutOptimizer::Optimize (verible/common/formatting/layout-optimizer.cc). */
module LayoutReconstruction {
  import Seqs
  import opened LayoutFunction
  import opened LayoutStack
  import opened LayoutJuxtaposition
  import opened LayoutOptimizer
  import opened LayoutRows

  /** The tokens stand next to each other in the token array. */
  predicate Consecutive(ts: seq<Token>) {
    forall i :: 0 < i < |ts| ==> ts[i].index == ts[i - 1].index + 1
  }

  /** A line, possibly cut into inline slices that make it up; the first slice starts the line. */
  predicate LineOk(l: Partition) {
    && l.policy == PAlreadyFormatted && l.tokens != []
    && (forall i :: 0 <= i < |l.children| ==> SliceOk(l.children[i]))
    && (l.children != [] ==> l.tokens == TokensOf(l.children) && l.children[0].indentation == 0)
  }

  predicate SliceOk(s: Partition) { s.policy == PInline && s.tokens != [] && s.children == [] }

  predicate LinesOk(lines: seq<Partition>) {
    forall i :: 0 <= i < |lines| ==> LineOk(lines[i])
  }

  lemma {:induction false} TokensOfConcat(s: seq<Partition>, t: seq<Partition>)
    ensures TokensOf(s + t) == TokensOf(s) + TokensOf(t)
  {
    if s == [] {
      assert s + t == t;
    } else {
      TokensOfConcat(s[1..], t);
      Seqs.TailOfConcat(s, t);
      Seqs.Associative(s[0].tokens, TokensOf(s[1..]), TokensOf(t));
    }
  }

  lemma TokensOfOne(p: Partition)
    ensures TokensOf([p]) == p.tokens
  {
    assert [p][1..] == [];
  }

  /** The last of some partitions grows. */
  lemma LastGrows(ps: seq<Partition>, q: Partition, more: seq<Token>)
    requires ps != [] && q.tokens == ps[|ps| - 1].tokens + more
    ensures TokensOf(ps[|ps| - 1 := q]) == TokensOf(ps) + more
  {
    var init, last := ps[..|ps| - 1], ps[|ps| - 1];
    assert ps == init + [last] && ps[|ps| - 1 := q] == init + [q];
    TokensOfConcat(init, [last]);
    TokensOfConcat(init, [q]);
    TokensOfOne(last);
    TokensOfOne(q);
    Seqs.Associative(TokensOf(init), last.tokens, more);
  }

  lemma OneMorePart(ps: seq<Partition>, q: Partition)
    ensures TokensOf(ps + [q]) == TokensOf(ps) + q.tokens
  {
    TokensOfConcat(ps, [q]);
    TokensOfOne(q);
  }

  // ----- the width of a line

  /** The simple definition: every slice takes its spacing and its text. */
  function SlicesWidth(slices: seq<Partition>): int {
    if slices == [] then 0 else
      SlicesWidth(slices[..|slices| - 1]) + slices[|slices| - 1].indentation + TextWidth(slices[|slices| - 1].tokens)
  }

  function LineWidth(l: Partition): int {
    l.indentation + if l.children == [] then TextWidth(l.tokens) else SlicesWidth(l.children)
  }

  lemma {:induction false} WidthConcat(s: Piece, t: Piece)
    requires s != [] && t != []
    ensures TextWidth(s + t) == TextWidth(s) + t[0].spacesRequired + TextWidth(t)
    decreases |t|
  {
    Seqs.FrontOfConcat(s, t);
    if |t| > 1 {
      WidthConcat(s, t[..|t| - 1]);
    } else {
      assert t[..0] == [] && s + [] == s;
    }
  }

  /** What the required spacings before slices add up to, the first one excepted. */
  function Corrections(slices: seq<Partition>): int
    requires forall i :: 0 <= i < |slices| ==> slices[i].tokens != []
  {
    if slices == [] then 0 else
      var n := |slices| - 1;
      Corrections(slices[..n]) + slices[n].indentation - if n == 0 then 0 else slices[n].tokens[0].spacesRequired
  }

  lemma {:induction false} SlicesCorrect(slices: seq<Partition>)
    requires slices != [] && forall i :: 0 <= i < |slices| ==> slices[i].tokens != []
    ensures TokensOf(slices) != [] && TextWidth(TokensOf(slices)) + Corrections(slices) == SlicesWidth(slices)
  {
    var n := |slices| - 1;
    var init, last := slices[..n], slices[n];
    assert slices == init + [last];
    OneMorePart(init, last);
    if n == 0 {
      assert init == [] && TokensOf(init) == [] && TokensOf(slices) == last.tokens;
    } else {
      SlicesCorrect(init);
      WidthConcat(TokensOf(init), last.tokens);
    }
  }

  /** The slices of a line, if it has any, make it up. */
  predicate Sliced(l: Partition) {
    && (forall i :: 0 <= i < |l.children| ==> l.children[i].policy == PInline && l.children[i].tokens != [])
    && (l.children != [] ==> l.tokens == TokensOf(l.children))
  }

  /** AlreadyFormattedPartitionLength: the tokens first, then what the slices change. */
  method AlreadyFormattedPartitionLength(l: Partition) returns (width: int)
    requires Sliced(l)
    ensures width == if l.tokens == [] then 0 else LineWidth(l)
  {
    hide TokensOf, SlicesWidth;
    if l.tokens == [] {
      return 0;
    }
    width := l.indentation + l.tokens[0].Length();
    for i := 1 to |l.tokens|
      invariant width == l.indentation + TextWidth(l.tokens[..i])
    {
      assert l.tokens[..i + 1][..i] == l.tokens[..i];
      width := width + l.tokens[i].spacesRequired + l.tokens[i].Length();
    }
    assert l.tokens[..|l.tokens|] == l.tokens;
    var text := width;
    for i := 0 to |l.children|
      invariant width == text + Corrections(l.children[..i])
    {
      assert l.children[..i + 1][..i] == l.children[..i];
      // The first slice starts where the line starts.
      if i != 0 {
        width := width - l.children[i].tokens[0].spacesRequired;
      }
      width := width + l.children[i].indentation;
    }
    assert l.children[..|l.children|] == l.children;
    if l.children != [] {
      SlicesCorrect(l.children);
    }
  }

  // ----- the reconstruction

  /** A line with one more piece, of its own spacing, at its end. */
  function Appended(line: Partition, piece: Layout): Partition
    requires piece.tokens != []
  {
    var longer := line.(tokens := line.tokens + piece.tokens);
    var cc := line.children;
    if piece.spacesBefore == piece.tokens[0].spacesRequired then
      if cc == [] then longer
      else
        var last := cc[|cc| - 1];
        longer.(children := cc[|cc| - 1 := last.(tokens := last.tokens + piece.tokens)])
    else
      var slices := if cc == [] then [Partition(0, PInline, line.tokens, [])] else cc;
      longer.(children := slices + [Partition(piece.spacesBefore, PInline, piece.tokens, [])])
  }

  /** Lines keep being made up of their slices; the new piece is as far right as its spacing says. */
  lemma AppendedOk(line: Partition, piece: Layout)
    requires LineOk(line) && piece.tokens != []
    ensures LineOk(Appended(line, piece)) && Appended(line, piece).tokens == line.tokens + piece.tokens
    ensures LineWidth(Appended(line, piece)) == LineWidth(line) + piece.spacesBefore + TextWidth(piece.tokens)
  {
    var cc := line.children;
    if piece.spacesBefore == piece.tokens[0].spacesRequired {
      if cc == [] {
        WidthConcat(line.tokens, piece.tokens);
      } else {
        var last := cc[|cc| - 1];
        LastGrows(cc, last.(tokens := last.tokens + piece.tokens), piece.tokens);
        WidthConcat(last.tokens, piece.tokens);
        assert cc[|cc| - 1 := last.(tokens := last.tokens + piece.tokens)][..|cc| - 1] == cc[..|cc| - 1];
      }
    } else {
      var slices := if cc == [] then [Partition(0, PInline, line.tokens, [])] else cc;
      var new_ := Partition(piece.spacesBefore, PInline, piece.tokens, []);
      assert TokensOf(slices) == line.tokens by {
        if cc == [] {
          TokensOfOne(slices[0]);
        }
      }
      assert cc == [] ==> slices[..0] == [];
      assert SlicesWidth(slices) == if cc == [] then TextWidth(line.tokens) else SlicesWidth(cc);
      OneMorePart(slices, new_);
      assert (slices + [new_])[..|slices|] == slices;
    }
  }

  lemma ConsecutivePrefix(s: seq<Token>, t: seq<Token>)
    requires Consecutive(s + t)
    ensures Consecutive(s)
    ensures s != [] && t != [] ==> t[0].index == s[|s| - 1].index + 1
  {
    forall i | 0 < i < |s| ensures s[i].index == s[i - 1].index + 1 {
      assert (s + t)[i] == s[i] && (s + t)[i - 1] == s[i - 1];
    }
    if s != [] && t != [] {
      assert (s + t)[|s|] == t[0] && (s + t)[|s| - 1] == s[|s| - 1];
    }
  }

  lemma LastToken(lines: seq<Partition>)
    requires lines != [] && LinesOk(lines) && lines[|lines| - 1].tokens != []
    ensures TokensOf(lines) != []
    ensures TokensOf(lines)[|TokensOf(lines)| - 1] == lines[|lines| - 1].tokens[|lines[|lines| - 1].tokens| - 1]
  {
    var init, last := lines[..|lines| - 1], lines[|lines| - 1];
    assert lines == init + [last];
    OneMorePart(init, last);
  }

  /** The pieces of the children from i on. */
  lemma PiecesFrom(l: Layout, i: nat)
    requires i < |l.children| && NoneEmpty(AllPieces(l.children[i..]))
    ensures AllPieces(l.children[i..]) == Pieces(l.children[i]) + AllPieces(l.children[i + 1..])
    ensures NoneEmpty(Pieces(l.children[i])) && NoneEmpty(AllPieces(l.children[i + 1..]))
    ensures Joined(AllPieces(l.children[i..])) == Joined(Pieces(l.children[i])) + Joined(AllPieces(l.children[i + 1..]))
  {
    assert l.children[i..][1..] == l.children[i + 1..];
    var s, t := Pieces(l.children[i]), AllPieces(l.children[i + 1..]);
    assert AllPieces(l.children[i..]) == s + t;
    forall k | 0 <= k < |s| ensures s[k] != [] {
      assert (s + t)[k] == s[k];
    }
    forall k | 0 <= k < |t| ensures t[k] != [] {
      assert (s + t)[|s| + k] == t[k];
    }
    JoinedConcat(s, t);
  }

  lemma PiecesOfLine(l: Layout)
    requires l.children == [] && NoneEmpty(Pieces(l))
    ensures l.tokens != [] && Joined(Pieces(l)) == l.tokens
  {
    assert Pieces(l) == [l.tokens] && [l.tokens][1..] == [];
    assert Pieces(l)[0] == l.tokens;
  }

  /** The lines as rows. */
  function RowOf(line: Partition): Row { Row(line.indentation, line.tokens, LineWidth(line)) }

  function RowsOf(lines: seq<Partition>): (rows: seq<Row>)
    ensures |rows| == |lines| && forall i :: 0 <= i < |lines| ==> rows[i] == RowOf(lines[i])
  {
    seq(|lines|, i requires 0 <= i < |lines| => RowOf(lines[i]))
  }

  lemma RowStarted(lines: seq<Partition>, line: Partition)
    ensures RowsOf(lines + [line]) == RowsOf(lines) + [RowOf(line)]
  {
  }

  lemma RowAppended(lines: seq<Partition>, line: Partition, row: Row)
    requires lines != []
    requires var last := lines[|lines| - 1];
             RowOf(line) == Row(last.indentation, last.tokens + row.tokens, row.end)
    ensures RowsOf(lines[|lines| - 1 := line]) == Glue(RowsOf(lines), [row])
  {
    hide LineWidth;
  }

  class TreeReconstructor {
    var lines: seq<Partition>   // the children of tree_
    var open: bool              // whether current_node_ is the last line rather than null
    var indentation: int

    ghost predicate Valid()
      reads this
    {
      LinesOk(lines) && (open ==> lines != [])
    }

    /** The column at which something with the given spacing before it will stand. */
    ghost function Column(spacesBefore: int): int
      requires open ==> lines != []
      reads this
    {
      if open then LineWidth(lines[|lines| - 1]) + spacesBefore else indentation
    }

    constructor (indentationSpaces: int)
      ensures Valid() && lines == [] && !open && indentation == indentationSpaces
    {
      lines, open, indentation := [], false, indentationSpaces;
    }

    /** One line of the layout: it starts a line, or is appended to the current one. */
    method PlaceLine(layout: Layout)
      requires Valid() && layout.tokens != [] && Consecutive(TokensOf(lines) + layout.tokens)
      modifies this
      ensures Valid() && open && indentation == old(indentation)
      ensures TokensOf(lines) == old(TokensOf(lines)) + layout.tokens
      ensures var c := old(Column(layout.spacesBefore));
              RowsOf(lines) == After(old(RowsOf(lines)), old(open), [Row(c, layout.tokens, c + TextWidth(layout.tokens))])
    {
      hide LinesOk, LineOk, Appended, TokensOf, Consecutive, TextWidth;
      var c := if open then LineWidth(lines[|lines| - 1]) + layout.spacesBefore else indentation;
      if !open {
        var line := Partition(indentation, PAlreadyFormatted, layout.tokens, []);
        OneMorePart(lines, line);
        LinesMore(lines, line);
        RowStarted(lines, line);
        lines, open := lines + [line], true;
      } else {
        var n := |lines| - 1;
        var line := lines[n];
        LastLineOk(lines);
        LastToken(lines);
        ConsecutivePrefix(TokensOf(lines), layout.tokens);
        // The check that the appended tokens follow those of the line.
        assert line.tokens[|line.tokens| - 1].index + 1 == layout.tokens[0].index;
        AppendedOk(line, layout);
        LastGrows(lines, Appended(line, layout), layout.tokens);
        LinesReplaced(lines, Appended(line, layout));
        AppendedStarts(line, layout);
        RowAppended(lines, Appended(line, layout), Row(c, layout.tokens, c + TextWidth(layout.tokens)));
        lines := lines[n := Appended(line, layout)];
      }
    }

    /** Walks a layout tree; the lines made so far and the tokens of the layout are contiguous. The lines it
        makes are the rows of the layout at the current column. */
    method TraverseTree(layout: Layout)
      requires Valid() && LayoutOk(layout) && NoneEmpty(Pieces(layout))
      requires Consecutive(TokensOf(lines) + Joined(Pieces(layout)))
      modifies this
      ensures Valid() && open && indentation == old(indentation)
      ensures TokensOf(lines) == old(TokensOf(lines)) + Joined(Pieces(layout))
      ensures RowsOf(lines) == After(old(RowsOf(lines)), old(open), Rows(layout, old(Column(layout.spacesBefore)), old(open)))
      decreases layout, 1
    {
      hide LinesOk, LineOk, Consecutive, LineWidth, NoneEmpty, TokensOf, Joined, After, SideRows, StackRows, RowsOf;
      ghost var column, wasOpen, rows := Column(layout.spacesBefore), open, RowsOf(lines);
      var saved := indentation;
      indentation := indentation + layout.indentation;
      match layout.kind {
        case KLine =>
          PiecesOfLine(layout);
          PlaceLine(layout);
        case KJuxtaposition =>
          assert layout.children[0..] == layout.children;
          TraverseRow(layout);
        case KStack =>
          assert layout.children[0..] == layout.children;
          if |layout.children| == 1 {
            TraverseRow(layout);
          } else {
            TraverseStack(layout);
          }
      }
      indentation := saved;
    }

    /** All children on the current line. */
    method TraverseRow(layout: Layout)
      requires Valid() && LayoutOk(layout) && layout.children != [] && NoneEmpty(AllPieces(layout.children))
      requires Consecutive(TokensOf(lines) + Joined(AllPieces(layout.children)))
      modifies this
      ensures Valid() && open && indentation == old(indentation)
      ensures TokensOf(lines) == old(TokensOf(lines)) + Joined(AllPieces(layout.children))
      ensures RowsOf(lines)
           == After(old(RowsOf(lines)), old(open), SideRows(layout.children, old(Column(layout.spacesBefore)), old(open)))
      decreases layout, 0
    {
      hide LinesOk, LineOk, Consecutive, NoneEmpty, LayoutOk, Pieces, AllPieces, Joined, TokensOf, After, SideRows, Rows, Glue,
        LineWidth;
      ghost var start, wasOpen, rows := Column(layout.spacesBefore), open, RowsOf(lines);
      ghost var ls := layout.children;
      FirstChildOk(layout);
      var k := 0;
      ghost var all := TokensOf(lines) + Joined(AllPieces(ls));
      assert ls[0..] == ls;
      while k < |layout.children|
        invariant 0 <= k <= |ls| && Valid() && indentation == old(indentation)
        invariant TokensOf(lines) + Joined(AllPieces(ls[k..])) == all && NoneEmpty(AllPieces(ls[k..]))
        invariant k == 0 ==> open == wasOpen && RowsOf(lines) == rows && Column(layout.spacesBefore) == start
        invariant 0 < k ==> open && RowsOf(lines) == After(rows, wasOpen, SideRows(ls[..k], start, wasOpen))
      {
        var child := layout.children[k];
        ghost var before, rest := TokensOf(lines), Joined(AllPieces(ls[k + 1..]));
        ChildOk(layout, k);
        PiecesFrom(layout, k);
        SplitConsecutive(before, Joined(Pieces(child)), rest);
        BesideStep(rows, wasOpen, ls, k, start);
        TraverseTree(child);
        Seqs.Associative(before, Joined(Pieces(child)), rest);
        k := k + 1;
      }
      NothingLeft(layout, k, TokensOf(lines));
      assert ls[..k] == ls;
    }

    /** The first child on the current line, the others each in a line of its own. */
    method TraverseStack(layout: Layout)
      requires Valid() && LayoutOk(layout) && |layout.children| > 1 && NoneEmpty(AllPieces(layout.children))
      requires Consecutive(TokensOf(lines) + Joined(AllPieces(layout.children)))
      modifies this
      ensures Valid() && open && indentation == old(indentation)
      ensures TokensOf(lines) == old(TokensOf(lines)) + Joined(AllPieces(layout.children))
      ensures RowsOf(lines)
           == After(old(RowsOf(lines)), old(open), StackRows(layout.children, old(Column(layout.spacesBefore)), old(open)))
      decreases layout, 0
    {
      hide LinesOk, LineOk, Consecutive, NoneEmpty, LayoutOk, Pieces, AllPieces, Joined, TokensOf, After, StackRows, Rows, Glue,
        LineWidth, Sliced;
      ghost var start, wasOpen, rows := Column(layout.spacesBefore), open, RowsOf(lines);
      ghost var ls := layout.children;
      FirstChildOk(layout);
      // The indentation of the second and further lines.
      var below := indentation;
      if open {
        LastLineOk(lines);
        LineIsSliced(lines[|lines| - 1]);
        var width := AlreadyFormattedPartitionLength(lines[|lines| - 1]);
        below := width + layout.spacesBefore;
      }
      var own := indentation;
      ghost var all := TokensOf(lines) + Joined(AllPieces(ls));
      assert ls[0..] == ls;
      var k := 0;
      while k < |layout.children|
        invariant 0 <= k <= |ls| && Valid() && indentation == if k == 0 then own else below
        invariant TokensOf(lines) + Joined(AllPieces(ls[k..])) == all && NoneEmpty(AllPieces(ls[k..]))
        invariant k == 0 ==> open == wasOpen && RowsOf(lines) == rows && Column(layout.spacesBefore) == start
        invariant 0 < k ==> open && RowsOf(lines) == After(rows, wasOpen, StackRows(ls[..k], start, wasOpen))
      {
        var child := layout.children[k];
        ghost var before, rest := TokensOf(lines), Joined(AllPieces(ls[k + 1..]));
        ChildOk(layout, k);
        PiecesFrom(layout, k);
        SplitConsecutive(before, Joined(Pieces(child)), rest);
        BelowStep(rows, wasOpen, ls, k, start);
        if k > 0 {
          open := false;
        }
        TraverseTree(child);
        Seqs.Associative(before, Joined(Pieces(child)), rest);
        indentation := below;
        k := k + 1;
      }
      indentation := own;
      NothingLeft(layout, k, TokensOf(lines));
      assert ls[..k] == ls;
    }
  }

  lemma FirstChildOk(l: Layout)
    requires LayoutOk(l) && l.children != []
    ensures l.children[0].spacesBefore == l.spacesBefore
  {
  }

  lemma LineIsSliced(l: Partition)
    requires LineOk(l)
    ensures Sliced(l) && l.tokens != []
  {
  }

  lemma AppendedStarts(line: Partition, piece: Layout)
    requires piece.tokens != []
    ensures Appended(line, piece).indentation == line.indentation
  {
  }

  lemma AfterEnd(before: seq<Row>, appended: bool, rows: seq<Row>)
    requires rows != []
    ensures var r := After(before, appended, rows); r != [] && r[|r| - 1].end == rows[|rows| - 1].end
  {
    GlueEnd(before, rows);
  }

  /** One more fragment beside the others. */
  lemma BesideStep(before: seq<Row>, appended: bool, ls: seq<Layout>, k: nat, column: int)
    requires k < |ls|
    ensures k == 0 ==>
              After(before, appended, Rows(ls[0], column, appended)) == After(before, appended, SideRows(ls[..1], column, appended))
    ensures 0 < k ==>
              var rows := After(before, appended, SideRows(ls[..k], column, appended));
              && rows != [] && rows[|rows| - 1].end + ls[k].spacesBefore == SideColumn(ls, k, column, appended)
              && After(rows, true, Rows(ls[k], SideColumn(ls, k, column, appended), true))
                 == After(before, appended, SideRows(ls[..k + 1], column, appended))
  {
    hide Rows, Glue;
    var next := ls[..k + 1];
    assert next[..k] == ls[..k];
    if k == 0 {
      assert SideRows(next, column, appended) == Glue([], Rows(ls[0], column, appended));
      GlueFirst(Rows(ls[0], column, appended));
    } else {
      SideRowsEnd(ls[..k], column, appended);
      AfterEnd(before, appended, SideRows(ls[..k], column, appended));
      AfterGlue(before, appended, SideRows(ls[..k], column, appended), Rows(ls[k], SideColumn(ls, k, column, appended), true));
    }
  }

  lemma GlueFirst(rows: seq<Row>)
    ensures Glue([], rows) == rows
  {
  }

  /** One more fragment below the others. */
  lemma BelowStep(before: seq<Row>, appended: bool, ls: seq<Layout>, k: nat, column: int)
    requires k < |ls|
    ensures k == 0 ==>
              After(before, appended, Rows(ls[0], column, appended)) == After(before, appended, StackRows(ls[..1], column, appended))
    ensures 0 < k ==>
              After(After(before, appended, StackRows(ls[..k], column, appended)), false, Rows(ls[k], column, false))
              == After(before, appended, StackRows(ls[..k + 1], column, appended))
  {
    hide Rows, Glue;
    var next := ls[..k + 1];
    assert next[..k] == ls[..k];
    if k == 0 {
      assert StackRows(next, column, appended) == [] + Rows(ls[0], column, appended);
      assert [] + Rows(ls[0], column, appended) == Rows(ls[0], column, appended);
    } else {
      StackRowsEnd(ls[..k], column, appended);
      AfterThen(before, appended, StackRows(ls[..k], column, appended), Rows(ls[k], column, false));
    }
  }

  lemma ChildOk(l: Layout, k: nat)
    requires LayoutOk(l) && k < |l.children|
    ensures LayoutOk(l.children[k])
  {
  }

  lemma NothingLeft(l: Layout, k: nat, s: seq<Token>)
    requires k == |l.children|
    ensures s + Joined(AllPieces(l.children[k..])) == s
  {
  }

  lemma LastLineOk(lines: seq<Partition>)
    requires LinesOk(lines) && lines != []
    ensures LineOk(lines[|lines| - 1]) && lines[|lines| - 1].tokens != []
  {
  }

  lemma LinesMore(lines: seq<Partition>, line: Partition)
    requires LinesOk(lines) && line.policy == PAlreadyFormatted && line.tokens != [] && line.children == []
    ensures LinesOk(lines + [line])
  {
  }

  lemma LinesReplaced(lines: seq<Partition>, line: Partition)
    requires LinesOk(lines) && lines != [] && LineOk(line)
    ensures LinesOk(lines[|lines| - 1 := line])
  {
  }

  lemma SplitConsecutive(s: seq<Token>, t: seq<Token>, u: seq<Token>)
    requires Consecutive(s + (t + u))
    ensures Consecutive(s + t) && Consecutive((s + t) + u)
  {
    Seqs.Associative(s, t, u);
    ConsecutivePrefix(s + t, u);
  }

  // ----- the whole optimizer

  /** Leaves have tokens, and every inner node has just the tokens of its children. */
  predicate Consistent(p: Partition) {
    && p.tokens != [] && (p.children != [] ==> p.tokens == TokensOf(p.children))
    && forall i :: 0 <= i < |p.children| ==> Consistent(p.children[i])
  }

  lemma LineIsConsistent(l: Partition)
    requires LineOk(l)
    ensures Consistent(l)
  {
    forall i | 0 <= i < |l.children| ensures Consistent(l.children[i]) {
      assert SliceOk(l.children[i]);
    }
  }

  /** The best layout for an indentation takes the place of the partition: its tokens are all there, in order,
      in the lines that the chosen layout means, which their slices make up. The last line ends where the
      layout function said, short of the indentation discarded and beyond by the tails of multi-line tokens. */
  method Optimize(style: Style, wrapSpaces: nat, p: Partition, indentation: nat)
    returns (r: Partition, ghost lf: LayoutFn, ghost chosen: Segment)
    requires style.columnLimit < INFINITY && wrapSpaces < INFINITY && PartitionOk(p) && Consecutive(p.tokens)
    ensures LaysOut(lf, NodePieces(p)) && LaidOutAs(style, wrapSpaces, p, lf)
    ensures Valid(lf) && chosen == lf[At(lf, indentation)]
    ensures Consistent(r) && r.tokens == p.tokens
    ensures LineOk(r) || (r.policy == PAlwaysExpand && LinesOk(r.children) && |r.children| > 1 && r.indentation == indentation)
    ensures RowsOf(LinesIn(r)) == Rows(chosen.layout, indentation, false)
    ensures LineWidth(LastLine(r))
         == indentation + chosen.span - Discarded(chosen.layout, false) + TailsOf(chosen.layout)
  {
    hide PartitionOk, LaysOut, LinesOk, LineOk, Consecutive, NodePieces, LayoutOk, LineWidth, Span, Rows, LaidOutAs, Consistent,
      RowsOf;
    PiecesSpell(p);
    var best := CalculateOptimalLayout(style, wrapSpaces, p);
    lf := best;
    LaidOut(lf, NodePieces(p));
    var layout := best[At(best, indentation)].layout;
    chosen := lf[At(lf, indentation)];
    var reconstructor := new TreeReconstructor(indentation);
    NothingBefore(p.tokens);
    reconstructor.TraverseTree(layout);
    var lines := reconstructor.lines;
    LinesAreConsistent(lines);
    NoRowsBefore(Rows(layout, indentation, false));
    EndOfRows(lines, layout, indentation);
    if |lines| == 1 {
      r := lines[0];
      LineIsFormatted(r);
      TokensOfOne(r);
      assert lines == [r];
    } else {
      r := Partition(indentation, PAlwaysExpand, TokensOf(lines), lines);
      assert Consistent(r) by { NodeConsistent(r); }
    }
  }

  lemma NoRowsBefore(rows: seq<Row>)
    ensures After(RowsOf([]), false, rows) == rows
  {
  }

  lemma NodeConsistent(p: Partition)
    requires p.tokens != [] && p.tokens == TokensOf(p.children) && forall i :: 0 <= i < |p.children| ==> Consistent(p.children[i])
    ensures Consistent(p)
  {
  }

  /** The last of the lines that a layout became is as wide as its span, but for what is discarded and added. */
  lemma EndOfRows(lines: seq<Partition>, layout: Layout, column: int)
    requires RowsOf(lines) == Rows(layout, column, false)
    ensures lines != []
    ensures LineWidth(lines[|lines| - 1]) == column + Span(layout) - Discarded(layout, false) + TailsOf(layout)
  {
    hide LineWidth;
    RowsEnd(layout, column, false);
    SpanMissedBy(layout, false);
    assert RowsOf(lines)[|lines| - 1].end == LineWidth(lines[|lines| - 1]);
  }

  /** The lines of a result. */
  function LinesIn(p: Partition): seq<Partition> {
    if p.policy == PAlwaysExpand && p.children != [] then p.children else [p]
  }

  function LastLine(p: Partition): Partition {
    var lines := LinesIn(p);
    lines[|lines| - 1]
  }

  lemma LineIsFormatted(l: Partition)
    requires LineOk(l)
    ensures l.policy == PAlreadyFormatted
  {
  }

  lemma LaidOut(lf: LayoutFn, ts: seq<Piece>)
    requires LaysOut(lf, ts)
    ensures Valid(lf) && forall i :: 0 <= i < |lf| ==>
              LayoutOk(lf[i].layout) && Pieces(lf[i].layout) == ts && lf[i].span == Span(lf[i].layout)
  {
  }

  lemma NothingBefore(ts: seq<Token>)
    ensures TokensOf([]) + ts == ts
  {
  }

  lemma LinesAreConsistent(lines: seq<Partition>)
    requires LinesOk(lines)
    ensures forall i :: 0 <= i < |lines| ==> LineOk(lines[i]) && Consistent(lines[i])
    ensures TokensOf(lines) != [] ==> lines != []
  {
    forall i | 0 <= i < |lines| ensures Consistent(lines[i]) {
      LineIsConsistent(lines[i]);
    }
  }
}

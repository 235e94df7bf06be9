/** What a layout means on the page: the lines it becomes, where each starts and ends, and how far that is
    from the span that the layout function predicts. */
module LayoutRows {
  import opened LayoutFunction

  // ----- the width of text

  /** The width that the whole texts of tokens take, the parts behind a line break included. */
  function TextWidth(tokens: Piece): nat {
    if tokens == [] then 0
    else if |tokens| == 1 then tokens[0].Length()
    else TextWidth(tokens[..|tokens| - 1]) + tokens[|tokens| - 1].spacesRequired + tokens[|tokens| - 1].Length()
  }

  /** The characters that the tokens have behind their first line breaks. */
  function Tails(tokens: Piece): nat {
    if tokens == [] then 0 else Tails(tokens[..|tokens| - 1]) + tokens[|tokens| - 1].tail
  }

  lemma {:induction false} TextIsWider(tokens: Piece)
    ensures TextWidth(tokens) == Width(tokens) + Tails(tokens)
  {
    if |tokens| > 1 {
      TextIsWider(tokens[..|tokens| - 1]);
    } else if |tokens| == 1 {
      assert tokens[..0] == [];
    }
  }

  // ----- the lines of a layout

  /** A line of text: its first column, its tokens, and the column where it ends. */
  datatype Row = Row(start: int, tokens: Piece, end: int)

  /** The first of the new rows continues the last of the old ones. */
  function Glue(s: seq<Row>, t: seq<Row>): seq<Row> {
    if s == [] || t == [] then s + t
    else
      var n := |s| - 1;
      s[..n] + [Row(s[n].start, s[n].tokens + t[0].tokens, t[0].end)] + t[1..]
  }

  /** The rows of a layout that stands at a column: appended to a line, where its own indentation does not
      count, or in a line of its own. */
  function Rows(l: Layout, column: int, appended: bool): seq<Row>
    decreases l, 1
  {
    var c := if appended then column else column + l.indentation;
    if l.children == [] then [Row(c, l.tokens, c + TextWidth(l.tokens))]
    else if l.kind == KStack && |l.children| > 1 then StackRows(l.children, c, appended)
    else SideRows(l.children, c, appended)
  }

  /** One below the other, all at the same column. */
  function StackRows(ls: seq<Layout>, column: int, appended: bool): seq<Row>
    decreases ls, 0
  {
    if ls == [] then [] else
      var n := |ls| - 1;
      StackRows(ls[..n], column, appended) + Rows(ls[n], column, appended && n == 0)
  }

  /** Side by side, each where the previous one ends. */
  function SideRows(ls: seq<Layout>, column: int, appended: bool): seq<Row>
    decreases ls, 0
  {
    if ls == [] then [] else
      var n := |ls| - 1;
      Glue(SideRows(ls[..n], column, appended), Rows(ls[n], SideColumn(ls, n, column, appended), appended || n > 0))
  }

  /** Where the fragment n of a row stands. */
  function SideColumn(ls: seq<Layout>, n: nat, column: int, appended: bool): int
    requires n < |ls|
    decreases ls, 0, 0
  {
    if n == 0 then column else column + SideReach(ls[..n], appended) + ls[n].spacesBefore
  }

  /** How far from its column the last row of a layout reaches. */
  function Reach(l: Layout, appended: bool): int
    decreases l, 1
  {
    (if appended then 0 else l.indentation)
    + if l.children == [] then TextWidth(l.tokens)
      else if l.kind == KStack && |l.children| > 1 then Reach(l.children[|l.children| - 1], false)
      else SideReach(l.children, appended)
  }

  function SideReach(ls: seq<Layout>, appended: bool): int
    decreases ls, 0
  {
    if ls == [] then 0 else
      var n := |ls| - 1;
      SideReach(ls[..n], appended) + (if n == 0 then 0 else ls[n].spacesBefore) + Reach(ls[n], appended || n > 0)
  }

  lemma GlueEnd(s: seq<Row>, t: seq<Row>)
    requires t != []
    ensures Glue(s, t) != [] && Glue(s, t)[|Glue(s, t)| - 1].end == t[|t| - 1].end
  {
  }

  /** The last row ends where the layout reaches. */
  lemma {:induction false} RowsEnd(l: Layout, column: int, appended: bool)
    ensures var rows := Rows(l, column, appended); rows != [] && rows[|rows| - 1].end == column + Reach(l, appended)
    decreases l, 1
  {
    var c := if appended then column else column + l.indentation;
    if l.children != [] {
      if l.kind == KStack && |l.children| > 1 {
        StackRowsEnd(l.children, c, appended);
      } else {
        SideRowsEnd(l.children, c, appended);
      }
    }
  }

  lemma {:induction false} StackRowsEnd(ls: seq<Layout>, column: int, appended: bool)
    requires ls != []
    ensures var rows := StackRows(ls, column, appended);
            rows != [] && rows[|rows| - 1].end == column + Reach(ls[|ls| - 1], appended && |ls| == 1)
    decreases ls, 0
  {
    RowsEnd(ls[|ls| - 1], column, appended && |ls| == 1);
  }

  lemma {:induction false} SideRowsEnd(ls: seq<Layout>, column: int, appended: bool)
    requires ls != []
    ensures var rows := SideRows(ls, column, appended); rows != [] && rows[|rows| - 1].end == column + SideReach(ls, appended)
    decreases ls, 0
  {
    hide Rows, Reach, Glue;
    var n := |ls| - 1;
    RowsEnd(ls[n], SideColumn(ls, n, column, appended), appended || n > 0);
    GlueEnd(SideRows(ls[..n], column, appended), Rows(ls[n], SideColumn(ls, n, column, appended), appended || n > 0));
    assert n == 0 ==> ls[..n] == [];
  }

  // ----- gluing

  lemma GlueThen(s: seq<Row>, t: seq<Row>, u: seq<Row>)
    requires t != []
    ensures Glue(s, t + u) == Glue(s, t) + u
  {
    if s == [] {
      assert s + (t + u) == (s + t) + u;
    } else {
      assert (t + u)[1..] == t[1..] + u;
    }
  }

  lemma GlueBehind(s: seq<Row>, t: seq<Row>, u: seq<Row>)
    requires t != []
    ensures Glue(s + t, u) == s + Glue(t, u)
  {
    if u != [] {
      assert (s + t)[..|s + t| - 1] == s + t[..|t| - 1];
    } else {
      assert u == [] && s + t + u == s + (t + u);
    }
  }

  lemma GlueTwice(s: seq<Row>, t: seq<Row>, u: seq<Row>)
    requires t != []
    ensures Glue(Glue(s, t), u) == Glue(s, Glue(t, u))
  {
    if s == [] {
      assert s + t == t && s + Glue(t, u) == Glue(t, u);
    } else if |t| == 1 {
      GlueOnto(s, t[0], u);
    } else {
      var first, rest := [t[0]], t[1..];
      assert t == first + rest;
      GlueThen(s, first, rest);
      GlueBehind(Glue(s, first), rest, u);
      GlueBehind(first, rest, u);
      GlueThen(s, first, Glue(rest, u));
    }
  }

  lemma GlueOnto(s: seq<Row>, r: Row, u: seq<Row>)
    requires s != []
    ensures Glue(Glue(s, [r]), u) == Glue(s, Glue([r], u))
  {
    var n := |s| - 1;
    var g := Glue(s, [r]);
    assert [r][1..] == [] && g == s[..n] + [Row(s[n].start, s[n].tokens + r.tokens, r.end)];
    if u == [] {
      assert g + [] == g && [r] + [] == [r];
    } else {
      var h := Row(r.start, r.tokens + u[0].tokens, u[0].end);
      assert [r][..0] == [] && Glue([r], u) == [h] + u[1..];
      assert ([h] + u[1..])[1..] == u[1..];
      assert g[..n] == s[..n];
      assert (s[n].tokens + r.tokens) + u[0].tokens == s[n].tokens + (r.tokens + u[0].tokens);
    }
  }

  /** Rows that are added to what is there: to the last line, or below it. */
  function After(before: seq<Row>, appended: bool, rows: seq<Row>): seq<Row> {
    if appended then Glue(before, rows) else before + rows
  }

  lemma AfterThen(before: seq<Row>, appended: bool, t: seq<Row>, u: seq<Row>)
    requires t != []
    ensures After(before, appended, t) + u == After(before, appended, t + u)
  {
    if appended {
      GlueThen(before, t, u);
    } else {
      assert before + t + u == before + (t + u);
    }
  }

  lemma AfterGlue(before: seq<Row>, appended: bool, t: seq<Row>, u: seq<Row>)
    requires t != []
    ensures Glue(After(before, appended, t), u) == After(before, appended, Glue(t, u))
  {
    if appended {
      GlueTwice(before, t, u);
    } else {
      GlueBehind(before, t, u);
    }
  }

  // ----- the difference to the span

  /** The indentation that is lost on the way to the last row, because what it indents is appended. */
  function Discarded(l: Layout, appended: bool): nat
    decreases l, 1
  {
    (if appended then l.indentation else 0)
    + if l.children == [] then 0
      else if l.kind == KStack && |l.children| > 1 then Discarded(l.children[|l.children| - 1], false)
      else SideDiscarded(l.children, appended)
  }

  function SideDiscarded(ls: seq<Layout>, appended: bool): nat
    decreases ls, 0
  {
    if ls == [] then 0 else
      var n := |ls| - 1;
      SideDiscarded(ls[..n], appended) + Discarded(ls[n], appended || n > 0)
  }

  /** The characters behind line breaks of the tokens in the last row. */
  function TailsOf(l: Layout): nat
    decreases l, 1
  {
    if l.children == [] then Tails(l.tokens)
    else if l.kind == KStack && |l.children| > 1 then TailsOf(l.children[|l.children| - 1])
    else SideTails(l.children)
  }

  function SideTails(ls: seq<Layout>): nat
    decreases ls, 0
  {
    if ls == [] then 0 else var n := |ls| - 1; SideTails(ls[..n]) + TailsOf(ls[n])
  }

  /** How far the last row really reaches, against the span: short by the indentation that is discarded, and
      beyond by what tokens of several lines have behind their first line breaks. */
  lemma {:induction false} SpanMissedBy(l: Layout, appended: bool)
    ensures Reach(l, appended) == Span(l) - Discarded(l, appended) + TailsOf(l)
    decreases l, 1
  {
    if l.children == [] {
      TextIsWider(l.tokens);
    } else if l.kind == KStack && |l.children| > 1 {
      SpanMissedBy(l.children[|l.children| - 1], false);
    } else {
      SideMissedBy(l.children, appended);
      if l.kind == KStack {
        assert l.children == [l.children[0]];
        RowSpanOne(l.children[0]);
      }
    }
  }

  lemma {:induction false} SideMissedBy(ls: seq<Layout>, appended: bool)
    ensures SideReach(ls, appended) == RowSpan(ls) - SideDiscarded(ls, appended) + SideTails(ls)
    decreases ls, 0
  {
    if ls != [] {
      var n := |ls| - 1;
      SideMissedBy(ls[..n], appended);
      SpanMissedBy(ls[n], appended || n > 0);
    }
  }

  /** Nothing that is appended to a line is indented, as far as the last row goes. */
  predicate Straight(l: Layout, appended: bool)
    decreases l, 1
  {
    && (appended ==> l.indentation == 0)
    && (l.kind == KStack && |l.children| > 1 ==> Straight(l.children[|l.children| - 1], false))
    && (l.children != [] && !(l.kind == KStack && |l.children| > 1) ==>
          forall i :: 0 <= i < |l.children| ==> Straight(l.children[i], appended || i > 0))
  }

  /** No indentation is discarded exactly in such layouts. */
  lemma {:induction false} DiscardsNothing(l: Layout, appended: bool)
    ensures Discarded(l, appended) == 0 <==> Straight(l, appended)
    decreases l, 1
  {
    if l.children != [] {
      if l.kind == KStack && |l.children| > 1 {
        DiscardsNothing(l.children[|l.children| - 1], false);
      } else {
        SideDiscardsNothing(l.children, appended);
      }
    }
  }

  lemma {:induction false} SideDiscardsNothing(ls: seq<Layout>, appended: bool)
    ensures SideDiscarded(ls, appended) == 0 <==> forall i :: 0 <= i < |ls| ==> Straight(ls[i], appended || i > 0)
    decreases ls, 0
  {
    if ls != [] {
      var n := |ls| - 1;
      SideDiscardsNothing(ls[..n], appended);
      DiscardsNothing(ls[n], appended || n > 0);
      assert forall i :: 0 <= i < n ==> ls[..n][i] == ls[i];
    }
  }

  /** No token of the last row goes over several lines. */
  predicate EndsInOneLiners(l: Layout)
    decreases l
  {
    if l.children == [] then forall i :: 0 <= i < |l.tokens| ==> l.tokens[i].tail == 0
    else if l.kind == KStack && |l.children| > 1 then EndsInOneLiners(l.children[|l.children| - 1])
    else forall i :: 0 <= i < |l.children| ==> EndsInOneLiners(l.children[i])
  }

  lemma {:induction false} NoTails(tokens: Piece)
    ensures Tails(tokens) == 0 <==> forall i :: 0 <= i < |tokens| ==> tokens[i].tail == 0
  {
    if tokens != [] {
      NoTails(tokens[..|tokens| - 1]);
    }
  }

  /** Nothing is added to the span exactly if every token of the last row is of one line. */
  lemma {:induction false} AddsNothing(l: Layout)
    ensures TailsOf(l) == 0 <==> EndsInOneLiners(l)
    decreases l, 1
  {
    if l.children == [] {
      NoTails(l.tokens);
    } else if l.kind == KStack && |l.children| > 1 {
      AddsNothing(l.children[|l.children| - 1]);
    } else {
      SideAddsNothing(l.children);
    }
  }

  lemma {:induction false} SideAddsNothing(ls: seq<Layout>)
    ensures SideTails(ls) == 0 <==> forall i :: 0 <= i < |ls| ==> EndsInOneLiners(ls[i])
    decreases ls, 0
  {
    if ls != [] {
      var n := |ls| - 1;
      SideAddsNothing(ls[..n]);
      AddsNothing(ls[n]);
      assert forall i :: 0 <= i < n ==> ls[..n][i] == ls[i];
    }
  }
}

/** Tabular alignment of rows over nested columns (verible/common/formatting/align.cc). */
module Alignment {
  import Seqs

  datatype Tree<V> = Node(value: V, children: seq<Tree<V>>)

  type Path = seq<nat>

  /** spaces is what stands before the token when its spacing is honoured, required what its style asks for. */
  datatype FormatToken = FormatToken(spaces: nat, required: nat, length: nat)

  datatype Cell = Cell(tokens: seq<FormatToken>, compactWidth: int, leftBorderWidth: int) {
    predicate IsUnused() { tokens == [] && compactWidth == 0 }
    predicate IsComposite() { tokens == [] && compactWidth > 0 }
    function TotalWidth(): int { leftBorderWidth + compactWidth }
  }

  datatype Column = Column(width: int, leftBorder: int) {
    function TotalWidth(): int { leftBorder + width }
  }

  const NO_BORDER_OVERRIDE: int := -1

  datatype Properties = Properties(flushLeft: bool, containsDelimiter: bool, leftBorderOverride: int)

  type Row = Tree<Cell>
  type Columns = Tree<Column>
  type Props = Tree<Properties>

  predicate IsLeaf<V>(t: Tree<V>) { t.children == [] }

  predicate SameShape<V, W>(s: Tree<V>, t: Tree<W>) {
    |s.children| == |t.children| && forall i :: 0 <= i < |s.children| ==> SameShape(s.children[i], t.children[i])
  }

  predicate Has<V>(t: Tree<V>, p: Path) {
    p == [] || (p[0] < |t.children| && Has(t.children[p[0]], p[1..]))
  }

  function At<V>(t: Tree<V>, p: Path): Tree<V>
    requires Has(t, p)
  {
    if p == [] then t else At(t.children[p[0]], p[1..])
  }

  lemma {:induction false} AtChild<V>(t: Tree<V>, p: Path, i: nat)
    requires Has(t, p) && i < |At(t, p).children|
    ensures Has(t, p + [i]) && At(t, p + [i]) == At(t, p).children[i]
  {
    if p == [] {
      assert p + [i] == [i] && [i][1..] == [];
    } else {
      assert (p + [i])[1..] == p[1..] + [i];
      AtChild(t.children[p[0]], p[1..], i);
    }
  }

  lemma {:induction false} HasFront<V>(t: Tree<V>, p: Path)
    requires Has(t, p) && p != []
    ensures Has(t, p[..|p| - 1]) && p[|p| - 1] < |At(t, p[..|p| - 1]).children|
    ensures At(t, p) == At(t, p[..|p| - 1]).children[p[|p| - 1]]
  {
    if |p| > 1 {
      assert p[..|p| - 1][1..] == p[1..][..|p| - 2];
      HasFront(t.children[p[0]], p[1..]);
    }
  }

  // ----- the widths of the cells of a row

  /** The text of the tokens with the spaces between them. */
  function EffectiveCellWidth(tokens: seq<FormatToken>): int {
    if tokens == [] then 0 else Accumulated(tokens) - tokens[0].spaces
  }

  function Accumulated(tokens: seq<FormatToken>): nat {
    if tokens == [] then 0 else
      Accumulated(tokens[..|tokens| - 1]) + tokens[|tokens| - 1].spaces + tokens[|tokens| - 1].length
  }

  lemma {:induction false} WidthNotNegative(tokens: seq<FormatToken>)
    ensures 0 <= EffectiveCellWidth(tokens)
    ensures tokens != [] ==> Accumulated(tokens) >= tokens[0].spaces + tokens[0].length
  {
    if |tokens| > 1 {
      WidthNotNegative(tokens[..|tokens| - 1]);
    } else if |tokens| == 1 {
      assert tokens[..0] == [];
    }
  }

  function EffectiveLeftBorderWidth(tokens: seq<FormatToken>): int {
    if tokens == [] then 0 else tokens[0].required
  }

  function CellTotals(cells: seq<Row>): int {
    if cells == [] then 0 else CellTotals(cells[..|cells| - 1]) + cells[|cells| - 1].value.TotalWidth()
  }

  /** Cells know the width of their tokens, and cells without tokens that of their subcells. */
  function UpdatedWidths(node: Row): Row {
    var own := node.value.(compactWidth := EffectiveCellWidth(node.value.tokens),
                           leftBorderWidth := EffectiveLeftBorderWidth(node.value.tokens));
    if IsLeaf(node) then Node(own, [])
    else
      var cc := seq(|node.children|, i requires 0 <= i < |node.children| => UpdatedWidths(node.children[i]));
      if own.tokens != [] then Node(own, cc)
      else
        var border := cc[0].value.leftBorderWidth;
        Node(own.(leftBorderWidth := border, compactWidth := CellTotals(cc) - border), cc)
  }

  /** The leftmost cells start lines, so they have no border. */
  function WithoutFrontBorders(row: Row): Row {
    if IsLeaf(row) then row
    else row.(children := row.children[0 := Borderless(WithoutFrontBorders(row.children[0]))])
  }

  function Borderless(row: Row): Row { row.(value := row.value.(leftBorderWidth := 0)) }

  function ComputeRowCellWidths(row: Row): Row { WithoutFrontBorders(UpdatedWidths(row)) }

  /** No width is negative, and a cell that is neither unused nor composite has tokens. */
  predicate RowOk(row: Row) {
    && 0 <= row.value.compactWidth && 0 <= row.value.leftBorderWidth
    && (IsLeaf(row) && row.value.tokens == [] ==> row.value.compactWidth == 0)
    && forall i :: 0 <= i < |row.children| ==> RowOk(row.children[i])
  }

  /** A cell without tokens of its own starts and ends where its subcells do. */
  predicate Conserved(row: Row) {
    && (!IsLeaf(row) && row.value.tokens == [] ==>
          && row.value.TotalWidth() == CellTotals(row.children)
          && row.value.leftBorderWidth == row.children[0].value.leftBorderWidth)
    && forall i :: 0 <= i < |row.children| ==> Conserved(row.children[i])
  }

  lemma {:induction false} TotalsFrom(cells: seq<Row>)
    requires cells != [] && forall i :: 0 <= i < |cells| ==> RowOk(cells[i])
    ensures cells[0].value.TotalWidth() <= CellTotals(cells)
  {
    if |cells| > 1 {
      TotalsFrom(cells[..|cells| - 1]);
    } else {
      assert cells[..0] == [];
    }
  }

  lemma {:induction false} WidthsOk(row: Row)
    ensures RowOk(UpdatedWidths(row)) && Conserved(UpdatedWidths(row)) && SameShape(row, UpdatedWidths(row))
    ensures UpdatedWidths(row).value.tokens == row.value.tokens
  {
    WidthNotNegative(row.value.tokens);
    var r := UpdatedWidths(row);
    forall i | 0 <= i < |row.children|
      ensures RowOk(r.children[i]) && Conserved(r.children[i]) && SameShape(row.children[i], r.children[i])
    {
      WidthsOk(row.children[i]);
    }
    if !IsLeaf(row) {
      TotalsFrom(r.children);
    }
  }

  lemma TotalsAfterFirst(cells: seq<Row>, x: Row)
    requires cells != []
    ensures CellTotals(cells[0 := x]) == CellTotals(cells) - cells[0].value.TotalWidth() + x.value.TotalWidth()
    decreases |cells|
  {
    if |cells| > 1 {
      TotalsAfterFirst(cells[..|cells| - 1], x);
      assert cells[0 := x][..|cells| - 1] == cells[..|cells| - 1][0 := x];
    } else {
      assert cells[0 := x][..0] == cells[..0] == [];
    }
  }

  lemma {:induction false} FrontBorders(row: Row)
    requires RowOk(row) && Conserved(row)
    ensures var r := WithoutFrontBorders(row);
            && RowOk(r) && Conserved(Borderless(r)) && SameShape(row, r) && r.value == row.value
            && (!IsLeaf(row) ==> r.children[0].value.leftBorderWidth == 0)
            && (!IsLeaf(row) && row.value.tokens == [] ==> CellTotals(r.children) == row.value.compactWidth)
    decreases row
  {
    if !IsLeaf(row) {
      var c := row.children[0];
      var d := WithoutFrontBorders(c);
      FrontBorders(c);
      assert RowOk(Borderless(d)) && SameShape(c, Borderless(d));
      TotalsAfterFirst(row.children, Borderless(d));
      var r := WithoutFrontBorders(row);
      forall i | 0 <= i < |row.children| ensures RowOk(r.children[i]) && Conserved(r.children[i]) && SameShape(row.children[i], r.children[i]) {
        if i > 0 {
          ShapeReflexive(row.children[i]);
        }
      }
    }
  }

  lemma {:induction false} ShapeReflexive<V>(t: Tree<V>)
    ensures SameShape(t, t)
  {
    forall i | 0 <= i < |t.children| ensures SameShape(t.children[i], t.children[i]) {
      ShapeReflexive(t.children[i]);
    }
  }

  /** After the widths of a row are computed they are conserved below its root, and the first
      cells have no border. */
  lemma RowWidths(row: Row)
    ensures var r := ComputeRowCellWidths(row);
            && RowOk(r) && SameShape(row, r)
            && (forall i :: 0 <= i < |r.children| ==> Conserved(r.children[i]))
            && (!IsLeaf(r) ==> r.children[0].value.leftBorderWidth == 0)
            && (!IsLeaf(r) && row.value.tokens == [] ==> CellTotals(r.children) == r.value.compactWidth)
  {
    WidthsOk(row);
    var u := UpdatedWidths(row);
    FrontBorders(u);
    ShapeTransitive(row, u, ComputeRowCellWidths(row));
    assert Conserved(Borderless(ComputeRowCellWidths(row)));
  }

  lemma {:induction false} ShapeTransitive<U, V, W>(s: Tree<U>, t: Tree<V>, u: Tree<W>)
    requires SameShape(s, t) && SameShape(t, u)
    ensures SameShape(s, u)
  {
    forall i | 0 <= i < |s.children| ensures SameShape(s.children[i], u.children[i]) {
      ShapeTransitive(s.children[i], t.children[i], u.children[i]);
    }
  }

  // ----- the widths of the columns

  function ColumnTotals(cols: seq<Columns>): int {
    if cols == [] then 0 else ColumnTotals(cols[..|cols| - 1]) + cols[|cols| - 1].value.TotalWidth()
  }

  function Blank(row: Row): (r: Columns)
    ensures r.value == Column(0, 0)
  {
    Node(Column(0, 0), seq(|row.children|, i requires 0 <= i < |row.children| => Blank(row.children[i])))
  }

  function Max(a: int, b: int): int { if a < b then b else a }

  /** One column after it has seen one more cell. */
  function UpdatedColumn(c: Column, p: Properties, cell: Cell, alignToLastRow: bool): Column {
    if p.containsDelimiter && alignToLastRow then Column(0, 0)
    else
      Column(Max(c.width, cell.compactWidth),
             if p.leftBorderOverride != NO_BORDER_OVERRIDE then p.leftBorderOverride
             else Max(c.leftBorder, cell.leftBorderWidth))
  }

  function UpdatedColumns(cols: Columns, props: Props, row: Row, alignToLastRow: bool): Columns
    requires SameShape(row, cols) && SameShape(row, props)
    decreases row
  {
    Node(UpdatedColumn(cols.value, props.value, row.value, alignToLastRow),
         seq(|row.children|, i requires 0 <= i < |row.children| =>
               UpdatedColumns(cols.children[i], props.children[i], row.children[i], alignToLastRow)))
  }

  /** Columns made wide enough for their subcolumns, from the innermost outwards. */
  function Widened(cols: Columns): Columns {
    if IsLeaf(cols) then cols
    else
      var cc := seq(|cols.children|, i requires 0 <= i < |cols.children| => Widened(cols.children[i]));
      var border := Max(cols.value.leftBorder, cc[0].value.leftBorder);
      Node(Column(Max(cols.value.width, ColumnTotals(cc) - border), border), cc)
  }

  /** Every column is as wide as its subcolumns together. */
  predicate CoversSubcolumns(cols: Columns) {
    && (!IsLeaf(cols) ==> ColumnTotals(cols.children) <= cols.value.TotalWidth())
    && forall i :: 0 <= i < |cols.children| ==> CoversSubcolumns(cols.children[i])
  }

  predicate BordersOk(cols: Columns) {
    0 <= cols.value.leftBorder && forall i :: 0 <= i < |cols.children| ==> BordersOk(cols.children[i])
  }

  /** Every cell fits into its column with its border, if that is not overridden, except in delimiter columns that
      were given no width. */
  predicate Fits(row: Row, cols: Columns, props: Props, alignToLastRow: bool)
    requires SameShape(row, cols) && SameShape(row, props)
    decreases row
  {
    && ((props.value.containsDelimiter && alignToLastRow)
        || (row.value.compactWidth <= cols.value.width
            && (props.value.leftBorderOverride == NO_BORDER_OVERRIDE ==> row.value.leftBorderWidth <= cols.value.leftBorder)))
    && forall i :: 0 <= i < |row.children| ==> Fits(row.children[i], cols.children[i], props.children[i], alignToLastRow)
  }

  predicate PropsOk(props: Props) {
    && NO_BORDER_OVERRIDE <= props.value.leftBorderOverride
    && forall i :: 0 <= i < |props.children| ==> PropsOk(props.children[i])
  }

  lemma {:induction false} BlankOk(row: Row)
    ensures SameShape(row, Blank(row)) && BordersOk(Blank(row))
  {
    forall i | 0 <= i < |row.children| ensures SameShape(row.children[i], Blank(row).children[i]) && BordersOk(Blank(row).children[i]) {
      BlankOk(row.children[i]);
    }
  }

  /** A row fits into the columns that have seen it, and so does every row that fitted before. */
  lemma {:induction false} UpdateOk(cols: Columns, props: Props, row: Row, a: bool)
    requires SameShape(row, cols) && SameShape(row, props) && BordersOk(cols) && PropsOk(props) && RowOk(row)
    ensures var u := UpdatedColumns(cols, props, row, a);
            SameShape(row, u) && BordersOk(u) && Fits(row, u, props, a)
    decreases row
  {
    var u := UpdatedColumns(cols, props, row, a);
    forall i | 0 <= i < |row.children|
      ensures SameShape(row.children[i], u.children[i]) && BordersOk(u.children[i])
      ensures Fits(row.children[i], u.children[i], props.children[i], a)
    {
      UpdateOk(cols.children[i], props.children[i], row.children[i], a);
    }
  }

  lemma {:induction false} UpdateKeeps(cols: Columns, props: Props, row: Row, a: bool, other: Row)
    requires SameShape(row, cols) && SameShape(row, props) && SameShape(other, cols) && SameShape(other, props)
    requires Fits(other, cols, props, a)
    ensures var u := UpdatedColumns(cols, props, row, a); SameShape(other, u) && Fits(other, u, props, a)
    decreases row
  {
    var u := UpdatedColumns(cols, props, row, a);
    forall i | 0 <= i < |other.children|
      ensures SameShape(other.children[i], u.children[i]) && Fits(other.children[i], u.children[i], props.children[i], a)
    {
      UpdateKeeps(cols.children[i], props.children[i], row.children[i], a, other.children[i]);
    }
  }

  lemma {:induction false} WidenedOk(cols: Columns)
    requires BordersOk(cols)
    ensures SameShape(cols, Widened(cols)) && BordersOk(Widened(cols)) && CoversSubcolumns(Widened(cols))
    ensures cols.value.width <= Widened(cols).value.width && cols.value.leftBorder <= Widened(cols).value.leftBorder
  {
    var w := Widened(cols);
    forall i | 0 <= i < |cols.children|
      ensures SameShape(cols.children[i], w.children[i]) && BordersOk(w.children[i]) && CoversSubcolumns(w.children[i])
    {
      WidenedOk(cols.children[i]);
    }
  }

  lemma {:induction false} WidenedFits(row: Row, cols: Columns, props: Props, a: bool)
    requires SameShape(row, cols) && SameShape(row, props) && BordersOk(cols) && Fits(row, cols, props, a)
    ensures SameShape(row, Widened(cols)) && Fits(row, Widened(cols), props, a)
    decreases row
  {
    WidenedOk(cols);
    var w := Widened(cols);
    forall i | 0 <= i < |row.children|
      ensures SameShape(row.children[i], w.children[i]) && Fits(row.children[i], w.children[i], props.children[i], a)
    {
      WidenedFits(row.children[i], cols.children[i], props.children[i], a);
    }
  }

  // ----- which row decides about delimiters

  function Preorder<V>(t: Tree<V>): (r: seq<V>)
    ensures r != [] && r[0] == t.value
    decreases t, 1
  {
    [t.value] + PreorderAll(t.children)
  }

  function PreorderAll<V>(ts: seq<Tree<V>>): seq<V>
    decreases ts, 0
  {
    if ts == [] then [] else Preorder(ts[0]) + PreorderAll(ts[1..])
  }

  lemma {:induction false} SamePreorder<V, W>(s: Tree<V>, t: Tree<W>)
    requires SameShape(s, t)
    ensures |Preorder(s)| == |Preorder(t)|
    decreases s, 1
  {
    SamePreorderAll(s.children, t.children);
  }

  lemma {:induction false} SamePreorderAll<V, W>(s: seq<Tree<V>>, t: seq<Tree<W>>)
    requires |s| == |t| && forall i :: 0 <= i < |s| ==> SameShape(s[i], t[i])
    ensures |PreorderAll(s)| == |PreorderAll(t)|
    decreases s, 0
  {
    if s != [] {
      SamePreorder(s[0], t[0]);
      SamePreorderAll(s[1..], t[1..]);
    }
  }

  /** j is the column just before the first delimiter column. */
  predicate BeforeFirstDelimiter(props: Props, j: nat) {
    var ps := Preorder(props);
    && j + 1 < |ps| && ps[j + 1].containsDelimiter
    && forall k :: 0 < k <= j ==> !ps[k].containsDelimiter
  }

  function WidthAt(row: Row, j: nat): int {
    if j < |Preorder(row)| then Preorder(row)[j].TotalWidth() else 0
  }

  /** The last row has the one longest cell before the first delimiter. */
  predicate LastIsLongest(matrix: seq<Row>, j: nat)
    requires matrix != []
  {
    var w := WidthAt(matrix[|matrix| - 1], j);
    0 < w && forall i :: 0 <= i < |matrix| - 1 ==> WidthAt(matrix[i], j) < w
  }

  predicate HasDelimiter(props: Props) {
    exists k :: 0 < k < |Preorder(props)| && Preorder(props)[k].containsDelimiter
  }

  /** The last row has the one longest cell before the first delimiter, if there is a delimiter. */
  ghost predicate LastRowDecides(matrix: seq<Row>, props: Props)
    requires matrix != []
  {
    exists j: nat :: BeforeFirstDelimiter(props, j) && LastIsLongest(matrix, j)
  }

  lemma DecidesIs(matrix: seq<Row>, props: Props, align: bool)
    requires matrix != [] && (!HasDelimiter(props) ==> !align)
    requires forall j :: 0 <= j && BeforeFirstDelimiter(props, j) ==> (align <==> LastIsLongest(matrix, j))
    ensures align <==> LastRowDecides(matrix, props)
  {
    hide BeforeFirstDelimiter, LastIsLongest, HasDelimiter;
    if align {
      var j := FirstDelimiter(props);
      assert BeforeFirstDelimiter(props, j) && LastIsLongest(matrix, j);
    }
  }

  lemma FirstDelimiterUnique(props: Props, i: nat, j: nat)
    requires BeforeFirstDelimiter(props, i) && BeforeFirstDelimiter(props, j)
    ensures i == j
  {
  }

  /** The column before the first delimiter, as the loop over the cells of a row meets it. */
  method FindDelimiter(cells: seq<Cell>, props: Props) returns (found: bool, j: nat)
    requires |cells| == |Preorder(props)|
    ensures found ==> j < |cells| && BeforeFirstDelimiter(props, j)
    ensures !found ==> !HasDelimiter(props)
  {
    var ps := Preorder(props);
    j := 0;
    while j < |cells|
      invariant 0 <= j <= |cells|
      invariant forall k :: 0 < k <= j && k < |ps| ==> !ps[k].containsDelimiter
    {
      if j + 1 != |ps| && ps[j + 1].containsDelimiter {
        return true, j;
      }
      j := j + 1;
    }
    return false, j;
  }

  /** Looks in every row at the cell before the first delimiter. */
  method AlignToLastRow(matrix: seq<Row>, props: Props) returns (align: bool)
    requires matrix != [] && forall i :: 0 <= i < |matrix| ==> SameShape(matrix[i], props)
    ensures align <==> LastRowDecides(matrix, props)
  {
    var longest := 0;
    align := false;
    for i := 0 to |matrix|
      invariant i < |matrix| ==> !align
      invariant !HasDelimiter(props) ==> !align
      invariant forall j :: 0 <= j && BeforeFirstDelimiter(props, j) ==> IsLongest(matrix, i, j, longest)
      invariant i == |matrix| ==> forall j :: 0 <= j && BeforeFirstDelimiter(props, j) ==> (align <==> LastIsLongest(matrix, j))
    {
      hide Preorder, BeforeFirstDelimiter, HasDelimiter;
      var cells := Preorder(matrix[i]);
      SamePreorder(matrix[i], props);
      var found, j := FindDelimiter(cells, props);
      if found {
        forall k: nat | BeforeFirstDelimiter(props, k) ensures k == j {
          FirstDelimiterUnique(props, k, j);
        }
        if longest < cells[j].TotalWidth() {
          longest := cells[j].TotalWidth();
          if i == |matrix| - 1 {
            align := true;
          }
        }
      } else {
        forall k: nat ensures !BeforeFirstDelimiter(props, k) {
          NoDelimiter(props, k);
        }
      }
    }
    DecidesIs(matrix, props, align);
  }

  lemma FirstDelimiter(props: Props) returns (j: nat)
    requires HasDelimiter(props)
    ensures BeforeFirstDelimiter(props, j)
  {
    var ps := Preorder(props);
    var k :| 0 < k < |ps| && ps[k].containsDelimiter;
    j := 0;
    while !ps[j + 1].containsDelimiter
      invariant j < k && forall i :: 0 < i <= j ==> !ps[i].containsDelimiter
      decreases k - j
    {
      j := j + 1;
    }
  }

  lemma NoDelimiter(props: Props, k: nat)
    requires !HasDelimiter(props)
    ensures !BeforeFirstDelimiter(props, k)
  {
  }

  /** The longest of the first n cells before the delimiter, or 0. */
  predicate IsLongest(matrix: seq<Row>, n: nat, j: nat, longest: int)
    requires n <= |matrix|
  {
    && 0 <= longest && (forall k :: 0 <= k < n ==> WidthAt(matrix[k], j) <= longest)
    && (longest == 0 || exists k :: 0 <= k < n && longest == WidthAt(matrix[k], j))
  }

  /** The columns after they have seen the first n rows. */
  ghost function ColumnsUpTo(matrix: seq<Row>, props: Props, a: bool, n: nat): (c: Columns)
    requires matrix != [] && n <= |matrix| && forall i :: 0 <= i < |matrix| ==> SameShape(matrix[i], props)
    ensures SameShape(props, c)
  {
    if n == 0 then
      BlankOk(matrix[0]);
      ShapeSymmetric(matrix[0], props);
      ShapeTransitive(props, matrix[0], Blank(matrix[0]));
      Blank(matrix[0])
    else
      var before := ColumnsUpTo(matrix, props, a, n - 1);
      ShapeTransitive(matrix[n - 1], props, before);
      UpdatedShape(before, props, matrix[n - 1], a);
      ShapeSymmetric(matrix[n - 1], props);
      ShapeTransitive(props, matrix[n - 1], UpdatedColumns(before, props, matrix[n - 1], a));
      UpdatedColumns(before, props, matrix[n - 1], a)
  }

  /** The columns of a table. */
  ghost function ColumnsOf(matrix: seq<Row>, props: Props): Columns
    requires matrix != [] && forall i :: 0 <= i < |matrix| ==> SameShape(matrix[i], props)
  {
    Widened(ColumnsUpTo(matrix, props, LastRowDecides(matrix, props), |matrix|))
  }

  lemma {:induction false} UpdatedShape(cols: Columns, props: Props, row: Row, a: bool)
    requires SameShape(row, cols) && SameShape(row, props)
    ensures SameShape(row, UpdatedColumns(cols, props, row, a))
    decreases row
  {
    var u := UpdatedColumns(cols, props, row, a);
    forall i | 0 <= i < |row.children| ensures SameShape(row.children[i], u.children[i]) {
      UpdatedShape(cols.children[i], props.children[i], row.children[i], a);
    }
  }

  method ComputeColumnWidths(matrix: seq<Row>, props: Props) returns (cols: Columns, alignToLastRow: bool)
    requires matrix != [] && PropsOk(props)
    requires forall i :: 0 <= i < |matrix| ==> SameShape(matrix[i], props) && RowOk(matrix[i])
    ensures cols == ColumnsOf(matrix, props) && (alignToLastRow <==> LastRowDecides(matrix, props))
    ensures BordersOk(cols) && CoversSubcolumns(cols) && SameShape(props, cols)
    ensures forall i :: 0 <= i < |matrix| ==> SameShape(matrix[i], cols) && Fits(matrix[i], cols, props, alignToLastRow)
  {
    hide SameShape, RowOk, PropsOk, Fits, BordersOk, CoversSubcolumns, LastRowDecides;
    alignToLastRow := AlignToLastRow(matrix, props);
    cols := Blank(matrix[0]);
    BlankOk(matrix[0]);
    ShapeSymmetric(matrix[0], props);
    ShapeTransitive(props, matrix[0], cols);
    for r := 0 to |matrix|
      invariant cols == ColumnsUpTo(matrix, props, alignToLastRow, r)
      invariant SameShape(props, cols) && BordersOk(cols)
      invariant forall i :: 0 <= i < r ==> SameShape(matrix[i], cols) && Fits(matrix[i], cols, props, alignToLastRow)
    {
      ghost var before := cols;
      ShapeTransitive(matrix[r], props, cols);
      cols := UpdatedColumns(cols, props, matrix[r], alignToLastRow);
      UpdateOk(before, props, matrix[r], alignToLastRow);
      ShapeSymmetric(matrix[r], props);
      ShapeTransitive(props, matrix[r], cols);
      forall i | 0 <= i < r ensures SameShape(matrix[i], cols) && Fits(matrix[i], cols, props, alignToLastRow) {
        UpdateKeeps(before, props, matrix[r], alignToLastRow, matrix[i]);
      }
    }
    ghost var before := cols;
    cols := Widened(cols);
    WidenedOk(before);
    ShapeTransitive(props, before, cols);
    forall i | 0 <= i < |matrix| ensures SameShape(matrix[i], cols) && Fits(matrix[i], cols, props, alignToLastRow) {
      WidenedFits(matrix[i], before, props, alignToLastRow);
    }
  }

  lemma {:induction false} ShapeSymmetric<V, W>(s: Tree<V>, t: Tree<W>)
    requires SameShape(s, t)
    ensures SameShape(t, s)
  {
    forall i | 0 <= i < |s.children| ensures SameShape(t.children[i], s.children[i]) {
      ShapeSymmetric(s.children[i], t.children[i]);
    }
  }

  // ----- the simple definition: where a column stands

  /** Where the subcolumns of the column at p begin. A flush-right column pads on the left. */
  ghost function InnerStart(cols: Columns, props: Props, p: Path): int
    requires Has(cols, p) && Has(props, p)
    decreases |p|, 1
  {
    var c := At(cols, p);
    if p == [] then 0
    else ColumnStart(cols, props, p)
         + if At(props, p).value.flushLeft then 0 else c.value.TotalWidth() - ColumnTotals(c.children)
  }

  /** Where the column at p begins: after all columns to its left. No row has a say in this. */
  ghost function ColumnStart(cols: Columns, props: Props, p: Path): int
    requires p != [] && Has(cols, p) && Has(props, p)
    decreases |p|, 0
  {
    var q, i := p[..|p| - 1], p[|p| - 1];
    HasFront(cols, p);
    HasFront(props, p);
    InnerStart(cols, props, q) + ColumnTotals(At(cols, q).children[..i])
  }

  /** The spacing given to the first token of a cell; width is that of the cell. */
  datatype Action = Action(cell: Path, spacing: int, width: int)

  /** Where the text of a row ends after the cells aligned so far. */
  function End(actions: seq<Action>): int {
    if actions == [] then 0 else
      var a := actions[|actions| - 1]; End(actions[..|actions| - 1]) + a.spacing + a.width
  }

  /** Where the cell of action k starts. */
  function Start(actions: seq<Action>, k: nat): int
    requires k < |actions|
  {
    End(actions[..k]) + actions[k].spacing
  }

  /** A flush-left cell starts where its column says, and a flush-right cell ends there. */
  ghost predicate Aligned(cols: Columns, props: Props, actions: seq<Action>, k: nat)
    requires k < |actions|
  {
    var a := actions[k];
    && a.cell != [] && Has(cols, a.cell) && Has(props, a.cell)
    && var c, p, start := At(cols, a.cell).value, At(props, a.cell).value, Start(actions, k);
       && (p.flushLeft && !p.containsDelimiter ==> start == ColumnStart(cols, props, a.cell) + c.leftBorder)
       && (p.flushLeft && p.containsDelimiter ==> a.spacing == 0)
       && (!p.flushLeft ==> start + a.width == ColumnStart(cols, props, a.cell) + c.TotalWidth())
  }

  lemma EndMore(actions: seq<Action>, a: Action)
    ensures End(actions + [a]) == End(actions) + a.spacing + a.width
    ensures Start(actions + [a], |actions|) == End(actions) + a.spacing
  {
    assert (actions + [a])[..|actions|] == actions;
  }

  lemma AlignedStays(cols: Columns, props: Props, actions: seq<Action>, more: seq<Action>, k: nat)
    requires k < |actions| && Aligned(cols, props, actions, k)
    ensures Aligned(cols, props, actions + more, k)
  {
    assert (actions + more)[..k] == actions[..k];
  }

  /** The cells that get a spacing: those with tokens, inside composite cells only. */
  ghost function TokenCells(row: Row, at: Path): seq<Path>
    decreases row, 1, 0
  {
    TokenCellsOf(row, at, |row.children|)
  }

  ghost function TokenCellsOf(row: Row, at: Path, n: nat): seq<Path>
    requires n <= |row.children|
    decreases row, 0, n
  {
    if n == 0 then []
    else
      var c, before := row.children[n - 1], TokenCellsOf(row, at, n - 1);
      if c.value.IsUnused() then before
      else if c.value.IsComposite() then before + TokenCells(c, at + [n - 1])
      else before + [at + [n - 1]]
  }

  function Cells(actions: seq<Action>): (r: seq<Path>)
    ensures |r| == |actions| && forall k :: 0 <= k < |r| ==> r[k] == actions[k].cell
  {
    seq(|actions|, k requires 0 <= k < |actions| => actions[k].cell)
  }

  /** All cells fit and every column covers its subcolumns. */
  predicate NothingSqueezed(row: Row, cols: Columns)
    requires SameShape(row, cols)
  {
    && row.value.compactWidth <= cols.value.width && 0 <= cols.value.leftBorder
    && (!IsLeaf(cols) ==> ColumnTotals(cols.children) <= cols.value.TotalWidth())
    && forall i :: 0 <= i < |row.children| ==> NothingSqueezed(row.children[i], cols.children[i])
  }

  lemma ColumnStep(cols: Columns, props: Props, at: Path, i: nat)
    requires Has(cols, at) && Has(props, at) && i < |At(cols, at).children| == |At(props, at).children|
    ensures var p := at + [i];
            && Has(cols, p) && Has(props, p) && At(cols, p) == At(cols, at).children[i] && At(props, p) == At(props, at).children[i]
            && ColumnStart(cols, props, p) == InnerStart(cols, props, at) + ColumnTotals(At(cols, at).children[..i])
            && ColumnTotals(At(cols, at).children[..i + 1])
               == ColumnTotals(At(cols, at).children[..i]) + At(cols, p).value.TotalWidth()
  {
    AtChild(cols, at, i);
    AtChild(props, at, i);
    assert (at + [i])[..|at|] == at;
    assert At(cols, at).children[..i + 1][..i] == At(cols, at).children[..i];
  }

  /** The spacing of one token cell at column position base. */
  method PlaceCell(c: Column, p: Properties, compactWidth: int, accrued: int) returns (spacing: int, left: int)
    ensures spacing + compactWidth + left == accrued + c.TotalWidth()
    ensures p.flushLeft && !p.containsDelimiter ==> spacing == accrued + c.leftBorder
    ensures p.flushLeft && p.containsDelimiter ==> spacing == 0
    ensures !p.flushLeft ==> left == 0
    ensures 0 <= accrued && 0 <= c.leftBorder && compactWidth <= c.width ==> 0 <= spacing && 0 <= left
    ensures 0 <= accrued && compactWidth <= c.width && !(p.flushLeft && p.containsDelimiter) ==> c.leftBorder <= spacing
  {
    var accruedSpaces := accrued + c.leftBorder;
    var padding := c.width - compactWidth;
    if p.flushLeft {
      if p.containsDelimiter {
        return 0, accruedSpaces + padding;
      }
      return accruedSpaces, padding;
    }
    return accruedSpaces + padding, 0;
  }

  /** The text so far and the spaces still to come reach up to position; all cells so far are aligned. */
  ghost predicate Reaches(cols: Columns, props: Props, actions: seq<Action>, accrued: int, position: int) {
    && End(actions) + accrued == position
    && forall k :: 0 <= k < |actions| ==> Aligned(cols, props, actions, k)
  }

  predicate NoneNegative(actions: seq<Action>, accrued: int) {
    0 <= accrued && forall k :: 0 <= k < |actions| ==> 0 <= actions[k].spacing
  }

  /** Every cell but those of delimiters has at least the border of its column before it. */
  ghost predicate SpacedOut(cols: Columns, props: Props, actions: seq<Action>) {
    forall k :: 0 <= k < |actions| ==> HasBorder(cols, props, actions[k])
  }

  ghost predicate HasBorder(cols: Columns, props: Props, a: Action) {
    && Has(cols, a.cell) && Has(props, a.cell)
    && var p := At(props, a.cell).value;
       !(p.flushLeft && p.containsDelimiter) ==> At(cols, a.cell).value.leftBorder <= a.spacing
  }

  lemma MoreSpaces(cols: Columns, props: Props, actions: seq<Action>, accrued: int, position: int, n: int)
    requires Reaches(cols, props, actions, accrued, position)
    ensures Reaches(cols, props, actions, accrued + n, position + n)
    ensures NoneNegative(actions, accrued) && 0 <= n ==> NoneNegative(actions, accrued + n)
  {
  }

  lemma OneMoreCell(cols: Columns, props: Props, actions: seq<Action>, accrued: int, a: Action, left: int)
    requires a.cell != [] && Has(cols, a.cell) && Has(props, a.cell)
    requires Reaches(cols, props, actions, accrued, ColumnStart(cols, props, a.cell))
    requires var c, p := At(cols, a.cell).value, At(props, a.cell).value;
             && a.spacing + a.width + left == accrued + c.TotalWidth()
             && (p.flushLeft && !p.containsDelimiter ==> a.spacing == accrued + c.leftBorder)
             && (p.flushLeft && p.containsDelimiter ==> a.spacing == 0)
             && (!p.flushLeft ==> left == 0)
    ensures Reaches(cols, props, actions + [a], left, ColumnStart(cols, props, a.cell) + At(cols, a.cell).value.TotalWidth())
    ensures NoneNegative(actions, accrued) && 0 <= a.spacing && 0 <= left ==> NoneNegative(actions + [a], left)
    ensures Cells(actions + [a]) == Cells(actions) + [a.cell]
  {
    hide ColumnStart, Has, At;
    EndMore(actions, a);
    forall k | 0 <= k < |actions + [a]| ensures Aligned(cols, props, actions + [a], k) {
      if k < |actions| {
        AlignedStays(cols, props, actions, [a], k);
      }
    }
  }

  lemma InnerIs(cols: Columns, props: Props, p: Path)
    requires p != [] && Has(cols, p) && Has(props, p)
    ensures var c := At(cols, p);
            InnerStart(cols, props, p) == ColumnStart(cols, props, p)
              + if At(props, p).value.flushLeft then 0 else c.value.TotalWidth() - ColumnTotals(c.children)
  {
  }

  lemma ChildNotSqueezed(row: Row, cols: Columns, i: nat)
    requires SameShape(row, cols) && NothingSqueezed(row, cols) && i < |row.children|
    ensures var r, c := row.children[i], cols.children[i];
            && NothingSqueezed(r, c) && r.value.compactWidth <= c.value.width && 0 <= c.value.leftBorder
            && (!IsLeaf(r) ==> ColumnTotals(c.children) <= c.value.TotalWidth())
  {
    assert NothingSqueezed(row.children[i], cols.children[i]);
  }

  lemma CellsMore(row: Row, at: Path, i: nat)
    requires i < |row.children|
    ensures var c := row.children[i];
            TokenCellsOf(row, at, i + 1) == TokenCellsOf(row, at, i)
              + if c.value.IsUnused() then [] else if c.value.IsComposite() then TokenCells(c, at + [i]) else [at + [i]]
  {
  }

  /** The widths that the actions carry are those of their cells. */
  predicate Measured(row: Row, actions: seq<Action>) {
    forall k :: 0 <= k < |actions| ==>
      Has(row, actions[k].cell) && actions[k].width == At(row, actions[k].cell).value.compactWidth
  }

  lemma OneMoreMeasured(row: Row, actions: seq<Action>, at: Path, i: nat, spacing: int)
    requires Measured(row, actions) && Has(row, at) && i < |At(row, at).children|
    ensures Measured(row, actions + [Action(at + [i], spacing, At(row, at).children[i].value.compactWidth)])
    ensures Has(row, at + [i]) && At(row, at + [i]) == At(row, at).children[i]
  {
    AtChild(row, at, i);
  }

  method ComputeAlignedRowCellSpacings(
      cols: Columns, props: Props, row: Row, at: Path, actions0: seq<Action>, accrued0: int,
      ghost allCols: Columns, ghost allProps: Props, ghost allCells: Row)
    returns (actions: seq<Action>, accrued: int)
    requires SameShape(row, cols) && SameShape(row, props) && RowOk(row)
    requires Has(allCols, at) && Has(allProps, at) && At(allCols, at) == cols && At(allProps, at) == props
    requires Has(allCells, at) && At(allCells, at) == row && Measured(allCells, actions0)
    requires Reaches(allCols, allProps, actions0, accrued0, InnerStart(allCols, allProps, at))
    ensures Measured(allCells, actions)
    ensures Reaches(allCols, allProps, actions, accrued, InnerStart(allCols, allProps, at) + ColumnTotals(cols.children))
    ensures Cells(actions) == Cells(actions0) + TokenCells(row, at)
    ensures NothingSqueezed(row, cols) && NoneNegative(actions0, accrued0) ==> NoneNegative(actions, accrued)
    ensures NothingSqueezed(row, cols) && NoneNegative(actions0, accrued0) && SpacedOut(allCols, allProps, actions0) ==>
              SpacedOut(allCols, allProps, actions)
    decreases row
  {
    hide Reaches, InnerStart, ColumnStart, Has, At, NothingSqueezed, NoneNegative, TokenCellsOf, ColumnTotals, Cells, Measured,
      SpacedOut, HasBorder;
    actions, accrued := actions0, accrued0;
    ghost var start := InnerStart(allCols, allProps, at);
    ghost var good := NothingSqueezed(row, cols) && NoneNegative(actions0, accrued0);
    ghost var spaced := good && SpacedOut(allCols, allProps, actions0);
    NothingYet(row, cols, at);
    for i := 0 to |row.children|
      invariant Reaches(allCols, allProps, actions, accrued, start + ColumnTotals(cols.children[..i]))
      invariant Cells(actions) == Cells(actions0) + TokenCellsOf(row, at, i)
      invariant good ==> NoneNegative(actions, accrued)
      invariant spaced ==> SpacedOut(allCols, allProps, actions)
      invariant Measured(allCells, actions)
    {
      var cell, c, p := row.children[i], cols.children[i], props.children[i];
      ghost var column := start + ColumnTotals(cols.children[..i]);
      ColumnStep(allCols, allProps, at, i);
      CellsMore(row, at, i);
      if good {
        ChildNotSqueezed(row, cols, i);
      }
      if cell.value.IsUnused() {
        MoreSpaces(allCols, allProps, actions, accrued, column, c.value.TotalWidth());
        accrued := accrued + c.value.leftBorder + c.value.width;
      } else if cell.value.IsComposite() {
        InnerIs(allCols, allProps, at + [i]);
        OneMoreMeasured(allCells, actions, at, i, 0);
        var padding := c.value.TotalWidth() - ColumnTotals(c.children);
        if !p.value.flushLeft {
          MoreSpaces(allCols, allProps, actions, accrued, column, padding);
          accrued := accrued + padding;
        }
        actions, accrued := ComputeAlignedRowCellSpacings(c, p, cell, at + [i], actions, accrued, allCols, allProps, allCells);
        Seqs.Associative(Cells(actions0), TokenCellsOf(row, at, i), TokenCells(cell, at + [i]));
        if p.value.flushLeft {
          MoreSpaces(allCols, allProps, actions, accrued, column + ColumnTotals(c.children), padding);
          accrued := accrued + padding;
        }
      } else {
        assert cell.value.tokens != [] by { assert RowOk(cell); }
        var spacing, left := PlaceCell(c.value, p.value, cell.value.compactWidth, accrued);
        assert good ==> 0 <= accrued by { if good { NoneNegativeMeans(actions, accrued); } }
        var action := Action(at + [i], spacing, cell.value.compactWidth);
        OneMoreCell(allCols, allProps, actions, accrued, action, left);
        OneMoreMeasured(allCells, actions, at, i, spacing);
        OneMoreSpaced(allCols, allProps, actions, action, spaced);
        Seqs.Associative(Cells(actions0), TokenCellsOf(row, at, i), [at + [i]]);
        actions, accrued := actions + [action], left;
      }
    }
    assert cols.children[..|cols.children|] == cols.children;
  }

  lemma OneMoreSpaced(cols: Columns, props: Props, actions: seq<Action>, a: Action, spaced: bool)
    requires Has(cols, a.cell) && Has(props, a.cell) && (spaced ==> SpacedOut(cols, props, actions))
    requires var p := At(props, a.cell).value;
             spaced && !(p.flushLeft && p.containsDelimiter) ==> At(cols, a.cell).value.leftBorder <= a.spacing
    ensures spaced ==> SpacedOut(cols, props, actions + [a])
  {
    hide Has, At;
  }

  lemma NothingYet(row: Row, cols: Columns, at: Path)
    ensures ColumnTotals(cols.children[..0]) == 0 && TokenCellsOf(row, at, 0) == []
  {
  }

  lemma NoneNegativeMeans(actions: seq<Action>, accrued: int)
    requires NoneNegative(actions, accrued)
    ensures 0 <= accrued
  {
  }

  lemma {:induction false} FitsMeans(row: Row, cols: Columns, props: Props)
    requires SameShape(row, cols) && SameShape(row, props) && Fits(row, cols, props, false)
    requires BordersOk(cols) && CoversSubcolumns(cols)
    ensures NothingSqueezed(row, cols)
    decreases row
  {
    forall i | 0 <= i < |row.children| ensures NothingSqueezed(row.children[i], cols.children[i]) {
      FitsMeans(row.children[i], cols.children[i], props.children[i]);
    }
  }

  /** Two cells of one column stand at the same place. */
  ghost predicate InLine(props: Props, a: seq<Action>, k: nat, b: seq<Action>, l: nat)
    requires k < |a| && l < |b|
  {
    a[k].cell == b[l].cell ==>
      && Has(props, a[k].cell)
      && var p := At(props, a[k].cell).value;
         && (p.flushLeft && !p.containsDelimiter ==> Start(a, k) == Start(b, l))
         && (!p.flushLeft ==> Start(a, k) + a[k].width == Start(b, l) + b[l].width)
  }

  lemma AlignedInLine(cols: Columns, props: Props, a: seq<Action>, k: nat, b: seq<Action>, l: nat)
    requires k < |a| && l < |b| && Aligned(cols, props, a, k) && Aligned(cols, props, b, l)
    ensures InLine(props, a, k, b, l)
  {
  }

  /** The rows with the widths of their cells. */
  method ComputeMatrix(rows: seq<Row>, props: Props) returns (matrix: seq<Row>)
    requires forall r :: 0 <= r < |rows| ==> SameShape(rows[r], props)
    ensures |matrix| == |rows|
    ensures forall i :: 0 <= i < |rows| ==>
              matrix[i] == ComputeRowCellWidths(rows[i]) && RowOk(matrix[i]) && SameShape(matrix[i], props)
  {
    hide ComputeRowCellWidths, RowOk, SameShape, Conserved;
    matrix := [];
    for r := 0 to |rows|
      invariant |matrix| == r && forall i :: 0 <= i < r ==>
                  matrix[i] == ComputeRowCellWidths(rows[i]) && RowOk(matrix[i]) && SameShape(matrix[i], props)
    {
      RowWidths(rows[r]);
      ShapeSymmetric(rows[r], ComputeRowCellWidths(rows[r]));
      ShapeTransitive(ComputeRowCellWidths(rows[r]), rows[r], props);
      matrix := matrix + [ComputeRowCellWidths(rows[r])];
    }
  }

  /** ComputeAlignedRowSpacings */
  method ComputeAlignedRowSpacings(cols: Columns, props: Props, row: Row) returns (actions: seq<Action>)
    requires SameShape(row, cols) && SameShape(row, props) && RowOk(row)
    ensures forall k :: 0 <= k < |actions| ==> Aligned(cols, props, actions, k)
    ensures Cells(actions) == TokenCells(row, []) && Measured(row, actions)
    ensures NothingSqueezed(row, cols) ==> NoneNegative(actions, 0) && SpacedOut(cols, props, actions)
  {
    hide SameShape, RowOk, NothingSqueezed, NoneNegative, Aligned, InnerStart, Cells, TokenCells, HasBorder;
    StartOfRow(cols, props);
    var accrued;
    actions, accrued := ComputeAlignedRowCellSpacings(cols, props, row, [], [], 0, cols, props, row);
    NoCells(TokenCells(row, []));
    if NothingSqueezed(row, cols) {
      RowNotNegative(actions, accrued);
    }
  }

  lemma NoCells(more: seq<Path>)
    ensures Cells([]) + more == more
  {
  }

  /** CalculateAlignmentSpacings on rows whose cells are known: in every column, at any depth, the
      cells of all rows line up. A single row is left alone. */
  method AlignRows(rows: seq<Row>, props: Props) returns (matrix: seq<Row>, result: seq<seq<Action>>)
    requires PropsOk(props) && forall r :: 0 <= r < |rows| ==> SameShape(rows[r], props)
    ensures |rows| <= 1 ==> result == []
    ensures |rows| > 1 ==> |result| == |matrix| == |rows|
    ensures |rows| > 1 ==> forall r :: 0 <= r < |rows| ==>
              && matrix[r] == ComputeRowCellWidths(rows[r])
              && Cells(result[r]) == TokenCells(matrix[r], []) && Measured(matrix[r], result[r])
    ensures forall r, s, k, l :: 0 <= r < |result| && 0 <= s < |result| && 0 <= k < |result[r]| && 0 <= l < |result[s]| ==>
              InLine(props, result[r], k, result[s], l)
    ensures |rows| > 1 ==> forall r :: 0 <= r < |rows| ==> SameShape(matrix[r], props)
    ensures forall r, k :: 0 <= r < |result| && 0 <= k < |result[r]| ==>
              Aligned(ColumnsOf(matrix, props), props, result[r], k)
    ensures |rows| > 1 && !LastRowDecides(matrix, props) ==> forall r :: 0 <= r < |result| ==> NoneNegative(result[r], 0)
    ensures forall r, s, k, l :: 0 <= r < |result| && 0 <= s < |result| && 0 <= k < |result[r]| && 0 <= l < |result[s]|
                                 && NoneNegative(result[r], 0) && NoneNegative(result[s], 0) ==>
              TextInLine(props, rows[r], result[r], k, rows[s], result[s], l)
    ensures |rows| > 1 && !LastRowDecides(matrix, props) ==> forall r, k :: 0 <= r < |result| && 0 <= k < |result[r]| ==>
              SpaceSuffices(props, rows[r], result[r][k])
  {
    hide TextInLine, SpaceSuffices, SpacedOut;
    hide Aligned, NoneNegative, InLine, Cells, Measured, TokenCells, ComputeRowCellWidths, RowOk, SameShape, Fits, BordersOk,
      CoversSubcolumns, NothingSqueezed, PropsOk, LastRowDecides, ColumnsOf;
    matrix, result := [], [];
    if |rows| <= 1 {
      return;
    }
    matrix := ComputeMatrix(rows, props);
    var cols, alignToLastRow := ComputeColumnWidths(matrix, props);
    for r := 0 to |rows|
      invariant |result| == r
      invariant forall i :: 0 <= i < r ==> Cells(result[i]) == TokenCells(matrix[i], []) && Measured(matrix[i], result[i])
      invariant forall i, k :: 0 <= i < r && 0 <= k < |result[i]| ==> Aligned(cols, props, result[i], k)
      invariant !alignToLastRow ==> forall i :: 0 <= i < r ==> NoneNegative(result[i], 0)
      invariant !alignToLastRow ==> forall i, k :: 0 <= i < r && 0 <= k < |result[i]| ==> SpaceSuffices(props, rows[i], result[i][k])
    {
      if !alignToLastRow {
        FitsMeans(matrix[r], cols, props);
      }
      var actions := ComputeAlignedRowSpacings(cols, props, matrix[r]);
      if !alignToLastRow {
        AllSuffice(cols, props, rows[r], actions);
      }
      result := result + [actions];
    }
    forall r, s, k, l | 0 <= r < |result| && 0 <= s < |result| && 0 <= k < |result[r]| && 0 <= l < |result[s]|
      ensures InLine(props, result[r], k, result[s], l)
    {
      AlignedInLine(cols, props, result[r], k, result[s], l);
    }
    forall r, s, k, l | 0 <= r < |result| && 0 <= s < |result| && 0 <= k < |result[r]| && 0 <= l < |result[s]|
                        && NoneNegative(result[r], 0) && NoneNegative(result[s], 0)
      ensures TextInLine(props, rows[r], result[r], k, rows[s], result[s], l)
    {
      TextLinesUp(props, rows[r], result[r], k, rows[s], result[s], l);
    }
  }

  lemma StartOfRow(cols: Columns, props: Props)
    ensures Reaches(cols, props, [], 0, InnerStart(cols, props, [])) && NoneNegative([], 0)
  {
  }

  lemma RowNotNegative(actions: seq<Action>, accrued: int)
    requires NoneNegative(actions, accrued)
    ensures NoneNegative(actions, 0)
  {
  }

  // ----- the aligned text

  /** What is printed: a blank, or a character of a cell. */
  datatype Glyph = Space | Char(cell: Path)

  function Blanks(n: int): (r: seq<Glyph>)
    ensures |r| == if n < 0 then 0 else n
  {
    seq(if n < 0 then 0 else n, _ => Space)
  }

  function Chars(cell: Path, t: FormatToken): (r: seq<Glyph>)
    ensures |r| == t.length
  {
    seq(t.length, _ => Char(cell))
  }

  /** The text of a cell: its tokens, each but the first with its own spaces before it. */
  function CellText(cell: Path, tokens: seq<FormatToken>): seq<Glyph> {
    if tokens == [] then [] else
      var n := |tokens| - 1;
      CellText(cell, tokens[..n]) + (if n == 0 then [] else Blanks(tokens[n].spaces)) + Chars(cell, tokens[n])
  }

  function TokensAt(row: Row, cell: Path): seq<FormatToken> { if Has(row, cell) then At(row, cell).value.tokens else [] }

  /** A row as it is printed: before every cell the spacing that alignment gives its first token. */
  function RowText(row: Row, actions: seq<Action>): seq<Glyph> {
    if actions == [] then [] else
      var n := |actions| - 1;
      RowText(row, actions[..n]) + Blanks(actions[n].spacing) + CellText(actions[n].cell, TokensAt(row, actions[n].cell))
  }

  /** Where the text of cell k begins and ends in the printed row. */
  function TextStart(row: Row, actions: seq<Action>, k: nat): int
    requires k < |actions|
  {
    |RowText(row, actions[..k]) + Blanks(actions[k].spacing)|
  }

  function TextEnd(row: Row, actions: seq<Action>, k: nat): int
    requires k < |actions|
  {
    |RowText(row, actions[..k + 1])|
  }

  /** The text of cell k stands there. */
  lemma {:induction false} CellStandsThere(row: Row, actions: seq<Action>, k: nat)
    requires k < |actions|
    ensures var a, b := TextStart(row, actions, k), TextEnd(row, actions, k);
            && 0 <= a <= b <= |RowText(row, actions)|
            && RowText(row, actions)[a..b] == CellText(actions[k].cell, TokensAt(row, actions[k].cell))
    decreases |actions|
  {
    hide CellText, TokensAt, Blanks;
    var n := |actions| - 1;
    var front, gap, text := RowText(row, actions[..n]), Blanks(actions[n].spacing), CellText(actions[n].cell, TokensAt(row, actions[n].cell));
    assert RowText(row, actions) == front + gap + text;
    hide RowText;
    if k == n {
      assert actions[..k + 1] == actions;
      LastSlice(front + gap, text);
    } else {
      CellStandsThere(row, actions[..n], k);
      assert actions[..n][..k] == actions[..k] && actions[..n][..k + 1] == actions[..k + 1];
      InnerSlice(front, gap + text, TextStart(row, actions, k), TextEnd(row, actions, k));
      Seqs.Associative(front, gap, text);
    }
  }

  lemma LastSlice<T>(s: seq<T>, t: seq<T>)
    ensures (s + t)[|s|..|s + t|] == t
  {
  }

  lemma InnerSlice<T>(s: seq<T>, t: seq<T>, a: int, b: int)
    requires 0 <= a <= b <= |s|
    ensures (s + t)[a..b] == s[a..b]
  {
  }

  /** Two cells of one column stand at the same place in the printed rows. */
  ghost predicate TextInLine(props: Props, rowA: Row, a: seq<Action>, k: nat, rowB: Row, b: seq<Action>, l: nat)
    requires k < |a| && l < |b|
  {
    a[k].cell == b[l].cell ==>
      && Has(props, a[k].cell)
      && var p := At(props, a[k].cell).value;
         && (p.flushLeft && !p.containsDelimiter ==> TextStart(rowA, a, k) == TextStart(rowB, b, l))
         && (!p.flushLeft ==> TextEnd(rowA, a, k) == TextEnd(rowB, b, l))
  }

  /** The width of a cell is the length of its text. */
  lemma {:induction false} WidthIsLength(cell: Path, tokens: seq<FormatToken>)
    ensures |CellText(cell, tokens)| == EffectiveCellWidth(tokens)
    ensures tokens != [] ==> Accumulated(tokens) == tokens[0].spaces + |CellText(cell, tokens)|
  {
    if tokens != [] {
      var n := |tokens| - 1;
      if n == 0 {
        assert tokens[..0] == [];
        assert CellText(cell, tokens) == CellText(cell, tokens[..0]) + [] + Chars(cell, tokens[0]);
        assert Accumulated(tokens) == Accumulated(tokens[..0]) + tokens[0].spaces + tokens[0].length;
      } else {
        WidthIsLength(cell, tokens[..n]);
      }
    }
  }

  /** Measuring a row leaves its tokens alone. */
  lemma {:induction false} WidthsKeepTokens(row: Row, p: Path)
    requires Has(row, p)
    ensures var u := UpdatedWidths(row);
            && Has(u, p) && At(u, p).value.tokens == At(row, p).value.tokens
            && (At(row, p).value.tokens != [] ==>
                  At(u, p).value.compactWidth == EffectiveCellWidth(At(row, p).value.tokens)
                  && At(u, p).value.leftBorderWidth == EffectiveLeftBorderWidth(At(row, p).value.tokens))
    decreases |p|
  {
    if p != [] {
      WidthsKeepTokens(row.children[p[0]], p[1..]);
    }
  }

  /** Clearing the front borders changes nothing else, and no border but at the front. */
  lemma {:induction false} FrontKeeps(row: Row, p: Path)
    requires Has(row, p)
    ensures var r := WithoutFrontBorders(row);
            && Has(r, p) && At(r, p).value.tokens == At(row, p).value.tokens
            && At(r, p).value.compactWidth == At(row, p).value.compactWidth
            && ((exists i :: 0 <= i < |p| && p[i] != 0) ==> At(r, p).value == At(row, p).value)
    decreases |p|
  {
    if p != [] && p[0] == 0 {
      var c := row.children[0];
      FrontKeeps(c, p[1..]);
      assert WithoutFrontBorders(row).children[0] == Borderless(WithoutFrontBorders(c));
      assert (exists i :: 0 <= i < |p| && p[i] != 0) ==> (exists i :: 0 <= i < |p[1..]| && p[1..][i] != 0) by {
        if i :| 0 <= i < |p| && p[i] != 0 {
          assert p[1..][i - 1] == p[i];
        }
      }
      BorderlessAt(WithoutFrontBorders(c), p[1..]);
    }
  }

  lemma BorderlessAt(row: Row, p: Path)
    requires Has(row, p)
    ensures Has(Borderless(row), p)
    ensures p != [] ==> At(Borderless(row), p) == At(row, p)
    ensures p == [] ==> At(Borderless(row), p).value == row.value.(leftBorderWidth := 0)
  {
  }

  /** A cell of a measured row. */
  lemma CellMeasured(row: Row, p: Path)
    requires Has(ComputeRowCellWidths(row), p)
    ensures Has(row, p)
    ensures var c := At(ComputeRowCellWidths(row), p).value;
            && c.tokens == At(row, p).value.tokens
            && (c.tokens != [] ==> c.compactWidth == EffectiveCellWidth(c.tokens))
            && (c.tokens != [] && (exists i :: 0 <= i < |p| && p[i] != 0) ==> c.leftBorderWidth == c.tokens[0].required)
  {
    RowWidths(row);
    SameShapeHas(row, ComputeRowCellWidths(row), p);
    WidthsKeepTokens(row, p);
    FrontKeeps(UpdatedWidths(row), p);
  }

  lemma {:induction false} SameShapeHas<V, W>(s: Tree<V>, t: Tree<W>, p: Path)
    requires SameShape(s, t)
    ensures Has(s, p) <==> Has(t, p)
    decreases |p|
  {
    if p != [] && p[0] < |s.children| {
      SameShapeHas(s.children[p[0]], t.children[p[0]], p[1..]);
    }
  }

  /** The cells that get a spacing have tokens. */
  lemma {:induction false} TokenCellsHaveTokens(all: Row, row: Row, at: Path, n: nat)
    requires Has(all, at) && At(all, at) == row && RowOk(row) && n <= |row.children|
    ensures forall p :: p in TokenCellsOf(row, at, n) ==> Has(all, p) && At(all, p).value.tokens != []
    decreases row, n
  {
    if n > 0 {
      TokenCellsHaveTokens(all, row, at, n - 1);
      var c := row.children[n - 1];
      AtChild(all, at, n - 1);
      assert RowOk(c);
      if c.value.IsComposite() {
        TokenCellsHaveTokens(all, c, at + [n - 1], |c.children|);
      }
    }
  }

  /** No cell on the way to p has tokens of its own. */
  predicate Inside(row: Row, p: Path)
    requires Has(row, p)
    decreases |p|
  {
    p == [] || (row.value.tokens == [] && Inside(row.children[p[0]], p[1..]))
  }

  lemma {:induction false} TotalsFromEach(cells: seq<Row>, i: nat)
    requires i < |cells| && forall j :: 0 <= j < |cells| ==> RowOk(cells[j])
    ensures cells[i].value.compactWidth <= CellTotals(cells) - cells[0].value.leftBorderWidth
    decreases |cells|
  {
    var n := |cells| - 1;
    assert RowOk(cells[n]);
    if i == n {
      if n == 0 {
        assert cells[..0] == [];
      } else {
        TotalsFromEach(cells[..n], 0);
        assert RowOk(cells[0]);
      }
    } else {
      TotalsFromEach(cells[..n], i);
    }
  }

  /** A cell is at least as wide as any cell inside it. */
  lemma {:induction false} InnerFits(row: Row, p: Path)
    requires RowOk(row) && Conserved(row) && Has(row, p) && Inside(row, p)
    ensures At(row, p).value.compactWidth <= row.value.compactWidth
    decreases |p|
  {
    if p != [] {
      InnerFits(row.children[p[0]], p[1..]);
      TotalsFromEach(row.children, p[0]);
    }
  }

  /** Every cell with text gets a spacing, unless it lies inside a cell with tokens of its own. */
  lemma {:induction false} EveryCellIsPrinted(row: Row, at: Path, p: Path)
    requires RowOk(row) && (forall i :: 0 <= i < |row.children| ==> Conserved(row.children[i]))
    requires p != [] && Has(row, p) && Inside(row.children[p[0]], p[1..])
    requires At(row, p).value.tokens != [] && 0 < At(row, p).value.compactWidth
    ensures at + p in TokenCells(row, at)
    decreases |p|
  {
    var i, c := p[0], row.children[p[0]];
    assert RowOk(c) && Conserved(c);
    InnerFits(c, p[1..]);
    if |p| == 1 {
      assert p == [i] && p[1..] == [];
    } else {
      EveryCellIsPrinted(c, at + [i], p[1..]);
      assert at + [i] + p[1..] == at + p;
    }
    CellsMore(row, at, i);
    LaterCells(row, at, i + 1, at + p);
  }

  lemma {:induction false} LaterCells(row: Row, at: Path, n: nat, q: Path)
    requires n <= |row.children| && q in TokenCellsOf(row, at, n)
    ensures q in TokenCells(row, at)
    decreases |row.children| - n
  {
    if n < |row.children| {
      CellsMore(row, at, n);
      LaterCells(row, at, n + 1, q);
    }
  }

  /** The actions of a row measure the text of its cells. */
  ghost predicate MeasuresText(row: Row, actions: seq<Action>) {
    forall k :: 0 <= k < |actions| ==>
      && Has(row, actions[k].cell) && At(row, actions[k].cell).value.tokens != []
      && actions[k].width == |CellText(actions[k].cell, TokensAt(row, actions[k].cell))|
  }

  lemma ActionsMeasureText(row: Row, actions: seq<Action>)
    requires var m := ComputeRowCellWidths(row); Cells(actions) == TokenCells(m, []) && Measured(m, actions)
    ensures MeasuresText(row, actions)
  {
    var m := ComputeRowCellWidths(row);
    RowWidths(row);
    TokenCellsHaveTokens(m, m, [], |m.children|);
    hide ComputeRowCellWidths, TokenCellsOf, RowOk, Conserved, Has, At, CellText, TokensAt, EffectiveCellWidth;
    forall k | 0 <= k < |actions|
      ensures Has(row, actions[k].cell) && At(row, actions[k].cell).value.tokens != []
      ensures actions[k].width == |CellText(actions[k].cell, TokensAt(row, actions[k].cell))|
    {
      var p := actions[k].cell;
      assert Cells(actions)[k] == p;
      CellMeasured(row, p);
      WidthIsLength(p, At(row, p).value.tokens);
      TokensAtIs(row, p);
    }
  }

  lemma TokensAtIs(row: Row, p: Path)
    requires Has(row, p)
    ensures TokensAt(row, p) == At(row, p).value.tokens
  {
  }

  /** Without negative spacings the printed row is as long as the widths say. */
  lemma {:induction false} TextLength(row: Row, actions: seq<Action>)
    requires MeasuresText(row, actions) && NoneNegative(actions, 0)
    ensures |RowText(row, actions)| == End(actions)
    decreases |actions|
  {
    if actions != [] {
      TextLength(row, actions[..|actions| - 1]);
    }
  }

  lemma TextPlaces(row: Row, actions: seq<Action>, k: nat)
    requires MeasuresText(row, actions) && NoneNegative(actions, 0) && k < |actions|
    ensures TextStart(row, actions, k) == Start(actions, k) && TextEnd(row, actions, k) == Start(actions, k) + actions[k].width
  {
    hide MeasuresText, RowText;
    assert MeasuresText(row, actions[..k]) && MeasuresText(row, actions[..k + 1]) by { MeasuresPrefix(row, actions, k); }
    TextLength(row, actions[..k]);
    TextLength(row, actions[..k + 1]);
    assert actions[..k + 1][..k] == actions[..k];
  }

  lemma MeasuresPrefix(row: Row, actions: seq<Action>, k: nat)
    requires MeasuresText(row, actions) && k < |actions|
    ensures MeasuresText(row, actions[..k]) && MeasuresText(row, actions[..k + 1])
  {
    hide CellText, TokensAt, Has, At;
  }

  lemma TextLinesUp(props: Props, rowA: Row, a: seq<Action>, k: nat, rowB: Row, b: seq<Action>, l: nat)
    requires var m := ComputeRowCellWidths(rowA); Cells(a) == TokenCells(m, []) && Measured(m, a)
    requires var m := ComputeRowCellWidths(rowB); Cells(b) == TokenCells(m, []) && Measured(m, b)
    requires NoneNegative(a, 0) && NoneNegative(b, 0) && k < |a| && l < |b| && InLine(props, a, k, b, l)
    ensures TextInLine(props, rowA, a, k, rowB, b, l)
  {
    hide ComputeRowCellWidths, TokenCells, Cells, Measured, NoneNegative, MeasuresText, TextStart, TextEnd, Start, Has, At;
    ActionsMeasureText(rowA, a);
    ActionsMeasureText(rowB, b);
    TextPlaces(rowA, a, k);
    TextPlaces(rowB, b, l);
  }

  /** Before every cell, unless it starts the row, holds a delimiter or has an overridden border, there are at least
      the spaces that its first token requires. */
  ghost predicate SpaceSuffices(props: Props, row: Row, a: Action) {
    && Has(props, a.cell) && Has(row, a.cell) && At(row, a.cell).value.tokens != []
    && var p := At(props, a.cell).value;
       (exists i :: 0 <= i < |a.cell| && a.cell[i] != 0) && !(p.flushLeft && p.containsDelimiter)
       && p.leftBorderOverride == NO_BORDER_OVERRIDE ==>
         At(row, a.cell).value.tokens[0].required <= a.spacing
  }

  lemma {:induction false} FitsAt(row: Row, cols: Columns, props: Props, p: Path)
    requires SameShape(row, cols) && SameShape(row, props) && Fits(row, cols, props, false) && Has(row, p)
    ensures Has(cols, p) && Has(props, p)
    ensures At(props, p).value.leftBorderOverride == NO_BORDER_OVERRIDE ==>
              At(row, p).value.leftBorderWidth <= At(cols, p).value.leftBorder
    decreases |p|
  {
    if p != [] {
      FitsAt(row.children[p[0]], cols.children[p[0]], props.children[p[0]], p[1..]);
    }
  }

  lemma AllSuffice(cols: Columns, props: Props, row: Row, actions: seq<Action>)
    requires var m := ComputeRowCellWidths(row);
             && SameShape(m, cols) && SameShape(m, props) && Fits(m, cols, props, false)
             && Cells(actions) == TokenCells(m, []) && Measured(m, actions)
    requires SpacedOut(cols, props, actions)
    ensures forall k :: 0 <= k < |actions| ==> SpaceSuffices(props, row, actions[k])
  {
    var m := ComputeRowCellWidths(row);
    ActionsMeasureText(row, actions);
    hide ComputeRowCellWidths, TokenCells, Cells, Has, At, Fits, SameShape, CellText, TokensAt;
    forall k | 0 <= k < |actions| ensures SpaceSuffices(props, row, actions[k]) {
      var p := actions[k].cell;
      assert HasBorder(cols, props, actions[k]);
      FitsAt(m, cols, props, p);
      CellMeasured(row, p);
    }
  }

  // ----- a table with a negative spacing

  function TokenCell(width: nat, border: nat): Row {
    Node(Cell([FormatToken(border, border, width)], width, border), [])
  }

  /** A cell, a delimiter and another cell, the last with one space before it. */
  function ThreeCells(first: nat, delimiter: nat, last: nat): Row {
    Node(Cell([], first + delimiter + 1 + last, 0), [TokenCell(first, 0), TokenCell(delimiter, 0), TokenCell(last, 1)])
  }

  function Plain(delimiter: bool): Props { Node(Properties(true, delimiter, NO_BORDER_OVERRIDE), []) }

  function DelimiterTable(): Props {
    Node(Properties(true, false, NO_BORDER_OVERRIDE), [Plain(false), Plain(true), Plain(false)])
  }

  function DelimiterRows(): seq<Row> { [ThreeCells(3, 2, 1), ThreeCells(5, 2, 1)] }

  lemma ThreeCellsKept(a: nat, b: nat, c: nat)
    ensures ComputeRowCellWidths(ThreeCells(a, b, c)) == ThreeCells(a, b, c)
    ensures SameShape(ThreeCells(a, b, c), DelimiterTable()) && RowOk(ThreeCells(a, b, c))
  {
    var row := ThreeCells(a, b, c);
    TokenCellKept(a, 0);
    TokenCellKept(b, 0);
    TokenCellKept(c, 1);
    var u := UpdatedWidths(row);
    assert u.children == row.children;
    TotalsOfThree(row.children);
    assert u == row;
    assert Borderless(WithoutFrontBorders(row.children[0])) == row.children[0];
    assert row.children[0 := row.children[0]] == row.children;
  }

  lemma TokenCellKept(width: nat, border: nat)
    ensures UpdatedWidths(TokenCell(width, border)) == TokenCell(width, border)
  {
    var t := FormatToken(border, border, width);
    assert [t][..0] == [];
    assert Accumulated([t]) == border + width;
  }

  lemma TotalsOfThree(cells: seq<Row>)
    requires |cells| == 3
    ensures CellTotals(cells) == cells[0].value.TotalWidth() + cells[1].value.TotalWidth() + cells[2].value.TotalWidth()
  {
    assert cells[..2][..1] == cells[..1] && cells[..1][..0] == [];
    assert CellTotals(cells[..1]) == CellTotals(cells[..1][..0]) + cells[0].value.TotalWidth();
    assert CellTotals(cells[..2]) == CellTotals(cells[..2][..1]) + cells[1].value.TotalWidth();
  }

  /** The columns of the table: the delimiter gets no width because the last row is the longest. */
  function DelimiterColumns(): Columns {
    ThreeColumns(Column(9, 0), Column(5, 0), Column(0, 0), Column(1, 1))
  }

  lemma DelimiterDecides()
    ensures BeforeFirstDelimiter(DelimiterTable(), 1) && LastIsLongest(DelimiterRows(), 1)
  {
    var p := DelimiterTable();
    PreorderOfThree(p);
    assert Preorder(p)[2] == p.children[1].value && Preorder(p)[1] == p.children[0].value;
    PreorderOfThree(DelimiterRows()[0]);
    PreorderOfThree(DelimiterRows()[1]);
  }

  lemma PreorderOfThree<V>(t: Tree<V>)
    requires |t.children| == 3 && forall i :: 0 <= i < 3 ==> IsLeaf(t.children[i])
    ensures Preorder(t) == [t.value, t.children[0].value, t.children[1].value, t.children[2].value]
  {
    var cc := t.children;
    assert cc[1..][1..] == cc[2..] && cc[2..][1..] == [];
    assert PreorderAll(cc[2..]) == Preorder(cc[2]) + PreorderAll([]);
    assert PreorderAll(cc[1..]) == Preorder(cc[1]) + PreorderAll(cc[2..]);
    assert forall i :: 0 <= i < 3 ==> Preorder(cc[i]) == [cc[i].value] + PreorderAll([]);
  }

  lemma DelimiterShapes()
    ensures |DelimiterRows()| == 2
    ensures forall i :: 0 <= i < |DelimiterRows()| ==> SameShape(DelimiterRows()[i], DelimiterTable())
  {
    hide SameShape, ThreeCells, DelimiterTable;
    ThreeCellsKept(3, 2, 1);
    ThreeCellsKept(5, 2, 1);
  }

  lemma DelimiterColumnsAre()
    ensures forall i :: 0 <= i < |DelimiterRows()| ==> SameShape(DelimiterRows()[i], DelimiterTable())
    ensures ColumnsOf(DelimiterRows(), DelimiterTable()) == DelimiterColumns()
  {
    DelimiterShapes();
    DelimiterDecides();
    hide SameShape, ThreeCells, DelimiterRows, DelimiterTable, BeforeFirstDelimiter, LastIsLongest, Widened, ThreeColumns,
      DelimiterColumns, ColumnsUpTo;
    ColumnsOfThree(DelimiterRows(), DelimiterTable());
    WidenThree();
  }

  /** What the columns become when they see a row of the table. */
  lemma ThreeColumnsSee(v: Column, a: Column, b: Column, c: Column, x: nat, y: nat, z: nat)
    ensures SameShape(ThreeCells(x, y, z), ThreeColumns(v, a, b, c)) && SameShape(ThreeCells(x, y, z), DelimiterTable())
    ensures UpdatedColumns(ThreeColumns(v, a, b, c), DelimiterTable(), ThreeCells(x, y, z), true)
         == ThreeColumns(Column(Max(v.width, x + y + 1 + z), Max(v.leftBorder, 0)), Column(Max(a.width, x), Max(a.leftBorder, 0)),
                         Column(0, 0), Column(Max(c.width, z), Max(c.leftBorder, 1)))
  {
    var cols, p, row := ThreeColumns(v, a, b, c), DelimiterTable(), ThreeCells(x, y, z);
    var u := UpdatedColumns(cols, p, row, true);
    OneColumnSees(a, Plain(false), TokenCell(x, 0));
    OneColumnSees(b, Plain(true), TokenCell(y, 0));
    OneColumnSees(c, Plain(false), TokenCell(z, 1));
    assert |u.children| == 3;
    hide UpdatedColumns;
    assert u.children == [u.children[0], u.children[1], u.children[2]];
  }

  lemma OneColumnSees(c: Column, p: Props, cell: Row)
    requires IsLeaf(p) && IsLeaf(cell)
    ensures UpdatedColumns(Node(c, []), p, cell, true) == Node(UpdatedColumn(c, p.value, cell.value, true), [])
  {
  }

  lemma ColumnsOfThree(m: seq<Row>, p: Props)
    requires m == DelimiterRows() && p == DelimiterTable() && forall i :: 0 <= i < |m| ==> SameShape(m[i], p)
    ensures ColumnsUpTo(m, p, true, 2) == ThreeColumns(Column(9, 0), Column(5, 0), Column(0, 0), Column(1, 1))
  {
    ThreeColumnsSee(Column(0, 0), Column(0, 0), Column(0, 0), Column(0, 0), 3, 2, 1);
    ThreeColumnsSee(Column(7, 0), Column(3, 0), Column(0, 0), Column(1, 1), 5, 2, 1);
    BlankThree();
    hide UpdatedColumns, SameShape, Blank, ThreeColumns;
    assert ColumnsUpTo(m, p, true, 0) == Blank(m[0]);
    assert ColumnsUpTo(m, p, true, 1) == UpdatedColumns(ColumnsUpTo(m, p, true, 0), p, m[0], true);
    assert ColumnsUpTo(m, p, true, 2) == UpdatedColumns(ColumnsUpTo(m, p, true, 1), p, m[1], true);
  }

  lemma BlankThree()
    ensures Blank(DelimiterRows()[0]) == ThreeColumns(Column(0, 0), Column(0, 0), Column(0, 0), Column(0, 0))
  {
    var r := Blank(DelimiterRows()[0]);
    assert forall i :: 0 <= i < 3 ==> r.children[i] == Node(Column(0, 0), []);
    assert r.children == [r.children[0], r.children[1], r.children[2]];
  }

  lemma WidenThree()
    ensures Widened(ThreeColumns(Column(9, 0), Column(5, 0), Column(0, 0), Column(1, 1))) == DelimiterColumns()
  {
    hide Widened, ColumnTotals, ThreeColumns;
    var c := ThreeColumns(Column(9, 0), Column(5, 0), Column(0, 0), Column(1, 1));
    ThreeColumnsAre(Column(9, 0), Column(5, 0), Column(0, 0), Column(1, 1));
    WidenedLeaves(c);
    TotalsOfThreeColumns(c.children);
  }

  lemma ThreeColumnsAre(v: Column, a: Column, b: Column, c: Column)
    ensures var t := ThreeColumns(v, a, b, c);
            && t == Node(v, t.children) && |t.children| == 3 && !IsLeaf(t) && (forall i :: 0 <= i < 3 ==> IsLeaf(t.children[i]))
            && t.children[0].value == a && t.children[1].value == b && t.children[2].value == c
  {
  }

  lemma WidenedLeaves(c: Columns)
    requires !IsLeaf(c) && forall i :: 0 <= i < |c.children| ==> IsLeaf(c.children[i])
    ensures var border := Max(c.value.leftBorder, c.children[0].value.leftBorder);
            Widened(c) == Node(Column(Max(c.value.width, ColumnTotals(c.children) - border), border), c.children)
  {
    var cc := seq(|c.children|, i requires 0 <= i < |c.children| => Widened(c.children[i]));
    assert cc == c.children;
  }

  function ThreeColumns(v: Column, a: Column, b: Column, c: Column): Columns { Node(v, [Node(a, []), Node(b, []), Node(c, [])]) }

  lemma TotalsOfThreeColumns(cols: seq<Columns>)
    requires |cols| == 3
    ensures ColumnTotals(cols[..2]) == cols[0].value.TotalWidth() + cols[1].value.TotalWidth()
    ensures ColumnTotals(cols) == ColumnTotals(cols[..2]) + cols[2].value.TotalWidth()
  {
    assert cols[..2][..1] == cols[..1] && cols[..1][..0] == [];
    assert ColumnTotals(cols[..1]) == ColumnTotals(cols[..1][..0]) + cols[0].value.TotalWidth();
    assert ColumnTotals(cols[..2]) == ColumnTotals(cols[..2][..1]) + cols[1].value.TotalWidth();
  }

  lemma CellsOfThree(a: nat, b: nat, c: nat)
    ensures TokenCells(ThreeCells(a, b, c), []) == [[0], [1], [2]]
  {
    var row := ThreeCells(a, b, c);
    CellsMore(row, [], 0);
    CellsMore(row, [], 1);
    CellsMore(row, [], 2);
    assert [] + [0] == [0] && [] + [1] == [1] && [] + [2] == [2];
    assert TokenCellsOf(row, [], 0) == [];
  }

  /** In the last row of this table the cell after the delimiter would have to start before the
      delimiter ends: whatever is aligned has a spacing of -1 there. */
  lemma NegativeSpacing(actions: seq<Action>)
    requires Cells(actions) == TokenCells(DelimiterRows()[1], []) && Measured(DelimiterRows()[1], actions)
    requires forall i :: 0 <= i < |DelimiterRows()| ==> SameShape(DelimiterRows()[i], DelimiterTable())
    requires forall k :: 0 <= k < |actions| ==>
               Aligned(ColumnsOf(DelimiterRows(), DelimiterTable()), DelimiterTable(), actions, k)
    ensures |actions| == 3 && actions[2].spacing == -1
  {
    var row, cols, props := DelimiterRows()[1], DelimiterColumns(), DelimiterTable();
    DelimiterColumnsAre();
    hide ColumnsOf, Cells, TokenCells, SameShape, ColumnStart, Has, At;
    CellsOfThree(5, 2, 1);
    ThreeActions(actions);
    ThreeAt(row);
    ThreeAt(cols);
    ThreeAt(props);
    StartsOfThree();
    assert Aligned(cols, props, actions, 0) && Aligned(cols, props, actions, 1) && Aligned(cols, props, actions, 2);
    EndOfTwo(actions);
  }

  lemma ThreeActions(actions: seq<Action>)
    requires Cells(actions) == [[0], [1], [2]]
    ensures |actions| == 3 && actions[0].cell == [0] && actions[1].cell == [1] && actions[2].cell == [2]
  {
    assert |Cells(actions)| == 3;
    assert Cells(actions)[0] == [0] && Cells(actions)[1] == [1] && Cells(actions)[2] == [2];
  }

  lemma EndOfTwo(actions: seq<Action>)
    requires |actions| == 3
    ensures End(actions[..0]) == 0 && End(actions[..1]) == actions[0].spacing + actions[0].width
    ensures End(actions[..2]) == actions[0].spacing + actions[0].width + actions[1].spacing + actions[1].width
  {
    assert actions[..2][..1] == actions[..1] && actions[..1][..0] == [];
    assert End(actions[..1]) == End(actions[..1][..0]) + actions[0].spacing + actions[0].width;
    assert End(actions[..2]) == End(actions[..2][..1]) + actions[1].spacing + actions[1].width;
  }

  lemma ThreeAt<V>(t: Tree<V>)
    requires |t.children| == 3
    ensures forall i: nat :: i < 3 ==> Has(t, [i]) && At(t, [i]) == t.children[i]
  {
    forall i: nat | i < 3 ensures Has(t, [i]) && At(t, [i]) == t.children[i] {
      assert [i][1..] == [];
    }
  }

  lemma StartsOfThree()
    ensures Has(DelimiterColumns(), [0]) && Has(DelimiterTable(), [0]) && Has(DelimiterColumns(), [2]) && Has(DelimiterTable(), [2])
    ensures ColumnStart(DelimiterColumns(), DelimiterTable(), [0]) == 0
    ensures ColumnStart(DelimiterColumns(), DelimiterTable(), [2]) == 5
  {
    hide Has, ColumnStart, ColumnTotals;
    StartsInTable(DelimiterColumns(), DelimiterTable());
  }

  /** Where the first and the last of three columns begin. */
  lemma StartsInTable(cols: Columns, props: Props)
    requires |cols.children| == |props.children| == 3
    ensures Has(cols, [0]) && Has(props, [0]) && Has(cols, [2]) && Has(props, [2])
    ensures ColumnStart(cols, props, [0]) == 0
    ensures ColumnStart(cols, props, [2]) == cols.children[0].value.TotalWidth() + cols.children[1].value.TotalWidth()
  {
    hide ColumnStart;
    assert At(cols, []) == cols && At(props, []) == props && InnerStart(cols, props, []) == 0;
    NoPath(0);
    NoPath(2);
    ColumnStep(cols, props, [], 0);
    ColumnStep(cols, props, [], 2);
    TotalsOfThreeColumns(cols.children);
    assert cols.children[..0] == [];
  }

  lemma NoPath(i: nat)
    ensures [] + [i] == [i]
  {
  }
}

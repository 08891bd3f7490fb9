/** The table layout of `describe_list_internal` (src/lib.rs), from the
    moment header labels and cell texts are known: column widths, padded
    cells, header row, data rows, and the `Empty list` marker. */
module Table {
  import opened Wrappers
  import opened Text

  const EmptyList: string := "Empty list"

  /** Every row has one cell per column. */
  predicate Rectangular(rows: seq<seq<string>>, columns: nat) {
    forall i | 0 <= i < |rows| :: |rows[i]| == columns
  }

  /** How data cells are measured (`compute_string_size`): by their
      visible length. */
  function Sizes(row: seq<string>): (r: seq<nat>)
    ensures |r| == |row|
  {
    seq(|row|, j requires 0 <= j < |row| => VisibleLen(row[j]))
  }

  /** How header labels are measured (`len()`), which is also what the
      columns are when there are no rows. */
  function Lengths(names: seq<string>): (ws: seq<nat>)
    ensures |ws| == |names|
    ensures forall j | 0 <= j < |names| :: ws[j] == |names[j]|
  {
    seq(|names|, j requires 0 <= j < |names| => |names[j]|)
  }

  /** The cells of column `j`, top to bottom. */
  function Column(rows: seq<seq<string>>, j: nat): (col: seq<string>)
    ensures |col| == |rows|
    ensures forall i | 0 <= i < |rows| && j < |rows[i]| :: col[i] == rows[i][j]
  {
    seq(|rows|, i requires 0 <= i < |rows| => if j < |rows[i]| then rows[i][j] else "")
  }

  /** The wider of `floor` and the visible length of every cell. */
  function Widest(cells: seq<string>, floor: nat): (w: nat)
    ensures floor <= w
    ensures forall i | 0 <= i < |cells| :: VisibleLen(cells[i]) <= w
  {
    if cells == [] then floor
    else
      var init := cells[..|cells| - 1];
      var w := Widest(init, floor);
      assert forall i | 0 <= i < |init| :: init[i] == cells[i];
      Max(w, VisibleLen(cells[|cells| - 1]))
  }

  /** Widest is no wider than it must be: it is the floor or some cell. */
  lemma {:induction false} WidestAttained(cells: seq<string>, floor: nat)
    ensures Widest(cells, floor) == floor
         || exists i | 0 <= i < |cells| :: VisibleLen(cells[i]) == Widest(cells, floor)
  {
    if cells != [] {
      var init := cells[..|cells| - 1];
      WidestAttained(init, floor);
      assert Widest(cells, floor) == Max(Widest(init, floor), VisibleLen(cells[|cells| - 1]));
      if Widest(cells, floor) != floor && Widest(cells, floor) != VisibleLen(cells[|cells| - 1]) {
        var i :| 0 <= i < |init| && VisibleLen(init[i]) == Widest(init, floor);
        assert init[i] == cells[i];
      }
    }
  }

  /** Column widths: each column is as wide as its header label and its
      widest cell. */
  function Widths(names: seq<string>, rows: seq<seq<string>>): (ws: seq<nat>)
    requires Rectangular(rows, |names|)
    ensures |ws| == |names|
    ensures forall j | 0 <= j < |names| :: |names[j]| <= ws[j]
    ensures forall i, j | 0 <= i < |rows| && 0 <= j < |names| :: VisibleLen(rows[i][j]) <= ws[j]
  {
    var ws := seq(|names|, j requires 0 <= j < |names| => Widest(Column(rows, j), |names[j]|));
    assert forall i, j | 0 <= i < |rows| && 0 <= j < |names| :: Column(rows, j)[i] == rows[i][j];
    ws
  }

  /** ... and no wider: each width is its label's length or some cell's
      visible length. */
  lemma WidthsTight(names: seq<string>, rows: seq<seq<string>>, j: nat)
    requires Rectangular(rows, |names|) && j < |names|
    ensures Widths(names, rows)[j] == |names[j]|
         || exists i | 0 <= i < |rows| :: VisibleLen(rows[i][j]) == Widths(names, rows)[j]
  {
    var col := Column(rows, j);
    WidestAttained(col, |names[j]|);
    if Widths(names, rows)[j] != |names[j]| {
      var i :| 0 <= i < |col| && VisibleLen(col[i]) == Widest(col, |names[j]|);
      assert col[i] == rows[i][j];
    }
  }

  lemma ColumnSnoc(rows: seq<seq<string>>, i: nat, j: nat)
    requires i < |rows| && j < |rows[i]|
    ensures Column(rows[..i + 1], j) == Column(rows[..i], j) + [rows[i][j]]
  {
  }

  lemma WidestSnoc(cells: seq<string>, cell: string, floor: nat)
    ensures Widest(cells + [cell], floor) == Max(Widest(cells, floor), VisibleLen(cell))
  {
    assert (cells + [cell])[..|cells|] == cells;
  }

  /** The widths after the first `n` rows have been seen. */
  predicate WidthsSoFar(ws: seq<nat>, names: seq<string>, rows: seq<seq<string>>, n: nat)
    requires n <= |rows|
  {
    |ws| == |names| && forall j | 0 <= j < |names| :: ws[j] == Widest(Column(rows[..n], j), |names[j]|)
  }

  /** The inner loop of the width computation: widen every column by the
      cell row `i` holds in it. */
  method WidenByRow(names: seq<string>, rows: seq<seq<string>>, i: nat, ws: seq<nat>) returns (next: seq<nat>)
    requires Rectangular(rows, |names|) && i < |rows|
    requires WidthsSoFar(ws, names, rows, i)
    ensures WidthsSoFar(next, names, rows, i + 1)
  {
    next := ws;
    var idx := 0;
    while idx < |rows[i]|
      invariant 0 <= idx <= |rows[i]|
      invariant |next| == |names|
      invariant forall j | 0 <= j < idx :: next[j] == Widest(Column(rows[..i + 1], j), |names[j]|)
      invariant forall j | idx <= j < |names| :: next[j] == Widest(Column(rows[..i], j), |names[j]|)
    {
      ColumnSnoc(rows, i, idx);
      WidestSnoc(Column(rows[..i], idx), rows[i][idx], |names[idx]|);
      next := next[idx := Max(next[idx], VisibleLen(rows[i][idx]))];
      idx := idx + 1;
    }
  }

  /** The width computation as the Rust program runs it: start from the
      header lengths and widen column by column, row by row. It agrees with
      the definition above. */
  method ComputeWidths(names: seq<string>, rows: seq<seq<string>>) returns (ws: seq<nat>)
    requires Rectangular(rows, |names|)
    ensures ws == Widths(names, rows)
  {
    ws := Lengths(names);
    var i := 0;
    while i < |rows|
      invariant 0 <= i <= |rows|
      invariant WidthsSoFar(ws, names, rows, i)
    {
      ws := WidenByRow(names, rows, i, ws);
      i := i + 1;
    }
    assert rows[..|rows|] == rows;
  }

  /** Every cell fits its column. */
  predicate Fits(sizes: seq<nat>, widths: seq<nat>) {
    |sizes| == |widths| && forall j | 0 <= j < |sizes| :: sizes[j] <= widths[j]
  }

  /** A cell that is not the last of its line: `offset` blanks, the cell,
      padding up to the column width, and a separating blank. */
  function Lead(cell: string, size: nat, width: nat, offset: nat): string
    requires size <= width
  {
    Spaces(offset) + cell + Spaces(width - size) + " "
  }

  /** One line of the table: each cell preceded by `offset` blanks, padded to
      its column width unless it is the last one, cells separated by one
      blank. `sizes` are the cells' measures. */
  function Line(cells: seq<string>, sizes: seq<nat>, widths: seq<nat>, offset: nat): string
    requires |cells| == |sizes| && Fits(sizes, widths)
  {
    if |cells| == 0 then ""
    else if |cells| == 1 then Spaces(offset) + cells[0]
    else Lead(cells[0], sizes[0], widths[0], offset) + Line(cells[1..], sizes[1..], widths[1..], offset)
  }

  /** Position in a line where the cell of column `j` begins. */
  function ColumnStart(widths: seq<nat>, offset: nat, j: nat): nat
    requires j < |widths|
  {
    if j == 0 then offset else offset + widths[0] + 1 + ColumnStart(widths[1..], offset, j - 1)
  }

  lemma LeadHoldsCell(cell: string, size: nat, width: nat, offset: nat)
    requires size <= width
    ensures offset + |cell| <= |Lead(cell, size, width, offset)|
    ensures Lead(cell, size, width, offset)[offset..offset + |cell|] == cell
    ensures size == |cell| ==> |Lead(cell, size, width, offset)| == offset + width + 1
  {
    var lead := Lead(cell, size, width, offset);
    assert lead == Spaces(offset) + cell + (Spaces(width - size) + " ");
  }

  lemma SliceOfSuffix(a: string, b: string, s: nat, n: nat)
    requires s + n <= |b|
    ensures (a + b)[|a| + s..|a| + s + n] == b[s..s + n]
  {
  }

  lemma SliceOfPrefix(a: string, b: string, s: nat, n: nat)
    requires s + n <= |a|
    ensures (a + b)[s..s + n] == a[s..s + n]
  {
  }

  /** The first cell of a line comes after `offset` blanks. */
  lemma FirstCell(cells: seq<string>, sizes: seq<nat>, widths: seq<nat>, offset: nat)
    requires |cells| == |sizes| && Fits(sizes, widths) && |cells| > 0
    ensures offset + |cells[0]| <= |Line(cells, sizes, widths, offset)|
    ensures Line(cells, sizes, widths, offset)[offset..offset + |cells[0]|] == cells[0]
  {
    if |cells| == 1 {
      var line := Spaces(offset) + cells[0];
      assert Line(cells, sizes, widths, offset) == line;
      assert line[offset..offset + |cells[0]|] == cells[0];
    } else {
      var lead := Lead(cells[0], sizes[0], widths[0], offset);
      var rest := Line(cells[1..], sizes[1..], widths[1..], offset);
      assert Line(cells, sizes, widths, offset) == lead + rest;
      LeadHoldsCell(cells[0], sizes[0], widths[0], offset);
      SliceOfPrefix(lead, rest, offset, |cells[0]|);
    }
  }

  /** A cell found in the rest of a line is found in the whole line one
      column further on, when the first cell measures its full length. */
  lemma ShiftCell(cells: seq<string>, sizes: seq<nat>, widths: seq<nat>, offset: nat, j: nat)
    requires |cells| == |sizes| && Fits(sizes, widths)
    requires 0 < j < |cells| && sizes[0] == |cells[0]|
    requires ColumnStart(widths[1..], offset, j - 1) + |cells[j]| <= |Line(cells[1..], sizes[1..], widths[1..], offset)|
    requires Line(cells[1..], sizes[1..], widths[1..], offset)[ColumnStart(widths[1..], offset, j - 1)..ColumnStart(widths[1..], offset, j - 1) + |cells[j]|] == cells[j]
    ensures ColumnStart(widths, offset, j) + |cells[j]| <= |Line(cells, sizes, widths, offset)|
    ensures Line(cells, sizes, widths, offset)[ColumnStart(widths, offset, j)..ColumnStart(widths, offset, j) + |cells[j]|] == cells[j]
  {
    var lead := Lead(cells[0], sizes[0], widths[0], offset);
    var rest := Line(cells[1..], sizes[1..], widths[1..], offset);
    assert Line(cells, sizes, widths, offset) == lead + rest;
    LeadHoldsCell(cells[0], sizes[0], widths[0], offset);
    var start := ColumnStart(widths[1..], offset, j - 1);
    assert ColumnStart(widths, offset, j) == |lead| + start;
    SliceOfSuffix(lead, rest, start, |cells[j]|);
  }

  /** The cell of column `j` sits at `ColumnStart(widths, offset, j)`,
      provided the cells to its left measure their full length (no escape
      sequences). The position depends on the widths only, so it is the
      same on every line of the table. */
  lemma {:induction false} CellPosition(cells: seq<string>, sizes: seq<nat>, widths: seq<nat>, offset: nat, j: nat)
    requires |cells| == |sizes| && Fits(sizes, widths)
    requires j < |cells|
    requires forall k | 0 <= k < j :: sizes[k] == |cells[k]|
    ensures ColumnStart(widths, offset, j) + |cells[j]| <= |Line(cells, sizes, widths, offset)|
    ensures Line(cells, sizes, widths, offset)[ColumnStart(widths, offset, j)..ColumnStart(widths, offset, j) + |cells[j]|] == cells[j]
    decreases j
  {
    if j == 0 {
      FirstCell(cells, sizes, widths, offset);
    } else {
      assert cells[1..][j - 1] == cells[j];
      CellPosition(cells[1..], sizes[1..], widths[1..], offset, j - 1);
      ShiftCell(cells, sizes, widths, offset, j);
    }
  }

  /** CellPosition for a data row whose cells left of column `j` are plain
      text. */
  lemma PlainCellPosition(row: seq<string>, widths: seq<nat>, offset: nat, j: nat)
    requires Fits(Sizes(row), widths)
    requires j < |row|
    requires forall k | 0 <= k < j :: Esc !in row[k]
    ensures ColumnStart(widths, offset, j) + |row[j]| <= |Line(row, Sizes(row), widths, offset)|
    ensures Line(row, Sizes(row), widths, offset)[ColumnStart(widths, offset, j)..ColumnStart(widths, offset, j) + |row[j]|] == row[j]
  {
    var sizes := Sizes(row);
    forall k | 0 <= k < j
      ensures sizes[k] == |row[k]|
    {
      assert Esc !in row[k];
    }
    CellPosition(row, sizes, widths, offset, j);
  }

  /** Data rows fit the column widths. */
  predicate RowsFit(rows: seq<seq<string>>, widths: seq<nat>) {
    forall i | 0 <= i < |rows| :: Fits(Sizes(rows[i]), widths)
  }

  /** The data lines, each on a line of its own. */
  function RowLines(rows: seq<seq<string>>, widths: seq<nat>, offset: nat): string
    requires RowsFit(rows, widths)
  {
    if rows == [] then ""
    else "\n" + Line(rows[0], Sizes(rows[0]), widths, offset) + RowLines(rows[1..], widths, offset)
  }

  /** The header row of the table. */
  function HeaderLine(names: seq<string>, rows: seq<seq<string>>, offset: nat): string
    requires Rectangular(rows, |names|)
  {
    Line(names, Lengths(names), Widths(names, rows), offset)
  }

  /** The table as `describe_list_internal` writes it: the header row, then `Empty list`
      straight after it when there are no rows, then one line per row. */
  function Render(names: seq<string>, rows: seq<seq<string>>, offset: nat): string
    requires Rectangular(rows, |names|)
  {
    var widths := Widths(names, rows);
    var marker := if rows == [] then EmptyList + "\n" else "";
    assert RowsFit(rows, widths);
    HeaderLine(names, rows, offset) + marker + RowLines(rows, widths, offset)
  }

  /** The rendered table starts with its header line. */
  lemma RenderHeader(names: seq<string>, rows: seq<seq<string>>, offset: nat)
    requires Rectangular(rows, |names|)
    ensures |HeaderLine(names, rows, offset)| <= |Render(names, rows, offset)|
    ensures Render(names, rows, offset)[..|HeaderLine(names, rows, offset)|] == HeaderLine(names, rows, offset)
  {
    var tail := RenderSplit(names, rows, offset);
    PrefixOfAppend(HeaderLine(names, rows, offset), tail);
  }

  lemma RenderSplit(names: seq<string>, rows: seq<seq<string>>, offset: nat) returns (tail: string)
    requires Rectangular(rows, |names|)
    ensures Render(names, rows, offset) == HeaderLine(names, rows, offset) + tail
  {
    var widths := Widths(names, rows);
    var marker := if rows == [] then EmptyList + "\n" else "";
    assert RowsFit(rows, widths);
    tail := marker + RowLines(rows, widths, offset);
  }

  /** With no rows, every column is as wide as its label. */
  lemma NoRowWidths(names: seq<string>)
    ensures Widths(names, []) == Lengths(names)
  {
    var ws := Widths(names, []);
    forall j | 0 <= j < |names|
      ensures ws[j] == |names[j]|
    {
      assert Column([], j) == [];
    }
  }

  /** With no rows, the table is its labels, each padded to its own length,
      followed by `Empty list` on that same line and a line break. */
  lemma EmptyRender(names: seq<string>, offset: nat)
    ensures Render(names, [], offset) == Line(names, Lengths(names), Lengths(names), offset) + EmptyList + "\n"
  {
    NoRowWidths(names);
    assert RowLines([], Lengths(names), offset) == "";
  }

  /** The label of column `j` sits at `ColumnStart` in the header line. */
  lemma HeaderCell(names: seq<string>, rows: seq<seq<string>>, offset: nat, j: nat)
    requires Rectangular(rows, |names|) && j < |names|
    ensures ColumnStart(Widths(names, rows), offset, j) + |names[j]| <= |HeaderLine(names, rows, offset)|
    ensures HeaderLine(names, rows, offset)[ColumnStart(Widths(names, rows), offset, j)..ColumnStart(Widths(names, rows), offset, j) + |names[j]|] == names[j]
  {
    CellPosition(names, Lengths(names), Widths(names, rows), offset, j);
  }

  /** Column alignment: the cell in row `i`, column `j` starts at the same
      position of its line as the header label of column `j`, and that
      label starts at the same position whatever the rows hold (provided
      the cells left of it in row `i` carry no escape sequences). */
  lemma ColumnsAlign(names: seq<string>, rows: seq<seq<string>>, offset: nat, i: nat, j: nat)
    requires Rectangular(rows, |names|)
    requires i < |rows| && j < |names|
    requires forall k | 0 <= k < j :: Esc !in rows[i][k]
    ensures var ws := Widths(names, rows);
      var start := ColumnStart(ws, offset, j);
      && start + |names[j]| <= |HeaderLine(names, rows, offset)|
      && HeaderLine(names, rows, offset)[start..start + |names[j]|] == names[j]
      && start + |rows[i][j]| <= |Line(rows[i], Sizes(rows[i]), ws, offset)|
      && Line(rows[i], Sizes(rows[i]), ws, offset)[start..start + |rows[i][j]|] == rows[i][j]
  {
    HeaderCell(names, rows, offset, j);
    assert RowsFit(rows, Widths(names, rows));
    PlainCellPosition(rows[i], Widths(names, rows), offset, j);
  }
}

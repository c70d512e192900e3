/** The tabular data the system moves around: a sheet as read from a
    workbook, with a row index per row (the DataFrame index), and the
    whole-table operations the reader applies to it. */
module Tables {
  import opened Wrappers

  /** A value a spreadsheet cell can hold. */
  datatype Value = Text(s: string) | Number(n: int)

  /** A cell; `None` is an empty cell (pandas' NaN). */
  type Cell = Option<Value>

  /** One row: its index label and its cells, column by column. */
  datatype Row = Row(index: int, cells: seq<Cell>)

  /** A sheet: column names and rows. */
  datatype Table = Table(columns: seq<string>, rows: seq<Row>)

  /** One record of the cleaned table handed to the form filler: the item
      number, the quantity and the extended price. */
  datatype Entry = Entry(item: string, quantity: Cell, amount: Cell)

  /** Every row has one cell per column. */
  predicate WellFormed(t: Table) {
    forall i :: 0 <= i < |t.rows| ==> |t.rows[i].cells| == |t.columns|
  }

  predicate IsEmptyRow(r: Row) {
    forall k :: 0 <= k < |r.cells| ==> r.cells[k].None?
  }

  /** Some row holds a value in column `j`. */
  predicate ColumnHasValue(rows: seq<Row>, j: int) {
    exists i :: 0 <= i < |rows| && 0 <= j < |rows[i].cells| && rows[i].cells[j].Some?
  }

  predicate NoEmptyCells(t: Table) {
    forall i, k :: 0 <= i < |t.rows| && 0 <= k < |t.rows[i].cells| ==> t.rows[i].cells[k].Some?
  }

  // ---------------------------------------------------------------------------
  // dropna(how='all'): rows

  /** `df.dropna(how='all')`: removes the rows with no value. */
  function DropEmptyRows(rows: seq<Row>): (r: seq<Row>)
    ensures |r| <= |rows|
    ensures forall i :: 0 <= i < |r| ==> !IsEmptyRow(r[i])
  {
    if rows == [] then []
    else
      var rest := DropEmptyRows(rows[1..]);
      if IsEmptyRow(rows[0]) then rest else [rows[0]] + rest
  }

  /** Exactly the rows with no value are removed: every other row is kept as
      often as it occurred. */
  lemma {:induction false} DropEmptyRowsKeeps(rows: seq<Row>)
    ensures forall x :: multiset(DropEmptyRows(rows))[x] == if IsEmptyRow(x) then 0 else multiset(rows)[x]
  {
    if rows != [] {
      DropEmptyRowsKeeps(rows[1..]);
      assert rows == [rows[0]] + rows[1..];
    }
  }

  /** Dropping works row by row, so the surviving rows keep their relative order. */
  lemma {:induction false} DropEmptyRowsAppend(a: seq<Row>, b: seq<Row>)
    ensures DropEmptyRows(a + b) == DropEmptyRows(a) + DropEmptyRows(b)
  {
    if a != [] {
      assert (a + b)[1..] == a[1..] + b;
      DropEmptyRowsAppend(a[1..], b);
    } else {
      assert a + b == b;
    }
  }

  // ---------------------------------------------------------------------------
  // dropna(axis=1, how='all'): columns

  /** The positions, from `j` on, of the columns that hold some value. */
  function KeptColumnsFrom(t: Table, j: nat): (ks: seq<nat>)
    requires j <= |t.columns|
    ensures forall n :: 0 <= n < |ks| ==> j <= ks[n] < |t.columns|
    ensures forall n, m :: 0 <= n < m < |ks| ==> ks[n] < ks[m]
    ensures forall c :: j <= c < |t.columns| ==> (c in ks <==> ColumnHasValue(t.rows, c))
    decreases |t.columns| - j
  {
    if j == |t.columns| then []
    else if ColumnHasValue(t.rows, j) then [j] + KeptColumnsFrom(t, j + 1)
    else KeptColumnsFrom(t, j + 1)
  }

  function KeptColumns(t: Table): (ks: seq<nat>)
    ensures forall n :: 0 <= n < |ks| ==> ks[n] < |t.columns|
    ensures forall n, m :: 0 <= n < m < |ks| ==> ks[n] < ks[m]
    ensures forall c :: 0 <= c < |t.columns| ==> (c in ks <==> ColumnHasValue(t.rows, c))
  {
    KeptColumnsFrom(t, 0)
  }

  /** Keeps the columns at positions `ks`, in that order. */
  function Project(t: Table, ks: seq<nat>): (r: Table)
    requires WellFormed(t)
    requires forall n :: 0 <= n < |ks| ==> ks[n] < |t.columns|
    ensures WellFormed(r) && |r.columns| == |ks| && |r.rows| == |t.rows|
    ensures forall n :: 0 <= n < |ks| ==> r.columns[n] == t.columns[ks[n]]
    ensures forall i :: 0 <= i < |r.rows| ==> r.rows[i].index == t.rows[i].index
    ensures forall i, n :: 0 <= i < |r.rows| && 0 <= n < |ks| ==>
              r.rows[i].cells[n] == t.rows[i].cells[ks[n]]
  {
    Table(seq(|ks|, n requires 0 <= n < |ks| => t.columns[ks[n]]),
          seq(|t.rows|, i requires 0 <= i < |t.rows| =>
            Row(t.rows[i].index, seq(|ks|, n requires 0 <= n < |ks| => t.rows[i].cells[ks[n]]))))
  }

  /** `df.dropna(axis=1, how='all')`: keeps, in their order, exactly the
      columns holding some value; no column of the result is empty. */
  function DropEmptyColumns(t: Table): (r: Table)
    requires WellFormed(t)
    ensures WellFormed(r) && |r.rows| == |t.rows|
    ensures forall k :: 0 <= k < |r.columns| ==> ColumnHasValue(r.rows, k)
  {
    var ks := KeptColumns(t);
    var r := Project(t, ks);
    forall k | 0 <= k < |r.columns| ensures ColumnHasValue(r.rows, k) {
      assert ks[k] in ks && ColumnHasValue(t.rows, ks[k]);
      var i :| 0 <= i < |t.rows| && 0 <= ks[k] < |t.rows[i].cells| && t.rows[i].cells[ks[k]].Some?;
      assert r.rows[i].cells[k].Some?;
    }
    r
  }

  /** Dropping empty columns leaves every row that held a value holding one. */
  lemma DropEmptyColumnsKeepsValues(t: Table, i: nat)
    requires WellFormed(t) && i < |t.rows| && !IsEmptyRow(t.rows[i])
    ensures !IsEmptyRow(DropEmptyColumns(t).rows[i])
  {
    var k :| 0 <= k < |t.rows[i].cells| && t.rows[i].cells[k].Some?;
    var ks := KeptColumns(t);
    assert ColumnHasValue(t.rows, k);
    var n :| 0 <= n < |ks| && ks[n] == k;
    assert DropEmptyColumns(t).rows[i].cells[n].Some?;
  }

  // ---------------------------------------------------------------------------
  // fillna and reset_index

  /** `df.fillna(v)`: every empty cell becomes `v`, every other cell is kept. */
  function FillEmpty(t: Table, v: Value): (r: Table)
    ensures r.columns == t.columns && |r.rows| == |t.rows| && NoEmptyCells(r)
    ensures forall i :: 0 <= i < |r.rows| ==>
              r.rows[i].index == t.rows[i].index && |r.rows[i].cells| == |t.rows[i].cells|
    ensures forall i, k :: 0 <= i < |r.rows| && 0 <= k < |r.rows[i].cells| && t.rows[i].cells[k].Some? ==>
              r.rows[i].cells[k] == t.rows[i].cells[k]
    ensures forall i, k :: 0 <= i < |r.rows| && 0 <= k < |r.rows[i].cells| && t.rows[i].cells[k].None? ==>
              r.rows[i].cells[k] == Some(v)
  {
    Table(t.columns, seq(|t.rows|, i requires 0 <= i < |t.rows| =>
      Row(t.rows[i].index, seq(|t.rows[i].cells|, k requires 0 <= k < |t.rows[i].cells| =>
        if t.rows[i].cells[k].Some? then t.rows[i].cells[k] else Some(v)))))
  }

  /** `df.reset_index(drop=True)`: the rows keep their cells and order and are
      labelled 0, 1, 2, ... */
  function ResetIndex(rows: seq<Row>): (r: seq<Row>)
    ensures |r| == |rows|
    ensures forall i :: 0 <= i < |r| ==> r[i] == Row(i, rows[i].cells)
  {
    seq(|rows|, i requires 0 <= i < |rows| => Row(i, rows[i].cells))
  }

  // ---------------------------------------------------------------------------
  // isnull().sum()

  /** The number of rows whose cell in column `j` is empty. */
  function EmptyCount(rows: seq<Row>, j: nat): (n: nat)
    requires forall i :: 0 <= i < |rows| ==> j < |rows[i].cells|
    ensures n <= |rows|
    ensures n == 0 <==> forall i :: 0 <= i < |rows| ==> rows[i].cells[j].Some?
    ensures n == |rows| <==> forall i :: 0 <= i < |rows| ==> rows[i].cells[j].None?
  {
    if rows == [] then 0
    else
      var rest := EmptyCount(rows[1..], j);
      assert forall i :: 1 <= i < |rows| ==> rows[i] == rows[1..][i - 1];
      (if rows[0].cells[j].None? then 1 else 0) + rest
  }

  /** `df.isnull().sum()`: the empty count of each column, in column order. */
  function EmptyCounts(t: Table): (ns: seq<nat>)
    requires WellFormed(t)
    ensures |ns| == |t.columns|
    ensures forall j :: 0 <= j < |ns| ==> ns[j] == EmptyCount(t.rows, j) && ns[j] <= |t.rows|
  {
    seq(|t.columns|, j requires 0 <= j < |t.columns| => EmptyCount(t.rows, j))
  }
}

/** The workbook reader: opening a workbook file, choosing a sheet by name or
    position, and the clean-up pipeline applied to a sheet after reading it.
    The workbook's contents (sheet names and the tables pandas would parse)
    are given as data; the file-system check is a boolean input. */
module ExcelReading {
  import opened Wrappers
  import opened Text
  import opened Tables

  /** The exceptions the reader raises. */
  datatype ReaderError =
    | FileNotFound(path: string)          // FileNotFoundError: no file at the path
    | UnsupportedFormat(suffix: string)   // ValueError: the suffix is not .xlsx or .xls
    | UnknownSheetName(name: string)      // ValueError: no sheet of that name
    | SheetIndexOutOfRange(index: int)    // ValueError: index outside 0 .. n-1
    | ReadFailed                          // RuntimeError: pandas could not read the sheet (the workbook is closed)

  /** How a caller names a sheet: `Union[str, int]`. */
  datatype SheetRef = ByName(name: string) | ByIndex(index: int)

  /** One sheet of the workbook: its name and its parsed contents. */
  datatype Sheet = Sheet(name: string, table: Table)

  /** What `get_sheet_info` reports (the dtype column is not modelled). */
  datatype SheetInfo = SheetInfo(
    name: string,
    rowCount: nat,
    columnCount: nat,
    columnNames: seq<string>,
    emptyCounts: seq<nat>)

  const SupportedSuffixes: seq<string> := [".xlsx", ".xls"]

  /** Whether a path may be opened: the file must exist and the suffix of its
      final component must be exactly ".xlsx" or ".xls" (case matters). */
  function CheckPath(path: string, fileExists: bool): (r: Option<ReaderError>)
    ensures !fileExists ==> r == Some(FileNotFound(path))
    ensures r == None <==>
              fileExists && ((EndsWith(FileName(path), ".xlsx") && |FileName(path)| > 5)
                         || (EndsWith(FileName(path), ".xls") && |FileName(path)| > 4))
    ensures fileExists && r.Some? ==> r == Some(UnsupportedFormat(Suffix(FileName(path))))
  {
    var name := FileName(path);
    SuffixIs(name, ".xlsx");
    SuffixIs(name, ".xls");
    assert Suffix(name) in SupportedSuffixes <==> Suffix(name) == ".xlsx" || Suffix(name) == ".xls";
    if !fileExists then Some(FileNotFound(path))
    else if Suffix(name) in SupportedSuffixes then None
    else Some(UnsupportedFormat(Suffix(name)))
  }

  /** A sheet reference checked against the sheet names: a name must be one
      of them, an index must lie in [0, n). */
  function CheckSheetRef(names: seq<string>, sheet: SheetRef): (r: Option<ReaderError>)
    ensures sheet.ByName? ==> (r == None <==> sheet.name in names)
    ensures sheet.ByIndex? ==> (r == None <==> 0 <= sheet.index < |names|)
    ensures r.Some? ==> r.value == (if sheet.ByName? then UnknownSheetName(sheet.name)
                                    else SheetIndexOutOfRange(sheet.index))
  {
    match sheet
    case ByName(n) => if n in names then None else Some(UnknownSheetName(n))
    case ByIndex(i) => if 0 <= i < |names| then None else Some(SheetIndexOutOfRange(i))
  }

  /** The position of the first sheet called `name`. */
  function FirstNamed(sheets: seq<Sheet>, name: string): (p: nat)
    requires exists i :: 0 <= i < |sheets| && sheets[i].name == name
    ensures p < |sheets| && sheets[p].name == name
    ensures forall i :: 0 <= i < p ==> sheets[i].name != name
  {
    if sheets[0].name == name then 0 else 1 + FirstNamed(sheets[1..], name)
  }

  predicate NoEmptyRow(rows: seq<Row>) {
    forall i :: 0 <= i < |rows| ==> !IsEmptyRow(rows[i])
  }

  predicate NoEmptyColumn(t: Table) {
    forall k :: 0 <= k < |t.columns| ==> ColumnHasValue(t.rows, k)
  }

  /** First step: `dropna(how='all')` when asked for. */
  function DropRowsStep(t: Table, enabled: bool): (r: Table)
    requires WellFormed(t)
    ensures WellFormed(r) && r.columns == t.columns && |r.rows| <= |t.rows|
    ensures enabled ==> NoEmptyRow(r.rows)
    ensures !enabled ==> r == t
  {
    if !enabled then t
    else
      var kept := DropEmptyRows(t.rows);
      DropEmptyRowsKeeps(t.rows);
      assert forall i :: 0 <= i < |kept| ==> kept[i] in t.rows by {
        forall i | 0 <= i < |kept| ensures kept[i] in t.rows {
          assert multiset(kept)[kept[i]] > 0;
        }
      }
      Table(t.columns, kept)
  }

  /** Second step: `dropna(axis=1, how='all')` when asked for; rows that held
      a value still do. */
  function DropColumnsStep(t: Table, enabled: bool): (r: Table)
    requires WellFormed(t)
    ensures WellFormed(r) && |r.rows| == |t.rows|
    ensures NoEmptyRow(t.rows) ==> NoEmptyRow(r.rows)
    ensures enabled ==> NoEmptyColumn(r)
    ensures !enabled ==> r == t
  {
    if !enabled then t
    else
      var r := DropEmptyColumns(t);
      assert NoEmptyRow(t.rows) ==> NoEmptyRow(r.rows) by {
        if NoEmptyRow(t.rows) {
          forall i | 0 <= i < |r.rows| ensures !IsEmptyRow(r.rows[i]) {
            DropEmptyColumnsKeepsValues(t, i);
          }
        }
      }
      r
  }

  /** Third step: `fillna(v)` when a fill value is given (`fill_na is not
      None`, so falsy values such as 0 fill too). */
  function FillStep(t: Table, fill: Option<Value>): (r: Table)
    requires WellFormed(t)
    ensures WellFormed(r) && r.columns == t.columns && |r.rows| == |t.rows|
    ensures NoEmptyRow(t.rows) ==> NoEmptyRow(r.rows)
    ensures NoEmptyColumn(t) ==> NoEmptyColumn(r)
    ensures fill.Some? ==> NoEmptyCells(r)
    ensures fill.None? ==> r == t
  {
    match fill
    case None => t
    case Some(v) =>
      var r := FillEmpty(t, v);
      assert NoEmptyColumn(t) ==> NoEmptyColumn(r) by {
        if NoEmptyColumn(t) {
          forall k | 0 <= k < |r.columns| ensures ColumnHasValue(r.rows, k) {
            assert ColumnHasValue(t.rows, k);
            var i :| 0 <= i < |t.rows| && 0 <= k < |t.rows[i].cells| && t.rows[i].cells[k].Some?;
            assert r.rows[i].cells[k].Some?;
          }
        }
      }
      assert NoEmptyRow(t.rows) ==> NoEmptyRow(r.rows) by {
        if NoEmptyRow(t.rows) {
          forall i | 0 <= i < |r.rows| ensures !IsEmptyRow(r.rows[i]) {
            var k :| 0 <= k < |t.rows[i].cells| && t.rows[i].cells[k].Some?;
            assert r.rows[i].cells[k].Some?;
          }
        }
      }
      r
  }

  /** Last step: `reset_index(drop=True)`; only the row labels change. */
  function RenumberStep(t: Table): (r: Table)
    requires WellFormed(t)
    ensures WellFormed(r) && r.columns == t.columns && |r.rows| == |t.rows|
    ensures forall i :: 0 <= i < |r.rows| ==> r.rows[i].index == i && r.rows[i].cells == t.rows[i].cells
    ensures NoEmptyRow(t.rows) ==> NoEmptyRow(r.rows)
    ensures NoEmptyColumn(t) ==> NoEmptyColumn(r)
    ensures NoEmptyCells(t) ==> NoEmptyCells(r)
  {
    var r := Table(t.columns, ResetIndex(t.rows));
    assert NoEmptyColumn(t) ==> NoEmptyColumn(r) by {
      if NoEmptyColumn(t) {
        forall k | 0 <= k < |r.columns| ensures ColumnHasValue(r.rows, k) {
          assert ColumnHasValue(t.rows, k);
          var i :| 0 <= i < |t.rows| && 0 <= k < |t.rows[i].cells| && t.rows[i].cells[k].Some?;
          assert r.rows[i].cells[k].Some?;
        }
      }
    }
    r
  }

  /** The pipeline `read_sheet_with_preprocessing` applies, in this order:
      drop all-empty rows, drop all-empty columns, fill empty cells, and
      renumber the rows from 0. */
  function Preprocess(t: Table, dropEmptyRows: bool, dropEmptyCols: bool, fill: Option<Value>): (r: Table)
    requires WellFormed(t)
    ensures WellFormed(r)
    ensures |r.rows| <= |t.rows|
    ensures forall i :: 0 <= i < |r.rows| ==> r.rows[i].index == i
    ensures dropEmptyRows ==> NoEmptyRow(r.rows)
    ensures dropEmptyCols ==> NoEmptyColumn(r)
    ensures fill.Some? ==> NoEmptyCells(r)
    ensures !dropEmptyRows ==> |r.rows| == |t.rows|
    ensures !dropEmptyCols ==> r.columns == t.columns
    ensures !dropEmptyRows && !dropEmptyCols && fill.None? ==>
              forall i :: 0 <= i < |r.rows| ==> r.rows[i].cells == t.rows[i].cells
  {
    var t1 := DropRowsStep(t, dropEmptyRows);
    var t2 := DropColumnsStep(t1, dropEmptyCols);
    var t3 := FillStep(t2, fill);
    RenumberStep(t3)
  }

  /** The reader: a workbook that was found and has a supported suffix. */
  class ExcelReader {
    const path: string
    /** The workbook's sheets, in workbook order, as pandas parses them. */
    const sheets: seq<Sheet>
    var closed: bool

    ghost predicate Valid() {
      forall i :: 0 <= i < |sheets| ==> WellFormed(sheets[i].table)
    }

    constructor (path: string, fileExists: bool, sheets: seq<Sheet>)
      requires CheckPath(path, fileExists) == None
      requires forall i :: 0 <= i < |sheets| ==> WellFormed(sheets[i].table)
      ensures Valid() && this.path == path && this.sheets == sheets && !closed
    {
      this.path := path;
      this.sheets := sheets;
      this.closed := false;
    }

    /** `ExcelReader(path)`: raises unless the file exists and its suffix is
        supported; otherwise the reader is open on the workbook. */
    static method Open(path: string, fileExists: bool, sheets: seq<Sheet>) returns (r: Result<ExcelReader, ReaderError>)
      requires forall i :: 0 <= i < |sheets| ==> WellFormed(sheets[i].table)
      ensures r.Err? <==> CheckPath(path, fileExists).Some?
      ensures r.Err? ==> r.error == CheckPath(path, fileExists).value
      ensures r.Ok? ==> fresh(r.value) && r.value.Valid() && r.value.path == path
                        && r.value.sheets == sheets && !r.value.closed
    {
      var problem := CheckPath(path, fileExists);
      if problem.Some? {
        return Err(problem.value);
      }
      var reader := new ExcelReader(path, fileExists, sheets);
      return Ok(reader);
    }

    /** `get_sheet_names()`: the sheet names in workbook order. */
    function SheetNames(): (names: seq<string>)
      ensures |names| == |sheets|
      ensures forall i :: 0 <= i < |sheets| ==> names[i] == sheets[i].name
    {
      seq(|sheets|, i requires 0 <= i < |sheets| => sheets[i].name)
    }

    /** `read_sheet(sheet)`: the reference is checked against the sheet names
        (which pandas keeps after `close()`); a valid reference is then read
        from the workbook, which fails once the workbook is closed. */
    function ReadSheet(sheet: SheetRef): (r: Result<Table, ReaderError>)
      reads this
      ensures r.Err? <==> CheckSheetRef(SheetNames(), sheet).Some? || closed
      ensures r.Err? ==> r.error == (if CheckSheetRef(SheetNames(), sheet).Some?
                                     then CheckSheetRef(SheetNames(), sheet).value else ReadFailed)
      ensures r.Ok? && sheet.ByIndex? ==> r.value == sheets[sheet.index].table
      ensures r.Ok? && sheet.ByName? ==>
                exists p :: 0 <= p < |sheets| && sheets[p].name == sheet.name && r.value == sheets[p].table
    {
      var names := SheetNames();
      match CheckSheetRef(names, sheet)
      case Some(e) => Err(e)
      case None =>
        if closed then Err(ReadFailed) else
        match sheet
        case ByIndex(i) => Ok(sheets[i].table)
        case ByName(n) =>
          var p := FirstNamed(sheets, n);
          Ok(sheets[p].table)
    }

    /** `read_sheet_with_preprocessing`: the reference is checked as by
        `read_sheet`, then the sheet goes through `Preprocess`. */
    function ReadSheetWithPreprocessing(sheet: SheetRef, dropEmptyRows: bool, dropEmptyCols: bool,
                                        fill: Option<Value>): (r: Result<Table, ReaderError>)
      requires Valid()
      reads this
      ensures r.Err? <==> ReadSheet(sheet).Err?
      ensures r.Err? ==> r.error == ReadSheet(sheet).error
      ensures r.Ok? ==> r.value == Preprocess(ReadSheet(sheet).value, dropEmptyRows, dropEmptyCols, fill)
    {
      match ReadSheet(sheet)
      case Err(e) => Err(e)
      case Ok(t) => Ok(Preprocess(t, dropEmptyRows, dropEmptyCols, fill))
    }

    /** `get_sheet_info`: the sheet's name (the string itself, or the name at
        the index), its dimensions, its column names and the number of empty
        cells in each column, each at most the row count. */
    function GetSheetInfo(sheet: SheetRef): (r: Result<SheetInfo, ReaderError>)
      requires Valid()
      reads this
      ensures r.Err? <==> ReadSheet(sheet).Err?
      ensures r.Err? ==> r.error == ReadSheet(sheet).error
      ensures r.Ok? ==>
                var t := ReadSheet(sheet).value;
                && r.value.name == (if sheet.ByName? then sheet.name else sheets[sheet.index].name)
                && r.value.rowCount == |t.rows|
                && r.value.columnCount == |t.columns|
                && r.value.columnNames == t.columns
                && |r.value.emptyCounts| == r.value.columnCount
                && (forall j :: 0 <= j < |r.value.emptyCounts| ==>
                      r.value.emptyCounts[j] == EmptyCount(t.rows, j)
                      && r.value.emptyCounts[j] <= r.value.rowCount)
    {
      match ReadSheet(sheet)
      case Err(e) => Err(e)
      case Ok(t) =>
        assert WellFormed(t);
        var name := match sheet case ByName(n) => n case ByIndex(i) => SheetNames()[i];
        Ok(SheetInfo(name, |t.rows|, |t.columns|, t.columns, EmptyCounts(t)))
    }

    /** `close()`: releases the workbook; reading a sheet afterwards fails
        with `ReadFailed`, while the sheet names stay available. */
    method Close()
      modifies this
      ensures closed
    {
      closed := true;
    }
  }
}

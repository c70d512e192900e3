# Material receiving form filler — verified model

The system reads a material-receiving workbook. It selects the item number,
quantity and extended-price columns. It cleans and sorts those rows, then
drives a browser over the receiving web form. For each row it finds the form
row whose item label matches and types the quantity and the amount into it.

This Dafny project models the three pieces of the system's own logic:

- `wrappers.dfy`: `Option` and `Result`.
- `text.dfy` (module `Text`):
  - Python's `str.strip()`;
  - the suffix of a file path, as `pathlib` computes it;
  - decimal numbers.
- `tables.dfy` (module `Tables`): a sheet as rows of optional cells, and the whole-table operations the reader uses (`dropna`, `fillna`, `reset_index`, `isnull().sum()`).
- `excel_reader.dfy` (module `ExcelReading`):
  - the `ExcelReader` class: the path check at construction, sheet-reference validation, `read_sheet`, `read_sheet_with_preprocessing` and `get_sheet_info`.
  - The workbook's sheets are given as data, and whether the file exists is a boolean input.
- `row_transform.dfy` (module `RowTransform`): the cleaning pipeline of the example script:
  - drop rows without a quantity;
  - cut two header rows and one total row;
  - rename the columns;
  - sort by the `<major>-<minor>` item number;
  - drop the keys and renumber.
- `web_form_filler.dfy` (module `FormFilling`):
  - The `WebFormFiller` class covers the driver life cycle, the bounded label scan, the two-field write and the per-row tally loop. `fill_web_form_from_dataframe` is modelled too.
  - The browser is replaced by a `Page`. A page is the map from position to the text of the item label `gvReceive_lblItem_<i>`, plus the set of input fields (`gvReceive_txtRecvQty_<i>`, `gvReceive_txtRecvAmt_<i>`) that accept typing.

The label scan follows the code: the cap is tested after the increment, so
positions 0 through 1000 inclusive can be probed (1001 probes).

The result dictionary of `process_dataframe` is specified twice:

- `Tally` builds it row by row, as the loop does.
- `TallyCountsOutcome`, `TallyFailures` and `TallyCounts` tie it to an independent count of row outcomes and to the list of failures in row order.

## Model

| member | source | states |
|---|---|---|
| Text.Strip | src/web_form_filler.py:79 | the stripped text starts and ends with a non-whitespace character (or is empty) |
| Text.StripUnique | src/web_form_filler.py:165 | any whitespace around a trimmed core is removed and the core is returned unchanged |
| Text.StripSplits | src/web_form_filler.py:71 | the input is some whitespace, then the stripped text, then whitespace: strip removes whitespace only, and only at the ends |
| Text.StripIdempotent | src/web_form_filler.py:71 | stripping an item that `process_dataframe` already stripped changes nothing |
| Text.SuffixIs | src/excel_reader.py:27 | a file name has suffix `.xlsx` (or `.xls`) exactly when it ends with it and has something before it |
| Text.ParseNatOfNatToString | src/example_web_fill.py:42-43 | reading back the decimal spelling of a number gives that number |
| Text.ParseNat | src/example_web_fill.py:42-43 | exactly the non-empty digit strings are read as numbers |
| Text.FileName | src/excel_reader.py:27 | the final path component contains no separator and is never longer than the path; when the path does not end in a separator it is the non-empty tail after the last separator |
| Text.Suffix | src/excel_reader.py:27 | a non-empty suffix is a tail of the name starting with its last '.', with at least one character after the dot and at least one before it; no suffix means no such dot |
| Tables.DropEmptyRows | src/excel_reader.py:102 | `dropna(how='all')` leaves no all-empty row and never adds rows |
| Tables.DropEmptyRowsKeeps | src/excel_reader.py:102 | all-empty rows are removed and every other row is kept as often as it occurred |
| Tables.DropEmptyRowsAppend | src/excel_reader.py:102 | rows are dropped one at a time, so the surviving rows keep their relative order |
| Tables.KeptColumns | src/excel_reader.py:106 | the kept column positions are strictly increasing and are exactly the columns holding some value |
| Tables.Project | src/excel_reader.py:106 | keeping columns keeps every row, its index and, per kept column, its cell |
| Tables.DropEmptyColumns | src/excel_reader.py:106 | `dropna(axis=1, how='all')` leaves no all-empty column and keeps every row |
| Tables.DropEmptyColumnsKeepsValues | src/excel_reader.py:105-106 | a row that held a value still holds one after empty columns are dropped |
| Tables.FillEmpty | src/excel_reader.py:110 | `fillna(v)` turns every empty cell into `v` and keeps every non-empty cell, row index and shape |
| Tables.ResetIndex | src/excel_reader.py:113 | rows keep their cells and order and are labelled 0, 1, 2, ... |
| Tables.EmptyCount | src/excel_reader.py:135 | the empty count of a column is at most the row count; it is 0 iff the column has no empty cell, and equals the row count iff every cell is empty |
| Tables.EmptyCounts | src/excel_reader.py:135 | one empty count per column, in column order, each bounded by the row count |
| ExcelReading.CheckPath | src/excel_reader.py:24-28 | a missing file is FileNotFound; otherwise the path is accepted iff its final component ends in `.xlsx` or `.xls` (case-sensitive) after at least one other character, and is rejected as UnsupportedFormat carrying the suffix |
| ExcelReading.CheckSheetRef | src/excel_reader.py:62-66 | a name is accepted iff it is a sheet name; an index iff 0 <= index < number of sheets; each rejection carries the matching error |
| ExcelReading.DropRowsStep | src/excel_reader.py:101-102 | when enabled, no row is all-empty and the row count does not grow; when disabled, the table is unchanged |
| ExcelReading.DropColumnsStep | src/excel_reader.py:105-106 | when enabled, no column is all-empty and no row becomes all-empty; when disabled, the table is unchanged |
| ExcelReading.FillStep | src/excel_reader.py:109-110 | with a fill value (any value, 0 included) no cell is empty and the earlier guarantees still hold; without one the table is unchanged |
| ExcelReading.RenumberStep | src/excel_reader.py:113 | rows are relabelled 0..n-1 with their cells unchanged, and the earlier guarantees still hold |
| ExcelReading.Preprocess | src/excel_reader.py:98-115 | the pipeline's result is renumbered from 0 and never longer than the sheet; each enabled step's guarantee holds; disabled steps leave rows, columns and cells alone |
| ExcelReading.ExcelReader.Open | src/excel_reader.py:11-30 | construction fails with the CheckPath error exactly when the path check fails; otherwise it gives an open reader on the workbook |
| ExcelReading.ExcelReader.constructor | src/excel_reader.py:22-30 | an open reader on a path that passed the check |
| ExcelReading.ExcelReader.SheetNames | src/excel_reader.py:32-39 | the sheet names, in workbook order |
| ExcelReading.ExcelReader.ReadSheet | src/excel_reader.py:61-77 | fails exactly when the reference is rejected, with that error, or when the workbook is closed, with ReadFailed; an index reads that sheet; a name reads a sheet of that name |
| ExcelReading.ExcelReader.ReadSheetWithPreprocessing | src/excel_reader.py:98-115 | same failures as `read_sheet`; otherwise the preprocessed sheet |
| ExcelReading.ExcelReader.GetSheetInfo | src/excel_reader.py:127-135 | same failures as `read_sheet`; the name is the given string or the name at the index; row and column counts, column names and per-column empty counts, each at most the row count |
| ExcelReading.ExcelReader.Close | src/excel_reader.py:138-140 | the reader is closed, so later sheet reads fail with ReadFailed |
| RowTransform.Bound | src/example_web_fill.py:35-36 | a slice bound in [0, n] is itself; one in [-n, 0) counts from the end; one above n is n; one below -n is 0 |
| RowTransform.Slice | src/example_web_fill.py:35-36 | a slice is never longer than the rows; `[:]` is all rows; `[a:]` is the rows from the clamped bound a on; `[:b]` the rows before the clamped bound b |
| RowTransform.TwoStepTrimIsOneStep | src/example_web_fill.py:98-99 | `iloc[h:]` followed by `iloc[:-t]` equals `iloc[h:-t]` (line 187's form) |
| RowTransform.TrimKeepsMiddle | src/example_web_fill.py:35-36 | trimming k rows leaves max(0, k-3) rows: those at positions 2..k-2 |
| RowTransform.DropMissingSecond | src/example_web_fill.py:34 | every kept row has a quantity, and no rows are added |
| RowTransform.DropMissingSecondKeeps | src/example_web_fill.py:34 | rows without a quantity are removed and the others are kept as often as they occurred |
| RowTransform.DropMissingSecondAppend | src/example_web_fill.py:34 | the filter works row by row: filtering a + b is filtering a followed by filtering b, so kept rows keep their order |
| RowTransform.DropMissingSecondLength | src/example_web_fill.py:34 | exactly the rows without a quantity are removed |
| RowTransform.RenameColumns | src/example_web_fill.py:39 | positional renaming succeeds iff every position has a name, giving the map's name per position; otherwise the first missing position is the KeyError |
| RowTransform.ConfiguredRename | config.py:24-28 | the configured map names three columns item, quantity and amount; a fourth column would raise KeyError for position 3 |
| RowTransform.BeforeDashIsPrefix | src/example_web_fill.py:42 | the first `split('-')` part is the longest dash-free prefix |
| RowTransform.KeyOf | src/example_web_fill.py:42-43 | an item has a sort key iff it has a '-', the text before it is a non-empty digit run, and the text from it up to the next '-' is one too |
| RowTransform.KeyOfItem | src/example_web_fill.py:42-43 | the item `<a>-<b>`, optionally followed by further `-` parts, has sort key (a, b) |
| RowTransform.SortByKey | src/example_web_fill.py:44 | `sort_values(by=[key1, key2])`: the result is ascending by (major, minor) and is a permutation of the input |
| RowTransform.InsertPermutes | src/example_web_fill.py:44 | inserting a row adds it to the multiset of rows and keeps the rest |
| RowTransform.InsertSorted | src/example_web_fill.py:44 | inserting into a sorted sequence keeps it sorted |
| RowTransform.SortStable | src/example_web_fill.py:44 | rows with equal keys keep their original relative order |
| RowTransform.AttachKeys | src/example_web_fill.py:42-43 | keys are computed iff every item is `<number>-<number>` text; each keyed row is its renamed row with its item's key; otherwise a malformed item is reported |
| RowTransform.DropKeys | src/example_web_fill.py:45 | dropping the key columns keeps each row's three named cells, in order |
| RowTransform.TrimmedRows | src/example_web_fill.py:34-36 | of the k rows holding a quantity, those at positions 2..k-2 survive (max(0, k-3) rows), each with a quantity |
| RowTransform.Transform | src/example_web_fill.py:34-46 | the pipeline's only failure is a malformed item; on success there is one output row per trimmed row |
| RowTransform.TransformFails | src/example_web_fill.py:42-43 | the pipeline fails iff a row surviving the filter and the trim has a malformed item |
| RowTransform.TransformLength | src/example_web_fill.py:34-36 | with k rows holding a quantity, max(0, k-3) rows come out |
| RowTransform.TransformSorted | src/example_web_fill.py:34-46 | every output row has a quantity and the output is ascending by item key |
| RowTransform.TransformPermutes | src/example_web_fill.py:44-45 | the output is a rearrangement of the renamed trimmed rows, with only the three named columns |
| RowTransform.TransformStable | src/example_web_fill.py:44 | output rows with equal item keys appear in their trimmed-sheet order |
| FormFilling.Scan | src/web_form_filler.py:74-93 | a position the scan answers is at most 1000, has a label, and that label matches |
| FormFilling.FindIndex | src/web_form_filler.py:69-100 | a found position is at most 1000, has a label, and that label equals the item once both are stripped; no label at position 0 means nothing is found |
| FormFilling.FindIndexIsFirstMatch | src/web_form_filler.py:71-96 | `find_item_index` gives i iff i <= 1000, every position up to i has a label, the stripped label at i equals the stripped item, and no earlier label does |
| FormFilling.ScanIgnoresAfterGap | src/web_form_filler.py:91-93 | labels beyond the first missing position never influence the answer |
| FormFilling.ScanIgnoresBeyondCap | src/web_form_filler.py:85-89 | labels beyond position 1000 never influence the answer |
| FormFilling.Fill | src/web_form_filler.py:114-136 | success iff both fields accept typing; only the row's two fields can be added; a field that refuses typing keeps what it held |
| FormFilling.FillSpec | src/web_form_filler.py:114-136 | success iff both fields accept typing, then both hold the values; a writable quantity is typed even when the amount field fails; on failure the amount field keeps its old content; nothing else is touched |
| FormFilling.RowOutcome | src/web_form_filler.py:164-192 | a row is not found iff the scan finds no position for its item; a found row is filled iff writing both values there succeeds |
| FormFilling.Writes | src/web_form_filler.py:164-192 | processing rows never removes a typed field, and a field that refuses typing keeps what it held |
| FormFilling.Tally | src/web_form_filler.py:152-192 | the result's total is the row count, the three counters add up to the rows processed, and failed_items has one entry per failed or not-found row |
| FormFilling.TallyCountsOutcome | src/web_form_filler.py:174-188 | each counter the loop keeps equals the number of rows with that outcome |
| FormFilling.TallyFailures | src/web_form_filler.py:174-192 | failed_items lists the stripped item and reason of every row not filled, in row order |
| FormFilling.TallyCounts | src/web_form_filler.py:174-188 | each counter is the size of the set of row positions with its outcome |
| FormFilling.TallyAppend | src/web_form_filler.py:164-192 | processing a + b gives counters that are sums and failed_items that are concatenations of the results for a and for b |
| FormFilling.FailuresAppend | src/web_form_filler.py:176-192 | failure lists of consecutive row runs concatenate |
| FormFilling.CountInIsCardinality | src/web_form_filler.py:175-188 | a counter equals the number of positions holding its outcome |
| FormFilling.WritesOnlyFoundRows | src/web_form_filler.py:172-183 | a field that ends up typed or changed accepts typing and belongs to a form row that some table row's item was found at; not-found rows type nothing |
| FormFilling.RowStep | src/web_form_filler.py:164-192 | one loop pass: a not-found row bumps not_found and adds a failure without typing; a found row types via `Fill` and bumps success or failed |
| FormFilling.WebFormFiller.constructor | src/web_form_filler.py:18-26 | no driver, nothing typed |
| FormFilling.WebFormFiller.StartBrowser | src/web_form_filler.py:28-40 | a new running browser on a blank page, replacing any driver; one more launch |
| FormFilling.WebFormFiller.OpenUrl | src/web_form_filler.py:50-57 | with no driver a browser is started first; the page becomes the loaded one; a driver that was quit refuses and nothing changes |
| FormFilling.WebFormFiller.FindItemIndex | src/web_form_filler.py:69-100 | the scan loop answers exactly `FindIndex` on the page the browser shows |
| FormFilling.WebFormFiller.FillQuantityAndAmount | src/web_form_filler.py:114-136 | the result and the typed fields are those of `Fill` on the page the browser shows; nothing else changes |
| FormFilling.WebFormFiller.ProcessDataframe | src/web_form_filler.py:149-192 | no driver: NoBrowser error and nothing typed; otherwise the result is `Tally` of all rows and the form holds `Writes` of all rows |
| FormFilling.WebFormFiller.CloseBrowser | src/web_form_filler.py:212-216 | a driver is quit (and stays set); with no driver nothing happens |
| FormFilling.FillWebFormFromDataframe | src/web_form_filler.py:243-247 | the returned dictionary is the tally of all rows against the loaded page |

## Left out

- Selenium: launching Chrome, `ChromeDriverManager`, `find_element`, `clear` and `send_keys` are abstracted into the `Page` (labels and writable fields). A label lookup that fails for any reason is a missing label, and a field that fails is one that does not accept typing.
- `time.sleep` (page load wait, post-fill pause, per-row delay) and all console output: no logical content.
- pandas I/O: `pd.ExcelFile` and `pd.read_excel` with `header`, `skiprows` and `usecols` are not modelled. Of the read failures that `read_sheet` turns into RuntimeError, only reading a closed workbook (`ReadFailed`) is modelled; an unreadable or corrupt file is not. The selected columns are given as three-cell rows, and a workbook's sheets as parsed tables.
- `Path.exists` is a boolean input. Drive letters and other platform path details are not modelled; both `/` and `\` separate path components.
- `get_sheet_info`'s `dtypes` entry depends on pandas type inference and is not modelled.
- Sort keys are read as natural numbers from the `-` parts: a non-empty run of decimal digits. `astype(float)` would also accept surrounding whitespace, signs, decimal points and exponents, and turns a missing `-` into NaN (sorted last). The model instead reports such a row as a `MalformedItem` error; which of several malformed rows is named is not significant.
- RowTransform.SortByKey: a stable insertion sort. `sort_values` on two columns sorts with a stable lexicographic sort, so `SortStable` and `TransformStable` state what the source does.
- The values typed into the form are the cells themselves. `str()` formatting of floats and NaN is not modelled.
- FormFilling.Fill: `clear()` is part of typing a field. The model treats a field that clears but refuses the keys as one that refuses typing: the call returns False and the field keeps its old content, while the source leaves that field cleared.
- FormFilling.WebFormFiller.OpenUrl: on a driver that was quit, the source raises a WebDriver exception. The model returns `SessionClosed` and changes nothing.
- After `close_browser`, the driver attribute stays set. `process_dataframe` therefore does not raise, and every row is reported not found. The model keeps this behaviour.
- `start_browser` called on a live driver launches a second browser without quitting the first; the model replaces the session and counts launches in a ghost field.
- The interactive example flow, `main.py` and the remaining constants of `config.py` (paths, sheet index, column letters) are driver code and are not part of this model.

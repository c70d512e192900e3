/** The cleaning step that turns the three selected spreadsheet columns (C,
    T and U) into the ordered (item, quantity, amount) table the form filler
    consumes: drop rows without a quantity, cut two header rows and one
    trailing total row, name the columns, sort by the two numeric parts of
    the "<major>-<minor>" item number, and renumber. */
module RowTransform {
  import opened Wrappers
  import opened Text
  import opened Tables

  /** One row of the three selected columns, by position. */
  datatype RawRow = RawRow(first: Cell, second: Cell, third: Cell)

  datatype TransformError =
    | MissingRenameKey(position: nat)   // KeyError: the rename map has no entry for a column position
    | MalformedItem(item: Cell)         // the item is not text of the form "<major>-<minor>"

  /** Rows removed from the top (header remnants) and bottom (the total line). */
  const HeaderRows: nat := 2
  const TrailerRows: nat := 1

  /** Column names the form filler reads, in column order. */
  const ItemColumn: string := "項次"
  const QuantityColumn: string := "數量"
  const AmountColumn: string := "複價"

  /** The configured position-to-name map for the three selected columns. */
  const ColumnRenameMap: map<int, string> := map[0 := ItemColumn, 1 := QuantityColumn, 2 := AmountColumn]

  // ---------------------------------------------------------------------------
  // Python slicing, as `iloc[start:stop]` applies it to rows.

  /** A slice bound: negative bounds count from the end, and both are clamped to [0, n]. */
  function Bound(i: int, n: nat): (b: nat)
    ensures b <= n
    ensures 0 <= i <= n ==> b == i
    ensures -(n as int) <= i < 0 ==> b as int == n as int + i
    ensures i > n ==> b == n
    ensures i < -(n as int) ==> b == 0
  {
    if i < 0 then (if i + n < 0 then 0 else i + n) else (if i > n then n else i)
  }

  /** `s[start:stop]`: the elements from the start bound up to the stop bound,
      or none when the stop bound is not past the start bound. */
  function Slice<T>(s: seq<T>, start: Option<int>, stop: Option<int>): (r: seq<T>)
    ensures |r| <= |s|
    ensures start.None? && stop.None? ==> r == s
    ensures start.Some? && stop.None? ==> r == s[Bound(start.value, |s|)..]
    ensures start.None? && stop.Some? ==> r == s[..Bound(stop.value, |s|)]
  {
    var a := match start case Some(i) => Bound(i, |s|) case None => 0;
    var b := match stop case Some(i) => Bound(i, |s|) case None => |s|;
    if a < b then s[a..b] else []
  }

  /** `iloc[h:]` followed by `iloc[:-t]` is the one-step `iloc[h:-t]`. */
  lemma TwoStepTrimIsOneStep<T>(s: seq<T>, h: nat, t: nat)
    ensures Slice(Slice(s, Some(h), None), None, Some(-(t as int))) == Slice(s, Some(h), Some(-(t as int)))
  {
    var x := Slice(s, Some(h), None);
    if h < |s| {
      assert x == s[h..];
      if 0 < t && h < |s| - t {
        assert |x| == |s| - h;
        assert Bound(-(t as int), |x|) == |s| - h - t;
        assert Slice(x, None, Some(-(t as int))) == x[0..|s| - h - t];
        assert s[h..][..|s| - h - t] == s[h..|s| - t];
      }
    }
  }

  /** Trimming `k` rows leaves the rows at positions 2 .. k-2, so max(0, k-3) rows. */
  lemma TrimKeepsMiddle<T>(s: seq<T>)
    ensures var r := Slice(s, Some(HeaderRows as int), Some(-(TrailerRows as int)));
            && |r| == (if |s| >= 3 then |s| - 3 else 0)
            && (|s| >= 3 ==> r == s[2..|s| - 1])
  {
  }

  // ---------------------------------------------------------------------------
  // Dropping rows without a quantity: `dropna(subset=[df.columns[1]])`.

  /** Keeps, in order, exactly the rows whose second cell holds a value. */
  function DropMissingSecond(rows: seq<RawRow>): (r: seq<RawRow>)
    ensures |r| <= |rows|
    ensures forall i :: 0 <= i < |r| ==> r[i].second.Some?
  {
    if rows == [] then []
    else
      var rest := DropMissingSecond(rows[1..]);
      if rows[0].second.None? then rest else [rows[0]] + rest
  }

  /** Rows without a quantity are removed and the others are kept as often
      as they occurred. */
  lemma {:induction false} DropMissingSecondKeeps(rows: seq<RawRow>)
    ensures forall x :: multiset(DropMissingSecond(rows))[x] == if x.second.None? then 0 else multiset(rows)[x]
  {
    if rows != [] {
      DropMissingSecondKeeps(rows[1..]);
      assert rows == [rows[0]] + rows[1..];
    }
  }

  /** The filter works row by row, so the kept rows keep their sheet order. */
  lemma {:induction false} DropMissingSecondAppend(a: seq<RawRow>, b: seq<RawRow>)
    ensures DropMissingSecond(a + b) == DropMissingSecond(a) + DropMissingSecond(b)
  {
    if a != [] {
      assert (a + b)[1..] == a[1..] + b;
      DropMissingSecondAppend(a[1..], b);
    } else {
      assert a + b == b;
    }
  }

  /** The number of rows whose second cell is empty. */
  function CountMissingSecond(rows: seq<RawRow>): nat {
    if rows == [] then 0
    else (if rows[0].second.None? then 1 else 0) + CountMissingSecond(rows[1..])
  }

  lemma {:induction false} DropMissingSecondLength(rows: seq<RawRow>)
    ensures |DropMissingSecond(rows)| == |rows| - CountMissingSecond(rows)
  {
    if rows != [] {
      DropMissingSecondLength(rows[1..]);
    }
  }

  // ---------------------------------------------------------------------------
  // Positional renaming: `[COLUMN_RENAME_MAP[i] for i in range(n)]`.

  /** The new column names: the map's entry for each position; the first
      position without an entry raises KeyError. */
  function RenameColumns(m: map<int, string>, n: nat): (r: Result<seq<string>, TransformError>)
    ensures r.Ok? <==> forall i :: 0 <= i < n ==> i in m
    ensures r.Ok? ==> |r.value| == n && forall i :: 0 <= i < n ==> r.value[i] == m[i]
    ensures r.Err? ==> r.error.MissingRenameKey? && r.error.position < n
                       && r.error.position !in m
                       && forall i :: 0 <= i < r.error.position ==> i in m
  {
    if n == 0 then Ok([])
    else match RenameColumns(m, n - 1)
      case Err(e) => Err(e)
      case Ok(names) => if n - 1 in m then Ok(names + [m[n - 1]]) else Err(MissingRenameKey(n - 1))
  }

  /** The three selected columns become item, quantity and amount, the
      columns an `Entry` holds; a fourth column would have no name. */
  lemma ConfiguredRename()
    ensures RenameColumns(ColumnRenameMap, 3) == Ok([ItemColumn, QuantityColumn, AmountColumn])
    ensures RenameColumns(ColumnRenameMap, 4) == Err(MissingRenameKey(3))
  {
    var m := ColumnRenameMap;
    assert m[0] == ItemColumn && m[1] == QuantityColumn && m[2] == AmountColumn && 3 !in m;
    var one, two, three := [m[0]], [m[0], m[1]], [m[0], m[1], m[2]];
    assert [] + [m[0]] == one && one + [m[1]] == two && two + [m[2]] == three;
    assert RenameColumns(m, 1) == Ok(one);
    assert RenameColumns(m, 2) == Ok(two);
    assert RenameColumns(m, 3) == Ok(three);
  }

  // ---------------------------------------------------------------------------
  // The sort key: the parts of the item before and after its first '-'.

  type Key = (nat, nat)

  /** The text before the first '-'. */
  function BeforeDash(s: string): string {
    if s == [] || s[0] == '-' then [] else [s[0]] + BeforeDash(s[1..])
  }

  /** `BeforeDash` gives the longest dash-free prefix: a prefix without '-',
      followed by a '-' unless it is the whole text. */
  lemma {:induction false} BeforeDashIsPrefix(s: string)
    ensures var r := BeforeDash(s);
            && '-' !in r && |r| <= |s| && r == s[..|r|]
            && (|r| < |s| ==> s[|r|] == '-')
  {
    if s != [] && s[0] != '-' {
      BeforeDashIsPrefix(s[1..]);
    }
  }

  /** `item.split('-')`'s first two parts, read as numbers: there is a key
      exactly when the item has a '-' and both the text before it and the
      text from it up to the next '-' are non-empty runs of digits. */
  function KeyOf(item: string): (r: Option<Key>)
    ensures r.Some? <==> var m := BeforeDash(item);
                         && m != [] && AllDigits(m) && |m| < |item|
                         && var n := BeforeDash(item[|m| + 1..]); n != [] && AllDigits(n)
  {
    var majorText := BeforeDash(item);
    var major := ParseNat(majorText);
    var minor := if |majorText| < |item| then ParseNat(BeforeDash(item[|majorText| + 1..])) else None;
    if major.Some? && minor.Some? then Some((major.value, minor.value)) else None
  }

  lemma {:induction false} BeforeDashOfJoin(a: string, b: string)
    requires '-' !in a
    ensures BeforeDash(a + "-" + b) == a
  {
    if a != [] {
      assert (a + "-" + b)[1..] == a[1..] + "-" + b;
      BeforeDashOfJoin(a[1..], b);
    }
  }

  /** The item "<a>-<b>", followed by nothing or by further '-' parts, has
      key (a, b): the further parts are ignored. */
  lemma KeyOfItem(a: nat, b: nat, rest: string)
    requires rest == [] || rest[0] == '-'
    ensures KeyOf(NatToString(a) + "-" + NatToString(b) + rest) == Some((a, b))
  {
    var sa, sb := NatToString(a), NatToString(b);
    var item := sa + "-" + (sb + rest);
    assert NatToString(a) + "-" + NatToString(b) + rest == item;
    NoDashInDigits(sa);
    NoDashInDigits(sb);
    BeforeDashOfJoin(sa, sb + rest);
    assert item[|sa| + 1..] == sb + rest;
    BeforeDashOfDigits(sb, rest);
    ParseNatOfNatToString(a);
    ParseNatOfNatToString(b);
  }

  lemma NoDashInDigits(s: string)
    requires AllDigits(s)
    ensures '-' !in s
  {
    assert forall k :: 0 <= k < |s| ==> IsDigit(s[k]) && s[k] != '-';
  }

  lemma BeforeDashOfDigits(d: string, rest: string)
    requires '-' !in d && (rest == [] || rest[0] == '-')
    ensures BeforeDash(d + rest) == d
  {
    if rest == [] {
      assert d + rest == d;
      BeforeDashAll(d);
    } else {
      assert d + rest == d + "-" + rest[1..];
      BeforeDashOfJoin(d, rest[1..]);
    }
  }

  lemma {:induction false} BeforeDashAll(s: string)
    requires '-' !in s
    ensures BeforeDash(s) == s
  {
    if s != [] {
      assert s[0] in s && '-' !in s[1..];
      BeforeDashAll(s[1..]);
    }
  }

  /** Ascending by major part, then by minor part. */
  predicate KeyLe(x: Key, y: Key) {
    x.0 < y.0 || (x.0 == y.0 && x.1 <= y.1)
  }

  // ---------------------------------------------------------------------------
  // Sorting by the temporary key columns.

  /** A row carrying its two temporary sort-key columns. */
  datatype Keyed = Keyed(entry: Entry, key: Key)

  predicate SortedByKey(s: seq<Keyed>) {
    forall i, j :: 0 <= i < j < |s| ==> KeyLe(s[i].key, s[j].key)
  }

  /** The rows whose key equals `k`, in their order. */
  function WithKey(s: seq<Keyed>, k: Key): seq<Keyed> {
    if s == [] then []
    else (if s[0].key == k then [s[0]] else []) + WithKey(s[1..], k)
  }

  /** Puts `x` in front of the first row whose key is not smaller. */
  function Insert(x: Keyed, s: seq<Keyed>): (r: seq<Keyed>)
    ensures |r| == |s| + 1
  {
    if s == [] then [x]
    else if KeyLe(x.key, s[0].key) then [x] + s
    else [s[0]] + Insert(x, s[1..])
  }

  /** Inserting adds `x` and keeps everything else. */
  lemma {:induction false} InsertPermutes(x: Keyed, s: seq<Keyed>)
    ensures multiset(Insert(x, s)) == multiset(s) + multiset{x}
  {
    if s != [] && !KeyLe(x.key, s[0].key) {
      InsertPermutes(x, s[1..]);
      assert s == [s[0]] + s[1..];
    }
  }

  /** Inserting into a sorted sequence gives a sorted sequence. */
  lemma {:induction false} InsertSorted(x: Keyed, s: seq<Keyed>)
    requires SortedByKey(s)
    ensures SortedByKey(Insert(x, s))
  {
    if s == [] {
    } else if KeyLe(x.key, s[0].key) {
      SortedCons(x, s);
    } else {
      var rest := Insert(x, s[1..]);
      InsertSorted(x, s[1..]);
      InsertHead(x, s[1..]);
      SortedCons(s[0], rest);
    }
  }

  /** The head after inserting is `x` or the old head. */
  lemma InsertHead(x: Keyed, s: seq<Keyed>)
    ensures Insert(x, s)[0] == x || (s != [] && Insert(x, s)[0] == s[0])
  {
  }

  /** A row no greater than the head of a sorted sequence extends it. */
  lemma SortedCons(y: Keyed, t: seq<Keyed>)
    requires SortedByKey(t) && (t != [] ==> KeyLe(y.key, t[0].key))
    ensures SortedByKey([y] + t)
  {
  }

  /** `sort_values(by=[key1, key2])`: ascending in the key, a permutation of
      the input. */
  function SortByKey(s: seq<Keyed>): (r: seq<Keyed>)
    ensures SortedByKey(r)
    ensures multiset(r) == multiset(s) && |r| == |s|
  {
    if s == [] then []
    else
      var rest := SortByKey(s[1..]);
      InsertSorted(s[0], rest);
      InsertPermutes(s[0], rest);
      assert s == [s[0]] + s[1..];
      Insert(s[0], rest)
  }

  lemma {:induction false} InsertWithKey(x: Keyed, s: seq<Keyed>, k: Key)
    ensures WithKey(Insert(x, s), k) == (if x.key == k then [x] else []) + WithKey(s, k)
  {
    var hx := if x.key == k then [x] else [];
    if s == [] {
      assert Insert(x, s) == [x];
      assert WithKey([x], k) == hx + WithKey([x][1..], k);
    } else if KeyLe(x.key, s[0].key) {
      var r := [x] + s;
      assert Insert(x, s) == r && r[1..] == s;
      assert WithKey(r, k) == hx + WithKey(r[1..], k);
    } else {
      var rest := Insert(x, s[1..]);
      InsertWithKey(x, s[1..], k);
      var r := [s[0]] + rest;
      assert Insert(x, s) == r && r[1..] == rest;
      var h0 := if s[0].key == k then [s[0]] else [];
      assert WithKey(r, k) == h0 + WithKey(rest, k);
      assert WithKey(s, k) == h0 + WithKey(s[1..], k);
      assert h0 == [] || hx == [];
    }
  }

  /** The sort is stable: rows with equal keys keep their original order. */
  lemma {:induction false} SortStable(s: seq<Keyed>, k: Key)
    ensures WithKey(SortByKey(s), k) == WithKey(s, k)
  {
    if s != [] {
      SortStable(s[1..], k);
      InsertWithKey(s[0], SortByKey(s[1..]), k);
    }
  }

  // ---------------------------------------------------------------------------
  // The whole pipeline.

  /** The text of an item cell (empty for a cell that holds no text). */
  function ItemText(c: Cell): string {
    if c.Some? && c.value.Text? then c.value.s else ""
  }

  predicate WellFormedItem(c: Cell) {
    c.Some? && c.value.Text? && KeyOf(c.value.s).Some?
  }

  /** `k` is the renamed row `row` with its sort keys computed from its item. */
  predicate KeyedFrom(k: Keyed, row: RawRow) {
    k.entry == Entry(ItemText(row.first), row.second, row.third) && KeyOf(k.entry.item) == Some(k.key)
  }

  /** The position of the first row whose item is malformed. */
  function FirstMalformed(rows: seq<RawRow>): (i: nat)
    requires exists j :: 0 <= j < |rows| && !WellFormedItem(rows[j].first)
    ensures i < |rows| && !WellFormedItem(rows[i].first)
    ensures forall j :: 0 <= j < i ==> WellFormedItem(rows[j].first)
    decreases |rows|
  {
    if !WellFormedItem(rows[0].first) then 0
    else
      var j :| 0 <= j < |rows| && !WellFormedItem(rows[j].first);
      assert rows[1..][j - 1] == rows[j];
      var i := FirstMalformed(rows[1..]);
      assert forall k :: 0 < k <= i ==> rows[k] == rows[1..][k - 1];
      i + 1
  }

  /** Computes the key columns; an item that is not "<number>-<number>" text
      is an error naming one such item. */
  function AttachKeys(rows: seq<RawRow>): (r: Result<seq<Keyed>, TransformError>)
    ensures r.Ok? <==> forall i :: 0 <= i < |rows| ==> WellFormedItem(rows[i].first)
    ensures r.Ok? ==> |r.value| == |rows| && forall i :: 0 <= i < |rows| ==> KeyedFrom(r.value[i], rows[i])
    ensures r.Err? ==> r.error.MalformedItem? && !WellFormedItem(r.error.item)
  {
    if forall i :: 0 <= i < |rows| ==> WellFormedItem(rows[i].first) then
      Ok(seq(|rows|, i requires 0 <= i < |rows| =>
        assert WellFormedItem(rows[i].first);
        Keyed(Entry(ItemText(rows[i].first), rows[i].second, rows[i].third), KeyOf(ItemText(rows[i].first)).value)))
    else
      Err(MalformedItem(rows[FirstMalformed(rows)].first))
  }

  /** `drop(columns=[key1, key2])`. */
  function DropKeys(s: seq<Keyed>): (r: seq<Entry>)
    ensures |r| == |s| && forall i :: 0 <= i < |s| ==> r[i] == s[i].entry
  {
    seq(|s|, i requires 0 <= i < |s| => s[i].entry)
  }

  /** The rows that survive the filter and the trim, before sorting: of the
      k rows with a quantity, those at positions 2 .. k-2. */
  function TrimmedRows(raw: seq<RawRow>): (r: seq<RawRow>)
    ensures forall i :: 0 <= i < |r| ==> r[i].second.Some?
    ensures var k := |DropMissingSecond(raw)|; |r| == if k >= 3 then k - 3 else 0
    ensures var kept := DropMissingSecond(raw); |kept| >= 3 ==> r == kept[2..|kept| - 1]
  {
    var kept := DropMissingSecond(raw);
    TwoStepTrimIsOneStep(kept, HeaderRows, TrailerRows);
    TrimKeepsMiddle(kept);
    Slice(Slice(kept, Some(HeaderRows as int), None), None, Some(-(TrailerRows as int)))
  }

  /** The pipeline of lines 34-46 of the example script; the sequence
      position of each output row is its new index. The positional rename
      of the three columns always succeeds (`ConfiguredRename`), and its
      names are the fields of `Entry`. */
  function Transform(raw: seq<RawRow>): (r: Result<seq<Entry>, TransformError>)
    ensures r.Err? ==> r.error.MalformedItem?
    ensures r.Ok? ==> |r.value| == |TrimmedRows(raw)|
  {
    match AttachKeys(TrimmedRows(raw))
    case Err(e) => Err(e)
    case Ok(keyed) => Ok(DropKeys(SortByKey(keyed)))
  }

  /** The entry an item key would sort by. */
  function EntryKey(e: Entry): Option<Key> { KeyOf(e.item) }

  predicate EntriesSorted(es: seq<Entry>) {
    forall i, j :: 0 <= i < j < |es| ==>
      EntryKey(es[i]).Some? && EntryKey(es[j]).Some? && KeyLe(EntryKey(es[i]).value, EntryKey(es[j]).value)
  }

  /** The entries of trimmed rows, as renaming makes them. */
  function EntriesOf(rows: seq<RawRow>): (es: seq<Entry>)
    requires forall i :: 0 <= i < |rows| ==> WellFormedItem(rows[i].first)
    ensures |es| == |rows|
  {
    seq(|rows|, i requires 0 <= i < |rows| =>
      assert WellFormedItem(rows[i].first);
      Entry(rows[i].first.value.s, rows[i].second, rows[i].third))
  }

  /** The pipeline fails exactly when a row that survives the filter and the
      trim has an item that is not "<number>-<number>" text. */
  lemma TransformFails(raw: seq<RawRow>)
    ensures var rows := TrimmedRows(raw);
            Transform(raw).Err? <==> exists i :: 0 <= i < |rows| && !WellFormedItem(rows[i].first)
  {
  }

  /** Of the k rows with a quantity, the two header rows and the total row
      are cut, so max(0, k-3) rows come out. */
  lemma TransformLength(raw: seq<RawRow>)
    requires Transform(raw).Ok?
    ensures var k := |raw| - CountMissingSecond(raw);
            |Transform(raw).value| == if k >= 3 then k - 3 else 0
  {
    var kept := DropMissingSecond(raw);
    DropMissingSecondLength(raw);
    TwoStepTrimIsOneStep(kept, HeaderRows, TrailerRows);
    TrimKeepsMiddle(kept);
  }

  /** The rows leaving the pipeline each carry a quantity and are sorted by
      their item's (major, minor) key. */
  lemma TransformSorted(raw: seq<RawRow>)
    requires Transform(raw).Ok?
    ensures var out := Transform(raw).value;
            && (forall i :: 0 <= i < |out| ==> out[i].quantity.Some?)
            && EntriesSorted(out)
  {
    var rows := TrimmedRows(raw);
    AttachedConsistent(rows);
    var keyed := AttachKeys(rows).value;
    SortKeepsConsistent(keyed);
    SortedEntries(SortByKey(keyed));
  }

  /** Every keyed row carries its item's key and a quantity. */
  predicate Consistent(s: seq<Keyed>) {
    forall i :: 0 <= i < |s| ==> EntryKey(s[i].entry) == Some(s[i].key) && s[i].entry.quantity.Some?
  }

  lemma AttachedConsistent(rows: seq<RawRow>)
    requires AttachKeys(rows).Ok?
    requires forall i :: 0 <= i < |rows| ==> rows[i].second.Some?
    ensures Consistent(AttachKeys(rows).value)
  {
    var keyed := AttachKeys(rows).value;
    forall i | 0 <= i < |keyed| ensures EntryKey(keyed[i].entry) == Some(keyed[i].key) && keyed[i].entry.quantity.Some? {
      assert KeyedFrom(keyed[i], rows[i]);
    }
  }

  lemma SortKeepsConsistent(s: seq<Keyed>)
    requires Consistent(s)
    ensures Consistent(SortByKey(s))
  {
    var r := SortByKey(s);
    forall i | 0 <= i < |r| ensures EntryKey(r[i].entry) == Some(r[i].key) && r[i].entry.quantity.Some? {
      assert multiset(r)[r[i]] > 0;
      var j :| 0 <= j < |s| && s[j] == r[i];
    }
  }

  lemma SortedEntries(s: seq<Keyed>)
    requires Consistent(s) && SortedByKey(s)
    ensures var es := DropKeys(s);
            && (forall i :: 0 <= i < |es| ==> es[i].quantity.Some?)
            && EntriesSorted(es)
  {
    var es := DropKeys(s);
    forall i, j | 0 <= i < j < |es|
      ensures EntryKey(es[i]).Some? && EntryKey(es[j]).Some? && KeyLe(EntryKey(es[i]).value, EntryKey(es[j]).value)
    {
      assert EntryKey(es[i]) == Some(s[i].key) && EntryKey(es[j]) == Some(s[j].key);
    }
  }

  /** The pipeline neither loses nor invents rows: its output is a
      rearrangement of the renamed trimmed rows. */
  lemma TransformPermutes(raw: seq<RawRow>)
    requires Transform(raw).Ok?
    ensures multiset(Transform(raw).value) == multiset(EntriesOf(TrimmedRows(raw)))
  {
    var rows := TrimmedRows(raw);
    var keyed := AttachKeys(rows).value;
    SortEntries(keyed);
    assert DropKeys(keyed) == EntriesOf(rows);
  }

  lemma DropKeysCons(x: Keyed, s: seq<Keyed>)
    ensures DropKeys([x] + s) == [x.entry] + DropKeys(s)
  {
    assert forall i :: 1 <= i <= |s| ==> ([x] + s)[i] == s[i - 1];
  }

  /** Inserting a keyed row adds its entry to the entries. */
  lemma {:induction false} InsertEntries(x: Keyed, s: seq<Keyed>)
    ensures multiset(DropKeys(Insert(x, s))) == multiset(DropKeys(s)) + multiset{x.entry}
  {
    if s == [] {
      assert Insert(x, s) == [x];
    } else if KeyLe(x.key, s[0].key) {
      DropKeysCons(x, s);
    } else {
      InsertEntries(x, s[1..]);
      DropKeysCons(s[0], Insert(x, s[1..]));
      DropKeysCons(s[0], s[1..]);
      assert s == [s[0]] + s[1..];
    }
  }

  /** Sorting rearranges the entries without changing them. */
  lemma {:induction false} SortEntries(s: seq<Keyed>)
    ensures multiset(DropKeys(SortByKey(s))) == multiset(DropKeys(s))
  {
    if s != [] {
      SortEntries(s[1..]);
      InsertEntries(s[0], SortByKey(s[1..]));
      DropKeysCons(s[0], s[1..]);
      assert s == [s[0]] + s[1..];
    }
  }

  /** Rows whose item has key `k`, in order. */
  function EntriesWithKey(es: seq<Entry>, k: Key): seq<Entry> {
    if es == [] then []
    else (if EntryKey(es[0]) == Some(k) then [es[0]] else []) + EntriesWithKey(es[1..], k)
  }

  /** Rows with equal item keys leave the pipeline in the order the trimmed
      sheet had them. */
  lemma TransformStable(raw: seq<RawRow>, k: Key)
    requires Transform(raw).Ok?
    ensures EntriesWithKey(Transform(raw).value, k) == EntriesWithKey(EntriesOf(TrimmedRows(raw)), k)
  {
    var rows := TrimmedRows(raw);
    var keyed := AttachKeys(rows).value;
    var sorted := SortByKey(keyed);
    SortStable(keyed, k);
    AttachedConsistent(rows);
    SortKeepsConsistent(keyed);
    KeysConsistent(sorted, k);
    KeysConsistent(keyed, k);
    assert DropKeys(keyed) == EntriesOf(rows);
  }

  /** When every row's key is its item's key, filtering on either agrees. */
  lemma {:induction false} KeysConsistent(s: seq<Keyed>, k: Key)
    requires forall i :: 0 <= i < |s| ==> EntryKey(s[i].entry) == Some(s[i].key)
    ensures DropKeys(WithKey(s, k)) == EntriesWithKey(DropKeys(s), k)
  {
    if s != [] {
      var rest := s[1..];
      KeysConsistent(rest, k);
      var es := DropKeys(s);
      assert es[1..] == DropKeys(rest);
      var head := if s[0].key == k then [s[0]] else [];
      assert WithKey(s, k) == head + WithKey(rest, k);
      assert EntriesWithKey(es, k) == (if EntryKey(es[0]) == Some(k) then [es[0]] else []) + EntriesWithKey(es[1..], k);
      DropKeysAppend(head, WithKey(rest, k));
    }
  }

  lemma DropKeysAppend(a: seq<Keyed>, b: seq<Keyed>)
    ensures DropKeys(a + b) == DropKeys(a) + DropKeys(b)
  {
    assert forall j :: |a| <= j < |a| + |b| ==> (a + b)[j] == b[j - |a|];
  }
}

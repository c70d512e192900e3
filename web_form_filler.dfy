/** The browser side: a `WebFormFiller` drives one browser session over a
    receiving form whose rows carry an item label and two input fields
    (quantity and extended price), finds the form row of each table row by
    its item label and types the two numbers in. The browser is replaced by
    a `Page`: the labels the form shows by row position, and which input
    fields accept typing. */
module FormFilling {
  import opened Wrappers
  import opened Text
  import opened Tables

  /** The highest label position the scan probes (positions 0 .. MaxProbe). */
  const MaxProbe: nat := 1000

  /** The two input fields of a form row. */
  datatype Field = Quantity | Amount

  type FieldId = (nat, Field)

  /** What the browser shows: the text of the item label at each position
      that has one, and the input fields that accept typing. */
  datatype Page = Page(labels: map<nat, string>, writable: set<FieldId>)

  const BlankPage: Page := Page(map[], {})

  /** The `driver` field: never set, set to a live browser, or set to a
      browser that has been quit (`close_browser` does not reset it). */
  datatype Session = NoDriver | Running | Quit

  datatype FillerError =
    | NoBrowser       // process_dataframe without a driver
    | SessionClosed   // the driver was quit; the browser refuses commands

  /** Why a row ended up in `failed_items`. */
  datatype FailureReason = NotOnPage | WriteError

  datatype FailedItem = FailedItem(item: string, reason: FailureReason)

  /** The dictionary `process_dataframe` returns. */
  datatype Report = Report(total: nat, success: nat, failed: nat, notFound: nat, failedItems: seq<FailedItem>)

  // ---------------------------------------------------------------------------
  // Finding the form row of an item.

  /** The label texts as the scan compares them: stripped. */
  function StripLabels(labels: map<nat, string>): (m: map<nat, string>)
    ensures m.Keys == labels.Keys
    ensures forall j :: j in m ==> m[j] == Strip(labels[j])
  {
    map j | j in labels :: Strip(labels[j])
  }

  /** The scan from position `i` on over stripped labels: stops with nothing
      at the first missing label and after probing position MaxProbe, and
      stops with the position of the first label equal to `target`. */
  function Scan(stripped: map<nat, string>, target: string, i: nat): (r: Option<nat>)
    requires i <= MaxProbe
    ensures r.Some? ==> i <= r.value <= MaxProbe && r.value in stripped && stripped[r.value] == target
    decreases MaxProbe - i
  {
    if i !in stripped then None
    else if stripped[i] == target then Some(i)
    else if i + 1 > MaxProbe then None
    else Scan(stripped, target, i + 1)
  }

  /** `find_item_index` on a page with labels `labels`: a position it finds
      is within the probe bound and carries a label equal to the item once
      both are stripped; a page without a label at position 0 finds nothing. */
  function FindIndex(labels: map<nat, string>, item: string): (r: Option<nat>)
    ensures r.Some? ==> r.value <= MaxProbe && r.value in labels && Strip(labels[r.value]) == Strip(item)
    ensures 0 !in labels ==> r.None?
  {
    Scan(StripLabels(labels), Strip(item), 0)
  }

  /** `i` is the first position whose label matches `target`, every position
      up to it has a label, and it is within the probe bound. */
  predicate FirstMatch(stripped: map<nat, string>, target: string, i: nat) {
    && i <= MaxProbe
    && (forall j :: 0 <= j <= i ==> j in stripped)
    && stripped[i] == target
    && (forall j :: 0 <= j < i ==> stripped[j] != target)
  }

  lemma {:induction false} ScanFirstMatch(stripped: map<nat, string>, target: string, s: nat, i: nat)
    requires s <= MaxProbe
    requires forall j :: 0 <= j < s ==> j in stripped && stripped[j] != target
    ensures Scan(stripped, target, s) == Some(i) <==> FirstMatch(stripped, target, i)
    decreases MaxProbe - s
  {
    if s in stripped && stripped[s] != target && s + 1 <= MaxProbe {
      ScanFirstMatch(stripped, target, s + 1, i);
    }
  }

  /** `find_item_index` answers with a position exactly when that position is
      the first whose stripped label equals the stripped item, with a label at
      every position before it and at most 1000; it answers None exactly when
      no position is. */
  lemma FindIndexIsFirstMatch(labels: map<nat, string>, item: string, i: nat)
    ensures FindIndex(labels, item) == Some(i) <==>
              && i <= MaxProbe
              && (forall j :: 0 <= j <= i ==> j in labels)
              && Strip(labels[i]) == Strip(item)
              && (forall j :: 0 <= j < i ==> Strip(labels[j]) != Strip(item))
  {
    ScanFirstMatch(StripLabels(labels), Strip(item), 0, i);
  }

  /** Labels agree below `g`. */
  predicate AgreeBelow(l1: map<nat, string>, l2: map<nat, string>, g: nat) {
    forall j :: 0 <= j < g ==> (j in l1 <==> j in l2) && (j in l1 ==> l1[j] == l2[j])
  }

  lemma {:induction false} ScanSeesOnlyBelow(l1: map<nat, string>, l2: map<nat, string>, target: string, s: nat, g: nat)
    requires s <= MaxProbe && s <= g && AgreeBelow(l1, l2, g)
    requires g > MaxProbe || (g !in l1 && g !in l2)
    ensures Scan(l1, target, s) == Scan(l2, target, s)
    decreases MaxProbe - s
  {
    if s < g && s in l1 && l1[s] != target && s + 1 <= MaxProbe {
      ScanSeesOnlyBelow(l1, l2, target, s + 1, g);
    }
  }

  lemma StripLabelsAgree(l1: map<nat, string>, l2: map<nat, string>, g: nat)
    requires AgreeBelow(l1, l2, g)
    ensures AgreeBelow(StripLabels(l1), StripLabels(l2), g)
  {
  }

  /** Labels after the first missing position are never examined. */
  lemma ScanIgnoresAfterGap(l1: map<nat, string>, l2: map<nat, string>, item: string, g: nat)
    requires AgreeBelow(l1, l2, g) && g !in l1 && g !in l2
    ensures FindIndex(l1, item) == FindIndex(l2, item)
  {
    StripLabelsAgree(l1, l2, g);
    ScanSeesOnlyBelow(StripLabels(l1), StripLabels(l2), Strip(item), 0, g);
  }

  /** Labels beyond position 1000 are never examined. */
  lemma ScanIgnoresBeyondCap(l1: map<nat, string>, l2: map<nat, string>, item: string)
    requires AgreeBelow(l1, l2, MaxProbe + 1)
    ensures FindIndex(l1, item) == FindIndex(l2, item)
  {
    StripLabelsAgree(l1, l2, MaxProbe + 1);
    ScanSeesOnlyBelow(StripLabels(l1), StripLabels(l2), Strip(item), 0, MaxProbe + 1);
  }

  // ---------------------------------------------------------------------------
  // Writing one row's two fields.

  /** The values typed into the form, by field. */
  type Typed = map<FieldId, Cell>

  /** `fill_quantity_and_amount` on page `p`: the quantity field is written
      first, then the amount field; the first field that does not accept
      typing ends the call with False, and nothing is undone. A field that
      refuses typing keeps what it held. */
  function Fill(p: Page, w: Typed, index: nat, quantity: Cell, amount: Cell): (r: (bool, Typed))
    ensures r.0 <==> (index, Quantity) in p.writable && (index, Amount) in p.writable
    ensures w.Keys <= r.1.Keys <= w.Keys + {(index, Quantity), (index, Amount)}
    ensures forall f :: f !in p.writable ==> (f in r.1 <==> f in w) && (f in w ==> r.1[f] == w[f])
  {
    if (index, Quantity) !in p.writable then (false, w)
    else if (index, Amount) !in p.writable then (false, w[(index, Quantity) := quantity])
    else (true, w[(index, Quantity) := quantity][(index, Amount) := amount])
  }

  /** The call reports success exactly when both fields accepted the values;
      then both hold them; a failing amount field leaves the quantity typed;
      a refusing call leaves the amount field as it was; no other field is
      touched. */
  lemma FillSpec(p: Page, w: Typed, index: nat, quantity: Cell, amount: Cell)
    ensures var (ok, w') := Fill(p, w, index, quantity, amount);
            && (ok <==> (index, Quantity) in p.writable && (index, Amount) in p.writable)
            && (ok ==> w'[(index, Quantity)] == quantity && w'[(index, Amount)] == amount)
            && ((index, Quantity) in p.writable ==> (index, Quantity) in w' && w'[(index, Quantity)] == quantity)
            && ((index, Quantity) !in p.writable ==> w' == w)
            && (!ok ==> ((index, Amount) in w' <==> (index, Amount) in w)
                        && ((index, Amount) in w ==> w'[(index, Amount)] == w[(index, Amount)]))
            && (forall f :: f in w' && f.0 != index ==> f in w && w'[f] == w[f])
            && (forall f :: f in w && f.0 != index ==> f in w' && w'[f] == w[f])
  {
  }

  // ---------------------------------------------------------------------------
  // Processing a whole table.

  /** How one row ends. */
  datatype Outcome = Filled | WriteFailed | NotFound

  /** A row is not found exactly when the scan finds no position for its
      item; a found row is filled exactly when writing its two values there
      succeeds. */
  function RowOutcome(p: Page, e: Entry): (r: Outcome)
    ensures r == NotFound <==> FindIndex(p.labels, e.item).None?
    ensures r != NotFound ==> (r == Filled <==> Fill(p, map[], FindIndex(p.labels, e.item).value, e.quantity, e.amount).0)
  {
    match FindIndex(p.labels, e.item)
    case None => NotFound
    case Some(i) => if (i, Quantity) in p.writable && (i, Amount) in p.writable then Filled else WriteFailed
  }

  /** The outcome of each row, in row order. */
  function Outcomes(p: Page, rows: seq<Entry>): (os: seq<Outcome>)
    ensures |os| == |rows| && forall j :: 0 <= j < |rows| ==> os[j] == RowOutcome(p, rows[j])
  {
    seq(|rows|, j requires 0 <= j < |rows| => RowOutcome(p, rows[j]))
  }

  lemma OutcomesAppend(p: Page, a: seq<Entry>, b: seq<Entry>)
    ensures Outcomes(p, a + b) == Outcomes(p, a) + Outcomes(p, b)
  {
    assert forall j :: |a| <= j < |a| + |b| ==> (a + b)[j] == b[j - |a|];
  }

  /** How many entries of `os` are `o`. */
  function CountIn(os: seq<Outcome>, o: Outcome): (n: nat)
    ensures n <= |os|
    decreases |os|
  {
    if os == [] then 0 else CountIn(os[..|os| - 1], o) + (if os[|os| - 1] == o then 1 else 0)
  }

  /** The items as `process_dataframe` reads them: stripped. */
  function StrippedItems(rows: seq<Entry>): (items: seq<string>)
    ensures |items| == |rows| && forall j :: 0 <= j < |rows| ==> items[j] == Strip(rows[j].item)
  {
    seq(|rows|, j requires 0 <= j < |rows| => Strip(rows[j].item))
  }

  /** The `failed_items` entry of a row with item `item` and outcome `o`:
      the item and the reason; nothing for a filled row. */
  function FailureOf(item: string, o: Outcome): seq<FailedItem> {
    match o
    case Filled => []
    case WriteFailed => [FailedItem(item, WriteError)]
    case NotFound => [FailedItem(item, NotOnPage)]
  }

  /** The `failed_items` list after rows with items `items` and outcomes `os`. */
  function Failures(items: seq<string>, os: seq<Outcome>): seq<FailedItem>
    requires |os| == |items|
    decreases |items|
  {
    if items == [] then []
    else FailureOf(items[0], os[0]) + Failures(items[1..], os[1..])
  }

  /** The result dictionary after one more row with item `item` and outcome
      `o`: the counter of `o` goes up by one and, unless the row was filled,
      its failure is appended. */
  function Step(r: Report, item: string, o: Outcome): Report {
    match o
    case Filled => r.(success := r.success + 1)
    case WriteFailed => r.(failed := r.failed + 1, failedItems := r.failedItems + FailureOf(item, o))
    case NotFound => r.(notFound := r.notFound + 1, failedItems := r.failedItems + FailureOf(item, o))
  }

  /** The result dictionary after the rows `rows` of a table of `total` rows,
      built row by row: the counters always add up to the rows processed,
      and every row not filled has its entry among the failures. */
  function Tally(p: Page, rows: seq<Entry>, total: nat): (r: Report)
    ensures r.total == total
    ensures r.success + r.failed + r.notFound == |rows|
    ensures |r.failedItems| == r.failed + r.notFound
    decreases |rows|
  {
    if rows == [] then Report(total, 0, 0, 0, [])
    else
      var n := |rows| - 1;
      Step(Tally(p, rows[..n], total), Strip(rows[n].item), RowOutcome(p, rows[n]))
  }

  /** The form after the rows `rows`, starting from `w`: nothing typed is
      removed, and a field that refuses typing keeps what it held. */
  function Writes(p: Page, w: Typed, rows: seq<Entry>): (r: Typed)
    ensures w.Keys <= r.Keys
    ensures forall f :: f !in p.writable ==> (f in r <==> f in w) && (f in w ==> r[f] == w[f])
    decreases |rows|
  {
    if rows == [] then w
    else
      var n := |rows| - 1;
      var before := Writes(p, w, rows[..n]);
      match FindIndex(p.labels, rows[n].item)
      case None => before
      case Some(i) => Fill(p, before, i, rows[n].quantity, rows[n].amount).1
  }

  lemma {:induction false} CountInAppend(x: seq<Outcome>, y: seq<Outcome>, o: Outcome)
    ensures CountIn(x + y, o) == CountIn(x, o) + CountIn(y, o)
    decreases |y|
  {
    if y == [] {
      assert x + y == x;
    } else {
      var n := |y| - 1;
      assert (x + y)[..|x + y| - 1] == x + y[..n];
      CountInAppend(x, y[..n], o);
    }
  }

  lemma {:induction false} FailuresAppend(a: seq<string>, b: seq<string>, x: seq<Outcome>, y: seq<Outcome>)
    requires |x| == |a| && |y| == |b|
    ensures Failures(a + b, x + y) == Failures(a, x) + Failures(b, y)
    decreases |a|
  {
    if a == [] {
      assert a + b == b && x + y == y;
    } else {
      assert (a + b)[1..] == a[1..] + b && (x + y)[1..] == x[1..] + y;
      FailuresAppend(a[1..], b, x[1..], y);
      var h := FailureOf(a[0], x[0]);
      assert (h + Failures(a[1..], x[1..])) + Failures(b, y) == h + (Failures(a[1..], x[1..]) + Failures(b, y));
    }
  }

  lemma {:induction false} FailuresLast(items: seq<string>, os: seq<Outcome>)
    requires |os| == |items| > 0
    ensures var n := |items| - 1;
            Failures(items, os) == Failures(items[..n], os[..n]) + FailureOf(items[n], os[n])
    decreases |items|
  {
    var n := |items| - 1;
    if n > 0 {
      var t, u := items[1..], os[1..];
      FailuresLast(t, u);
      assert t[..n - 1] == items[..n][1..] && u[..n - 1] == os[..n][1..];
      assert t[n - 1] == items[n] && u[n - 1] == os[n];
      var h, m, l := FailureOf(items[0], os[0]), Failures(t[..n - 1], u[..n - 1]), FailureOf(items[n], os[n]);
      assert h + (m + l) == (h + m) + l;
    }
  }

  lemma StrippedItemsAppend(a: seq<Entry>, b: seq<Entry>)
    ensures StrippedItems(a + b) == StrippedItems(a) + StrippedItems(b)
  {
    assert forall j :: |a| <= j < |a| + |b| ==> (a + b)[j] == b[j - |a|];
  }

  /** Rows are processed one after another: the result for a table is the
      result for its first part followed by that for its second part,
      counters added and failed items concatenated in row order. */
  lemma TallyAppend(p: Page, a: seq<Entry>, b: seq<Entry>, total: nat)
    ensures Tally(p, a + b, total).success == Tally(p, a, total).success + Tally(p, b, total).success
    ensures Tally(p, a + b, total).failed == Tally(p, a, total).failed + Tally(p, b, total).failed
    ensures Tally(p, a + b, total).notFound == Tally(p, a, total).notFound + Tally(p, b, total).notFound
    ensures Tally(p, a + b, total).failedItems == Tally(p, a, total).failedItems + Tally(p, b, total).failedItems
  {
    TallyCountsOutcome(p, a + b, total, Filled);
    TallyCountsOutcome(p, a, total, Filled);
    TallyCountsOutcome(p, b, total, Filled);
    TallyCountsOutcome(p, a + b, total, WriteFailed);
    TallyCountsOutcome(p, a, total, WriteFailed);
    TallyCountsOutcome(p, b, total, WriteFailed);
    TallyCountsOutcome(p, a + b, total, NotFound);
    TallyCountsOutcome(p, a, total, NotFound);
    TallyCountsOutcome(p, b, total, NotFound);
    TallyFailures(p, a + b, total);
    TallyFailures(p, a, total);
    TallyFailures(p, b, total);
    var x, y := Outcomes(p, a), Outcomes(p, b);
    OutcomesAppend(p, a, b);
    CountInAppend(x, y, Filled);
    CountInAppend(x, y, WriteFailed);
    CountInAppend(x, y, NotFound);
    StrippedItemsAppend(a, b);
    FailuresAppend(StrippedItems(a), StrippedItems(b), x, y);
  }

  /** The positions in `os` holding `o`. */
  function PositionsOf(os: seq<Outcome>, o: Outcome): set<nat> {
    set j | 0 <= j < |os| && os[j] == o
  }

  lemma {:induction false} CountInIsCardinality(os: seq<Outcome>, o: Outcome)
    ensures CountIn(os, o) == |PositionsOf(os, o)|
    decreases |os|
  {
    if os != [] {
      var n := |os| - 1;
      var front := os[..n];
      CountInIsCardinality(front, o);
      if os[n] == o {
        assert PositionsOf(os, o) == PositionsOf(front, o) + {n};
      } else {
        assert PositionsOf(os, o) == PositionsOf(front, o);
      }
    }
  }

  /** The counters count rows by outcome: each is the number of row
      positions whose outcome it names. */
  lemma TallyCounts(p: Page, rows: seq<Entry>, total: nat)
    ensures Tally(p, rows, total).success == |PositionsOf(Outcomes(p, rows), Filled)|
    ensures Tally(p, rows, total).failed == |PositionsOf(Outcomes(p, rows), WriteFailed)|
    ensures Tally(p, rows, total).notFound == |PositionsOf(Outcomes(p, rows), NotFound)|
  {
    TallyCountsOutcome(p, rows, total, Filled);
    TallyCountsOutcome(p, rows, total, WriteFailed);
    TallyCountsOutcome(p, rows, total, NotFound);
    CountInIsCardinality(Outcomes(p, rows), Filled);
    CountInIsCardinality(Outcomes(p, rows), WriteFailed);
    CountInIsCardinality(Outcomes(p, rows), NotFound);
  }

  /** A field ends up written only by a row whose item was found at that
      field's form row and the field accepted typing; rows whose item is not
      on the page write nothing. */
  lemma {:induction false} WritesOnlyFoundRows(p: Page, w: Typed, rows: seq<Entry>, f: FieldId)
    requires f in Writes(p, w, rows) && (f !in w || Writes(p, w, rows)[f] != w[f])
    ensures f in p.writable
    ensures exists j :: 0 <= j < |rows| && FindIndex(p.labels, rows[j].item) == Some(f.0)
    decreases |rows|
  {
    var n := |rows| - 1;
    var before := Writes(p, w, rows[..n]);
    if f in before && (f !in w || before[f] != w[f]) {
      if FindIndex(p.labels, rows[n].item).Some? && FindIndex(p.labels, rows[n].item).value == f.0 {
        FillSpec(p, before, f.0, rows[n].quantity, rows[n].amount);
        WritesOnlyFoundRows(p, w, rows[..n], f);
        var j :| 0 <= j < n && FindIndex(p.labels, rows[..n][j].item) == Some(f.0);
        assert rows[..n][j] == rows[j];
      } else {
        WritesOnlyFoundRows(p, w, rows[..n], f);
        var j :| 0 <= j < n && FindIndex(p.labels, rows[..n][j].item) == Some(f.0);
        assert rows[..n][j] == rows[j];
      }
    } else {
      FillSpec(p, before, FindIndex(p.labels, rows[n].item).value, rows[n].quantity, rows[n].amount);
    }
  }

  lemma TallySnoc(p: Page, rows: seq<Entry>, i: nat, total: nat)
    requires i < |rows|
    ensures Tally(p, rows[..i + 1], total) == Step(Tally(p, rows[..i], total), Strip(rows[i].item), RowOutcome(p, rows[i]))
  {
    assert rows[..i + 1][..i] == rows[..i];
  }

  /** The counter a row with outcome `o` increments. */
  function Counter(r: Report, o: Outcome): nat {
    match o
    case Filled => r.success
    case WriteFailed => r.failed
    case NotFound => r.notFound
  }

  /** Counting row by row agrees with counting outcomes: each counter is the
      number of rows with its outcome. */
  lemma {:induction false} TallyCountsOutcome(p: Page, rows: seq<Entry>, total: nat, o: Outcome)
    ensures Counter(Tally(p, rows, total), o) == CountIn(Outcomes(p, rows), o)
    decreases |rows|
  {
    if rows != [] {
      var n := |rows| - 1;
      TallyCountsOutcome(p, rows[..n], total, o);
      StepCounter(Tally(p, rows[..n], total), Strip(rows[n].item), RowOutcome(p, rows[n]), o);
      assert Outcomes(p, rows)[..n] == Outcomes(p, rows[..n]);
    }
  }

  lemma StepCounter(r: Report, item: string, o': Outcome, o: Outcome)
    ensures Counter(Step(r, item, o'), o) == Counter(r, o) + (if o' == o then 1 else 0)
  {
  }

  /** The failures collected row by row are those of the rows not filled,
      in row order. */
  lemma {:induction false} TallyFailures(p: Page, rows: seq<Entry>, total: nat)
    ensures Tally(p, rows, total).failedItems == Failures(StrippedItems(rows), Outcomes(p, rows))
    decreases |rows|
  {
    if rows != [] {
      var n := |rows| - 1;
      var os, items := Outcomes(p, rows), StrippedItems(rows);
      TallyFailures(p, rows[..n], total);
      assert os[..n] == Outcomes(p, rows[..n]);
      assert items[..n] == StrippedItems(rows[..n]);
      FailuresLast(items, os);
    }
  }

  lemma WritesSnoc(p: Page, w: Typed, rows: seq<Entry>, i: nat)
    requires i < |rows|
    ensures Writes(p, w, rows[..i + 1]) ==
              match FindIndex(p.labels, rows[i].item)
              case None => Writes(p, w, rows[..i])
              case Some(k) => Fill(p, Writes(p, w, rows[..i]), k, rows[i].quantity, rows[i].amount).1
  {
    assert rows[..i + 1][..i] == rows[..i];
  }

  /** One pass of `process_dataframe`'s loop over the row at `i`, whose
      stripped item was found at `found`: how the result dictionary `r` and
      the form move on. */
  lemma RowStep(p: Page, w: Typed, rows: seq<Entry>, i: nat, found: Option<nat>, r: Report)
    requires i < |rows| && found == FindIndex(p.labels, Strip(rows[i].item)) && r == Tally(p, rows[..i], r.total)
    ensures found.None? ==>
              && Tally(p, rows[..i + 1], r.total) == r.(notFound := r.notFound + 1,
                   failedItems := r.failedItems + [FailedItem(Strip(rows[i].item), NotOnPage)])
              && Writes(p, w, rows[..i + 1]) == Writes(p, w, rows[..i])
    ensures found.Some? ==>
              && Writes(p, w, rows[..i + 1]) == Fill(p, Writes(p, w, rows[..i]), found.value, rows[i].quantity, rows[i].amount).1
              && (Fill(p, Writes(p, w, rows[..i]), found.value, rows[i].quantity, rows[i].amount).0 ==>
                    Tally(p, rows[..i + 1], r.total) == r.(success := r.success + 1))
              && (!Fill(p, Writes(p, w, rows[..i]), found.value, rows[i].quantity, rows[i].amount).0 ==>
                    Tally(p, rows[..i + 1], r.total) == r.(failed := r.failed + 1,
                      failedItems := r.failedItems + [FailedItem(Strip(rows[i].item), WriteError)]))
  {
    StripIdempotent(rows[i].item);
    TallySnoc(p, rows, i, r.total);
    WritesSnoc(p, w, rows, i);
  }

  // ---------------------------------------------------------------------------
  // The filler object.

  class WebFormFiller {
    const headless: bool
    /** The `driver` field. */
    var session: Session
    /** The page the browser shows, once a URL has been opened. */
    var page: Page
    var url: string
    /** What has been typed into the form's input fields. */
    var typed: Typed
    /** How many browsers this object has launched. */
    ghost var launches: nat

    /** What a command to the browser sees: the page when the browser is
        live; with no driver, or a driver that was quit, every element lookup
        fails, as on a page with nothing on it. */
    function View(): Page
      reads this
    {
      if session.Running? then page else BlankPage
    }

    constructor (headless: bool)
      ensures this.headless == headless
      ensures session == NoDriver && page == BlankPage && url == "" && typed == map[] && launches == 0
    {
      this.headless := headless;
      session := NoDriver;
      page := BlankPage;
      url := "";
      typed := map[];
      launches := 0;
    }

    /** `start_browser`: launches a new browser on a blank page, replacing
        whatever driver was there. */
    method StartBrowser()
      modifies this
      ensures session == Running && page == BlankPage && url == "" && typed == map[]
      ensures launches == old(launches) + 1
    {
      session := Running;
      page := BlankPage;
      url := "";
      typed := map[];
      launches := launches + 1;
    }

    /** `open_url`: starts a browser first when there is no driver, then
        loads `url`, which shows `loaded`. A driver that was quit refuses the
        command and nothing changes. */
    method OpenUrl(url: string, loaded: Page) returns (err: Option<FillerError>)
      modifies this
      ensures old(session).Quit? ==> err == Some(SessionClosed) && session == Quit
                                       && page == old(page) && this.url == old(this.url)
                                       && typed == old(typed) && launches == old(launches)
      ensures !old(session).Quit? ==> err == None && session == Running
                                        && page == loaded && this.url == url && typed == map[]
                                        && launches == old(launches) + (if old(session).NoDriver? then 1 else 0)
    {
      if session.Quit? {
        return Some(SessionClosed);
      }
      if session.NoDriver? {
        StartBrowser();
      }
      page := loaded;
      this.url := url;
      typed := map[];
      err := None;
    }

    /** `find_item_index`: probes the labels at positions 0, 1, ... and
        answers the first position whose stripped label equals the stripped
        item. */
    method FindItemIndex(item: string) returns (r: Option<nat>)
      ensures r == FindIndex(View().labels, item)
    {
      var labels := View().labels;
      var target := Strip(item);
      var index: nat := 0;
      while true
        invariant index <= MaxProbe
        invariant Scan(StripLabels(labels), target, 0) == Scan(StripLabels(labels), target, index)
        decreases MaxProbe - index
      {
        if index !in labels {
          return None;
        }
        if Strip(labels[index]) == target {
          return Some(index);
        }
        index := index + 1;
        if index > MaxProbe {
          return None;
        }
      }
    }

    /** `fill_quantity_and_amount`: types the quantity, then the amount, into
        the form row at `index`. */
    method FillQuantityAndAmount(index: nat, quantity: Cell, amount: Cell) returns (ok: bool)
      modifies this
      ensures session == old(session) && page == old(page) && url == old(url) && launches == old(launches)
      ensures (ok, typed) == Fill(View(), old(typed), index, quantity, amount)
    {
      var p := View();
      if (index, Quantity) !in p.writable {
        return false;
      }
      typed := typed[(index, Quantity) := quantity];
      if (index, Amount) !in p.writable {
        return false;
      }
      typed := typed[(index, Amount) := amount];
      ok := true;
    }

    /** `process_dataframe`: refuses to run without a driver; otherwise looks
        up and fills every row in order and reports what happened. */
    method ProcessDataframe(rows: seq<Entry>) returns (r: Result<Report, FillerError>)
      modifies this
      ensures session == old(session) && page == old(page) && url == old(url) && launches == old(launches)
      ensures old(session).NoDriver? ==> r == Err(NoBrowser) && typed == old(typed)
      ensures !old(session).NoDriver? ==>
                r == Ok(Tally(View(), rows, |rows|)) && typed == Writes(View(), old(typed), rows)
    {
      if session.NoDriver? {
        return Err(NoBrowser);
      }
      ghost var p := View();
      var results := Report(|rows|, 0, 0, 0, []);
      var i := 0;
      while i < |rows|
        invariant 0 <= i <= |rows|
        invariant session == old(session) && page == old(page) && url == old(url) && launches == old(launches)
        invariant results == Tally(p, rows[..i], |rows|)
        invariant typed == Writes(p, old(typed), rows[..i])
      {
        var e := rows[i];
        var item := Strip(e.item);
        var webIndex := FindItemIndex(item);
        RowStep(p, old(typed), rows, i, webIndex, results);
        if webIndex.None? {
          results := results.(notFound := results.notFound + 1,
                              failedItems := results.failedItems + [FailedItem(item, NotOnPage)]);
        } else {
          var ok := FillQuantityAndAmount(webIndex.value, e.quantity, e.amount);
          if ok {
            results := results.(success := results.success + 1);
          } else {
            results := results.(failed := results.failed + 1,
                                failedItems := results.failedItems + [FailedItem(item, WriteError)]);
          }
        }
        i := i + 1;
      }
      assert rows[..i] == rows;
      r := Ok(results);
    }

    /** `close_browser`: quits a live browser; the driver stays set. Without
        a driver it does nothing. */
    method CloseBrowser()
      modifies this
      ensures session == (if old(session).NoDriver? then NoDriver else Quit)
      ensures page == old(page) && url == old(url) && typed == old(typed) && launches == old(launches)
    {
      if !session.NoDriver? {
        session := Quit;
      }
    }
  }

  /** `fill_web_form_from_dataframe`: a fresh filler started as a context
      manager opens `url` (showing `loaded`), processes the rows and closes
      the browser; the report is the tally of the rows against that page. */
  method FillWebFormFromDataframe(rows: seq<Entry>, url: string, headless: bool, loaded: Page) returns (r: Report)
    ensures r == Tally(loaded, rows, |rows|)
  {
    var filler := new WebFormFiller(headless);
    filler.StartBrowser();
    var err := filler.OpenUrl(url, loaded);
    var result := filler.ProcessDataframe(rows);
    filler.CloseBrowser();
    r := result.value;
  }
}

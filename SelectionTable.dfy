/**
 A model of the SelectionTable utility: a builder that renders a table with a
 "select all" checkbox in its header row and one checkbox per record row, and
 the two click handlers that keep those checkboxes in step.

 The DOM is replaced by plain state: a rendered table is a `Table` object whose
 header is an id, a select-all flag and the header labels, and whose data rows
 are `Row` values (checkbox id, checkbox value, checked flag, cell contents).
 */
module SelectionTable {

  datatype Option<T> = None | Some(value: T)

  /** The id fragment the row click handler searches for (`input[id*="AllCheckbox"]`);
      the select-all checkbox's id is the table id followed by it. */
  const AllCheckboxSuffix: string := "AllCheckbox"

  /** What the caller assigns to the builder's `tableData` property. */
  datatype TableData<R> = TableData(id: string, columnHeaders: seq<string>, data: seq<R>)

  /** One data row: its checkbox (id, value, checked) and the cells that follow it. */
  datatype Row = Row(id: string, value: string, checked: bool, cells: seq<string>) {
    /** Number of `td` cells in the row: the checkbox cell and one per data item. */
    function CellCount(): nat { 1 + |cells| }
  }

  /** The part of a rendered table that the click handlers read and write. */
  datatype CheckState = CheckState(selectAll: bool, rows: seq<Row>)

  /** Two rows that agree on everything except, possibly, their checked state. */
  predicate SameContent(a: Row, b: Row) {
    a.id == b.id && a.value == b.value && a.cells == b.cells
  }

  // ---------------------------------------------------------------------------
  // The substring match of the attribute selector `[id*="..."]`
  // ---------------------------------------------------------------------------

  predicate OccursAt(s: string, pat: string, i: int) {
    0 <= i && i + |pat| <= |s| && s[i..i + |pat|] == pat
  }

  /** True when `pat` occurs somewhere inside `s`. */
  function ContainsSubstring(s: string, pat: string): bool
    decreases |s|
  {
    if |s| < |pat| then false
    else s[..|pat|] == pat || ContainsSubstring(s[1..], pat)
  }

  /** The recursive scan finds `pat` exactly when it occurs at some position. */
  lemma {:induction false} ContainsSubstringIffOccurs(s: string, pat: string)
    ensures ContainsSubstring(s, pat) <==> exists i :: OccursAt(s, pat, i)
    decreases |s|
  {
    if |s| < |pat| {
    } else if s[..|pat|] == pat {
      assert OccursAt(s, pat, 0);
    } else {
      ContainsSubstringIffOccurs(s[1..], pat);
      {
        if ContainsSubstring(s[1..], pat) {
          var i :| OccursAt(s[1..], pat, i);
          assert s[1..][i..i + |pat|] == s[i + 1..i + 1 + |pat|];
          assert OccursAt(s, pat, i + 1);
        }
        if exists i :: OccursAt(s, pat, i) {
          var i :| OccursAt(s, pat, i);
          assert i != 0;
          assert s[1..][i - 1..i - 1 + |pat|] == s[i..i + |pat|];
          assert OccursAt(s[1..], pat, i - 1);
        }
      }
    }
  }

  /** Any string that ends with `pat` is found by the `[id*=pat]` selector. */
  lemma {:induction false} ContainsOwnSuffix(prefix: string, pat: string)
    ensures ContainsSubstring(prefix + pat, pat)
  {
    assert (prefix + pat)[|prefix|..|prefix| + |pat|] == pat;
    assert OccursAt(prefix + pat, pat, |prefix|);
    ContainsSubstringIffOccurs(prefix + pat, pat);
  }

  /** The id of the select-all checkbox of the table `tableId`. */
  function HeaderCheckboxId(tableId: string): (id: string)
    ensures |tableId| < |id| && id[..|tableId|] == tableId
    ensures ContainsSubstring(id, AllCheckboxSuffix)
  {
    ContainsOwnSuffix(tableId, AllCheckboxSuffix);
    tableId + AllCheckboxSuffix
  }

  // ---------------------------------------------------------------------------
  // Table construction
  // ---------------------------------------------------------------------------

  /** The data rows that `addRecords` appends for `records`, in order:
      a fresh, unchecked checkbox carrying the record's id and value, then its data. */
  function RowsFor<R>(getRecordId: R -> string, getRecordValue: R -> string,
                      getRecordData: R -> seq<string>, records: seq<R>): (rows: seq<Row>)
    ensures |rows| == |records|
    ensures forall i :: 0 <= i < |records| ==>
              rows[i] == Row(getRecordId(records[i]), getRecordValue(records[i]), false,
                             getRecordData(records[i]))
    decreases |records|
  {
    if records == [] then []
    else [Row(getRecordId(records[0]), getRecordValue(records[0]), false, getRecordData(records[0]))]
         + RowsFor(getRecordId, getRecordValue, getRecordData, records[1..])
  }

  /** Building rows one record at a time gives the rows for the longer prefix. */
  lemma RowsForSnoc<R>(getRecordId: R -> string, getRecordValue: R -> string,
                                          getRecordData: R -> seq<string>, records: seq<R>, r: R)
    ensures RowsFor(getRecordId, getRecordValue, getRecordData, records + [r])
         == RowsFor(getRecordId, getRecordValue, getRecordData, records)
            + [Row(getRecordId(r), getRecordValue(r), false, getRecordData(r))]
  {
  }

  /** `buildDataValues`: one cell per data item, in the order given. */
  method BuildDataValues(data: seq<string>) returns (cells: seq<string>)
    ensures |cells| == |data|
    ensures forall i :: 0 <= i < |data| ==> cells[i] == data[i]
  {
    cells := [];
    var i := 0;
    while i < |data|
      invariant 0 <= i <= |data|
      invariant cells == data[..i]
    {
      cells := cells + [data[i]];
      i := i + 1;
    }
  }

  // ---------------------------------------------------------------------------
  // Checkbox synchronisation
  // ---------------------------------------------------------------------------

  /** Every row checkbox forced to `b`. */
  function SetAllChecked(rows: seq<Row>, b: bool): (r: seq<Row>)
    ensures |r| == |rows|
    ensures forall i :: 0 <= i < |r| ==> SameContent(r[i], rows[i]) && r[i].checked == b
    decreases |rows|
  {
    if rows == [] then [] else [rows[0].(checked := b)] + SetAllChecked(rows[1..], b)
  }

  /** Every row checkbox whose id contains `pat` forced to unchecked; the others kept. */
  function UncheckMatching(rows: seq<Row>, pat: string): (r: seq<Row>)
    ensures |r| == |rows|
    ensures forall i :: 0 <= i < |r| ==>
              SameContent(r[i], rows[i]) &&
              r[i].checked == (rows[i].checked && !ContainsSubstring(rows[i].id, pat))
    decreases |rows|
  {
    if rows == [] then []
    else [if ContainsSubstring(rows[0].id, pat) then rows[0].(checked := false) else rows[0]]
         + UncheckMatching(rows[1..], pat)
  }

  /** The browser's own effect of a click on row `k`: its checkbox flips. */
  function Toggled(rows: seq<Row>, k: nat): (r: seq<Row>)
    requires k < |rows|
    ensures |r| == |rows|
    ensures forall i :: 0 <= i < |r| ==>
              SameContent(r[i], rows[i]) && (r[i].checked <==> (rows[i].checked != (i == k)))
  {
    rows[k := rows[k].(checked := !rows[k].checked)]
  }

  /** The select-all handler body: every checkbox of the table, select-all
      included, takes select-all's current state. */
  function SyncToSelectAll(s: CheckState): (r: CheckState)
    ensures r.selectAll == s.selectAll && |r.rows| == |s.rows|
    ensures forall i :: 0 <= i < |r.rows| ==> SameContent(r.rows[i], s.rows[i]) && r.rows[i].checked == s.selectAll
  {
    CheckState(s.selectAll, SetAllChecked(s.rows, s.selectAll))
  }

  /** A click on select-all: the browser flips it, then the handler runs. */
  function ClickSelectAllSpec(s: CheckState): (r: CheckState)
    ensures r.selectAll == !s.selectAll && |r.rows| == |s.rows|
    ensures forall i :: 0 <= i < |r.rows| ==> SameContent(r.rows[i], s.rows[i]) && r.rows[i].checked == r.selectAll
  {
    SyncToSelectAll(s.(selectAll := !s.selectAll))
  }

  /** A click on row checkbox `k`, as the source is written: the browser flips
      the box, then the handler's guard (a jQuery object, hence always true)
      lets it uncheck every checkbox whose id contains "AllCheckbox", the
      select-all checkbox among them. */
  function ClickRowSpec(s: CheckState, k: nat): (r: CheckState)
    requires k < |s.rows|
    ensures !r.selectAll && |r.rows| == |s.rows|
    ensures forall i :: 0 <= i < |r.rows| ==>
              SameContent(r.rows[i], s.rows[i]) &&
              r.rows[i].checked == ((s.rows[i].checked != (i == k)) && !ContainsSubstring(s.rows[i].id, AllCheckboxSuffix))
  {
    CheckState(false, UncheckMatching(Toggled(s.rows, k), AllCheckboxSuffix))
  }

  /** Reference definition: the row handler with the guard the source evidently
      meant, acting only when the clicked row has just become unchecked. */
  function ClickRowGuarded(s: CheckState, k: nat): (r: CheckState)
    requires k < |s.rows|
    ensures |r.rows| == |s.rows|
    ensures s.rows[k].checked ==> !r.selectAll
    ensures !s.rows[k].checked ==> r.selectAll == s.selectAll
  {
    var toggled := Toggled(s.rows, k);
    if toggled[k].checked then CheckState(s.selectAll, toggled)
    else CheckState(false, UncheckMatching(toggled, AllCheckboxSuffix))
  }

  /** A sequence of row clicks, in order. */
  function RowClicks(s: CheckState, ks: seq<nat>): (r: CheckState)
    requires forall j :: 0 <= j < |ks| ==> ks[j] < |s.rows|
    ensures |r.rows| == |s.rows|
    ensures forall i :: 0 <= i < |r.rows| ==> SameContent(r.rows[i], s.rows[i])
    decreases |ks|
  {
    if ks == [] then s else RowClicks(ClickRowSpec(s, ks[0]), ks[1..])
  }

  /** Select-all is never checked while some row is unchecked. */
  predicate SelectAllConsistent(s: CheckState) {
    s.selectAll ==> forall i :: 0 <= i < |s.rows| ==> s.rows[i].checked
  }

  /** A second select-all synchronisation changes nothing. */
  lemma SyncIdempotent(s: CheckState)
    ensures SyncToSelectAll(SyncToSelectAll(s)) == SyncToSelectAll(s)
  {
  }

  /** Clicking select-all twice restores select-all and leaves every row in that state. */
  lemma ClickSelectAllTwice(s: CheckState)
    ensures ClickSelectAllSpec(ClickSelectAllSpec(s)) == SyncToSelectAll(s)
  {
  }

  /** A select-all click leaves select-all consistent with the rows. */
  lemma SelectAllClickKeepsConsistent(s: CheckState)
    ensures SelectAllConsistent(ClickSelectAllSpec(s))
  {
  }

  /** A row click leaves select-all consistent with the rows. */
  lemma RowClickKeepsConsistent(s: CheckState, k: nat)
    requires k < |s.rows|
    ensures SelectAllConsistent(ClickRowSpec(s, k))
  {
  }

  /** No run of row clicks ever checks select-all, even one that leaves every
      row checked, unless select-all was already checked and no row was clicked. */
  lemma {:induction false} RowClicksNeverCheckSelectAll(s: CheckState, ks: seq<nat>)
    requires forall j :: 0 <= j < |ks| ==> ks[j] < |s.rows|
    requires !s.selectAll || ks != []
    ensures !RowClicks(s, ks).selectAll
    decreases |ks|
  {
    if ks != [] {
      RowClicksNeverCheckSelectAll(ClickRowSpec(s, ks[0]), ks[1..]);
    }
  }

  /** The always-true guard is invisible in every consistent state whose row ids
      do not contain "AllCheckbox": the handler as written and the guarded one agree. */
  lemma GuardImmaterialWhenConsistent(s: CheckState, k: nat)
    requires k < |s.rows| && SelectAllConsistent(s)
    requires forall i :: 0 <= i < |s.rows| ==> !ContainsSubstring(s.rows[i].id, AllCheckboxSuffix)
    ensures ClickRowSpec(s, k) == ClickRowGuarded(s, k)
  {
  }

  /** Where the guard does matter: checking one row unchecks another row whose
      id happens to contain "AllCheckbox", which the guarded handler would not do. */
  lemma MarkerRowUncheckedByNeighbour()
    ensures var s := CheckState(false, [Row("xAllCheckbox", "a", true, []), Row("r", "b", false, [])]);
            !ClickRowSpec(s, 1).rows[0].checked && ClickRowGuarded(s, 1).rows[0].checked
  {
  }

  /** `rowElement.closest('tr').remove()` for data row `k`. */
  function RemoveAt(rows: seq<Row>, k: nat): (r: seq<Row>)
    requires k < |rows|
    ensures |r| == |rows| - 1
    ensures forall j :: 0 <= j < |r| ==> r[j] == (if j < k then rows[j] else rows[j + 1])
    ensures multiset(r) + multiset{rows[k]} == multiset(rows)
  {
    assert rows == rows[..k] + [rows[k]] + rows[k + 1..];
    rows[..k] + rows[k + 1..]
  }

  /** Removing a row keeps select-all consistent with the remaining rows. */
  lemma RemoveKeepsConsistent(s: CheckState, k: nat)
    requires k < |s.rows| && SelectAllConsistent(s)
    ensures SelectAllConsistent(CheckState(s.selectAll, RemoveAt(s.rows, k)))
  {
  }

  /** `addRecords` after select-all has been checked appends unchecked rows, so
      the table then has select-all checked beside unchecked rows. */
  lemma AddRecordsUnderSelectAllBreaksConsistent<R>(getRecordId: R -> string, getRecordValue: R -> string,
                                                    getRecordData: R -> seq<string>, s: CheckState, records: seq<R>)
    requires s.selectAll && records != []
    ensures !SelectAllConsistent(CheckState(s.selectAll, s.rows + RowsFor(getRecordId, getRecordValue, getRecordData, records)))
  {
    var rows := s.rows + RowsFor(getRecordId, getRecordValue, getRecordData, records);
    assert !rows[|s.rows|].checked;
  }

  /** In such a table the guard matters: checking the unchecked row leaves
      every row checked, yet the handler as written unchecks select-all while
      the guarded one keeps it checked. */
  lemma GuardMattersWhenInconsistent()
    ensures var s := CheckState(true, [Row("a", "a", true, []), Row("b", "b", false, [])]);
            !SelectAllConsistent(s) &&
            !ClickRowSpec(s, 1).selectAll && ClickRowGuarded(s, 1).selectAll
  {
    var s := CheckState(true, [Row("a", "a", true, []), Row("b", "b", false, [])]);
    assert !s.rows[1].checked;
  }

  // ---------------------------------------------------------------------------
  // The rendered table
  // ---------------------------------------------------------------------------

  class Table {
    const id: string
    var hasHeader: bool
    var selectAllId: string
    var selectAll: bool
    var headers: seq<string>
    var rows: seq<Row>
    /** Set once the table has been detached from the document. */
    var removed: bool

    ghost predicate Valid()
      reads this
    {
      (hasHeader ==> ContainsSubstring(selectAllId, AllCheckboxSuffix)) &&
      (!hasHeader ==> !selectAll)
    }

    function State(): CheckState
      reads this
    {
      CheckState(selectAll, rows)
    }

    /** Cells in the header row: the select-all cell and one per column header. */
    function HeaderCellCount(): nat
      reads this
    {
      (if hasHeader then 1 else 0) + |headers|
    }

    /** `$('<table />', {id})`: an empty table. */
    constructor (id: string)
      ensures this.id == id && !hasHeader && !selectAll && headers == [] && rows == [] && !removed
      ensures Valid()
    {
      this.id := id;
      hasHeader := false;
      selectAllId := "";
      selectAll := false;
      headers := [];
      rows := [];
      removed := false;
    }

    /** A click on the select-all checkbox. */
    method ClickSelectAll()
      requires Valid() && hasHeader && !removed
      modifies this
      ensures Valid() && SelectAllConsistent(State())
      ensures State() == ClickSelectAllSpec(old(State()))
      ensures hasHeader && selectAllId == old(selectAllId) && headers == old(headers) && removed == old(removed)
    {
      selectAll := !selectAll;
      rows := SetAllChecked(rows, selectAll);
      SelectAllClickKeepsConsistent(old(State()));
    }

    /** A click on the checkbox of data row `k`. */
    method ClickRow(k: nat)
      requires Valid() && k < |rows| && !removed
      modifies this
      ensures Valid() && SelectAllConsistent(State())
      ensures State() == ClickRowSpec(old(State()), k)
      ensures hasHeader == old(hasHeader) && selectAllId == old(selectAllId)
      ensures headers == old(headers) && removed == old(removed)
    {
      rows := Toggled(rows, k);
      rows := UncheckMatching(rows, AllCheckboxSuffix);
      if hasHeader && ContainsSubstring(selectAllId, AllCheckboxSuffix) {
        selectAll := false;
      }
      RowClickKeepsConsistent(old(State()), k);
    }
  }

  // ---------------------------------------------------------------------------
  // The builder
  // ---------------------------------------------------------------------------

  class SelectionTableBuilder<R> {
    const getRecordId: R -> string
    const getRecordValue: R -> string
    const getRecordData: R -> seq<string>
    var tableData: Option<TableData<R>>
    var table: Table?

    constructor (recordIdGetter: R -> string, recordValueGetter: R -> string,
                 recordDataGetter: R -> seq<string>)
      ensures getRecordId == recordIdGetter && getRecordValue == recordValueGetter
      ensures getRecordData == recordDataGetter
      ensures tableData == None && table == null
    {
      getRecordId := recordIdGetter;
      getRecordValue := recordValueGetter;
      getRecordData := recordDataGetter;
      tableData := None;
      table := null;
    }

    /** `buildTable`: a fresh table holding the header row and one row per record. */
    method BuildTable() returns (t: Table)
      requires tableData.Some?
      modifies this
      ensures fresh(t) && table == t && t.Valid() && SelectAllConsistent(t.State())
      ensures tableData == old(tableData)
      ensures t.id == tableData.value.id && !t.removed
      ensures t.hasHeader && t.selectAllId == tableData.value.id + AllCheckboxSuffix && !t.selectAll
      ensures t.headers == tableData.value.columnHeaders
      ensures t.HeaderCellCount() == |tableData.value.columnHeaders| + 1
      ensures t.rows == RowsFor(getRecordId, getRecordValue, getRecordData, tableData.value.data)
      ensures forall i :: 0 <= i < |t.rows| ==>
                t.rows[i].CellCount() == |getRecordData(tableData.value.data[i])| + 1
    {
      table := new Table(tableData.value.id);
      BuildHeaderRow();
      AddRecords(tableData.value.data);
      t := table;
    }

    /** `buildHeaderRow` with `buildHeaderCheckbox`: the unchecked select-all
        checkbox followed by the column headers, in order. */
    method BuildHeaderRow()
      requires tableData.Some? && table != null && table.rows == []
      modifies table
      ensures table.Valid()
      ensures table.hasHeader && table.selectAllId == tableData.value.id + AllCheckboxSuffix
      ensures !table.selectAll && table.headers == tableData.value.columnHeaders
      ensures table.rows == [] && table.removed == old(table.removed)
    {
      var columnHeaders := tableData.value.columnHeaders;
      var cells := [];
      var i := 0;
      while i < |columnHeaders|
        invariant 0 <= i <= |columnHeaders|
        invariant cells == columnHeaders[..i]
      {
        cells := cells + [columnHeaders[i]];
        i := i + 1;
      }
      table.selectAllId := HeaderCheckboxId(tableData.value.id);
      table.selectAll := false;
      table.hasHeader := true;
      table.headers := cells;
    }

    /** `addRecords`: appends one data row per record, in order. */
    method AddRecords(records: seq<R>)
      requires table != null
      modifies table
      ensures table.rows == old(table.rows) + RowsFor(getRecordId, getRecordValue, getRecordData, records)
      ensures table.hasHeader == old(table.hasHeader) && table.selectAllId == old(table.selectAllId)
      ensures table.selectAll == old(table.selectAll) && table.headers == old(table.headers)
      ensures table.removed == old(table.removed)
      ensures old(table.Valid()) ==> table.Valid()
    {
      var t: Table := table;
      ghost var before := t.rows;
      var i := 0;
      while i < |records|
        invariant 0 <= i <= |records|
        invariant t.rows == before + RowsFor(getRecordId, getRecordValue, getRecordData, records[..i])
        invariant unchanged(t`hasHeader, t`selectAllId, t`selectAll, t`headers, t`removed)
      {
        var row := BuildDataRow(records[i]);
        assert row.cells == getRecordData(records[i]);
        RowsForSnoc(getRecordId, getRecordValue, getRecordData, records[..i], records[i]);
        assert records[..i + 1] == records[..i] + [records[i]];
        t.rows := t.rows + [row];
        i := i + 1;
      }
      assert records[..i] == records;
    }

    /** `buildDataRow` with `buildDataCheckbox`: an unchecked checkbox carrying the
        record's id and value, then one cell per item of the record's data. */
    method BuildDataRow(record: R) returns (row: Row)
      ensures row.id == getRecordId(record) && row.value == getRecordValue(record)
      ensures !row.checked
      ensures |row.cells| == |getRecordData(record)|
      ensures forall i :: 0 <= i < |row.cells| ==> row.cells[i] == getRecordData(record)[i]
    {
      var cells := BuildDataValues(getRecordData(record));
      row := Row(getRecordId(record), getRecordValue(record), false, cells);
    }

    /** `removeRow`: deletes data row `k`, keeping everything else. */
    method RemoveRow(k: nat)
      requires table != null && k < |table.rows|
      modifies table
      ensures old(table.Valid()) ==> table.Valid()
      ensures old(SelectAllConsistent(table.State())) ==> SelectAllConsistent(table.State())
      ensures table.rows == RemoveAt(old(table.rows), k)
      ensures table.hasHeader == old(table.hasHeader) && table.selectAllId == old(table.selectAllId)
      ensures table.selectAll == old(table.selectAll) && table.headers == old(table.headers)
      ensures table.removed == old(table.removed)
    {
      if SelectAllConsistent(table.State()) {
        RemoveKeepsConsistent(table.State(), k);
      }
      table.rows := RemoveAt(table.rows, k);
    }

    /** `removeTable`: detaches the table; its contents stay as they were. */
    method RemoveTable()
      requires table != null
      modifies table
      ensures table.removed
      ensures table.hasHeader == old(table.hasHeader) && table.selectAllId == old(table.selectAllId)
      ensures table.selectAll == old(table.selectAll) && table.headers == old(table.headers)
      ensures table.rows == old(table.rows)
    {
      table.removed := true;
    }

    /** `getRecordsCount`: the rows of the table, the header row excluded. */
    method GetRecordsCount() returns (n: int)
      requires table != null && table.hasHeader
      ensures n == |table.rows|
    {
      var rowElements := (if table.hasHeader then 1 else 0) + |table.rows|;
      n := rowElements - 1;
    }
  }
}

# SelectionTable, modelled in Dafny

SelectionTable is a small jQuery utility. `SelectionTableBuilder` is given three
accessors: record to id, record to value, and record to cell data. The caller then
assigns it a `tableData` object (table id, column headers, records), and
`buildTable` renders a table. The table has a header row: a "select all" checkbox
with id `<table id>AllCheckbox`, then one header cell per column. After it comes
one row per record: a checkbox carrying the record's id and value, then one cell
per data item. Two click handlers couple the checkboxes:

- clicking select-all gives every checkbox of the table select-all's new state;
- clicking a row checkbox unchecks every checkbox whose id contains "AllCheckbox",
  select-all among them.

`removeRow`, `removeTable` and `getRecordsCount` act on the built table.

The model is one module, `SelectionTable` (`SelectionTable.dfy`):

- `SelectionTableBuilder<R>` is a class. Its accessors are `const` arrow fields,
  `tableData` is an `Option`, and `table` points to the built `Table`.
- `Table` is a class with the state the DOM held. It has the table id, the header
  (present flag, select-all id, select-all state, labels), the data rows as a
  `seq<Row>`, and a `removed` flag.
- The loops of `buildHeaderRow`, `addRecords` and `buildDataValues` are `while`
  loops with invariants.
- Each click handler is a `Table` method. Its `ensures` ties the new checkbox state
  to a pure transition on `CheckState` (select-all flag plus rows). The lemmas about
  the handlers are proved on those transitions.
- `Table.Valid()` holds the header facts that the builder establishes:
  - the select-all id contains "AllCheckbox";
  - there is no checked select-all without a header.
- `SelectAllConsistent` is a separate invariant: select-all is checked only when
  every row is. `buildTable` establishes it, and both clicks and `removeRow` keep it.
  `addRecords` can break it: rows appended after a select-all click arrive unchecked
  under a checked select-all. The click handlers and `removeRow` accept such a table.

`SelectionTableExample.dfy` builds the two-record table "t1" and follows it through
clicks and a removal. It also builds a second table that gains a record while
select-all is checked.

The row handler is modelled as written. Its guard, `if ($(this).not(':checked'))`,
tests a jQuery object. Such an object is always truthy, so the handler runs on every
row click, whether the row became checked or unchecked. `ClickRowGuarded` is the
handler with the guard the authors evidently meant. The two compare as follows:

- `GuardImmaterialWhenConsistent` proves that they agree in every consistent state
  without "AllCheckbox" in a row id.
- `GuardMattersWhenInconsistent` gives a state they disagree on. That state is
  reachable through `addRecords` after a select-all click.
- `MarkerRowUncheckedByNeighbour` gives another such state: one where a row id
  contains "AllCheckbox".

The code has no check for a missing `tableData`, a missing table or a bad row
reference. These become `requires` clauses.

## Model

| member | source | states |
|---|---|---|
| `SelectionTable.SelectionTableBuilder.constructor` | selectionTable.js:35-39 | the three accessors are stored; no table data and no table yet |
| `SelectionTable.SelectionTableBuilder.BuildTable` | selectionTable.js:41-50 | returns a fresh table and keeps it as `table`. The table id is the data's id. The header is present, its select-all id is id + "AllCheckbox" and it is unchecked. The header labels are the column headers in order, so the header row has one more cell than there are column headers. The rows are one unchecked row per record, in order, and row i has `|getRecordData(data[i])| + 1` cells. The table is valid and select-all is consistent with the rows |
| `SelectionTable.Table.constructor` | selectionTable.js:42-44 | an empty table with the given id: no header, no rows, not removed |
| `SelectionTable.SelectionTableBuilder.BuildHeaderRow` | selectionTable.js:52-62 | sets a header whose select-all id is table id + "AllCheckbox", unchecked, followed by exactly the column headers in order; rows stay empty; the table becomes valid |
| `SelectionTable.HeaderCheckboxId` | selectionTable.js:68-71 | the select-all id starts with the table id and is found by the `[id*="AllCheckbox"]` lookup |
| `SelectionTable.SelectionTableBuilder.AddRecords` | selectionTable.js:79-83 | the rows become the old rows followed by `RowsFor(records)`; the header, select-all state and removed flag are unchanged; validity is kept |
| `SelectionTable.AddRecordsUnderSelectAllBreaksConsistent` | selectionTable.js:79-83 | appending at least one record's rows under a checked select-all leaves select-all checked beside an unchecked row |
| `SelectionTable.RowsFor` | selectionTable.js:79-92 | one row per record in the same order; row i carries record i's id, value and data and is unchecked |
| `SelectionTable.RowsForSnoc` | selectionTable.js:79-83 | appending the row of one more record gives the rows of the extended record list (the step of the `addRecords` loop) |
| `SelectionTable.SelectionTableBuilder.BuildDataRow` | selectionTable.js:85-108 | the row's checkbox has the record's id and value and is unchecked; its cells are the record's data items, same count, same order |
| `SelectionTable.BuildDataValues` | selectionTable.js:110-118 | one cell per data item, cell i holding item i |
| `SelectionTable.SetAllChecked` | selectionTable.js:73-74 | every row takes the given state; ids, values and cells are unchanged; the length is kept |
| `SelectionTable.SyncToSelectAll` | selectionTable.js:72-75 | the select-all handler body: every row takes select-all's state, select-all keeps its own, nothing else changes |
| `SelectionTable.ClickSelectAllSpec` | selectionTable.js:72-75 | a select-all click: select-all flips, then every row takes its new state; ids, values and cells unchanged |
| `SelectionTable.SyncIdempotent` | selectionTable.js:72-75 | running the select-all handler twice gives the same state as running it once |
| `SelectionTable.ClickSelectAllTwice` | selectionTable.js:72-75 | two select-all clicks restore select-all and leave every row in that original state |
| `SelectionTable.SelectAllClickKeepsConsistent` | selectionTable.js:72-75 | after a select-all click, select-all checked implies every row checked |
| `SelectionTable.Table.ClickSelectAll` | selectionTable.js:72-75 | the table's checkbox state becomes `ClickSelectAllSpec` of the old one; header, select-all id and removed flag unchanged; validity kept and select-all consistent afterwards, from any state; it requires the table not to have been removed |
| `SelectionTable.ContainsSubstringIffOccurs` | selectionTable.js:101 | `ContainsSubstring`, the model of the `[id*=...]` match, holds exactly when the pattern occurs at some position of the id |
| `SelectionTable.ContainsOwnSuffix` | selectionTable.js:71 | an id ending with the pattern always matches it, so the select-all id matches "AllCheckbox" |
| `SelectionTable.UncheckMatching` | selectionTable.js:101-104 | a row ends up checked exactly when it was checked and its id does not contain the pattern; ids, values, cells and length unchanged |
| `SelectionTable.Toggled` | selectionTable.js:100-105 | the browser's flip of the clicked box: only row k's checked state changes |
| `SelectionTable.ClickRowSpec` | selectionTable.js:100-105 | a row click as written: select-all ends unchecked whatever the row's new state; row i is checked exactly when its flipped-if-clicked state is checked and its id lacks "AllCheckbox"; ids, values and cells unchanged |
| `SelectionTable.RowClickKeepsConsistent` | selectionTable.js:100-105 | after a row click, select-all checked implies every row checked |
| `SelectionTable.RowClicks` | selectionTable.js:100-105 | any run of row clicks keeps the number of rows and their ids, values and cells |
| `SelectionTable.RowClicksNeverCheckSelectAll` | selectionTable.js:100-105 | no run of at least one row click leaves select-all checked, even one that checks every row |
| `SelectionTable.ClickRowGuarded` | selectionTable.js:102-104 | reference handler with the intended guard: it unchecks select-all when the clicked row was checked and leaves it alone when the row becomes checked |
| `SelectionTable.GuardImmaterialWhenConsistent` | selectionTable.js:101-104 | in a consistent state with no "AllCheckbox" in any row id, the handler as written equals the guarded one |
| `SelectionTable.MarkerRowUncheckedByNeighbour` | selectionTable.js:101-104 | checking one row unchecks another row whose id contains "AllCheckbox"; the guarded handler would keep it checked |
| `SelectionTable.GuardMattersWhenInconsistent` | selectionTable.js:101-104 | in a table whose select-all is checked beside an unchecked row, checking that row leaves every row checked; the handler as written unchecks select-all and the guarded one keeps it checked |
| `SelectionTable.Table.ClickRow` | selectionTable.js:100-105 | the table's checkbox state becomes `ClickRowSpec` of the old one; header, select-all id and removed flag unchanged; validity kept and select-all consistent afterwards, from any state; it requires the table not to have been removed |
| `SelectionTable.RemoveAt` | selectionTable.js:120-123 | one row fewer; rows before k stay in place and rows after k shift down by one; the multiset loses exactly row k |
| `SelectionTable.RemoveKeepsConsistent` | selectionTable.js:120-123 | removing a row keeps select-all consistent with the remaining rows |
| `SelectionTable.SelectionTableBuilder.RemoveRow` | selectionTable.js:120-123 | the rows become `RemoveAt(old rows, k)`; header, select-all state and removed flag unchanged; validity and consistency are kept when they held before |
| `SelectionTable.SelectionTableBuilder.RemoveTable` | selectionTable.js:125-127 | the table is marked removed; its header, select-all state and rows are unchanged |
| `SelectionTable.SelectionTableBuilder.GetRecordsCount` | selectionTable.js:129-131 | the row count minus the header row, which is the number of data rows |

## Left out

- jQuery element creation, `append` and `newHeaderColumn` (selectionTable.js:64-66)
  are not modelled: a header cell is its label, a data cell its content string.
- `SelectionTable.BuildDataValues`: returns one cell per data item, in order. The source
  returns the `.html()` serialisation of the `td` elements, and `append` parses it
  again. That gives the same cells only for plain-text items. An item whose markup
  holds a cell tag comes back as several cells, and an element item loses its
  bound handlers and data. The model treats every item as plain text.
- DOM traversal is replaced by direct access to the table's fields. This covers
  `closest('table')`, `find('input:checkbox')` and `find('input[id*="AllCheckbox"]')`.
  The substring match itself is modelled.
- `Table.ClickSelectAll`: reaches only the select-all and row checkboxes. In the
  source, `find('input:checkbox')` would also reach a checkbox inside a data cell's
  markup. Cells are opaque strings in the model.
- jQuery's `attr('checked', ...)` is taken to set the checked state. The split
  between the checked attribute and the checked property is not modelled.
- Event binding and the browser's click dispatch are not modelled. Each click is a
  method call: the browser flips the clicked box, then the handler runs.
- `SelectionTable.SelectionTableBuilder.RemoveRow`: takes a data-row index in place of
  an element reference. Removing the header row through an element inside it is not
  modelled.
- `SelectionTable.SelectionTableBuilder.RemoveTable`: only sets a `removed` flag.
  Detaching the table from the document is DOM I/O. As in the source, the builder
  keeps its reference, and `GetRecordsCount` still counts the detached table's rows.
  A removed table receives no clicks: both click methods require `!removed`.
- `GetRecordsCount` counts `table.children().children()`, which relies on jQuery
  inserting a `tbody`. The model counts header plus data rows directly.
- A missing `tableData` or table is a `requires`, not an error result. The source
  performs no such checks and fails with a TypeError.
- Accessor functions that throw are not modelled. The accessors are total
  functions.
- Uniqueness of ids within the host document is not modelled.

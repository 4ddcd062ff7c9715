/**
 A client of the builder: a table "t1" with one column and two records,
 followed by the clicks and the removal a page would make.
 */
module SelectionTableExample {
  import opened SelectionTable

  datatype Person = Person(id: string, val: string, name: string)

  method TwoPeopleTable() {
    var b := new SelectionTableBuilder<Person>((p: Person) => p.id, (p: Person) => p.val,
                                               (p: Person) => [p.name]);
    b.tableData := Some(TableData("t1", ["Name"], [Person("r1", "v1", "Alice"), Person("r2", "v2", "Bob")]));
    var t := b.BuildTable();
    assert t.selectAllId == "t1AllCheckbox";
    assert t.headers == ["Name"] && t.HeaderCellCount() == 2;
    assert t.rows == [Row("r1", "v1", false, ["Alice"]), Row("r2", "v2", false, ["Bob"])];
    var n := b.GetRecordsCount();
    assert n == 2;

    // Checking every row by hand leaves select-all unchecked.
    t.ClickRow(0);
    t.ClickRow(1);
    assert t.rows[0].checked && t.rows[1].checked && !t.selectAll;

    // Select-all checked, then unchecked, drags every row along.
    t.ClickSelectAll();
    assert t.selectAll && t.rows[0].checked && t.rows[1].checked;
    t.ClickSelectAll();
    assert !t.selectAll && !t.rows[0].checked && !t.rows[1].checked;

    b.RemoveRow(0);
    n := b.GetRecordsCount();
    assert n == 1 && t.rows == [Row("r2", "v2", false, ["Bob"])];
  }

  /** A record added under a checked select-all arrives unchecked; checking it
      leaves every row checked and select-all unchecked. */
  method AddUnderSelectAll() {
    var b := new SelectionTableBuilder<Person>((p: Person) => p.id, (p: Person) => p.val,
                                               (p: Person) => [p.name]);
    b.tableData := Some(TableData("t2", ["Name"], [Person("r1", "v1", "Alice")]));
    var t := b.BuildTable();
    t.ClickSelectAll();
    assert t.selectAll && t.rows[0].checked;
    b.AddRecords([Person("r2", "v2", "Bob")]);
    assert t.selectAll && !t.rows[1].checked && !SelectAllConsistent(t.State());
    t.ClickRow(1);
    assert !t.selectAll && t.rows[0].checked && t.rows[1].checked;
    var n := b.GetRecordsCount();
    assert n == 2;
  }
}

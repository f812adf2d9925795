/**
 PRIMARY KEY, UNIQUE and NOT NULL: every statement keeps them, except an ADD COLUMN whose backfill breaks
 the new column's own constraints; and exactly when it does.
 */
module KeyConstraints {
  import opened Types
  import opened Ast
  import opened Filters
  import opened Statements
  import opened Conformance
  import D = Database

  // ---- the invariant ----

  predicate NoNulls(rows: seq<Row>, column: string) {
    forall row :: row in rows ==> Get(row, column) != Null
  }

  predicate Differ(row: Row, other: Row, column: string) {
    Get(row, column) == Null || Get(row, column) != Get(other, column)
  }

  /** No two rows share a non-NULL value of the column. */
  predicate NoDuplicates(rows: seq<Row>, column: string) {
    forall i, j :: 0 <= i < j < |rows| ==> Differ(rows[i], rows[j], column)
  }

  predicate ColumnHolds(c: Column, rows: seq<Row>) {
    && (MustNotBeNull(c) ==> NoNulls(rows, c.name))
    && (MustBeUnique(c) ==> NoDuplicates(rows, c.name))
  }

  predicate TableKeysHold(t: D.Table) {
    forall c :: c in t.columns ==> ColumnHolds(c, t.rows)
  }

  ghost predicate KeysHold(db: D.Db) {
    forall name :: name in db.tables ==> TableKeysHold(db.tables[name])
  }

  // ---- the guard ----

  /** What ADD COLUMN does not check: that the value it backfills suits the new column's own constraints. */
  predicate ColumnFits(column: Column, value: Value, rows: nat) {
    && (MustNotBeNull(column) ==> value != Null || rows == 0)
    && (MustBeUnique(column) ==> value == Null || rows <= 1)
  }

  /** The value ADD COLUMN backfills. */
  function BackfillValue(column: Column, default: Option<Value>): Value {
    var value := Coerce(column.name, column.dataType, if default.Some? then default.value else Null);
    if value.Ok? then value.value else Null
  }

  predicate KeysSafe(db: D.Db, statement: Statement) {
    statement.AddColumn? ==>
      ColumnFits(statement.newColumn, BackfillValue(statement.newColumn, statement.default), RowCount(db, statement.table))
  }

  // ---- values of one column ----

  /** Two row lists with the same values of a column, position by position. */
  predicate SameValues(rows: seq<Row>, column: string, after: seq<Row>, renamed: string) {
    |after| == |rows| && forall i :: 0 <= i < |rows| ==> Get(after[i], renamed) == Get(rows[i], column)
  }

  lemma SameValuesHold(c: Column, rows: seq<Row>, d: Column, after: seq<Row>)
    requires SameValues(rows, c.name, after, d.name) && d.constraints == c.constraints && ColumnHolds(c, rows)
    ensures ColumnHolds(d, after)
  {
    if MustNotBeNull(d) {
      forall row | row in after ensures Get(row, d.name) != Null {
        var i :| 0 <= i < |after| && after[i] == row;
        assert rows[i] in rows;
      }
    }
    if MustBeUnique(d) {
      forall i, j | 0 <= i < j < |after| ensures Differ(after[i], after[j], d.name) {
        assert Differ(rows[i], rows[j], c.name);
      }
    }
  }

  // ---- INSERT ----

  lemma AllowedRowHolds(t: D.Table, row: Row)
    requires TableKeysHold(t) && RowAllowed(t.columns, t.rows, row)
    ensures TableKeysHold(t.(rows := t.rows + [row]))
  {
    forall c | c in t.columns ensures ColumnHolds(c, t.rows + [row]) {
      assert ColumnHolds(c, t.rows) && ValueAllowed(c, t.rows, Get(row, c.name));
      var rows := t.rows + [row];
      if MustBeUnique(c) {
        forall i, j | 0 <= i < j < |rows| ensures Differ(rows[i], rows[j], c.name) {
          if j < |t.rows| {
            assert Differ(t.rows[i], t.rows[j], c.name);
          } else {
            assert t.rows[i] in t.rows;
          }
        }
      }
    }
  }

  // ---- UPDATE ----

  predicate DistinctAssignments(assignments: Assignments) {
    forall i, j :: 0 <= i < j < |assignments| ==> assignments[i].0 != assignments[j].0
  }

  lemma {:induction false} CoercedAreDistinct(columns: seq<Column>, table: string, assignments: Assignments)
    requires CoerceAssignments(columns, table, assignments).Ok?
    ensures |CoerceAssignments(columns, table, assignments).value| == |assignments|
    ensures forall i :: 0 <= i < |assignments| ==>
      CoerceAssignments(columns, table, assignments).value[i].0 == assignments[i].0
    ensures DistinctAssignments(CoerceAssignments(columns, table, assignments).value)
  {
    if assignments != [] {
      var n := |assignments| - 1;
      CoercedAreDistinct(columns, table, assignments[..n]);
      forall i | 0 <= i < n ensures assignments[i].0 != assignments[n].0 {
        assert assignments[..n][i] == assignments[i];
      }
    }
  }

  lemma {:induction false} FoundAssignment(assignments: Assignments, column: string)
    ensures FindAssignment(assignments, column).Some? <==> Assigns(assignments, column)
    ensures FindAssignment(assignments, column).Some? ==>
      exists i :: 0 <= i < |assignments| && assignments[i] == (column, FindAssignment(assignments, column).value)
  {
    if assignments != [] {
      FoundAssignment(assignments[1..], column);
      assert forall i :: 0 < i < |assignments| ==> assignments[i] == assignments[1..][i - 1];
    }
  }

  lemma {:induction false} NotAssigned(row: Row, assignments: Assignments, column: string)
    requires !Assigns(assignments, column)
    ensures Get(Assigned(row, assignments), column) == Get(row, column)
  {
    if assignments != [] {
      var n := |assignments| - 1;
      assert !Assigns(assignments[..n], column) by {
        assert forall i :: 0 <= i < n ==> assignments[..n][i] == assignments[i];
      }
      NotAssigned(row, assignments[..n], column);
    }
  }

  lemma {:induction false} AssignedAt(row: Row, assignments: Assignments, i: nat)
    requires i < |assignments| && DistinctAssignments(assignments)
    ensures Get(Assigned(row, assignments), assignments[i].0) == assignments[i].1
  {
    var n := |assignments| - 1;
    if i < n {
      AssignedAt(row, assignments[..n], i);
    }
  }

  /** After an UPDATE a row holds, in each column, the value its checks looked at. */
  lemma UpdatesGive(row: Row, assignments: Assignments, filter: Option<Filter>, column: string)
    requires DistinctAssignments(assignments)
    ensures Get(Updates(assignments, filter)(row), column) == UpdatedValue(row, assignments, filter, column)
  {
    hide RowMatches, Assigned;
    FoundAssignment(assignments, column);
    if Assigns(assignments, column) {
      var i :| 0 <= i < |assignments| && assignments[i] == (column, FindAssignment(assignments, column).value);
      AssignedAt(row, assignments, i);
    } else {
      NotAssigned(row, assignments, column);
    }
  }

  lemma UpdatedColumnHolds(t: D.Table, c: Column, assignments: Assignments, filter: Option<Filter>)
    requires TableConforms(t) && c in t.columns && ColumnHolds(c, t.rows)
    requires DistinctAssignments(assignments) && UpdateKeepsUnique(t.columns, t.rows, assignments, filter)
    requires !(AssignsForbiddenNull(t.columns, assignments) && AnyMatches(t.rows, filter))
    ensures ColumnHolds(c, D.MapRows(t.rows, Updates(assignments, filter)))
  {
    hide RowMatches, TableConforms, Assigned, UpdateKeepsUnique, AssignsForbiddenNull;
    var f := Updates(assignments, filter);
    var after := D.MapRows(t.rows, f);
    forall i | 0 <= i < |after| ensures Get(after[i], c.name) == UpdatedValue(t.rows[i], assignments, filter, c.name) {
      UpdatesGive(t.rows[i], assignments, filter, c.name);
    }
    FoundAssignment(assignments, c.name);
    if !Assigns(assignments, c.name) {
      assert SameValues(t.rows, c.name, after, c.name);
      SameValuesHold(c, t.rows, c, after);
    } else {
      if MustNotBeNull(c) {
        AssignsNoNull(t, c, assignments, filter);
        forall row | row in after ensures Get(row, c.name) != Null {
          var i :| 0 <= i < |after| && after[i] == row;
          assert t.rows[i] in t.rows;
        }
      }
      if MustBeUnique(c) {
        UniqueKept(t, c, assignments, filter);
        forall i, j | 0 <= i < j < |after| ensures Differ(after[i], after[j], c.name) {
          assert !Clash(t.rows[i], t.rows[j], assignments, filter, c.name);
        }
      }
    }
  }

  lemma UniqueKept(t: D.Table, c: Column, assignments: Assignments, filter: Option<Filter>)
    requires c in t.columns && MustBeUnique(c) && Assigns(assignments, c.name)
    requires UpdateKeepsUnique(t.columns, t.rows, assignments, filter)
    ensures StaysUnique(t.rows, assignments, filter, c.name)
  {
  }

  lemma AssignsNoNull(t: D.Table, c: Column, assignments: Assignments, filter: Option<Filter>)
    requires TableConforms(t) && c in t.columns && MustNotBeNull(c) && NoNulls(t.rows, c.name)
    requires Assigns(assignments, c.name)
    requires !(AssignsForbiddenNull(t.columns, assignments) && AnyMatches(t.rows, filter))
    ensures forall row :: row in t.rows ==> UpdatedValue(row, assignments, filter, c.name) != Null
  {
    hide RowMatches;
    FoundAssignment(assignments, c.name);
    FindsColumn(t.columns, c);
    forall row | row in t.rows ensures UpdatedValue(row, assignments, filter, c.name) != Null {
      if RowMatches(row, filter) {
        assert AnyMatches(t.rows, filter);
        var i :| 0 <= i < |assignments| && assignments[i] == (c.name, FindAssignment(assignments, c.name).value);
        assert assignments[i].1 != Null;
      }
    }
  }

  // ---- DELETE and schema changes ----

  lemma KeptRowsHold(t: D.Table, keep: Row -> bool)
    requires TableKeysHold(t)
    ensures TableKeysHold(t.(rows := D.Keep(t.rows, keep)))
  {
    var kept := D.Keep(t.rows, keep);
    var at := D.KeepPositions(t.rows, keep);
    D.KeepMembers(t.rows, keep);
    forall c | c in t.columns ensures ColumnHolds(c, kept) {
      assert ColumnHolds(c, t.rows);
      if MustBeUnique(c) {
        forall i, j | 0 <= i < j < |kept| ensures Differ(kept[i], kept[j], c.name) {
          assert Differ(t.rows[at[i]], t.rows[at[j]], c.name);
        }
      }
    }
  }

  /** A constant column holds its constraints exactly when its value fits. */
  lemma ConstantColumn(c: Column, rows: seq<Row>, value: Value)
    requires forall i :: 0 <= i < |rows| ==> Get(rows[i], c.name) == value
    ensures ColumnHolds(c, rows) <==> ColumnFits(c, value, |rows|)
  {
    if |rows| > 0 {
      assert rows[0] in rows;
      if |rows| > 1 {
        assert Differ(rows[0], rows[1], c.name) <==> value == Null;
      }
    }
  }

  lemma AddedKeys(t: D.Table, column: Column, value: Value)
    requires TableConforms(t) && TableKeysHold(t) && !D.HasColumn(t.columns, column.name)
    ensures TableKeysHold(D.Table(t.columns + [column], D.MapRows(t.rows, D.AddsValue(column.name, value))))
      <==> ColumnFits(column, value, |t.rows|)
  {
    hide ColumnHolds, ColumnFits, TableConforms;
    var rows := D.MapRows(t.rows, D.AddsValue(column.name, value));
    ConstantColumn(column, rows, value);
    ColumnsIn(t.columns, column.name);
    forall c | c in t.columns ensures ColumnHolds(c, rows) {
      SameValuesHold(c, t.rows, c, rows);
    }
    assert column in t.columns + [column];
  }

  lemma DroppedKeys(t: D.Table, column: string)
    requires TableKeysHold(t)
    ensures TableKeysHold(D.Table(D.WithoutColumn(t.columns, column), D.MapRows(t.rows, D.RemovesValue(column))))
  {
    hide ColumnHolds;
    var rows := D.MapRows(t.rows, D.RemovesValue(column));
    OtherColumns(t.columns, column);
    forall c | c in t.columns && c.name != column ensures ColumnHolds(c, rows) {
      SameValuesHold(c, t.rows, c, rows);
    }
  }

  lemma RenamedKeys(t: D.Table, from: string, to: string)
    requires TableConforms(t) && TableKeysHold(t) && D.HasColumn(t.columns, from) && !D.HasColumn(t.columns, to)
    ensures TableKeysHold(D.Table(D.ColumnsRenamed(t.columns, from, to), D.MapRows(t.rows, D.RenamesValue(from, to))))
  {
    hide ColumnHolds;
    var columns := D.ColumnsRenamed(t.columns, from, to);
    var rows := D.MapRows(t.rows, D.RenamesValue(from, to));
    ColumnsIn(t.columns, from);
    ColumnsIn(t.columns, to);
    forall c | c in columns ensures ColumnHolds(c, rows) {
      var i :| 0 <= i < |columns| && columns[i] == c;
      var was := t.columns[i];
      assert was in t.columns;
      forall k | 0 <= k < |rows| ensures Get(rows[k], c.name) == Get(t.rows[k], was.name) {
        assert t.rows[k] in t.rows && RowConforms(t.columns, t.rows[k]);
      }
      SameValuesHold(was, t.rows, c, rows);
    }
  }

  // ---- every statement ----

  lemma SetTableKeys(db: D.Db, table: string, t: D.Table)
    requires KeysHold(db) && table in db.tables
    ensures KeysHold(D.SetTable(db, table, t)) <==> TableKeysHold(t)
  {
    hide TableKeysHold;
    assert D.SetTable(db, table, t).tables[table] == t;
  }

  lemma InsertKeepsKeys(db: D.Db, table: string, into: Option<seq<string>>, values: seq<Value>)
    requires Conforms(db) && KeysHold(db) && RunInsert(db, table, into, values).Ok?
    ensures KeysHold(RunInsert(db, table, into, values).value)
  {
    hide RowAllowed, TableKeysHold, BuildRow, CheckRowReferences;
    var t := db.tables[table];
    var row := BuildRow(t.columns, table, into, values).value;
    AllowedRowHolds(t, row);
    SetTableKeys(db, table, t.(rows := t.rows + [row]));
  }

  lemma UpdateKeepsKeys(db: D.Db, table: string, assignments: Assignments, filter: Option<Filter>)
    requires Conforms(db) && KeysHold(db) && RunUpdate(db, table, assignments, filter).Ok?
    ensures KeysHold(RunUpdate(db, table, assignments, filter).value)
  {
    hide TableConforms, RowMatches, Assigned, UpdateStrands, CheckAssignedReferences, PreparedFilter, UpdateKeepsUnique;
    hide ColumnHolds, AssignsForbiddenNull, AnyMatches;
    var t := db.tables[table];
    var prepared := PreparedFilter(db, table, filter).value;
    var coerced := PrepareAssignments(t.columns, table, assignments).value;
    UpdateRewrites(t.columns, t.rows, coerced, prepared);
    CoercedAreDistinct(t.columns, table, assignments);
    var rows := D.MapRows(t.rows, Updates(coerced, prepared));
    forall c | c in t.columns ensures ColumnHolds(c, rows) {
      UpdatedColumnHolds(t, c, coerced, prepared);
    }
    SetTableKeys(db, table, t.(rows := rows));
  }

  lemma DeleteKeepsKeys(db: D.Db, table: string, filter: Option<Filter>)
    requires KeysHold(db) && RunDelete(db, table, filter).Ok?
    ensures KeysHold(RunDelete(db, table, filter).value)
  {
    hide TableKeysHold, RowMatches, DeleteStrands, PreparedFilter;
    var t := db.tables[table];
    var prepared := PreparedFilter(db, table, filter).value;
    DeleteRewrites(t.rows, prepared);
    KeptRowsHold(t, Unmatched(prepared));
    SetTableKeys(db, table, t.(rows := D.Keep(t.rows, Unmatched(prepared))));
  }

  lemma AddColumnKeys(db: D.Db, table: string, column: Column, default: Option<Value>)
    requires Conforms(db) && KeysHold(db) && RunAddColumn(db, table, column, default).Ok?
    ensures KeysHold(RunAddColumn(db, table, column, default).value)
      <==> ColumnFits(column, BackfillValue(column, default), RowCount(db, table))
  {
    hide TableKeysHold, TableConforms, ColumnFits;
    var t := db.tables[table];
    var value := BackfillValue(column, default);
    AddedKeys(t, column, value);
    SetTableKeys(db, table, D.Table(t.columns + [column], D.MapRows(t.rows, D.AddsValue(column.name, value))));
  }

  lemma DropColumnKeepsKeys(db: D.Db, table: string, column: string)
    requires KeysHold(db) && D.DropColumn(db, table, column).Ok?
    ensures KeysHold(D.DropColumn(db, table, column).value)
  {
    hide TableKeysHold;
    DroppedKeys(db.tables[table], column);
  }

  lemma RenameColumnKeepsKeys(db: D.Db, table: string, from: string, to: string)
    requires Conforms(db) && KeysHold(db) && D.RenameColumn(db, table, from, to).Ok?
    ensures KeysHold(D.RenameColumn(db, table, from, to).value)
  {
    hide TableKeysHold, TableConforms;
    RenamedKeys(db.tables[table], from, to);
  }

  lemma CatalogKeepsKeys(db: D.Db, statement: Statement)
    requires KeysHold(db) && ChangesData(statement) && Change(db, statement).Ok?
    requires statement.CreateTable? || statement.DropTable? || statement.CreateIndex? || statement.DropIndex?
    ensures KeysHold(Change(db, statement).value)
  {
    hide ColumnHolds, SchemaOk;
    if statement.CreateTable? {
      NoRowsHold(statement.columns);
    }
  }

  lemma NoRowsHold(columns: seq<Column>)
    ensures TableKeysHold(D.Table(columns, []))
  {
  }

  /** A statement that goes through keeps all key constraints exactly when its guard holds. */
  lemma ChangeKeepsKeys(db: D.Db, statement: Statement)
    requires Conforms(db) && KeysHold(db) && ChangesData(statement) && Change(db, statement).Ok?
    ensures KeysHold(Change(db, statement).value) <==> KeysSafe(db, statement)
  {
    hide Conforms, KeysHold, RunAddColumn, RunInsert, RunUpdate, RunDelete, RunCreateTable, RunDropTable, ColumnFits;
    match statement {
      case AddColumn(table, column, default) => AddColumnKeys(db, table, column, default);
      case DropColumn(table, column) => DropColumnKeepsKeys(db, table, column);
      case RenameColumn(table, from, to) => RenameColumnKeepsKeys(db, table, from, to);
      case Insert(table, into, values) => InsertKeepsKeys(db, table, into, values);
      case Update(table, assignments, filter) => UpdateKeepsKeys(db, table, assignments, filter);
      case Delete(table, filter) => DeleteKeepsKeys(db, table, filter);
      case _ => CatalogKeepsKeys(db, statement);
    }
  }

  // ---- a backfill that breaks UNIQUE ----

  const ID := Column("id", IntType, [])
  const TWO_ROWS := D.Table([ID], [map["id" := Int(1)], map["id" := Int(2)]])
  const TWO_ROWS_DB := D.Db(map["t" := TWO_ROWS], [], [])
  const ADD_UNIQUE := AddColumn("t", Column("k", IntType, [Unique]), Some(Int(7)))

  lemma TwoRowsAreSound()
    ensures Conforms(TWO_ROWS_DB) && KeysHold(TWO_ROWS_DB)
  {
    assert TWO_ROWS.columns[0] == ID;
    assert NameSet(TWO_ROWS.columns) == {"id"} by {
      assert ID in TWO_ROWS.columns;
    }
    assert TableConforms(TWO_ROWS);
    assert TableKeysHold(TWO_ROWS);
  }

  lemma AddUniqueAccepted()
    ensures Change(TWO_ROWS_DB, ADD_UNIQUE).Ok? && !KeysSafe(TWO_ROWS_DB, ADD_UNIQUE)
  {
    assert TWO_ROWS.columns[0].name != "k";
    assert Unique in [Unique];
    assert RunAddColumn(TWO_ROWS_DB, "t", Column("k", IntType, [Unique]), Some(Int(7))).Ok?;
  }

  /** The backfill is not checked: ADD COLUMN k INT UNIQUE DEFAULT 7 on two rows goes through and duplicates 7. */
  lemma UncheckedBackfill()
    ensures Conforms(TWO_ROWS_DB) && KeysHold(TWO_ROWS_DB)
    ensures Change(TWO_ROWS_DB, ADD_UNIQUE).Ok? && !KeysHold(Change(TWO_ROWS_DB, ADD_UNIQUE).value)
  {
    hide Conforms, KeysHold, Change, KeysSafe;
    TwoRowsAreSound();
    AddUniqueAccepted();
    ChangeKeepsKeys(TWO_ROWS_DB, ADD_UNIQUE);
  }
}

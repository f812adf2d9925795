/**
 Foreign keys: every non-NULL child value has a parent row. Each statement keeps this exactly when a guard
 on the database before it holds; only UPDATE of a self-referencing table and the three ALTERs have one.
 */
module ForeignKeys {
  import opened Types
  import opened Ast
  import opened Filters
  import opened Statements
  import opened Conformance
  import opened KeyConstraints
  import D = Database

  // ---- the invariant ----

  predicate ReferenceHolds(db: D.Db, rows: seq<Row>, column: string, parent: string, parentColumn: string) {
    forall row :: row in rows ==> ParentExists(db, Get(row, column), parent, parentColumn)
  }

  predicate ParentExists(db: D.Db, value: Value, parent: string, parentColumn: string) {
    value == Null || HasParent(db, parent, parentColumn, value)
  }

  ghost predicate ForeignKeysHold(db: D.Db) {
    forall t, child, p, q :: Refers(db, t, child, p, q) ==> ReferenceHolds(db, db.tables[t].rows, child.name, p, q)
  }

  // ---- the guards ----

  predicate AllNull(rows: seq<Row>, column: string) {
    forall row :: row in rows ==> Get(row, column) == Null
  }

  /** No reference to the column from elsewhere has a non-NULL value: what DROP and RENAME COLUMN do not check. */
  ghost predicate Unreferenced(db: D.Db, table: string, column: string, exceptItself: bool) {
    forall t, child :: Refers(db, t, child, table, column) && !(exceptItself && t == table && child.name == column)
      ==> AllNull(db.tables[t].rows, child.name)
  }

  /** The backfilled value of a REFERENCES column has a parent: what ADD COLUMN does not check. */
  ghost predicate BackfillHasParents(db: D.Db, table: string, column: Column, value: Value) {
    RowCount(db, table) == 0 || value == Null
    || forall p, q :: References(p, q) in column.constraints ==> (p == table && q == column.name) || HasParent(db, p, q, value)
  }

  /**
   A column that references a column of its own table, both assigned: the new value is the one its parent column
   gets, or a row left alone holds it. UPDATE checks the rows before the update only.
   */
  ghost predicate OwnParentsKept(t: D.Table, table: string, assignments: Assignments, filter: Option<Filter>) {
    forall child, q :: child in t.columns && References(table, q) in child.constraints
      ==> OwnParentKept(t.rows, assignments, filter, child.name, q)
  }

  predicate OwnParentKept(rows: seq<Row>, assignments: Assignments, filter: Option<Filter>, column: string, parentColumn: string) {
    var value, next := FindAssignment(assignments, column), FindAssignment(assignments, parentColumn);
    (value.Some? && next.Some? && value.value != Null && value != next && AnyMatches(rows, filter))
      ==> Survives(rows, filter, parentColumn, value.value)
  }

  /** The guard of a statement that goes through. */
  ghost predicate ReferencesSafe(db: D.Db, statement: Statement) {
    match statement
    case AddColumn(table, column, default) => BackfillHasParents(db, table, column, BackfillValue(column, default))
    case DropColumn(table, column) => Unreferenced(db, table, column, true)
    case RenameColumn(table, from, _) => Unreferenced(db, table, from, false)
    case Update(table, assignments, filter) =>
      (table in db.tables && PreparedFilter(db, table, filter).Ok?
        && PrepareAssignments(db.tables[table].columns, table, assignments).Ok?)
      ==> OwnParentsKept(db.tables[table], table,
            PrepareAssignments(db.tables[table].columns, table, assignments).value, PreparedFilter(db, table, filter).value)
    case _ => true
  }

  // ---- INSERT ----

  lemma {:induction false} ConstraintsChecked(db: D.Db, constraints: seq<Constraint>, value: Value)
    requires CheckReferences(db, constraints, value).Ok?
    ensures forall p, q :: References(p, q) in constraints ==> ParentExists(db, value, p, q)
  {
    if constraints != [] && value != Null {
      ConstraintsChecked(db, constraints[1..], value);
      assert constraints == [constraints[0]] + constraints[1..];
    }
  }

  lemma {:induction false} RowChecked(db: D.Db, columns: seq<Column>, row: Row)
    requires CheckRowReferences(db, columns, row).Ok?
    ensures forall c, p, q :: c in columns && References(p, q) in c.constraints ==> ParentExists(db, Get(row, c.name), p, q)
  {
    hide ParentExists, CheckReferences;
    if columns != [] {
      RowChecked(db, columns[1..], row);
      ConstraintsChecked(db, columns[0].constraints, Get(row, columns[0].name));
      assert columns == [columns[0]] + columns[1..];
    }
  }

  lemma InsertKeepsReferences(db: D.Db, table: string, into: Option<seq<string>>, values: seq<Value>)
    requires ForeignKeysHold(db) && RunInsert(db, table, into, values).Ok?
    ensures ForeignKeysHold(RunInsert(db, table, into, values).value)
  {
    hide BuildRow, RowAllowed, CheckRowReferences;
    var t := db.tables[table];
    var row := BuildRow(t.columns, table, into, values).value;
    var after := RunInsert(db, table, into, values).value;
    RowChecked(db, t.columns, row);
    forall n, child, p, q | Refers(after, n, child, p, q)
      ensures ReferenceHolds(after, after.tables[n].rows, child.name, p, q)
    {
      assert Refers(db, n, child, p, q);
      forall r | r in after.tables[n].rows ensures ParentExists(after, Get(r, child.name), p, q) {
        assert ParentExists(db, Get(r, child.name), p, q);
      }
    }
  }

  // ---- DELETE ----

  lemma DeleteKeepsReferences(db: D.Db, table: string, filter: Option<Filter>)
    requires ForeignKeysHold(db) && RunDelete(db, table, filter).Ok?
    ensures ForeignKeysHold(RunDelete(db, table, filter).value)
  {
    hide RowMatches, PreparedFilter;
    var prepared := PreparedFilter(db, table, filter).value;
    var after := RunDelete(db, table, filter).value;
    DeleteRewrites(db.tables[table].rows, prepared);
    D.KeepMembers(db.tables[table].rows, Unmatched(prepared));
    forall n, child, p, q | Refers(after, n, child, p, q)
      ensures ReferenceHolds(after, after.tables[n].rows, child.name, p, q)
    {
      assert Refers(db, n, child, p, q);
      forall r | r in after.tables[n].rows ensures ParentExists(after, Get(r, child.name), p, q) {
        assert r in db.tables[n].rows;
        if p == table && Get(r, child.name) != Null {
          DeleteKeepsParent(db, table, prepared, n, child, q, r);
        }
      }
    }
  }

  lemma DeleteKeepsParent(db: D.Db, table: string, filter: Option<Filter>, t: string, child: Column, q: string, row: Row)
    requires ForeignKeysHold(db) && table in db.tables && !DeleteStrands(db, table, filter)
    requires Refers(db, t, child, table, q) && row in db.tables[t].rows && Get(row, child.name) != Null
    ensures Survives(db.tables[table].rows, filter, q, Get(row, child.name))
  {
    hide RowMatches;
    var rows := db.tables[table].rows;
    assert ParentExists(db, Get(row, child.name), table, q);
    var parent :| parent in rows && Get(parent, q) == Get(row, child.name);
    if RowMatches(parent, filter) {
      assert !LastParent(parent, rows, filter, q, db.tables[t].rows, child.name);
    }
  }

  // ---- UPDATE ----

  predicate Declares(columns: seq<Column>, column: string, p: string, q: string) {
    FindColumn(columns, column).Some? && References(p, q) in FindColumn(columns, column).value.constraints
  }

  lemma {:induction false} AssignmentsChecked(db: D.Db, columns: seq<Column>, assignments: Assignments)
    requires CheckAssignedReferences(db, columns, assignments).Ok?
    ensures forall i, p, q ::
      0 <= i < |assignments| && Declares(columns, assignments[i].0, p, q) ==> ParentExists(db, assignments[i].1, p, q)
  {
    hide ParentExists, CheckReferences;
    if assignments != [] {
      AssignmentsChecked(db, columns, assignments[1..]);
      var c := FindColumn(columns, assignments[0].0);
      ConstraintsChecked(db, if c.Some? then c.value.constraints else [], assignments[0].1);
      assert forall i :: 0 < i < |assignments| ==> assignments[i] == assignments[1..][i - 1];
    }
  }

  /** A value assigned to a child column has a parent among the rows before the update. */
  lemma AssignedHasParent(db: D.Db, t: D.Table, assignments: Assignments, child: Column, p: string, q: string)
    requires TableConforms(t) && child in t.columns && References(p, q) in child.constraints
    requires CheckAssignedReferences(db, t.columns, assignments).Ok?
    requires FindAssignment(assignments, child.name).Some?
    ensures ParentExists(db, FindAssignment(assignments, child.name).value, p, q)
  {
    hide ParentExists, CheckAssignedReferences;
    AssignmentsChecked(db, t.columns, assignments);
    FoundAssignment(assignments, child.name);
    FindsColumn(t.columns, child);
    var i :| 0 <= i < |assignments| && assignments[i] == (child.name, FindAssignment(assignments, child.name).value);
  }

  /** A value that some child row held before the update still has its parent after it. */
  lemma UpdateKeepsParent(db: D.Db, table: string, assignments: Assignments, filter: Option<Filter>,
                          t: string, child: Column, q: string, value: Value)
    requires table in db.tables && !UpdateStrands(db, table, assignments, filter)
    requires Refers(db, t, child, table, q) && Holds(db.tables[t].rows, child.name, value) && value != Null
    requires Holds(db.tables[table].rows, q, value)
    ensures exists row :: row in db.tables[table].rows && UpdatedValue(row, assignments, filter, q) == value
  {
    hide RowMatches;
    var row :| row in db.tables[table].rows && Get(row, q) == value;
    if RowMatches(row, filter) && FindAssignment(assignments, q).Some? {
      assert !LosesValue(row, filter, q, FindAssignment(assignments, q).value, db.tables[t].rows, child.name);
    }
  }

  /** The values of a column after an UPDATE. */
  lemma UpdatedHolds(rows: seq<Row>, assignments: Assignments, filter: Option<Filter>, column: string, value: Value)
    requires DistinctAssignments(assignments)
    ensures Holds(D.MapRows(rows, Updates(assignments, filter)), column, value)
      <==> exists row :: row in rows && UpdatedValue(row, assignments, filter, column) == value
  {
    hide UpdatedValue, Assigned, RowMatches;
    var f := Updates(assignments, filter);
    MapMembers(rows, f);
    forall row ensures Get(f(row), column) == UpdatedValue(row, assignments, filter, column) {
      UpdatesGive(row, assignments, filter, column);
    }
    if row :| row in rows && UpdatedValue(row, assignments, filter, column) == value {
      assert f(row) in D.MapRows(rows, f);
    }
  }

  /** The new value of one child row has a parent after the update. */
  lemma UpdatedRowHasParent(db: D.Db, table: string, assignments: Assignments, filter: Option<Filter>,
                            child: Column, q: string, row: Row)
    requires ForeignKeysHold(db) && table in db.tables && TableConforms(db.tables[table])
    requires CheckAssignedReferences(db, db.tables[table].columns, assignments).Ok?
    requires !UpdateStrands(db, table, assignments, filter)
    requires OwnParentsKept(db.tables[table], table, assignments, filter)
    requires Refers(db, table, child, table, q) && row in db.tables[table].rows
    requires UpdatedValue(row, assignments, filter, child.name) != Null
    ensures exists r :: (r in db.tables[table].rows
      && UpdatedValue(r, assignments, filter, q) == UpdatedValue(row, assignments, filter, child.name))
  {
    hide RowMatches, CheckAssignedReferences, UpdateStrands, TableConforms;
    var rows := db.tables[table].rows;
    var value, next := FindAssignment(assignments, child.name), FindAssignment(assignments, q);
    if RowMatches(row, filter) && value.Some? {
      AssignedHasParent(db, db.tables[table], assignments, child, table, q);
      assert OwnParentKept(rows, assignments, filter, child.name, q);
      if next.None? {
        var r :| r in rows && Get(r, q) == value.value;
        assert UpdatedValue(r, assignments, filter, q) == value.value;
      } else if next == value {
        assert UpdatedValue(row, assignments, filter, q) == value.value;
      } else {
        var r :| r in rows && !RowMatches(r, filter) && Get(r, q) == value.value;
        assert UpdatedValue(r, assignments, filter, q) == value.value;
      }
    } else {
      assert ParentExists(db, Get(row, child.name), table, q);
      UpdateKeepsParent(db, table, assignments, filter, table, child, q, Get(row, child.name));
    }
  }

  /** The table after an UPDATE. */
  function Updated(db: D.Db, table: string, assignments: Assignments, filter: Option<Filter>): D.Db
    requires table in db.tables
  {
    D.SetTable(db, table, db.tables[table].(rows := D.MapRows(db.tables[table].rows, Updates(assignments, filter))))
  }

  lemma UpdateKeepsReference(db: D.Db, table: string, assignments: Assignments, filter: Option<Filter>,
                             t: string, child: Column, p: string, q: string)
    requires ForeignKeysHold(db) && table in db.tables && TableConforms(db.tables[table])
    requires DistinctAssignments(assignments)
    requires CheckAssignedReferences(db, db.tables[table].columns, assignments).Ok?
    requires !UpdateStrands(db, table, assignments, filter)
    requires OwnParentsKept(db.tables[table], table, assignments, filter)
    requires Refers(db, t, child, p, q)
    ensures var after := Updated(db, table, assignments, filter);
      ReferenceHolds(after, after.tables[t].rows, child.name, p, q)
  {
    hide RowMatches, CheckAssignedReferences, UpdateStrands, OwnParentsKept, TableConforms, Updates, UpdatedValue;
    var after := Updated(db, table, assignments, filter);
    var rows := db.tables[table].rows;
    MapMembers(rows, Updates(assignments, filter));
    forall r | r in after.tables[t].rows ensures ParentExists(after, Get(r, child.name), p, q) {
      var value := Get(r, child.name);
      if value == Null {
      } else if t != table {
        assert ParentExists(db, value, p, q);
        if p == table {
          UpdateKeepsParent(db, table, assignments, filter, t, child, q, value);
          UpdatedHolds(rows, assignments, filter, q, value);
        }
      } else {
        var row :| row in rows && r == Updates(assignments, filter)(row);
        UpdatesGive(row, assignments, filter, child.name);
        if p == table {
          UpdatedRowHasParent(db, table, assignments, filter, child, q, row);
          UpdatedHolds(rows, assignments, filter, q, value);
        } else {
          UpdatedRowElsewhere(db, table, assignments, filter, child, p, q, row);
        }
      }
    }
  }

  lemma UpdatedRowElsewhere(db: D.Db, table: string, assignments: Assignments, filter: Option<Filter>,
                            child: Column, p: string, q: string, row: Row)
    requires ForeignKeysHold(db) && table in db.tables && TableConforms(db.tables[table])
    requires CheckAssignedReferences(db, db.tables[table].columns, assignments).Ok?
    requires Refers(db, table, child, p, q) && row in db.tables[table].rows
    ensures ParentExists(db, UpdatedValue(row, assignments, filter, child.name), p, q)
  {
    hide RowMatches, CheckAssignedReferences, TableConforms;
    if RowMatches(row, filter) && FindAssignment(assignments, child.name).Some? {
      AssignedHasParent(db, db.tables[table], assignments, child, p, q);
    }
  }

  /** If all references hold after an UPDATE, the guard held before it. */
  lemma UpdateNeedsGuard(db: D.Db, table: string, assignments: Assignments, filter: Option<Filter>)
    requires table in db.tables && DistinctAssignments(assignments)
    requires ForeignKeysHold(Updated(db, table, assignments, filter))
    ensures OwnParentsKept(db.tables[table], table, assignments, filter)
  {
    hide RowMatches, Updates;
    var after := Updated(db, table, assignments, filter);
    var rows := db.tables[table].rows;
    forall child, q | child in db.tables[table].columns && References(table, q) in child.constraints
      ensures OwnParentKept(rows, assignments, filter, child.name, q)
    {
      var value, next := FindAssignment(assignments, child.name), FindAssignment(assignments, q);
      if value.Some? && next.Some? && value.value != Null && value != next && AnyMatches(rows, filter) {
        var row :| row in rows && RowMatches(row, filter);
        assert UpdatedValue(row, assignments, filter, child.name) == value.value;
        UpdatedHolds(rows, assignments, filter, child.name, value.value);
        assert Refers(after, table, child, table, q);
        assert ReferenceHolds(after, after.tables[table].rows, child.name, table, q);
        var r :| r in after.tables[table].rows && Get(r, child.name) == value.value;
        assert ParentExists(after, value.value, table, q);
        UpdatedHolds(rows, assignments, filter, q, value.value);
      }
    }
  }

  lemma UpdateReferences(db: D.Db, table: string, assignments: Assignments, filter: Option<Filter>)
    requires Conforms(db) && ForeignKeysHold(db) && RunUpdate(db, table, assignments, filter).Ok?
    ensures ForeignKeysHold(RunUpdate(db, table, assignments, filter).value)
      <==> OwnParentsKept(db.tables[table], table,
            PrepareAssignments(db.tables[table].columns, table, assignments).value, PreparedFilter(db, table, filter).value)
  {
    hide TableConforms, RowMatches, Assigned, UpdateStrands, CheckAssignedReferences, PreparedFilter, UpdateKeepsUnique;
    hide AssignsForbiddenNull, AnyMatches, OwnParentsKept, ReferenceHolds;
    var t := db.tables[table];
    var prepared := PreparedFilter(db, table, filter).value;
    var coerced := PrepareAssignments(t.columns, table, assignments).value;
    UpdateRewrites(t.columns, t.rows, coerced, prepared);
    CoercedAreDistinct(t.columns, table, assignments);
    var after := Updated(db, table, coerced, prepared);
    assert RunUpdate(db, table, assignments, filter) == Ok(after);
    if OwnParentsKept(t, table, coerced, prepared) {
      forall n, child, p, q | Refers(after, n, child, p, q)
        ensures ReferenceHolds(after, after.tables[n].rows, child.name, p, q)
      {
        assert Refers(db, n, child, p, q);
        UpdateKeepsReference(db, table, coerced, prepared, n, child, p, q);
      }
    }
    if ForeignKeysHold(after) {
      UpdateNeedsGuard(db, table, coerced, prepared);
    }
  }

  // ---- ADD COLUMN ----

  /** A table other than `table` has the same rows; a non-NULL value of an old column is unaffected by a new one. */
  lemma AddedParents(db: D.Db, table: string, column: Column, value: Value, after: D.Db, p: string, q: string, x: Value)
    requires table in db.tables && TableConforms(db.tables[table]) && !D.HasColumn(db.tables[table].columns, column.name)
    requires after.tables == db.tables[table :=
      D.Table(db.tables[table].columns + [column], D.MapRows(db.tables[table].rows, D.AddsValue(column.name, value)))]
    requires x != Null
    ensures HasParent(after, p, q, x)
      <==> if p == table && q == column.name then value == x && db.tables[table].rows != [] else HasParent(db, p, q, x)
  {
    var rows := db.tables[table].rows;
    MapMembers(rows, D.AddsValue(column.name, value));
    if p == table {
      if q == column.name {
        assert rows != [] ==> D.AddsValue(column.name, value)(rows[0]) in after.tables[table].rows && rows[0] in rows;
      } else {
        forall row | row in rows ensures Get(D.AddsValue(column.name, value)(row), q) == Get(row, q) {
        }
        if row :| row in rows && Get(row, q) == x {
          assert D.AddsValue(column.name, value)(row) in after.tables[table].rows;
        }
      }
    }
  }

  /** An old column keeps its values when another is added, so its references do not change. */
  lemma AddedKeepsOld(db: D.Db, table: string, column: Column, value: Value, after: D.Db,
                      t: string, child: Column, p: string, q: string)
    requires table in db.tables && TableConforms(db.tables[table]) && !D.HasColumn(db.tables[table].columns, column.name)
    requires after.tables == db.tables[table :=
      D.Table(db.tables[table].columns + [column], D.MapRows(db.tables[table].rows, D.AddsValue(column.name, value)))]
    requires Refers(db, t, child, p, q) && ReferenceHolds(db, db.tables[t].rows, child.name, p, q)
    ensures ReferenceHolds(after, after.tables[t].rows, child.name, p, q)
  {
    var rows := db.tables[table].rows;
    MapMembers(rows, D.AddsValue(column.name, value));
    ColumnsIn(db.tables[table].columns, column.name);
    forall r | r in after.tables[t].rows ensures ParentExists(after, Get(r, child.name), p, q) {
      var x := Get(r, child.name);
      if t == table {
        var row :| row in rows && r == D.AddsValue(column.name, value)(row);
        assert Get(row, child.name) == x;
        assert ParentExists(db, Get(row, child.name), p, q);
      } else {
        assert ParentExists(db, Get(r, child.name), p, q);
      }
      if x != Null {
        OldParentKept(db, table, column, value, after, p, q, x);
      }
    }
  }

  lemma OldParentKept(db: D.Db, table: string, column: Column, value: Value, after: D.Db, p: string, q: string, x: Value)
    requires table in db.tables && TableConforms(db.tables[table]) && !D.HasColumn(db.tables[table].columns, column.name)
    requires after.tables == db.tables[table :=
      D.Table(db.tables[table].columns + [column], D.MapRows(db.tables[table].rows, D.AddsValue(column.name, value)))]
    requires x != Null && HasParent(db, p, q, x)
    ensures HasParent(after, p, q, x)
  {
    NoParentUnder(db, table, column.name, x);
    AddedParents(db, table, column, value, after, p, q, x);
  }

  /** A name that is not a column of the table has no values there. */
  lemma NoParentUnder(db: D.Db, table: string, name: string, x: Value)
    requires table in db.tables && TableConforms(db.tables[table]) && !D.HasColumn(db.tables[table].columns, name)
    requires x != Null
    ensures !HasParent(db, table, name, x)
  {
    hide TableConforms;
    forall row | row in db.tables[table].rows ensures Get(row, name) == Null {
      NothingUnder(db.tables[table], name, row);
    }
  }

  ghost predicate ColumnReferencesHold(db: D.Db, table: string, column: Column)
    requires table in db.tables
  {
    forall p, q :: References(p, q) in column.constraints ==> ReferenceHolds(db, db.tables[table].rows, column.name, p, q)
  }

  /** The references of the new column hold exactly when the backfilled value has its parents. */
  lemma AddedReferences(db: D.Db, table: string, column: Column, value: Value, after: D.Db)
    requires table in db.tables && TableConforms(db.tables[table]) && !D.HasColumn(db.tables[table].columns, column.name)
    requires after.tables == db.tables[table :=
      D.Table(db.tables[table].columns + [column], D.MapRows(db.tables[table].rows, D.AddsValue(column.name, value)))]
    ensures ColumnReferencesHold(after, table, column) <==> BackfillHasParents(db, table, column, value)
  {
    var rows := db.tables[table].rows;
    MapMembers(rows, D.AddsValue(column.name, value));
    forall p, q | References(p, q) in column.constraints
      ensures ReferenceHolds(after, after.tables[table].rows, column.name, p, q)
        <==> rows == [] || value == Null || (p == table && q == column.name) || HasParent(db, p, q, value)
    {
      if value != Null {
        AddedParents(db, table, column, value, after, p, q, value);
      }
      if rows != [] {
        assert rows[0] in rows;
        var first := D.AddsValue(column.name, value)(rows[0]);
        assert first in after.tables[table].rows && Get(first, column.name) == value;
      }
    }
  }

  lemma AddColumnReferences(db: D.Db, table: string, column: Column, default: Option<Value>)
    requires Conforms(db) && ForeignKeysHold(db) && RunAddColumn(db, table, column, default).Ok?
    ensures ForeignKeysHold(RunAddColumn(db, table, column, default).value)
      <==> BackfillHasParents(db, table, column, BackfillValue(column, default))
  {
    hide TableConforms, ReferenceHolds, BackfillHasParents;
    var after := RunAddColumn(db, table, column, default).value;
    var value := BackfillValue(column, default);
    AddedReferences(db, table, column, value, after);
    assert column in after.tables[table].columns;
    forall t, child, p, q | Refers(after, t, child, p, q) && !(t == table && child == column)
      ensures ReferenceHolds(after, after.tables[t].rows, child.name, p, q)
    {
      assert Refers(db, t, child, p, q);
      AddedKeepsOld(db, table, column, value, after, t, child, p, q);
    }
    if ForeignKeysHold(after) {
      forall p, q | References(p, q) in column.constraints
        ensures ReferenceHolds(after, after.tables[table].rows, column.name, p, q)
      {
        assert Refers(after, table, column, p, q);
      }
    }
  }

  // ---- DROP COLUMN ----

  lemma DroppedParents(db: D.Db, table: string, column: string, after: D.Db, p: string, q: string, x: Value)
    requires table in db.tables && x != Null
    requires after.tables == db.tables[table :=
      D.Table(D.WithoutColumn(db.tables[table].columns, column), D.MapRows(db.tables[table].rows, D.RemovesValue(column)))]
    ensures HasParent(after, p, q, x) <==> HasParent(db, p, q, x) && !(p == table && q == column)
  {
    var rows := db.tables[table].rows;
    MapMembers(rows, D.RemovesValue(column));
    if p == table && q != column {
      if row :| row in rows && Get(row, q) == x {
        assert D.RemovesValue(column)(row) in after.tables[table].rows;
      }
    }
  }

  /** A remaining reference holds after DROP COLUMN exactly when it does not point there or has no values. */
  lemma DroppedReference(db: D.Db, table: string, column: string, after: D.Db, t: string, child: Column, p: string, q: string)
    requires table in db.tables
    requires after.tables == db.tables[table :=
      D.Table(D.WithoutColumn(db.tables[table].columns, column), D.MapRows(db.tables[table].rows, D.RemovesValue(column)))]
    requires Refers(db, t, child, p, q) && ReferenceHolds(db, db.tables[t].rows, child.name, p, q)
    requires !(t == table && child.name == column)
    ensures ReferenceHolds(after, after.tables[t].rows, child.name, p, q)
      <==> (p == table && q == column ==> AllNull(db.tables[t].rows, child.name))
  {
    hide HasParent;
    var rows := db.tables[t].rows;
    MapMembers(db.tables[table].rows, D.RemovesValue(column));
    forall row | row in rows
      ensures ParentExists(after, Get(row, child.name), p, q)
        <==> (p == table && q == column ==> Get(row, child.name) == Null)
    {
      assert ParentExists(db, Get(row, child.name), p, q);
      if Get(row, child.name) != Null {
        DroppedParents(db, table, column, after, p, q, Get(row, child.name));
      }
    }
    if t == table {
      forall row | row in rows ensures D.RemovesValue(column)(row) in after.tables[t].rows {
      }
    }
  }

  lemma DropColumnReferences(db: D.Db, table: string, column: string)
    requires ForeignKeysHold(db) && D.DropColumn(db, table, column).Ok?
    ensures ForeignKeysHold(D.DropColumn(db, table, column).value) <==> Unreferenced(db, table, column, true)
  {
    hide ReferenceHolds, AllNull;
    var after := D.DropColumn(db, table, column).value;
    OtherColumns(db.tables[table].columns, column);
    forall t, child, p, q
      ensures Refers(after, t, child, p, q) <==> Refers(db, t, child, p, q) && !(t == table && child.name == column)
    {
    }
    forall t, child, p, q | Refers(db, t, child, p, q) && !(t == table && child.name == column)
      ensures ReferenceHolds(after, after.tables[t].rows, child.name, p, q)
        <==> (p == table && q == column ==> AllNull(db.tables[t].rows, child.name))
    {
      DroppedReference(db, table, column, after, t, child, p, q);
    }
    if ForeignKeysHold(after) {
      forall t, child | Refers(db, t, child, table, column) && !(t == table && child.name == column)
        ensures AllNull(db.tables[t].rows, child.name)
      {
        assert Refers(after, t, child, table, column);
      }
    }
  }

  // ---- RENAME COLUMN ----

  lemma RenamedValues(t: D.Table, from: string, to: string, row: Row, name: string)
    requires TableConforms(t) && row in t.rows && D.HasColumn(t.columns, from) && !D.HasColumn(t.columns, to)
    ensures Get(D.RenamesValue(from, to)(row), name)
      == if name == to then Get(row, from) else if name == from then Null else Get(row, name)
  {
    ColumnsIn(t.columns, from);
    ColumnsIn(t.columns, to);
    assert RowConforms(t.columns, row);
  }

  lemma RenamedParents(db: D.Db, table: string, from: string, to: string, after: D.Db, p: string, q: string, x: Value)
    requires table in db.tables && x != Null && TableConforms(db.tables[table])
    requires D.HasColumn(db.tables[table].columns, from) && !D.HasColumn(db.tables[table].columns, to)
    requires after.tables == db.tables[table := D.Table(D.ColumnsRenamed(db.tables[table].columns, from, to),
      D.MapRows(db.tables[table].rows, D.RenamesValue(from, to)))]
    requires HasParent(db, p, q, x)
    ensures HasParent(after, p, q, x) <==> !(p == table && q == from)
  {
    hide TableConforms;
    var t := db.tables[table];
    MapMembers(t.rows, D.RenamesValue(from, to));
    forall row | row in t.rows
      ensures Get(D.RenamesValue(from, to)(row), q)
        == if q == to then Get(row, from) else if q == from then Null else Get(row, q)
    {
      RenamedValues(t, from, to, row, q);
    }
    if p == table {
      var row :| row in t.rows && Get(row, q) == x;
      assert D.RenamesValue(from, to)(row) in after.tables[table].rows;
      NothingUnder(t, to, row);
    }
  }

  lemma NothingUnder(t: D.Table, name: string, row: Row)
    requires TableConforms(t) && row in t.rows && !D.HasColumn(t.columns, name)
    ensures Get(row, name) == Null
  {
    ColumnsIn(t.columns, name);
    assert RowConforms(t.columns, row);
  }

  /** A reference holds after RENAME COLUMN exactly when it does not point to the old name or has no values. */
  lemma RenamedReference(db: D.Db, table: string, from: string, to: string, after: D.Db,
                         t: string, child: Column, renamed: Column, p: string, q: string)
    requires table in db.tables && TableConforms(db.tables[table])
    requires D.HasColumn(db.tables[table].columns, from) && !D.HasColumn(db.tables[table].columns, to)
    requires after.tables == db.tables[table := D.Table(D.ColumnsRenamed(db.tables[table].columns, from, to),
      D.MapRows(db.tables[table].rows, D.RenamesValue(from, to)))]
    requires Refers(db, t, child, p, q) && ReferenceHolds(db, db.tables[t].rows, child.name, p, q)
    requires renamed == if t == table && child.name == from then child.(name := to) else child
    ensures ReferenceHolds(after, after.tables[t].rows, renamed.name, p, q)
      <==> (p == table && q == from ==> AllNull(db.tables[t].rows, child.name))
  {
    hide HasParent, TableConforms, D.RenamesValue;
    var rows := db.tables[t].rows;
    MapMembers(db.tables[table].rows, D.RenamesValue(from, to));
    forall row | row in rows
      ensures ParentExists(after, Get(row, child.name), p, q)
        <==> (p == table && q == from ==> Get(row, child.name) == Null)
    {
      assert ParentExists(db, Get(row, child.name), p, q);
      if Get(row, child.name) != Null {
        RenamedParents(db, table, from, to, after, p, q, Get(row, child.name));
      }
    }
    if t == table {
      ColumnsIn(db.tables[table].columns, to);
      assert child.name != to;
      forall row | row in rows
        ensures D.RenamesValue(from, to)(row) in after.tables[t].rows
        ensures Get(D.RenamesValue(from, to)(row), renamed.name) == Get(row, child.name)
      {
        RenamedValues(db.tables[table], from, to, row, renamed.name);
      }
    }
  }

  lemma RenameColumnReferences(db: D.Db, table: string, from: string, to: string)
    requires Conforms(db) && ForeignKeysHold(db) && D.RenameColumn(db, table, from, to).Ok?
    ensures ForeignKeysHold(D.RenameColumn(db, table, from, to).value) <==> Unreferenced(db, table, from, false)
  {
    hide ReferenceHolds, AllNull, TableConforms;
    var after := D.RenameColumn(db, table, from, to).value;
    if Unreferenced(db, table, from, false) {
      forall t, renamed, p, q | Refers(after, t, renamed, p, q)
        ensures ReferenceHolds(after, after.tables[t].rows, renamed.name, p, q)
      {
        var child := ColumnBefore(db, table, from, to, after, t, renamed, p, q);
        RenamedReference(db, table, from, to, after, t, child, renamed, p, q);
      }
    }
    if ForeignKeysHold(after) {
      forall t, child | Refers(db, t, child, table, from) ensures AllNull(db.tables[t].rows, child.name) {
        var renamed := ColumnAfter(db, table, from, to, after, t, child, table, from);
        RenamedReference(db, table, from, to, after, t, child, renamed, table, from);
      }
    }
  }

  lemma ColumnBefore(db: D.Db, table: string, from: string, to: string, after: D.Db,
                     t: string, renamed: Column, p: string, q: string) returns (child: Column)
    requires table in db.tables && D.HasColumn(db.tables[table].columns, from)
    requires after.tables == db.tables[table := D.Table(D.ColumnsRenamed(db.tables[table].columns, from, to),
      D.MapRows(db.tables[table].rows, D.RenamesValue(from, to)))]
    requires Refers(after, t, renamed, p, q)
    ensures Refers(db, t, child, p, q)
    ensures renamed == if t == table && child.name == from then child.(name := to) else child
  {
    if t == table {
      var i :| 0 <= i < |after.tables[t].columns| && after.tables[t].columns[i] == renamed;
      child := db.tables[t].columns[i];
    } else {
      child := renamed;
    }
  }

  lemma ColumnAfter(db: D.Db, table: string, from: string, to: string, after: D.Db,
                    t: string, child: Column, p: string, q: string) returns (renamed: Column)
    requires table in db.tables && D.HasColumn(db.tables[table].columns, from)
    requires after.tables == db.tables[table := D.Table(D.ColumnsRenamed(db.tables[table].columns, from, to),
      D.MapRows(db.tables[table].rows, D.RenamesValue(from, to)))]
    requires Refers(db, t, child, p, q)
    ensures Refers(after, t, renamed, p, q)
    ensures renamed == if t == table && child.name == from then child.(name := to) else child
  {
    renamed := if t == table && child.name == from then child.(name := to) else child;
    if t == table {
      var i :| 0 <= i < |db.tables[t].columns| && db.tables[t].columns[i] == child;
      assert after.tables[t].columns[i] == renamed;
    }
  }

  // ---- every statement ----

  lemma CatalogKeepsReferences(db: D.Db, statement: Statement)
    requires ForeignKeysHold(db) && ChangesData(statement) && Change(db, statement).Ok?
    requires statement.CreateTable? || statement.DropTable? || statement.CreateIndex? || statement.DropIndex?
    ensures ForeignKeysHold(Change(db, statement).value)
  {
    hide SchemaOk;
    var after := Change(db, statement).value;
    forall t, child, p, q | Refers(after, t, child, p, q)
      ensures ReferenceHolds(after, after.tables[t].rows, child.name, p, q)
    {
      if t in db.tables {
        assert Refers(db, t, child, p, q);
        forall r | r in after.tables[t].rows ensures ParentExists(after, Get(r, child.name), p, q) {
          assert ParentExists(db, Get(r, child.name), p, q);
        }
      }
    }
  }

  /** A statement that goes through keeps all foreign keys exactly when its guard holds. */
  lemma ChangeKeepsReferences(db: D.Db, statement: Statement)
    requires Conforms(db) && ForeignKeysHold(db) && ChangesData(statement) && Change(db, statement).Ok?
    ensures ForeignKeysHold(Change(db, statement).value) <==> ReferencesSafe(db, statement)
  {
    hide Conforms, ForeignKeysHold, RunAddColumn, RunInsert, RunDelete, RunCreateTable, RunDropTable;
    hide OwnParentsKept, BackfillHasParents, Unreferenced;
    match statement {
      case AddColumn(table, column, default) => AddColumnReferences(db, table, column, default);
      case DropColumn(table, column) => DropColumnReferences(db, table, column);
      case RenameColumn(table, from, to) => RenameColumnReferences(db, table, from, to);
      case Insert(table, into, values) => InsertKeepsReferences(db, table, into, values);
      case Update(table, assignments, filter) => UpdateReferences(db, table, assignments, filter);
      case Delete(table, filter) => DeleteKeepsReferences(db, table, filter);
      case _ => CatalogKeepsReferences(db, statement);
    }
  }

  // ---- a run that loses a parent ----

  const NODE_ID := Column("id", IntType, [])
  const NODE_PARENT := Column("parent", IntType, [References("n", "id")])
  const NODE: Row := map["id" := Int(3), "parent" := Null]
  const NODES := D.Table([NODE_ID, NODE_PARENT], [NODE])
  const NODES_DB := D.Db(map["n" := NODES], [], [])
  const NODE_FILTER := Compare("id", Eq, Int(3))
  const NODE_ASSIGNMENTS: Assignments := [("id", Int(5)), ("parent", Int(3))]

  lemma NodesAreSound()
    ensures Conforms(NODES_DB) && ForeignKeysHold(NODES_DB)
  {
    assert NODES.columns[0] == NODE_ID && NODES.columns[1] == NODE_PARENT && NODES.rows[0] == NODE;
    assert RowConforms(NODES.columns, NODE);
    assert TableConforms(NODES);
    forall t, child, p, q | Refers(NODES_DB, t, child, p, q)
      ensures ReferenceHolds(NODES_DB, NODES_DB.tables[t].rows, child.name, p, q)
    {
      assert child == NODE_PARENT;
    }
  }

  lemma NodesPrepare()
    ensures PreparedFilter(NODES_DB, "n", Some(NODE_FILTER)) == Ok(Some(NODE_FILTER))
    ensures PrepareAssignments(NODES.columns, "n", NODE_ASSIGNMENTS) == Ok(NODE_ASSIGNMENTS)
  {
    NodesAreSound();
    assert NODES.columns[0] == NODE_ID && NODES.columns[1] == NODE_PARENT;
    FindsColumn(NODES.columns, NODE_ID);
    FindsColumn(NODES.columns, NODE_PARENT);
    var first := NODE_ASSIGNMENTS[..1];
    assert first == [("id", Int(5))];
    assert first[..0] == [];
    assert CoerceAssignments(NODES.columns, "n", first[..0]) == Ok([]);
    assert !Assigns(first[..0], "id");
    assert Coerce("id", IntType, Int(5)) == Ok(Int(5));
    assert first[..0] + [("id", Int(5))] == first;
    assert CoerceAssignments(NODES.columns, "n", first) == Ok(first);
    assert !Assigns(first, "parent");
    assert first + [("parent", Int(3))] == NODE_ASSIGNMENTS;
  }

  lemma NodesReferences()
    ensures CheckAssignedReferences(NODES_DB, NODES.columns, NODE_ASSIGNMENTS).Ok?
  {
    NodesAreSound();
    assert NODES.columns[0] == NODE_ID && NODES.columns[1] == NODE_PARENT;
    FindsColumn(NODES.columns, NODE_ID);
    FindsColumn(NODES.columns, NODE_PARENT);
    var rest := NODE_ASSIGNMENTS[1..];
    assert rest == [("parent", Int(3))];
    assert |rest[1..]| == 0;
    assert |NODE_PARENT.constraints| == 1 && |NODE_PARENT.constraints[1..]| == 0;
    assert NODES.rows[0] == NODE && Get(NODE, "id") == Int(3);
    assert NODE in NODES_DB.tables["n"].rows;
    assert NODE_PARENT.constraints[0] == References("n", "id");
    assert CheckReferences(NODES_DB, NODE_PARENT.constraints, Int(3)).Ok?;
    assert CheckAssignedReferences(NODES_DB, NODES.columns, rest[1..]).Ok?;
    assert CheckAssignedReferences(NODES_DB, NODES.columns, rest).Ok?;
    assert CheckReferences(NODES_DB, NODE_ID.constraints, Int(5)).Ok?;
  }

  lemma NodesKeepTheirChildren()
    ensures !UpdateStrands(NODES_DB, "n", NODE_ASSIGNMENTS, Some(NODE_FILTER))
  {
    assert NODES.columns[0] == NODE_ID && NODES.columns[1] == NODE_PARENT;
    assert NODES.rows[0] == NODE && NODE in NODES_DB.tables["n"].rows;
  }

  lemma NodesAccepted()
    ensures RunUpdate(NODES_DB, "n", NODE_ASSIGNMENTS, Some(NODE_FILTER)).Ok?
  {
    hide CheckAssignedReferences, UpdateStrands, PreparedFilter, PrepareAssignments, TableConforms;
    NodesPrepare();
    NodesReferences();
    NodesKeepTheirChildren();
    UpdateRewrites(NODES.columns, NODES.rows, NODE_ASSIGNMENTS, Some(NODE_FILTER));
    assert UpdateKeepsUnique(NODES.columns, NODES.rows, NODE_ASSIGNMENTS, Some(NODE_FILTER));
    assert !AssignsForbiddenNull(NODES.columns, NODE_ASSIGNMENTS);
  }

  lemma NodesUnguarded()
    ensures !OwnParentsKept(NODES, "n", NODE_ASSIGNMENTS, Some(NODE_FILTER))
  {
    var rows := NODES.rows;
    var rest := NODE_ASSIGNMENTS[1..];
    assert rest == [("parent", Int(3))];
    assert FindAssignment(rest, "parent") == Some(Int(3));
    assert FindAssignment(NODE_ASSIGNMENTS, "parent") == Some(Int(3));
    assert FindAssignment(NODE_ASSIGNMENTS, "id") == Some(Int(5));
    assert rows[0] == NODE && Get(NODE, "id") == Int(3);
    assert CompareValues(Get(NODE, "id"), Eq, Int(3));
    assert Evaluate(NODE, NODE_FILTER);
    assert RowMatches(NODE, Some(NODE_FILTER));
    assert AnyMatches(rows, Some(NODE_FILTER));
    assert !Survives(rows, Some(NODE_FILTER), "id", Int(3));
    assert !OwnParentKept(rows, NODE_ASSIGNMENTS, Some(NODE_FILTER), "parent", "id");
    assert NODES.columns[1] == NODE_PARENT && NODE_PARENT.constraints[0] == References("n", "id");
  }

  /**
   UPDATE n SET id = 5, parent = 3 WHERE id = 3 on the row (3, NULL) of a table whose parent column references its
   own id goes through, because 3 exists beforehand, and leaves a row whose parent is gone.
   */
  lemma SelfReferencingUpdate()
    ensures var statement := Update("n", NODE_ASSIGNMENTS, Some(NODE_FILTER));
      && Conforms(NODES_DB) && ForeignKeysHold(NODES_DB)
      && Change(NODES_DB, statement).Ok? && !ForeignKeysHold(Change(NODES_DB, statement).value)
  {
    hide Conforms, ForeignKeysHold, RunUpdate, PreparedFilter, PrepareAssignments;
    NodesAreSound();
    NodesPrepare();
    NodesAccepted();
    NodesUnguarded();
    UpdateReferences(NODES_DB, "n", NODE_ASSIGNMENTS, Some(NODE_FILTER));
  }
}

/**
 Every stored row conforms to its schema, and every index definition to the catalog: kept by every statement,
 ALTERs and rejected statements included.
 */
module Conformance {
  import opened Types
  import opened Ast
  import opened Filters
  import opened Statements
  import D = Database

  // ---- the invariant ----

  /** The row's keys are exactly the column names, and each value is NULL or of the column's type. */
  predicate RowConforms(columns: seq<Column>, row: Row) {
    && row.Keys == NameSet(columns)
    && forall c :: c in columns ==> HasType(Get(row, c.name), c.dataType)
  }

  predicate RowsConform(columns: seq<Column>, rows: seq<Row>) {
    forall row :: row in rows ==> RowConforms(columns, row)
  }

  predicate TableConforms(t: D.Table) {
    t.columns != [] && D.DistinctColumns(t.columns) && RowsConform(t.columns, t.rows)
  }

  ghost predicate TablesConform(tables: map<string, D.Table>) {
    forall name :: name in tables ==> TableConforms(tables[name])
  }

  function TablesHave(tables: map<string, D.Table>): D.Columns {
    (t, column) => t in tables && D.HasColumn(tables[t].columns, column)
  }

  ghost predicate DefsConform(db: D.Db) {
    D.DefsSound(TablesHave(db.tables), db.indexes)
  }

  ghost predicate Conforms(db: D.Db) {
    TablesConform(db.tables) && DefsConform(db)
  }

  // ---- columns ----

  lemma ColumnsIn(columns: seq<Column>, name: string)
    ensures D.HasColumn(columns, name) <==> name in NameSet(columns)
    ensures D.HasColumn(columns, name) <==> exists c :: c in columns && c.name == name
  {
    if D.HasColumn(columns, name) {
      var i :| 0 <= i < |columns| && columns[i].name == name;
      assert columns[i] in columns;
    }
  }

  lemma SameColumn(columns: seq<Column>, c: Column, d: Column)
    requires D.DistinctColumns(columns) && c in columns && d in columns && c.name == d.name
    ensures c == d
  {
    var i :| 0 <= i < |columns| && columns[i] == c;
    var j :| 0 <= j < |columns| && columns[j] == d;
    assert i == j;
  }

  lemma FindsColumn(columns: seq<Column>, c: Column)
    requires D.DistinctColumns(columns) && c in columns
    ensures FindColumn(columns, c.name) == Some(c)
  {
    var i :| 0 <= i < |columns| && columns[i] == c;
    assert D.HasColumn(columns, c.name);
    SameColumn(columns, c, FindColumn(columns, c.name).value);
  }

  lemma MapMembers(rows: seq<Row>, f: Row -> Row)
    ensures forall r :: r in D.MapRows(rows, f) <==> exists row :: row in rows && r == f(row)
  {
    var mapped := D.MapRows(rows, f);
    forall r | r in mapped ensures exists row :: row in rows && r == f(row) {
      var i :| 0 <= i < |mapped| && mapped[i] == r;
      assert rows[i] in rows;
    }
    forall row | row in rows ensures f(row) in mapped {
      var i :| 0 <= i < |rows| && rows[i] == row;
      assert mapped[i] == f(row);
    }
  }

  // ---- INSERT ----

  lemma {:induction false} PutConforms(columns: seq<Column>, targets: seq<Column>, values: seq<Value>)
    requires |targets| == |values| && D.DistinctColumns(columns) && PutValues(targets, values).Ok?
    requires forall i :: 0 <= i < |targets| ==> targets[i] in columns
    ensures PutValues(targets, values).value.Keys == NameSet(targets)
    ensures forall c :: c in columns ==> HasType(Get(PutValues(targets, values).value, c.name), c.dataType)
    decreases |targets|
  {
    if targets != [] {
      var n := |targets| - 1;
      PutConforms(columns, targets[..n], values[..n]);
      CoerceGivesType(targets[n].name, targets[n].dataType, values[n]);
      assert targets == targets[..n] + [targets[n]];
      forall c | c in columns ensures HasType(Get(PutValues(targets, values).value, c.name), c.dataType) {
        if c.name == targets[n].name {
          SameColumn(columns, c, targets[n]);
        }
      }
    }
  }

  lemma NullsTyped(columns: seq<Column>, row: Row)
    requires forall c :: c in columns ==> HasType(Get(row, c.name), c.dataType)
    ensures forall c :: c in columns ==> HasType(Get(FillNulls(row, columns), c.name), c.dataType)
  {
  }

  /** The row an INSERT builds conforms to the schema. */
  lemma BuiltRowConforms(columns: seq<Column>, table: string, into: Option<seq<string>>, values: seq<Value>)
    requires D.DistinctColumns(columns) && BuildRow(columns, table, into, values).Ok?
    ensures RowConforms(columns, BuildRow(columns, table, into, values).value)
  {
    hide Coerce, HasType, TargetColumns;
    var targets := Targets(columns, table, into).value;
    TargetsKnown(columns, table, into);
    PutConforms(columns, targets, values);
    forall c | c in targets ensures c in columns {
      var i :| 0 <= i < |targets| && targets[i] == c;
    }
    NullsTyped(columns, PutValues(targets, values).value);
  }

  /** No later target has the same name. */
  predicate LastNamed(targets: seq<Column>, i: nat)
    requires i < |targets|
  {
    forall j :: i < j < |targets| ==> targets[j].name != targets[i].name
  }

  lemma {:induction false} PutHolds(targets: seq<Column>, values: seq<Value>, i: nat)
    requires |targets| == |values| && PutValues(targets, values).Ok? && i < |targets| && LastNamed(targets, i)
    ensures Coerce(targets[i].name, targets[i].dataType, values[i]) == Ok(Get(PutValues(targets, values).value, targets[i].name))
    decreases |targets|
  {
    var n := |targets| - 1;
    if i < n {
      assert LastNamed(targets[..n], i);
      PutHolds(targets[..n], values[..n], i);
      assert targets[n].name != targets[i].name;
    }
  }

  /** The columns an INSERT fills, in the order of its values. */
  function Targets(columns: seq<Column>, table: string, into: Option<seq<string>>): Result<seq<Column>> {
    match into
    case Some(names) => TargetColumns(names, columns, table)
    case None => Ok(columns)
  }

  /** The row an INSERT builds holds each value, coerced, in the column it was given for, and NULL elsewhere. */
  lemma BuiltRowHolds(columns: seq<Column>, table: string, into: Option<seq<string>>, values: seq<Value>)
    requires D.DistinctColumns(columns) && BuildRow(columns, table, into, values).Ok?
    ensures Targets(columns, table, into).Ok? && |Targets(columns, table, into).value| == |values|
    ensures var (row, targets) := (BuildRow(columns, table, into, values).value, Targets(columns, table, into).value);
      && (forall i :: 0 <= i < |targets| && LastNamed(targets, i) ==>
        Coerce(targets[i].name, targets[i].dataType, values[i]) == Ok(Get(row, targets[i].name)))
      && (forall name :: !D.HasColumn(targets, name) ==> Get(row, name) == Null)
  {
    hide Coerce, LastNamed;
    var row, targets := BuildRow(columns, table, into, values).value, Targets(columns, table, into).value;
    var filled := PutValues(targets, values).value;
    TargetsKnown(columns, table, into);
    PutConforms(columns, targets, values);
    forall i | 0 <= i < |targets| && LastNamed(targets, i)
      ensures Coerce(targets[i].name, targets[i].dataType, values[i]) == Ok(Get(row, targets[i].name))
    {
      PutHolds(targets, values, i);
      assert targets[i] in targets && targets[i].name in filled;
    }
    forall name | !D.HasColumn(targets, name) ensures Get(row, name) == Null {
      ColumnsIn(targets, name);
    }
  }

  lemma TargetsKnown(columns: seq<Column>, table: string, into: Option<seq<string>>)
    requires Targets(columns, table, into).Ok?
    ensures forall i :: 0 <= i < |Targets(columns, table, into).value| ==> Targets(columns, table, into).value[i] in columns
  {
  }

  // ---- UPDATE and DELETE ----

  predicate TypedBy(columns: seq<Column>, column: string, value: Value) {
    exists c :: c in columns && c.name == column && HasType(value, c.dataType)
  }

  /** Every assigned column is a column of the table, and its value is of its type. */
  predicate AssignmentsTyped(columns: seq<Column>, assignments: Assignments) {
    forall i :: 0 <= i < |assignments| ==> TypedBy(columns, assignments[i].0, assignments[i].1)
  }

  lemma {:induction false} CoercedAreTyped(columns: seq<Column>, table: string, assignments: Assignments)
    requires CoerceAssignments(columns, table, assignments).Ok?
    ensures AssignmentsTyped(columns, CoerceAssignments(columns, table, assignments).value)
  {
    if assignments != [] {
      var n := |assignments| - 1;
      CoercedAreTyped(columns, table, assignments[..n]);
      var c := FindColumn(columns, assignments[n].0).value;
      CoerceGivesType(assignments[n].0, c.dataType, assignments[n].1);
    }
  }

  lemma {:induction false} AssignedConforms(columns: seq<Column>, assignments: Assignments, row: Row)
    requires D.DistinctColumns(columns) && AssignmentsTyped(columns, assignments) && RowConforms(columns, row)
    ensures RowConforms(columns, Assigned(row, assignments))
  {
    if assignments != [] {
      var n := |assignments| - 1;
      assert AssignmentsTyped(columns, assignments[..n]) by {
        forall i | 0 <= i < n ensures TypedBy(columns, assignments[..n][i].0, assignments[..n][i].1) {
          assert assignments[..n][i] == assignments[i];
        }
      }
      AssignedConforms(columns, assignments[..n], row);
      assert TypedBy(columns, assignments[n].0, assignments[n].1);
      var c :| c in columns && c.name == assignments[n].0 && HasType(assignments[n].1, c.dataType);
      forall d | d in columns ensures HasType(Get(Assigned(row, assignments), d.name), d.dataType) {
        if d.name == c.name {
          SameColumn(columns, c, d);
        }
      }
    }
  }

  /** What an UPDATE that goes through does to one row. */
  function Updates(assignments: Assignments, filter: Option<Filter>): Row -> Row {
    (row: Row) => if RowMatches(row, filter) then Assigned(row, assignments) else row
  }

  predicate AnyMatches(rows: seq<Row>, filter: Option<Filter>) {
    exists row :: row in rows && RowMatches(row, filter)
  }

  /** The rewrite of an UPDATE: it fails exactly when a matching row would get a forbidden NULL. */
  lemma {:induction false} UpdateRewrites(columns: seq<Column>, rows: seq<Row>, assignments: Assignments, filter: Option<Filter>)
    ensures D.MapOrDrop(rows, UpdateRow(columns, assignments, filter))
      == if AssignsForbiddenNull(columns, assignments) && AnyMatches(rows, filter) then Err(ConstraintViolation)
         else Ok(D.MapRows(rows, Updates(assignments, filter)))
  {
    hide RowMatches, AssignsForbiddenNull, Assigned, AnyMatches, D.MapRows;
    if rows == [] {
      NoneMatch(filter);
      assert D.MapRows([], Updates(assignments, filter)) == [];
    } else {
      var n := |rows| - 1;
      UpdateRewrites(columns, rows[..n], assignments, filter);
      MatchesNext(rows, filter);
      assert rows == rows[..n] + [rows[n]];
      D.MapRowsAppend(rows[..n], rows[n], Updates(assignments, filter));
    }
  }

  lemma NoneMatch(filter: Option<Filter>)
    ensures !AnyMatches([], filter)
  {
  }

  lemma MatchesNext(rows: seq<Row>, filter: Option<Filter>)
    requires rows != []
    ensures AnyMatches(rows, filter) <==> AnyMatches(rows[..|rows| - 1], filter) || RowMatches(rows[|rows| - 1], filter)
  {
    hide RowMatches;
    assert rows == rows[..|rows| - 1] + [rows[|rows| - 1]];
  }

  function Unmatched(filter: Option<Filter>): Row -> bool {
    (row: Row) => !RowMatches(row, filter)
  }

  /** The rewrite of a DELETE keeps exactly the rows that do not match, in order. */
  lemma {:induction false} DeleteRewrites(rows: seq<Row>, filter: Option<Filter>)
    ensures D.MapOrDrop(rows, DeleteRow(filter)) == Ok(D.Keep(rows, Unmatched(filter)))
    ensures |D.Keep(rows, Unmatched(filter))| + |FilterRows(rows, filter)| == |rows|
  {
    hide RowMatches;
    if rows != [] {
      var n := |rows| - 1;
      DeleteRewrites(rows[..n], filter);
      var kept := D.Keep(rows[..n], Unmatched(filter));
      assert kept + [] == kept;
    }
  }

  // ---- schema changes on one table ----

  lemma AddedConforms(t: D.Table, column: Column, value: Value)
    requires TableConforms(t) && !D.HasColumn(t.columns, column.name) && HasType(value, column.dataType)
    ensures TableConforms(D.Table(t.columns + [column], D.MapRows(t.rows, D.AddsValue(column.name, value))))
  {
    var columns := t.columns + [column];
    ColumnsIn(t.columns, column.name);
    MapMembers(t.rows, D.AddsValue(column.name, value));
    forall row | row in t.rows ensures RowConforms(columns, row[column.name := value]) {
      assert RowConforms(t.columns, row);
    }
  }

  lemma OtherColumns(columns: seq<Column>, name: string)
    ensures forall c :: c in D.WithoutColumn(columns, name) <==> c in columns && c.name != name
    ensures NameSet(D.WithoutColumn(columns, name)) == NameSet(columns) - {name}
  {
    D.KeepMembers(columns, (c: Column) => c.name != name);
    forall c | c in columns && c.name != name ensures c.name in NameSet(D.WithoutColumn(columns, name)) {
      assert c in D.WithoutColumn(columns, name);
    }
  }

  lemma DroppedConforms(t: D.Table, column: string)
    requires TableConforms(t) && |t.columns| > 1 && D.HasColumn(t.columns, column)
    ensures TableConforms(D.Table(D.WithoutColumn(t.columns, column), D.MapRows(t.rows, D.RemovesValue(column))))
  {
    var columns := D.WithoutColumn(t.columns, column);
    OtherColumns(t.columns, column);
    MapMembers(t.rows, D.RemovesValue(column));
    forall row | row in t.rows ensures RowConforms(columns, row - {column}) {
      assert RowConforms(t.columns, row);
    }
    D.DistinctWithout(t.columns, column);
    assert t.columns[0].name != column || t.columns[1].name != column;
    assert t.columns[0] in columns || t.columns[1] in columns;
  }

  lemma RenamedConforms(t: D.Table, from: string, to: string)
    requires TableConforms(t) && D.HasColumn(t.columns, from) && !D.HasColumn(t.columns, to)
    ensures TableConforms(D.Table(D.ColumnsRenamed(t.columns, from, to), D.MapRows(t.rows, D.RenamesValue(from, to))))
  {
    var columns := D.ColumnsRenamed(t.columns, from, to);
    ColumnsIn(t.columns, from);
    ColumnsIn(t.columns, to);
    MapMembers(t.rows, D.RenamesValue(from, to));
    RenamedNames(t.columns, from, to);
    forall row | row in t.rows ensures RowConforms(columns, D.RenamesValue(from, to)(row)) {
      assert RowConforms(t.columns, row);
      forall c | c in columns ensures HasType(Get(D.RenamesValue(from, to)(row), c.name), c.dataType) {
        var i :| 0 <= i < |columns| && columns[i] == c;
        assert t.columns[i] in t.columns;
      }
    }
  }

  lemma RenamedNames(columns: seq<Column>, from: string, to: string)
    requires D.HasColumn(columns, from)
    ensures NameSet(D.ColumnsRenamed(columns, from, to)) == NameSet(columns) - {from} + {to}
  {
    var renamed := D.ColumnsRenamed(columns, from, to);
    forall name ensures name in NameSet(renamed) <==> name in NameSet(columns) - {from} + {to} {
      if name in NameSet(renamed) {
        var c :| c in renamed && c.name == name;
        var i :| 0 <= i < |renamed| && renamed[i] == c;
        assert columns[i] in columns;
      }
      if name in NameSet(columns) && name != from {
        var c :| c in columns && c.name == name;
        var i :| 0 <= i < |columns| && columns[i] == c;
        assert renamed[i] in renamed;
      }
      if name == to {
        var i :| 0 <= i < |columns| && columns[i].name == from;
        assert renamed[i] in renamed;
      }
    }
  }

  // ---- every statement ----

  lemma SetTableConforms(db: D.Db, table: string, t: D.Table)
    requires Conforms(db) && table in db.tables && TableConforms(t)
    requires forall name :: D.HasColumn(db.tables[table].columns, name) ==> D.HasColumn(t.columns, name)
    ensures Conforms(D.SetTable(db, table, t))
  {
    hide TableConforms;
    var after := D.SetTable(db, table, t);
    D.DefsSoundElsewhere(TablesHave(db.tables), TablesHave(after.tables), db.indexes);
  }

  lemma AddColumnConforms(db: D.Db, table: string, column: Column, default: Option<Value>)
    requires Conforms(db) && RunAddColumn(db, table, column, default).Ok?
    ensures Conforms(RunAddColumn(db, table, column, default).value)
  {
    var value := if default.Some? then default.value else Null;
    CoerceGivesType(column.name, column.dataType, value);
    var v := Coerce(column.name, column.dataType, value).value;
    var t := db.tables[table];
    AddedConforms(t, column, v);
    var added := D.Table(t.columns + [column], D.MapRows(t.rows, D.AddsValue(column.name, v)));
    forall name | D.HasColumn(t.columns, name) ensures D.HasColumn(added.columns, name) {
      var i :| 0 <= i < |t.columns| && t.columns[i].name == name;
      assert added.columns[i].name == name;
    }
    SetTableConforms(db, table, added);
  }

  lemma DropColumnConforms(db: D.Db, table: string, column: string)
    requires Conforms(db) && D.DropColumn(db, table, column).Ok?
    ensures Conforms(D.DropColumn(db, table, column).value)
  {
    var after := D.DropColumn(db, table, column).value;
    DroppedConforms(db.tables[table], column);
    D.DistinctWithout(db.tables[table].columns, column);
    D.KeptDefsSound(TablesHave(db.tables), TablesHave(after.tables), db.indexes, D.OffColumn(table, column));
  }

  lemma RenameColumnConforms(db: D.Db, table: string, from: string, to: string)
    requires Conforms(db) && D.RenameColumn(db, table, from, to).Ok?
    ensures Conforms(D.RenameColumn(db, table, from, to).value)
  {
    var after := D.RenameColumn(db, table, from, to).value;
    RenamedConforms(db.tables[table], from, to);
    D.RenamedHas(db.tables[table].columns, from, to);
    D.RenamedDefsSound(TablesHave(db.tables), TablesHave(after.tables), db.indexes, table, from, to);
  }

  lemma InsertConforms(db: D.Db, table: string, into: Option<seq<string>>, values: seq<Value>)
    requires Conforms(db) && RunInsert(db, table, into, values).Ok?
    ensures Conforms(RunInsert(db, table, into, values).value)
  {
    var t := db.tables[table];
    var row := BuildRow(t.columns, table, into, values).value;
    BuiltRowConforms(t.columns, table, into, values);
    assert TableConforms(t.(rows := t.rows + [row]));
    SetTableConforms(db, table, t.(rows := t.rows + [row]));
  }

  lemma UpdateConforms(db: D.Db, table: string, assignments: Assignments, filter: Option<Filter>)
    requires Conforms(db) && RunUpdate(db, table, assignments, filter).Ok?
    ensures Conforms(RunUpdate(db, table, assignments, filter).value)
  {
    var t := db.tables[table];
    var prepared := PreparedFilter(db, table, filter).value;
    var coerced := PrepareAssignments(t.columns, table, assignments).value;
    var rows := D.MapRows(t.rows, Updates(coerced, prepared));
    UpdateRewrites(t.columns, t.rows, coerced, prepared);
    assert RunUpdate(db, table, assignments, filter) == Ok(D.SetTable(db, table, t.(rows := rows)));
    CoercedAreTyped(t.columns, table, assignments);
    MapMembers(t.rows, Updates(coerced, prepared));
    UpdatedRowsConform(t, coerced, prepared);
    SetTableConforms(db, table, t.(rows := rows));
  }

  lemma UpdatedRowsConform(t: D.Table, assignments: Assignments, filter: Option<Filter>)
    requires TableConforms(t) && AssignmentsTyped(t.columns, assignments)
    ensures TableConforms(t.(rows := D.MapRows(t.rows, Updates(assignments, filter))))
  {
    hide RowMatches, RowConforms, AssignmentsTyped, Assigned;
    MapMembers(t.rows, Updates(assignments, filter));
    forall row | row in t.rows ensures RowConforms(t.columns, Updates(assignments, filter)(row)) {
      AssignedConforms(t.columns, assignments, row);
    }
  }

  lemma DeleteConforms(db: D.Db, table: string, filter: Option<Filter>)
    requires Conforms(db) && RunDelete(db, table, filter).Ok?
    ensures Conforms(RunDelete(db, table, filter).value)
  {
    var t := db.tables[table];
    var prepared := PreparedFilter(db, table, filter).value;
    DeleteRewrites(t.rows, prepared);
    var kept := D.Keep(t.rows, Unmatched(prepared));
    D.KeepMembers(t.rows, Unmatched(prepared));
    assert TableConforms(t.(rows := kept));
    SetTableConforms(db, table, t.(rows := kept));
  }

  lemma CreateTableConforms(db: D.Db, name: string, columns: seq<Column>)
    requires Conforms(db) && RunCreateTable(db, name, columns).Ok?
    ensures Conforms(RunCreateTable(db, name, columns).value)
  {
    var after := RunCreateTable(db, name, columns).value;
    assert TableConforms(D.Table(columns, []));
    D.DefsSoundElsewhere(TablesHave(db.tables), TablesHave(after.tables), db.indexes);
  }

  /** No statement that goes through breaks conformance. */
  lemma ChangeConforms(db: D.Db, statement: Statement)
    requires Conforms(db) && ChangesData(statement) && Change(db, statement).Ok?
    ensures Conforms(Change(db, statement).value)
  {
    hide Conforms, RunAddColumn, RunInsert, RunUpdate, RunDelete, RunCreateTable, RunDropTable;
    match statement {
      case CreateTable(name, columns) => CreateTableConforms(db, name, columns);
      case DropTable(name) => DropTableConforms(db, name);
      case CreateIndex(name, table, column) => CreateIndexConforms(db, name, table, column);
      case DropIndex(name) => DropIndexConforms(db, name);
      case AddColumn(table, column, default) => AddColumnConforms(db, table, column, default);
      case DropColumn(table, column) => DropColumnConforms(db, table, column);
      case RenameColumn(table, from, to) => RenameColumnConforms(db, table, from, to);
      case Insert(table, into, values) => InsertConforms(db, table, into, values);
      case Update(table, assignments, filter) => UpdateConforms(db, table, assignments, filter);
      case Delete(table, filter) => DeleteConforms(db, table, filter);
    }
  }

  lemma DropTableConforms(db: D.Db, name: string)
    requires Conforms(db) && RunDropTable(db, name).Ok?
    ensures Conforms(RunDropTable(db, name).value)
  {
    D.KeptDefsSound(TablesHave(db.tables), TablesHave(db.tables - {name}), db.indexes, D.OffTable(name));
  }

  lemma CreateIndexConforms(db: D.Db, name: string, table: string, column: string)
    requires Conforms(db) && D.CreateIndex(db, name, table, column).Ok?
    ensures Conforms(D.CreateIndex(db, name, table, column).value)
  {
    hide TablesConform;
    D.AddedDefSound(TablesHave(db.tables), db.indexes, IndexDef(name, table, column));
  }

  lemma DropIndexConforms(db: D.Db, name: string)
    requires Conforms(db) && D.DropIndex(db, name).Ok?
    ensures Conforms(D.DropIndex(db, name).value)
  {
    hide TablesConform;
    D.KeptDefsSound(TablesHave(db.tables), TablesHave(db.tables), db.indexes, D.NotNamed(name));
  }

  // ---- every run ----

  ghost predicate SessionConforms(s: D.Session) {
    Conforms(s.db) && (s.saved.Some? ==> Conforms(s.saved.value))
  }

  lemma AfterConforms(s: D.Session, statement: Statement)
    requires SessionConforms(s)
    ensures SessionConforms(After(s, statement))
  {
    hide Conforms, Change;
    if ChangesData(statement) && Change(s.db, statement).Ok? {
      ChangeConforms(s.db, statement);
    }
  }

  /** Rows conform to their schemas, and indexes to the catalog, in every state any run can reach. */
  lemma {:induction false} RunsConform(s: D.Session, statements: seq<Statement>)
    requires SessionConforms(s)
    ensures SessionConforms(AfterAll(s, statements))
    decreases |statements|
  {
    if statements != [] {
      hide SessionConforms, After;
      AfterConforms(s, statements[0]);
      RunsConform(After(s, statements[0]), statements[1..]);
    }
  }
}

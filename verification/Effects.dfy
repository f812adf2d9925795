/**
 What each statement that goes through does to the session, row by row and column by column, and the number of rows
 it answers.
 */
module Effects {
  import opened Types
  import opened Ast
  import opened Filters
  import opened Queries
  import opened Statements
  import opened Coercions
  import opened Answers
  import opened Conformance
  import KeyConstraints
  import D = Database

  // ---- what stays ----

  /** Only the rows of one table may differ. */
  ghost predicate OnlyRowsOf(before: D.Session, after: D.Session, table: string) {
    && after.saved == before.saved
    && after.db.indexes == before.db.indexes && after.db.migrations == before.db.migrations
    && OthersStay(before.db, after.db, table)
    && table in after.db.tables && table in before.db.tables
    && after.db.tables[table].columns == before.db.tables[table].columns
  }

  ghost predicate OthersStay(before: D.Db, after: D.Db, table: string) {
    forall t :: t != table ==>
      && (t in after.tables <==> t in before.tables)
      && (t in before.tables ==> after.tables[t] == before.tables[t])
  }

  // ---- INSERT ----

  /** No later value is given for the same column. */
  predicate NamedLast(names: seq<string>, i: nat)
    requires i < |names|
  {
    forall j :: i < j < |names| ==> names[j] != names[i]
  }

  /** The columns an INSERT gives values for. */
  function NamesGiven(columns: seq<Column>, into: Option<seq<string>>): seq<string> {
    if into.Some? then into.value else AllNames(columns)
  }

  ghost predicate GivenReadable(columns: seq<Column>, name: string, value: Value) {
    exists c :: c in columns && c.name == name && Readable(c.dataType, value)
  }

  ghost predicate ReadInto(columns: seq<Column>, name: string, value: Value, out: Value) {
    forall c :: c in columns && c.name == name ==> ReadsAs(c.dataType, value, out)
  }

  /** The row holds, in each named column, the last value given for it as the column reads it, and NULL in all others. */
  ghost predicate Stores(columns: seq<Column>, names: seq<string>, values: seq<Value>, row: Row) {
    && |names| == |values|
    && (forall i :: 0 <= i < |names| ==> GivenReadable(columns, names[i], values[i]))
    && (forall i :: 0 <= i < |names| && NamedLast(names, i) ==> ReadInto(columns, names[i], values[i], Get(row, names[i])))
    && (forall name :: name !in names ==> Get(row, name) == Null)
    && row.Keys == NameSet(columns)
  }

  lemma TargetsNamed(columns: seq<Column>, table: string, into: Option<seq<string>>)
    requires Targets(columns, table, into).Ok?
    ensures var (targets, names) := (Targets(columns, table, into).value, NamesGiven(columns, into));
      |targets| == |names| && forall i :: 0 <= i < |names| ==> targets[i] in columns && targets[i].name == names[i]
  {
  }

  lemma {:induction false} PutReadable(targets: seq<Column>, values: seq<Value>, i: nat)
    requires |targets| == |values| && PutValues(targets, values).Ok? && i < |targets|
    ensures Coerce(targets[i].name, targets[i].dataType, values[i]).Ok?
    decreases |targets|
  {
    var n := |targets| - 1;
    if i < n {
      PutReadable(targets[..n], values[..n], i);
    }
  }

  /** The row an INSERT builds is the one its columns and values describe. */
  lemma BuiltRowStores(columns: seq<Column>, table: string, into: Option<seq<string>>, values: seq<Value>)
    requires D.DistinctColumns(columns) && BuildRow(columns, table, into, values).Ok?
    ensures Stores(columns, NamesGiven(columns, into), values, BuildRow(columns, table, into, values).value)
  {
    hide Coerce, ReadsAs, Readable, BuildRow, Targets;
    var row, names := BuildRow(columns, table, into, values).value, NamesGiven(columns, into);
    BuiltRowConforms(columns, table, into, values);
    BuiltRowHolds(columns, table, into, values);
    var targets := Targets(columns, table, into).value;
    TargetsNamed(columns, table, into);
    BuiltFromPut(columns, table, into, values);
    forall i | 0 <= i < |names|
      ensures GivenReadable(columns, names[i], values[i])
      ensures NamedLast(names, i) ==> ReadInto(columns, names[i], values[i], Get(row, names[i]))
    {
      PutReadable(targets, values, i);
      CoerceReads(targets[i].name, targets[i].dataType, values[i]);
      if NamedLast(names, i) {
        assert LastNamed(targets, i);
        forall c | c in columns && c.name == names[i] ensures ReadsAs(c.dataType, values[i], Get(row, names[i])) {
          SameColumn(columns, c, targets[i]);
        }
      }
    }
    forall name | name !in names ensures !D.HasColumn(targets, name) {
      assert forall i :: 0 <= i < |targets| ==> targets[i].name == names[i] && names[i] in names;
    }
  }

  lemma BuiltFromPut(columns: seq<Column>, table: string, into: Option<seq<string>>, values: seq<Value>)
    requires BuildRow(columns, table, into, values).Ok?
    ensures Targets(columns, table, into).Ok? && |Targets(columns, table, into).value| == |values|
    ensures PutValues(Targets(columns, table, into).value, values).Ok?
  {
  }

  /** INSERT adds one row at the end of its table, the row its columns and values describe, and nothing else. */
  lemma InsertStores(s: D.Session, table: string, into: Option<seq<string>>, values: seq<Value>)
    requires Conforms(s.db) && Answer(s, Insert(table, into, values)).Ok?
    ensures Answer(s, Insert(table, into, values)) == Ok(Counted(1))
    ensures OnlyRowsOf(s, After(s, Insert(table, into, values)), table)
    ensures var (columns, rows) := (s.db.tables[table].columns, s.db.tables[table].rows);
      var after := After(s, Insert(table, into, values)).db.tables[table].rows;
      && |after| == |rows| + 1 && after[..|rows|] == rows
      && Stores(columns, NamesGiven(columns, into), values, after[|rows|])
  {
    hide RunQuery, MatchCount, RunUpdate, RunDelete, BuildRow, RowAllowed, CheckRowReferences, Stores;
    var t := s.db.tables[table];
    assert TableConforms(t);
    BuiltRowStores(t.columns, table, into, values);
  }

  // ---- DELETE ----

  /** The positions of exactly the rows that are not selected, in order. */
  ghost predicate SparedAt(db: D.Db, columns: seq<Column>, filter: Option<Filter>, rows: seq<Row>, at: seq<nat>) {
    && D.Increasing(at) && (forall i :: 0 <= i < |at| ==> at[i] < |rows|)
    && forall k :: 0 <= k < |rows| ==> (k in at <==> !Selected(db, columns, filter, rows[k]))
  }

  /** DELETE keeps the rows its filter does not select, in their order, and answers how many it removed. */
  lemma DeleteRemoves(s: D.Session, table: string, filter: Option<Filter>) returns (at: seq<nat>)
    requires Answer(s, Delete(table, filter)).Ok?
    ensures OnlyRowsOf(s, After(s, Delete(table, filter)), table)
    ensures var t := s.db.tables[table];
      && SparedAt(s.db, t.columns, filter, t.rows, at)
      && After(s, Delete(table, filter)).db.tables[table].rows == RowsAt(t.rows, at)
      && |at| <= |t.rows| && Answer(s, Delete(table, filter)) == Ok(Counted(|t.rows| - |at|))
  {
    hide RunQuery, RunInsert, RunUpdate, Selected, RowMatches, ResolveOption, PrepareOption, DeleteStrands;
    var t := s.db.tables[table];
    var prepared := PreparedFilter(s.db, table, filter).value;
    DeleteRewrites(t.rows, prepared);
    at := D.KeepPositions(t.rows, Unmatched(prepared));
    forall k | 0 <= k < |t.rows| ensures RowMatches(t.rows[k], prepared) <==> Selected(s.db, t.columns, filter, t.rows[k]) {
      PreparedSelects(s.db, t.columns, table, filter, t.rows[k]);
    }
  }

  // ---- UPDATE ----

  predicate AssignsName(assignments: Assignments, name: string) {
    exists i :: 0 <= i < |assignments| && assignments[i].0 == name
  }

  /** The row with each assigned column holding its value, as the column reads it, and nothing else changed. */
  ghost predicate Reassigned(columns: seq<Column>, assignments: Assignments, row: Row, after: Row) {
    && after.Keys == row.Keys
    && (forall i :: 0 <= i < |assignments| ==> ReadInto(columns, assignments[i].0, assignments[i].1, Get(after, assignments[i].0)))
    && forall name :: !AssignsName(assignments, name) ==> Get(after, name) == Get(row, name)
  }

  ghost function SelectedPositions(db: D.Db, columns: seq<Column>, filter: Option<Filter>, rows: seq<Row>): set<nat> {
    set k: nat | k < |rows| && Selected(db, columns, filter, rows[k])
  }

  lemma {:induction false} PositionsCounted(at: seq<nat>, positions: set<nat>)
    requires D.Increasing(at) && forall k :: k in positions <==> k in at
    ensures |positions| == |at|
  {
    if at == [] {
      assert positions == {};
    } else {
      var n := |at| - 1;
      PositionsCounted(at[..n], positions - {at[n]});
    }
  }

  lemma {:induction false} CoercedReads(columns: seq<Column>, table: string, assignments: Assignments, i: nat)
    requires D.DistinctColumns(columns) && CoerceAssignments(columns, table, assignments).Ok? && i < |assignments|
    ensures var coerced := CoerceAssignments(columns, table, assignments).value;
      && |coerced| == |assignments| && coerced[i].0 == assignments[i].0 && D.HasColumn(columns, assignments[i].0)
      && ReadInto(columns, assignments[i].0, assignments[i].1, coerced[i].1)
  {
    hide Coerce, ReadsAs, Readable;
    var n := |assignments| - 1;
    KeyConstraints.CoercedAreDistinct(columns, table, assignments);
    if i < n {
      CoercedReads(columns, table, assignments[..n], i);
    } else {
      var c := FindColumn(columns, assignments[n].0).value;
      CoerceReads(assignments[n].0, c.dataType, assignments[n].1);
      forall d | d in columns && d.name == assignments[n].0 ensures d == c {
        SameColumn(columns, c, d);
      }
    }
  }

  lemma AssignedReads(columns: seq<Column>, table: string, assignments: Assignments, row: Row)
    requires D.DistinctColumns(columns) && CoerceAssignments(columns, table, assignments).Ok? && RowConforms(columns, row)
    ensures Reassigned(columns, assignments, row, Assigned(row, CoerceAssignments(columns, table, assignments).value))
  {
    hide CoerceAssignments, ReadInto, Assigned;
    var coerced := CoerceAssignments(columns, table, assignments).value;
    KeyConstraints.CoercedAreDistinct(columns, table, assignments);
    CoercedAreTyped(columns, table, assignments);
    AssignedConforms(columns, coerced, row);
    var after := Assigned(row, coerced);
    forall i | 0 <= i < |assignments| ensures ReadInto(columns, assignments[i].0, assignments[i].1, Get(after, assignments[i].0)) {
      CoercedReads(columns, table, assignments, i);
      KeyConstraints.AssignedAt(row, coerced, i);
    }
    forall name | !AssignsName(assignments, name) ensures Get(after, name) == Get(row, name) {
      KeyConstraints.NotAssigned(row, coerced, name);
    }
  }

  /** Each row after an UPDATE: reassigned when it is selected, itself otherwise. */
  ghost predicate ReassignedWhere(db: D.Db, t: D.Table, assignments: Assignments, filter: Option<Filter>, after: seq<Row>) {
    && |after| == |t.rows|
    && forall k :: 0 <= k < |after| ==>
      if Selected(db, t.columns, filter, t.rows[k]) then Reassigned(t.columns, assignments, t.rows[k], after[k])
      else after[k] == t.rows[k]
  }

  lemma UpdatedWhere(db: D.Db, t: D.Table, table: string, assignments: Assignments, filter: Option<Filter>, row: Row)
    requires TableConforms(t) && row in t.rows
    requires ResolveOption(db, filter).Ok? && PrepareOption(t.columns, table, ResolveOption(db, filter).value).Ok?
    requires CoerceAssignments(t.columns, table, assignments).Ok?
    ensures var prepared := PrepareOption(t.columns, table, ResolveOption(db, filter).value).value;
      var after := Updates(CoerceAssignments(t.columns, table, assignments).value, prepared)(row);
      if Selected(db, t.columns, filter, row) then Reassigned(t.columns, assignments, row, after) else after == row
  {
    hide Selected, RowMatches, ResolveOption, PrepareOption, Reassigned, CoerceAssignments, Assigned, RowConforms;
    PreparedSelects(db, t.columns, table, filter, row);
    AssignedReads(t.columns, table, assignments, row);
  }

  lemma RunUpdateReassigns(db: D.Db, table: string, assignments: Assignments, filter: Option<Filter>)
    requires Conforms(db) && RunUpdate(db, table, assignments, filter).Ok?
    ensures table in db.tables && PreparedFilter(db, table, filter).Ok?
    ensures var t := db.tables[table];
      var after := RunUpdate(db, table, assignments, filter).value;
      && table in after.tables && after == D.SetTable(db, table, t.(rows := after.tables[table].rows))
      && ReassignedWhere(db, t, assignments, filter, after.tables[table].rows)
  {
    hide Selected, RowMatches, ResolveOption, PrepareOption, UpdateStrands, UpdateKeepsUnique, CheckAssignedReferences;
    hide Reassigned, CoerceAssignments, AssignsForbiddenNull, Assigned, RowConforms;
    var t := db.tables[table];
    assert TableConforms(t);
    var prepared := PreparedFilter(db, table, filter).value;
    var coerced := PrepareAssignments(t.columns, table, assignments).value;
    UpdateRewrites(t.columns, t.rows, coerced, prepared);
    forall k | 0 <= k < |t.rows|
      ensures if Selected(db, t.columns, filter, t.rows[k])
        then Reassigned(t.columns, assignments, t.rows[k], Updates(coerced, prepared)(t.rows[k]))
        else Updates(coerced, prepared)(t.rows[k]) == t.rows[k]
    {
      assert t.rows[k] in t.rows;
      UpdatedWhere(db, t, table, assignments, filter, t.rows[k]);
    }
  }

  /** UPDATE reassigns the selected rows in place, leaves all others, and answers how many it selected. */
  lemma UpdateReassigns(s: D.Session, table: string, assignments: Assignments, filter: Option<Filter>)
    requires Conforms(s.db) && Answer(s, Update(table, assignments, filter)).Ok?
    ensures OnlyRowsOf(s, After(s, Update(table, assignments, filter)), table)
    ensures var t := s.db.tables[table];
      && ReassignedWhere(s.db, t, assignments, filter, After(s, Update(table, assignments, filter)).db.tables[table].rows)
      && Answer(s, Update(table, assignments, filter)) == Ok(Counted(|SelectedPositions(s.db, t.columns, filter, t.rows)|))
  {
    hide Selected, ResolveOption, PrepareOption, RunUpdate, FilterRows, ReassignedWhere;
    RunUpdateReassigns(s.db, table, assignments, filter);
    var t := s.db.tables[table];
    var at := FilteredAt(s.db, t.columns, table, filter, t.rows);
    PositionsCounted(at, SelectedPositions(s.db, t.columns, filter, t.rows));
  }

  // ---- schema statements ----

  /** One migration more, numbered after the last one. */
  predicate Logs(before: seq<Migration>, after: seq<Migration>, table: string, operation: Operation) {
    var n := |before|;
    && |after| == n + 1 && after[..n] == before
    && after[n].table == table && after[n].operation == operation
    && after[n].id == if n == 0 then 1 else before[n - 1].id + 1
  }

  /** The elements at these positions, in order, exactly those to keep. */
  ghost predicate KeptAt<T(!new)>(xs: seq<T>, keep: T -> bool, at: seq<nat>, out: seq<T>) {
    && D.Increasing(at) && |out| == |at|
    && (forall i :: 0 <= i < |at| ==> at[i] < |xs| && out[i] == xs[at[i]])
    && forall k :: 0 <= k < |xs| ==> (k in at <==> keep(xs[k]))
  }

  /** CREATE TABLE adds an empty table with these columns. */
  lemma CreateTableMakes(s: D.Session, name: string, columns: seq<Column>)
    requires Answer(s, CreateTable(name, columns)).Ok?
    ensures Answer(s, CreateTable(name, columns)) == Ok(Done)
    ensures var (before, after) := (s.db, After(s, CreateTable(name, columns)).db);
      && After(s, CreateTable(name, columns)).saved == s.saved
      && name !in before.tables && name in after.tables && after.tables[name] == D.Table(columns, [])
      && OthersStay(before, after, name) && after.indexes == before.indexes
      && Logs(before.migrations, after.migrations, name, CreatedTable)
  {
    hide RunQuery, MatchCount, RunInsert, RunUpdate, RunDelete, SchemaOk;
  }

  /** DROP TABLE removes the table and its indexes. */
  lemma DropTableRemoves(s: D.Session, name: string) returns (at: seq<nat>)
    requires Answer(s, DropTable(name)).Ok?
    ensures Answer(s, DropTable(name)) == Ok(Done)
    ensures var (before, after) := (s.db, After(s, DropTable(name)).db);
      && After(s, DropTable(name)).saved == s.saved
      && name in before.tables && name !in after.tables && OthersStay(before, after, name)
      && KeptAt(before.indexes, (d: IndexDef) => d.table != name, at, after.indexes)
      && Logs(before.migrations, after.migrations, name, DroppedTable)
  {
    hide RunQuery, MatchCount, RunInsert, RunUpdate, RunDelete;
    at := D.KeepPositions(s.db.indexes, D.OffTable(name));
  }

  /** CREATE INDEX adds one definition, and leaves every table alone. */
  lemma CreateIndexAdds(s: D.Session, name: string, table: string, column: string)
    requires Answer(s, CreateIndex(name, table, column)).Ok?
    ensures Answer(s, CreateIndex(name, table, column)) == Ok(Done)
    ensures var (before, after) := (s.db, After(s, CreateIndex(name, table, column)).db);
      && After(s, CreateIndex(name, table, column)).saved == s.saved && after.tables == before.tables
      && after.indexes == before.indexes + [IndexDef(name, table, column)]
      && Logs(before.migrations, after.migrations, table, CreatedIndex)
  {
    hide RunQuery, MatchCount, RunInsert, RunUpdate, RunDelete;
  }

  /** DROP INDEX removes the definitions of that name, and leaves every table alone. */
  lemma DropIndexRemoves(s: D.Session, name: string) returns (at: seq<nat>, dropped: IndexDef)
    requires Answer(s, DropIndex(name)).Ok?
    ensures Answer(s, DropIndex(name)) == Ok(Done)
    ensures var (before, after) := (s.db, After(s, DropIndex(name)).db);
      && After(s, DropIndex(name)).saved == s.saved && after.tables == before.tables
      && dropped in before.indexes && dropped.name == name
      && KeptAt(before.indexes, (d: IndexDef) => d.name != name, at, after.indexes)
      && Logs(before.migrations, after.migrations, dropped.table, DroppedIndex)
  {
    hide RunQuery, MatchCount, RunInsert, RunUpdate, RunDelete, RunCreateTable, RunDropTable, RunAddColumn;
    dropped := D.FindIndexNamed(s.db.indexes, name).value;
    at := D.KeepPositions(s.db.indexes, D.NotNamed(name));
  }

  /** The sessions differ in one table, the index definitions and one more migration. */
  ghost predicate TableAltered(before: D.Session, after: D.Session, table: string, operation: Operation) {
    && after.saved == before.saved
    && OthersStay(before.db, after.db, table) && table in before.db.tables && table in after.db.tables
    && |after.db.tables[table].rows| == |before.db.tables[table].rows|
    && Logs(before.db.migrations, after.db.migrations, table, operation)
  }

  function DefaultOf(default: Option<Value>): Value {
    if default.Some? then default.value else Null
  }

  /** ADD COLUMN appends the column, and gives every row its default as the column reads it. */
  lemma AddColumnBackfills(s: D.Session, table: string, column: Column, default: Option<Value>) returns (value: Value)
    requires Answer(s, AddColumn(table, column, default)).Ok?
    ensures ReadsAs(column.dataType, DefaultOf(default), value)
    ensures var after := After(s, AddColumn(table, column, default));
      && TableAltered(s, after, table, AddedColumn) && after.db.indexes == s.db.indexes
      && var (t, u) := (s.db.tables[table], after.db.tables[table]);
      && u.columns == t.columns + [column]
      && (forall k, name :: 0 <= k < |t.rows| ==> Get(u.rows[k], name) == if name == column.name then value else Get(t.rows[k], name))
      && Answer(s, AddColumn(table, column, default)) == Ok(Counted(|t.rows|))
  {
    hide RunQuery, MatchCount, RunInsert, RunUpdate, RunDelete, Coerce, ReadsAs;
    CoerceReads(column.name, column.dataType, DefaultOf(default));
    value := Coerce(column.name, column.dataType, DefaultOf(default)).value;
  }

  /** DROP COLUMN removes the column, its index, and its value from every row. */
  lemma DropColumnRemoves(s: D.Session, table: string, column: string) returns (columnsAt: seq<nat>, indexesAt: seq<nat>)
    requires Answer(s, DropColumn(table, column)).Ok?
    ensures var after := After(s, DropColumn(table, column));
      && TableAltered(s, after, table, DroppedColumn)
      && KeptAt(s.db.indexes, (d: IndexDef) => d.table != table || d.column != column, indexesAt, after.db.indexes)
      && var (t, u) := (s.db.tables[table], after.db.tables[table]);
      && KeptAt(t.columns, (c: Column) => c.name != column, columnsAt, u.columns)
      && (forall k, name :: 0 <= k < |t.rows| ==> Get(u.rows[k], name) == if name == column then Null else Get(t.rows[k], name))
      && Answer(s, DropColumn(table, column)) == Ok(Counted(|t.rows|))
  {
    hide RunQuery, MatchCount, RunInsert, RunUpdate, RunDelete, RunCreateTable, RunDropTable, RunAddColumn;
    columnsAt := D.KeepPositions(s.db.tables[table].columns, (c: Column) => c.name != column);
    indexesAt := D.KeepPositions(s.db.indexes, D.OffColumn(table, column));
  }

  /** A row with one value moved to another name. */
  ghost predicate Moved(row: Row, from: string, to: string, after: Row) {
    && Get(after, to) == Get(row, from) && Get(after, from) == Null
    && forall name :: name != from && name != to ==> Get(after, name) == Get(row, name)
  }

  predicate IndexFollows(d: IndexDef, table: string, from: string, to: string, after: IndexDef) {
    after == if d.table == table && d.column == from then IndexDef(d.name, table, to) else d
  }

  predicate ColumnFollows(c: Column, from: string, to: string, after: Column) {
    after == Column(if c.name == from then to else c.name, c.dataType, c.constraints)
  }

  /** The column and its index have the new name, and every row holds the value under it. */
  ghost predicate RenamedIn(before: D.Db, after: D.Db, table: string, from: string, to: string)
    requires table in before.tables && table in after.tables
  {
    var (t, u) := (before.tables[table], after.tables[table]);
    && |u.columns| == |t.columns| && |u.rows| == |t.rows| && |after.indexes| == |before.indexes|
    && (forall i :: 0 <= i < |u.columns| ==> ColumnFollows(t.columns[i], from, to, u.columns[i]))
    && (forall i :: 0 <= i < |after.indexes| ==> IndexFollows(before.indexes[i], table, from, to, after.indexes[i]))
    && forall k :: 0 <= k < |t.rows| ==> Moved(t.rows[k], from, to, u.rows[k])
  }

  lemma RenamedEverywhere(db: D.Db, table: string, from: string, to: string)
    requires Conforms(db) && D.RenameColumn(db, table, from, to).Ok?
    ensures table in db.tables && table in D.RenameColumn(db, table, from, to).value.tables
    ensures RenamedIn(db, D.RenameColumn(db, table, from, to).value, table, from, to)
  {
    var t := db.tables[table];
    assert TableConforms(t);
    ColumnsIn(t.columns, from);
    ColumnsIn(t.columns, to);
    forall k | 0 <= k < |t.rows| ensures Moved(t.rows[k], from, to, D.RenamesValue(from, to)(t.rows[k])) {
      assert t.rows[k] in t.rows && RowConforms(t.columns, t.rows[k]);
    }
  }

  /** RENAME COLUMN renames the column and its index, and moves its value in every row. */
  lemma RenameColumnMoves(s: D.Session, table: string, from: string, to: string)
    requires Conforms(s.db) && Answer(s, RenameColumn(table, from, to)).Ok?
    ensures TableAltered(s, After(s, RenameColumn(table, from, to)), table, RenamedColumn)
    ensures RenamedIn(s.db, After(s, RenameColumn(table, from, to)).db, table, from, to)
    ensures Answer(s, RenameColumn(table, from, to)) == Ok(Counted(|s.db.tables[table].rows|))
  {
    hide Conforms, RenamedIn, RunQuery, MatchCount, RunInsert, RunUpdate, RunDelete, RunCreateTable, RunDropTable, RunAddColumn;
    RenamedEverywhere(s.db, table, from, to);
  }

  // ---- transactions ----

  /** BEGIN needs no open transaction and saves the database; COMMIT and ROLLBACK need one, and close it. */
  lemma TransactionControl(s: D.Session)
    ensures Answer(s, Begin) == if s.saved.None? then Ok(Done) else Err(TransactionError)
    ensures s.saved.None? ==> After(s, Begin) == D.Session(s.db, Some(s.db))
    ensures Answer(s, Commit) == if s.saved.Some? then Ok(Done) else Err(TransactionError)
    ensures Answer(s, Rollback) == if s.saved.Some? then Ok(Done) else Err(TransactionError)
    ensures s.saved.Some? ==> After(s, Commit) == D.Session(s.db, None)
    ensures s.saved.Some? ==> After(s, Rollback) == D.Session(s.saved.value, None)
  {
  }
}

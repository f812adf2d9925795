/**
 The executor over the storage engine: every statement leaves the session, and answers, what the
 statement semantics says, whichever index, hash table or cache it went through.
 */
module ExecutionEngine {
  import opened Types
  import opened ValueKeys
  import opened TableFile
  import opened IndexMaps
  import opened StorageState
  import opened StorageEngine
  import opened Ast
  import opened Filters
  import opened Joins
  import opened Queries
  import opened Statements
  import opened Executor
  import opened IndexChoice
  import StorageSteps
  import SchemaSteps
  import opened Conformance
  import opened Runs
  import D = Database

  class Engine {
    const storage: Storage

    ghost predicate Valid()
      reads storage
    {
      storage.Valid()
    }

    ghost function Contents(): D.Session
      reads storage
    {
      storage.Contents()
    }

    constructor (s: Storage)
      requires s.Valid()
      ensures storage == s
    {
      storage := s;
    }

    // ---- SELECT ----

    /**
     `find_best_index_candidate`: the smallest bucket among the indexed equality tests on the filter's AND-spine;
     None exactly when no test is indexed.
     */
    method FindBestIndexCandidate(table: string, filter: Option<Filter>) returns (best: Option<seq<Locator>>)
      requires Valid() && table in Contents().db.tables
      ensures IsBest(best, Scanned(storage, table), Contents().db.indexes, table, filter)
    {
      hide Inv, LogicalDb, Holding, Locators, D.HasIndexOn, RowsOf, IsBest, FromCandidate, NoLonger;
      best := None;
      ghost var rows, defs := Scanned(storage, table), Contents().db.indexes;
      SchemaSteps.DbParts(storage.crypto, storage.View());
      StorageSteps.InvFacts(storage.crypto, storage.View(), {});
      if filter.None? {
        BestOfNone(rows, defs, table);
        return;
      }
      var candidates := Candidates(filter.value);
      BestStart(rows, defs, table, candidates);
      for n := 0 to |candidates|
        invariant best.Some? ==> FromCandidate(best.value, rows, defs, table, candidates, n)
        invariant NoLonger(best, rows, defs, table, candidates, n)
      {
        var (column, value) := candidates[n];
        var locators := storage.FindIndexedLocators(table, column, value);
        BestStep(best, locators, rows, defs, table, candidates, n);
        if locators.Some? && (best.None? || |locators.value| < |best.value|) {
          best := locators;
        }
      }
      BestEnd(best, rows, defs, table, filter.value);
    }

    /** The rows of a SELECT without JOIN: through an index when there is one, and the same rows after filtering. */
    method CandidateRows(table: string, filter: Option<Filter>) returns (r: Result<seq<Row>>)
      requires Valid() && table in Contents().db.tables
      ensures r.Ok? && FilterRows(r.value, filter) == FilterRows(Contents().db.tables[table].rows, filter)
    {
      hide Inv, IsBest, FilterRows, RowsOf, Holding, Locators;
      StorageSteps.InvTables(storage.crypto, storage.View(), {});
      SchemaSteps.DbRows(storage.crypto, storage.View(), table);
      var best := FindBestIndexCandidate(table, filter);
      BestNeedsFilter(best, Scanned(storage, table), Contents().db.indexes, table, filter);
      if best.Some? {
        ghost var column, key := BestBucketThenFilter(best.value, Scanned(storage, table), Contents().db.indexes, table, filter.value);
      }
      r := storage.ReadRowsFiltered(table, best);
    }

    /** The chained hash joins of a SELECT are the nested loops over its JOIN clauses. */
    method JoinTables(table: string, columns: seq<Column>, joins: seq<JoinClause>) returns (r: Result<Joined>)
      requires Valid() && table in Contents().db.tables && columns == Contents().db.tables[table].columns
      ensures r == JoinAll(Contents().db, Joined(Contents().db.tables[table].rows, columns, StartNames(table, columns)), joins)
    {
      hide Inv, LogicalDb, NestedJoin, MergeColumns, Renamings, MergeNames;
      ghost var db := Contents().db;
      var rows := storage.ReadRows(table);
      var sofar := Joined(rows.value, columns, StartNames(table, columns));
      ghost var start := sofar;
      for i := 0 to |joins|
        invariant JoinAll(db, start, joins) == JoinAll(db, sofar, joins[i..])
      {
        assert joins[i..][1..] == joins[i + 1..];
        var schema :- storage.GetSchema(joins[i].table);
        var rights := storage.ReadRows(joins[i].table);
        var merged, renamings, known := MergeRight(sofar.columns, sofar.names, joins[i].table, schema.columns);
        var joined := HashJoin(sofar.rows, LeftLookup(known, joins[i]), rights.value, joins[i].rightColumn, renamings);
        sofar := Joined(joined, merged, known);
      }
      assert joins[|joins|..] == [];
      r := Ok(sofar);
    }

    /** Grouping, aggregating or projecting the filtered rows. */
    method ProjectFiltered(q: Query, columns: seq<Column>, rows: seq<Row>) returns (r: Result<RowSet>)
      ensures r == Project(q, columns, rows)
    {
      if q.groupBy != [] {
        r := ComputeGroupBy(q.columns, columns, q.table, rows, q.groupBy, q.having);
      } else if HasAggregates(q.columns) {
        var cells :- ExecuteAggregate(q.columns, columns, q.table, rows);
        r := Ok(RowSet(CellNames(q.columns), [cells]));
      } else if q.having.Some? {
        r := Err(ParseError);
      } else {
        var names :- ResolveSelectColumns(q.columns, columns, q.table);
        r := Ok(RowSet(names, ProjectRows(rows, names)));
      }
    }

    /** `select`: whatever index or hash table it goes through, the answer is that of the scan and the nested loops. */
    method Select(q: Query) returns (r: Result<RowSet>)
      requires Valid()
      ensures r == RunQuery(Contents().db, q)
      decreases q
    {
      hide Inv, LogicalDb, JoinAll, Project, FilterRows, Prepare, Window;
      var schema :- storage.GetSchema(q.table);
      var filter :- ResolveFilter(q.filter);
      var filtered: seq<Row>;
      var columns := schema.columns;
      if q.joins != [] {
        var joined :- JoinTables(q.table, schema.columns, q.joins);
        columns := joined.columns;
        var prepared :- PrepareOption(columns, q.table, filter);
        filtered := FilterRows(joined.rows, prepared);
      } else {
        NoJoins(Contents().db, q);
        var prepared :- PrepareOption(columns, q.table, filter);
        var rows := CandidateRows(q.table, prepared);
        filtered := FilterRows(rows.value, prepared);
      }
      var out :- ProjectFiltered(q, columns, filtered);
      r := Ok(RowSet(out.columns, Window(out.rows, q.limit, q.offset)));
    }

    method ResolveFilter(filter: Option<Filter>) returns (r: Result<Option<Filter>>)
      requires Valid()
      ensures r == ResolveOption(Contents().db, filter)
      decreases filter
    {
      if filter.None? {
        return Ok(None);
      }
      var resolved :- ResolveSubqueries(filter.value);
      r := Ok(Some(resolved));
    }

    /** `resolve_subqueries`. */
    method ResolveSubqueries(filter: Filter) returns (r: Result<Filter>)
      requires Valid()
      ensures r == Resolve(Contents().db, filter)
      decreases filter
    {
      hide Inv, LogicalDb;
      match filter {
        case InSubquery(column, subquery, negated) =>
          if !subquery.Select? {
            return Err(ParseError);
          }
          var result :- Select(subquery.query);
          if |result.columns| != 1 {
            return Err(ParseError);
          }
          r := Ok(InList(column, FirstValues(result.rows), negated));
        case And(left, right) =>
          var l :- ResolveSubqueries(left);
          var k :- ResolveSubqueries(right);
          r := Ok(And(l, k));
        case Or(left, right) =>
          var l :- ResolveSubqueries(left);
          var k :- ResolveSubqueries(right);
          r := Ok(Or(l, k));
        case _ =>
          r := Ok(filter);
      }
    }

    // ---- checks ----

    /** `referencing_columns`. */
    method ReferencingColumns(parent: string) returns (out: seq<Reference>)
      requires Valid()
      ensures forall x :: x in out <==>
        x.table in Contents().db.tables && RefersIn(Contents().db.tables[x.table].columns, x.column, parent, x.parentColumn)
    {
      hide Inv, LogicalDb, RefersIn;
      var tables := storage.ListTables();
      out := [];
      for n := 0 to |tables|
        invariant forall x :: x in out <==>
          x.table in tables[..n] && RefersIn(Contents().db.tables[x.table].columns, x.column, parent, x.parentColumn)
      {
        assert tables[..n + 1] == tables[..n] + [tables[n]];
        assert tables[n] in tables;
        var schema := storage.GetSchema(tables[n]);
        var found := TableReferences(tables[n], schema.value.columns, parent);
        out := out + found;
      }
      assert tables[..|tables|] == tables;
    }

    /** The REFERENCES of one column against one value. */
    method CheckColumnReferences(constraints: seq<Constraint>, value: Value) returns (r: Result<()>)
      requires Valid()
      ensures r == CheckReferences(Contents().db, constraints, value)
    {
      hide Inv, LogicalDb;
      for k := 0 to |constraints|
        invariant CheckReferences(Contents().db, constraints, value) == CheckReferences(Contents().db, constraints[k..], value)
      {
        assert constraints[k..][1..] == constraints[k + 1..];
        if value == Null {
          return Ok(());
        }
        match constraints[k] {
          case References(table, column) =>
            var rows :- storage.ReadRows(table);
            if !Holds(rows, column, value) {
              return Err(ConstraintViolation);
            }
          case _ =>
        }
      }
      r := Ok(());
    }

    /** `check_foreign_keys_row`. */
    method CheckForeignKeysRow(columns: seq<Column>, row: Row) returns (r: Result<()>)
      requires Valid()
      ensures r == CheckRowReferences(Contents().db, columns, row)
    {
      hide Inv, LogicalDb, CheckReferences;
      for n := 0 to |columns|
        invariant CheckRowReferences(Contents().db, columns, row) == CheckRowReferences(Contents().db, columns[n..], row)
      {
        assert columns[n..][1..] == columns[n + 1..];
        var checked :- CheckColumnReferences(columns[n].constraints, Get(row, columns[n].name));
      }
      r := Ok(());
    }

    /** The foreign-key loop of `update`. */
    method CheckForeignKeysAssigned(columns: seq<Column>, assignments: Assignments) returns (r: Result<()>)
      requires Valid()
      ensures r == CheckAssignedReferences(Contents().db, columns, assignments)
    {
      hide Inv, LogicalDb, CheckReferences;
      for n := 0 to |assignments|
        invariant CheckAssignedReferences(Contents().db, columns, assignments)
          == CheckAssignedReferences(Contents().db, columns, assignments[n..])
      {
        assert assignments[n..][1..] == assignments[n + 1..];
        var c := FindColumn(columns, assignments[n].0);
        var checked :- CheckColumnReferences(if c.Some? then c.value.constraints else [], assignments[n].1);
      }
      r := Ok(());
    }

    /** `check_constraints_for_insert`: NULLs first, then each unique value against the cache or the table. */
    method CheckConstraintsForInsert(table: string, columns: seq<Column>, row: Row) returns (ok: bool)
      requires Valid() && table in Contents().db.tables
      modifies storage`uniqueCaches
      ensures Valid() && Contents() == old(Contents())
      ensures ok <==> RowAllowed(columns, Contents().db.tables[table].rows, row)
    {
      hide Inv, LogicalDb;
      StorageSteps.InvTables(storage.crypto, storage.View(), {});
      var unique;
      ok, unique := CollectUnique(columns, row);
      ghost var rows := Contents().db.tables[table].rows;
      if !ok {
        NullRejected(columns, rows, row);
        return;
      }
      for n := 0 to |unique|
        invariant Valid() && Contents() == old(Contents())
        invariant forall i :: 0 <= i < n ==> !Holds(rows, unique[i].name, Get(row, unique[i].name))
      {
        assert unique[n] in unique;
        StorageSteps.InvTables(storage.crypto, storage.View(), {});
        var found := storage.UniqueValueExists(table, unique[n].name, Get(row, unique[n].name));
        if found.value {
          DuplicateRejected(columns, rows, row, unique[n]);
          return false;
        }
      }
      NewRowAllowed(columns, rows, row, unique);
    }

    /** `check_referencing_children_on_update`. */
    method CheckReferencingChildrenOnUpdate(table: string, assignments: Assignments, filter: Option<Filter>) returns (ok: bool)
      requires Valid() && table in Contents().db.tables
      ensures ok <==> !UpdateStrands(Contents().db, table, assignments, filter)
    {
      hide Inv, LogicalDb, UpdateStrands, RefersIn, LosesValue, FindAssignment;
      ghost var db := Contents().db;
      var referencing := ReferencingColumns(table);
      var rows := storage.ReadRows(table);
      for n := 0 to |referencing|
        invariant forall i :: 0 <= i < n ==> !StrandsThrough(db, table, assignments, filter, referencing[i])
      {
        var x := referencing[n];
        assert x in referencing;
        var next := FindAssignment(assignments, x.parentColumn);
        if next.Some? {
          var children := storage.ReadRows(x.table);
          var loses := AnyLosesValue(rows.value, filter, x.parentColumn, next.value, children.value, x.column);
          if loses {
            StrandedThrough(db, table, assignments, filter, x);
            return false;
          }
        }
      }
      NoneStranded(db, table, assignments, filter, referencing);
      ok := true;
    }

    /** The foreign-key check of `delete`. */
    method CheckReferencingChildrenOnDelete(table: string, filter: Option<Filter>) returns (ok: bool)
      requires Valid() && table in Contents().db.tables
      ensures ok <==> !DeleteStrands(Contents().db, table, filter)
    {
      hide Inv, LogicalDb, DeleteStrands, RefersIn, LastParent;
      ghost var db := Contents().db;
      var referencing := ReferencingColumns(table);
      var rows := storage.ReadRows(table);
      for n := 0 to |referencing|
        invariant forall i :: 0 <= i < n ==> !LastParentThrough(db, table, filter, referencing[i])
      {
        var x := referencing[n];
        assert x in referencing;
        var children := storage.ReadRows(x.table);
        var last := AnyLastParent(rows.value, filter, x.parentColumn, children.value, x.column);
        if last {
          LostThrough(db, table, filter, x);
          return false;
        }
      }
      NoneLost(db, table, filter, referencing);
      ok := true;
    }

    // ---- statements ----

    /** `create_table`. */
    method CreateTable(name: string, columns: seq<Column>) returns (r: Result<()>)
      requires Valid()
      modifies storage
      ensures Valid() && storage.disk.snapshot == old(storage.disk.snapshot)
      ensures D.Follows(old(Contents()), Contents(), RunCreateTable(old(Contents()).db, name, columns), r)
      ensures r.Err? ==> CheckpointOf(storage.View()) == old(CheckpointOf(storage.View()))
    {
      hide Inv, LogicalDb, OnePrimaryKey, D.DistinctColumns, ReferencesOk;
      var distinct := CheckColumns(columns);
      if !distinct {
        return Err(InvalidSchema);
      }
      var references := CheckNewReferences(name, columns);
      if !references {
        return Err(InvalidSchema);
      }
      r := storage.CreateTable(TableSchema(name, columns, 0));
    }

    /** The second loop of `create_table`. */
    method CheckNewReferences(name: string, columns: seq<Column>) returns (ok: bool)
      requires Valid()
      ensures ok <==> ReferencesOk(Contents().db, name, columns)
    {
      hide Inv, LogicalDb, ReferenceOk;
      for n := 0 to |columns|
        invariant forall i, k :: 0 <= i < n && 0 <= k < |columns[i].constraints| ==>
          ReferenceOk(Contents().db, name, columns, columns[i], columns[i].constraints[k])
      {
        for m := 0 to |columns[n].constraints|
          invariant forall k :: 0 <= k < m ==> ReferenceOk(Contents().db, name, columns, columns[n], columns[n].constraints[k])
        {
          var found := CheckNewReference(name, columns, columns[n], columns[n].constraints[m]);
          if !found {
            return false;
          }
        }
      }
      ok := true;
    }

    method CheckNewReference(name: string, columns: seq<Column>, c: Column, constraint: Constraint) returns (ok: bool)
      requires Valid()
      ensures ok <==> ReferenceOk(Contents().db, name, columns, c, constraint)
    {
      hide Inv, LogicalDb;
      match constraint {
        case References(parent, parentColumn) =>
          var parents := columns;
          if parent != name {
            var schema := storage.GetSchema(parent);
            parents := if schema.Ok? then schema.value.columns else [];
          }
          var found := FindColumn(parents, parentColumn);
          ok := found.Some? && found.value.dataType == c.dataType;
        case _ =>
          ok := true;
      }
    }

    /** `drop_table`. */
    method DropTable(name: string) returns (r: Result<()>)
      requires Valid()
      modifies storage
      ensures Valid() && storage.disk.snapshot == old(storage.disk.snapshot)
      ensures D.Follows(old(Contents()), Contents(), RunDropTable(old(Contents()).db, name), r)
      ensures r.Err? ==> CheckpointOf(storage.View()) == old(CheckpointOf(storage.View()))
    {
      hide Inv, LogicalDb, RefersIn;
      var referencing := ReferencingColumns(name);
      for n := 0 to |referencing|
        invariant forall i :: 0 <= i < n ==> referencing[i].table == name
      {
        if referencing[n].table != name {
          assert referencing[n] in referencing;
          ReferenceFound(Contents().db, name, referencing[n]);
          return Err(ConstraintViolation);
        }
      }
      OnlyOwnReferences(Contents().db, name, referencing);
      r := storage.DropTable(name);
    }

    /** `alter_table_add_column`. */
    method AddColumn(table: string, column: Column, default: Option<Value>) returns (r: Result<nat>)
      requires Valid()
      modifies storage
      ensures Valid() && storage.disk.snapshot == old(storage.disk.snapshot)
      ensures D.Follows(old(Contents()), Contents(), RunAddColumn(old(Contents()).db, table, column, default), r)
      ensures r.Err? ==> CheckpointOf(storage.View()) == old(CheckpointOf(storage.View()))
      ensures r.Ok? ==> r.value == RowCount(old(Contents()).db, table)
    {
      hide Inv, LogicalDb;
      var value :- Coerce(column.name, column.dataType, if default.Some? then default.value else Null);
      r := storage.AddColumn(table, column, value);
    }

    /** `insert`. */
    method Insert(table: string, into: Option<seq<string>>, values: seq<Value>) returns (r: Result<()>)
      requires Valid()
      modifies storage
      ensures Valid() && storage.disk.snapshot == old(storage.disk.snapshot)
      ensures D.Follows(old(Contents()), Contents(), RunInsert(old(Contents()).db, table, into, values), r)
      ensures r.Err? ==> CheckpointOf(storage.View()) == old(CheckpointOf(storage.View()))
    {
      hide Inv, LogicalDb, BuildRow, RowAllowed, CheckRowReferences;
      var schema :- storage.GetSchema(table);
      var row :- BuildNewRow(schema.columns, table, into, values);
      var ok := CheckConstraintsForInsert(table, schema.columns, row);
      if !ok {
        return Err(ConstraintViolation);
      }
      var checked :- CheckForeignKeysRow(schema.columns, row);
      r := storage.AppendRow(table, row);
    }

    /** The filter of an UPDATE or DELETE. */
    method PrepareStatementFilter(table: string, columns: seq<Column>, filter: Option<Filter>) returns (r: Result<Option<Filter>>)
      requires Valid() && table in Contents().db.tables && columns == Contents().db.tables[table].columns
      ensures r == PreparedFilter(Contents().db, table, filter)
    {
      hide Inv, LogicalDb;
      var resolved :- ResolveFilter(filter);
      r := PrepareOption(columns, table, resolved);
    }

    /** `update`: a NULL violation midway through the rewrite included, a rejection changes no byte of any table. */
    method Update(table: string, assignments: Assignments, filter: Option<Filter>) returns (r: Result<nat>)
      requires Valid()
      modifies storage
      ensures Valid() && storage.disk.snapshot == old(storage.disk.snapshot)
      ensures D.Follows(old(Contents()), Contents(), RunUpdate(old(Contents()).db, table, assignments, filter), r)
      ensures r.Err? ==> CheckpointOf(storage.View()) == old(CheckpointOf(storage.View()))
      ensures r.Ok? ==> r.value == MatchCount(old(Contents()).db, table, filter)
    {
      hide Inv, LogicalDb, PrepareAssignments, CheckAssignedReferences, UpdateStrands, UpdateKeepsUnique, PreparedFilter;
      var schema :- storage.GetSchema(table);
      var prepared :- PrepareStatementFilter(table, schema.columns, filter);
      var coerced :- CheckAssignments(schema.columns, table, assignments);
      var checked :- CheckForeignKeysAssigned(schema.columns, coerced);
      var kept := CheckReferencingChildrenOnUpdate(table, coerced, prepared);
      if !kept {
        return Err(ConstraintViolation);
      }
      var rows := storage.ReadRows(table);
      var unique := CheckUniqueForUpdate(schema.columns, rows.value, coerced, prepared);
      if !unique {
        return Err(ConstraintViolation);
      }
      var count := |FilterRows(rows.value, prepared)|;
      var rewritten :- storage.RewriteRows(table, UpdateRow(schema.columns, coerced, prepared));
      r := Ok(count);
    }

    /** `delete`. */
    method Delete(table: string, filter: Option<Filter>) returns (r: Result<nat>)
      requires Valid()
      modifies storage
      ensures Valid() && storage.disk.snapshot == old(storage.disk.snapshot)
      ensures D.Follows(old(Contents()), Contents(), RunDelete(old(Contents()).db, table, filter), r)
      ensures r.Err? ==> CheckpointOf(storage.View()) == old(CheckpointOf(storage.View()))
      ensures r.Ok? ==> r.value == MatchCount(old(Contents()).db, table, filter)
    {
      hide Inv, LogicalDb, DeleteStrands, PreparedFilter;
      var schema :- storage.GetSchema(table);
      var prepared :- PrepareStatementFilter(table, schema.columns, filter);
      var kept := CheckReferencingChildrenOnDelete(table, prepared);
      if !kept {
        return Err(ConstraintViolation);
      }
      DeleteRewrites(Contents().db.tables[table].rows, prepared);
      r := storage.RewriteRows(table, DeleteRow(prepared));
    }

    /**
     `execute_statement`: the session and the answer are those of the statement semantics, and a rejected statement
     leaves catalogs, index maps and the bytes of every table as they were.
     */
    method Execute(statement: Statement) returns (r: Result<Outcome>)
      requires Valid()
      modifies storage
      ensures Valid()
      ensures Contents() == After(old(Contents()), statement)
      ensures r == Answer(old(Contents()), statement)
      ensures r.Err? ==> CheckpointOf(storage.View()) == old(CheckpointOf(storage.View()))
      ensures !ControlsTransaction(statement) ==> storage.disk.snapshot == old(storage.disk.snapshot)
    {
      hide Inv, LogicalDb, Change, MatchCount;
      if statement.Select? {
        var rows :- Select(statement.query);
        r := Ok(Rows(rows));
      } else if ControlsTransaction(statement) {
        r := ExecuteControl(statement);
      } else {
        r := ExecuteChange(statement);
      }
    }

    /** BEGIN, COMMIT and ROLLBACK. */
    method ExecuteControl(statement: Statement) returns (r: Result<Outcome>)
      requires Valid() && ControlsTransaction(statement)
      modifies storage
      ensures Valid()
      ensures Contents() == After(old(Contents()), statement)
      ensures r == Answer(old(Contents()), statement)
      ensures r.Err? ==> CheckpointOf(storage.View()) == old(CheckpointOf(storage.View()))
    {
      hide Inv, LogicalDb, Change, MatchCount;
      match statement {
        case Begin =>
          var done :- storage.BeginTransaction();
          r := Ok(Done);
        case Commit =>
          var done :- storage.CommitTransaction();
          r := Ok(Done);
        case Rollback =>
          var done :- storage.RollbackTransaction();
          r := Ok(Done);
      }
    }

    /** The statements that change tables, rows or indexes. */
    method ExecuteChange(statement: Statement) returns (r: Result<Outcome>)
      requires Valid() && ChangesData(statement)
      modifies storage
      ensures Valid() && storage.disk.snapshot == old(storage.disk.snapshot)
      ensures Contents() == old(Contents()).(db := OrUnchanged(old(Contents()).db, Change(old(Contents()).db, statement)))
      ensures r == Answer(old(Contents()), statement)
      ensures r.Err? ==> CheckpointOf(storage.View()) == old(CheckpointOf(storage.View()))
    {
      hide Inv, LogicalDb, RunCreateTable, RunDropTable, RunAddColumn, RunInsert, RunUpdate, RunDelete, MatchCount;
      hide D.CreateIndex, D.DropIndex;
      match statement {
        case CreateTable(name, columns) =>
          var done :- CreateTable(name, columns);
          r := Ok(Done);
        case DropTable(name) =>
          var done :- DropTable(name);
          r := Ok(Done);
        case CreateIndex(name, table, column) =>
          var keys :- storage.CreateIndex(name, table, column);
          r := Ok(Done);
        case DropIndex(name) =>
          var on :- storage.DropIndex(name);
          r := Ok(Done);
        case AddColumn(table, column, default) =>
          var count :- AddColumn(table, column, default);
          r := Ok(Counted(count));
        case DropColumn(table, column) =>
          var count :- storage.DropColumn(table, column);
          r := Ok(Counted(count));
        case RenameColumn(table, from, to) =>
          var count :- storage.RenameColumn(table, from, to);
          r := Ok(Counted(count));
        case Insert(_, _, _) => r := ExecuteRowChange(statement);
        case Update(_, _, _) => r := ExecuteRowChange(statement);
        case Delete(_, _) => r := ExecuteRowChange(statement);
      }
    }

    /** INSERT, UPDATE and DELETE. */
    method ExecuteRowChange(statement: Statement) returns (r: Result<Outcome>)
      requires Valid() && (statement.Insert? || statement.Update? || statement.Delete?)
      modifies storage
      ensures Valid() && storage.disk.snapshot == old(storage.disk.snapshot)
      ensures Contents() == old(Contents()).(db := OrUnchanged(old(Contents()).db, Change(old(Contents()).db, statement)))
      ensures r == Answer(old(Contents()), statement)
      ensures r.Err? ==> CheckpointOf(storage.View()) == old(CheckpointOf(storage.View()))
    {
      hide Inv, LogicalDb, RunInsert, RunUpdate, RunDelete, MatchCount;
      match statement {
        case Insert(table, into, values) =>
          var done :- Insert(table, into, values);
          r := Ok(Counted(1));
        case Update(table, assignments, filter) =>
          var count :- Update(table, assignments, filter);
          r := Ok(Counted(count));
        case Delete(table, filter) =>
          var count :- Delete(table, filter);
          r := Ok(Counted(count));
      }
    }

    /** `execute_script`: statements run in order, and the first rejected one ends the script. */
    method ExecuteScript(script: seq<Statement>) returns (r: Result<seq<Outcome>>, ghost ran: nat)
      requires Valid()
      modifies storage
      ensures Valid() && ran <= |script|
      ensures Contents() == AfterAll(old(Contents()), script[..ran])
      ensures r.Ok? ==> ran == |script| && |r.value| == ran
      ensures r.Ok? ==> forall i :: 0 <= i < ran ==> Answer(AfterAll(old(Contents()), script[..i]), script[i]) == Ok(r.value[i])
      ensures r.Err? ==> ran < |script| && Answer(Contents(), script[ran]) == Err(r.error)
      ensures SessionConforms(old(Contents())) ==> SessionConforms(Contents())
      ensures SessionKeys(old(Contents())) && EachMeets(SafeForKeys, old(Contents()), script) ==> SessionKeys(Contents())
      ensures (SessionReferences(old(Contents())) && EachMeets(SafeForReferences, old(Contents()), script))
        ==> SessionReferences(Contents())
      ensures SessionConsistent(old(Contents())) && EachMeets(Safe, old(Contents()), script) ==> SessionConsistent(Contents())
    {
      hide Inv, LogicalDb, After, AfterAll, Answer, SessionConforms, SessionKeys, SessionReferences;
      hide SessionConsistent, EachMeets;
      var answers := [];
      ran := 0;
      AfterNothing(Contents());
      assert script[..0] == [];
      for n := 0 to |script|
        invariant Valid() && ran == n && |answers| == n
        invariant Contents() == AfterAll(old(Contents()), script[..n])
        invariant forall i :: 0 <= i < n ==> Answer(AfterAll(old(Contents()), script[..i]), script[i]) == Ok(answers[i])
      {
        ghost var before := Contents();
        var answer := Execute(script[n]);
        if answer.Err? {
          RejectedChangesNothing(before, script[n]);
          ConstraintsKept(old(Contents()), script, n);
          return Err(answer.error), n;
        }
        answers := answers + [answer.value];
        AfterNext(old(Contents()), script, n);
        ran := n + 1;
      }
      ConstraintsKept(old(Contents()), script, |script|);
      assert script[..|script|] == script;
      r := Ok(answers);
    }

    /**
     A transaction rolled back: after BEGIN, any statements that do not control transactions, rejected ones and DDL
     included, and ROLLBACK, catalogs, indexes and the bytes of every table file are what they were.
     */
    method BeginThenRollback(statements: seq<Statement>)
      requires Valid() && Contents().saved.None? && NoControl(statements)
      modifies storage
      ensures Valid() && Contents() == old(Contents())
      ensures CheckpointOf(storage.View()) == old(CheckpointOf(storage.View()))
    {
      hide Inv, LogicalDb, CheckpointOf, After, AfterAll;
      ghost var checkpoint := CheckpointOf(storage.View());
      var begun := storage.BeginTransaction();
      ghost var inside := Contents();
      AfterNothing(inside);
      assert statements[..0] == [];
      ghost var snapshot := storage.disk.snapshot;
      for n := 0 to |statements|
        invariant Valid() && storage.disk.snapshot == snapshot
        invariant Contents() == AfterAll(inside, statements[..n])
      {
        assert !ControlsTransaction(statements[n]);
        var answer := Execute(statements[n]);
        AfterNext(inside, statements, n);
      }
      assert statements[..|statements|] == statements;
      SavedStays(inside.db, inside.saved, statements);
      var ended := storage.RollbackTransaction();
    }

    /** Stopping between statements and reopening the directory: the same database, with its indexes coherent again. */
    method Reopen() returns (again: Engine)
      requires Valid()
      ensures again.Valid() && again.Contents() == D.Session(Contents().db, None)
    {
      hide Inv;
      EveryBoundaryIsDurable(storage.crypto, storage.View());
      var reopened := new Storage(storage.crypto, storage.disk);
      again := new Engine(reopened);
    }
  }

  /** The rows of a table's file, as a scan of its bytes finds them. */
  ghost function Scanned(storage: Storage, table: string): seq<Located>
    reads storage
  {
    if table in storage.disk.root.tables then RowsOf(storage.crypto, storage.disk.root.tables[table].bytes) else []
  }

  // ---- what the checks decide ----

  lemma NullRejected(columns: seq<Column>, rows: seq<Row>, row: Row)
    requires !forall c :: c in columns ==> NullAllowed(c, row)
    ensures !RowAllowed(columns, rows, row)
  {
    hide MustNotBeNull, MustBeUnique, Holds;
    var c :| c in columns && !NullAllowed(c, row);
    assert !ValueAllowed(c, rows, Get(row, c.name));
  }

  lemma DuplicateRejected(columns: seq<Column>, rows: seq<Row>, row: Row, c: Column)
    requires c in columns && NeedsLookup(c, row) && Holds(rows, c.name, Get(row, c.name))
    ensures !RowAllowed(columns, rows, row)
  {
    hide MustNotBeNull, MustBeUnique, Holds;
    assert !ValueAllowed(c, rows, Get(row, c.name));
  }

  lemma NewRowAllowed(columns: seq<Column>, rows: seq<Row>, row: Row, unique: seq<Column>)
    requires forall c :: c in columns ==> NullAllowed(c, row)
    requires forall c :: c in unique <==> c in columns && NeedsLookup(c, row)
    requires forall i :: 0 <= i < |unique| ==> !Holds(rows, unique[i].name, Get(row, unique[i].name))
    ensures RowAllowed(columns, rows, row)
  {
    hide MustNotBeNull, MustBeUnique, Holds;
    forall c | c in columns ensures ValueAllowed(c, rows, Get(row, c.name)) {
      assert NullAllowed(c, row);
      if NeedsLookup(c, row) {
        assert c in unique;
      }
    }
  }

  ghost predicate StrandsThrough(db: D.Db, table: string, assignments: Assignments, filter: Option<Filter>, x: Reference)
    requires table in db.tables && x.table in db.tables
  {
    && FindAssignment(assignments, x.parentColumn).Some?
    && exists row :: (row in db.tables[table].rows
      && LosesValue(row, filter, x.parentColumn, FindAssignment(assignments, x.parentColumn).value, db.tables[x.table].rows, x.column))
  }

  lemma StrandedThrough(db: D.Db, table: string, assignments: Assignments, filter: Option<Filter>, x: Reference)
    requires table in db.tables && x.table in db.tables
    requires RefersIn(db.tables[x.table].columns, x.column, table, x.parentColumn)
    requires StrandsThrough(db, table, assignments, filter, x)
    ensures UpdateStrands(db, table, assignments, filter)
  {
    hide LosesValue, FindAssignment;
    var child :| child in db.tables[x.table].columns && child.name == x.column && References(table, x.parentColumn) in child.constraints;
    assert Refers(db, x.table, child, table, x.parentColumn);
  }

  lemma NoneStranded(db: D.Db, table: string, assignments: Assignments, filter: Option<Filter>, referencing: seq<Reference>)
    requires table in db.tables
    requires forall x ::
      x in referencing <==> x.table in db.tables && RefersIn(db.tables[x.table].columns, x.column, table, x.parentColumn)
    requires forall i :: 0 <= i < |referencing| ==>
      referencing[i].table in db.tables && !StrandsThrough(db, table, assignments, filter, referencing[i])
    ensures !UpdateStrands(db, table, assignments, filter)
  {
    hide LosesValue, FindAssignment;
    forall t, child, column | Refers(db, t, child, table, column)
      ensures !StrandsThrough(db, table, assignments, filter, Reference(t, child.name, column))
    {
      assert RefersIn(db.tables[t].columns, child.name, table, column);
      assert Reference(t, child.name, column) in referencing;
    }
  }

  ghost predicate LastParentThrough(db: D.Db, table: string, filter: Option<Filter>, x: Reference)
    requires table in db.tables && x.table in db.tables
  {
    exists row :: (row in db.tables[table].rows
      && LastParent(row, db.tables[table].rows, filter, x.parentColumn, db.tables[x.table].rows, x.column))
  }

  lemma LostThrough(db: D.Db, table: string, filter: Option<Filter>, x: Reference)
    requires table in db.tables && x.table in db.tables
    requires RefersIn(db.tables[x.table].columns, x.column, table, x.parentColumn)
    requires LastParentThrough(db, table, filter, x)
    ensures DeleteStrands(db, table, filter)
  {
    hide LastParent;
    var child :| child in db.tables[x.table].columns && child.name == x.column && References(table, x.parentColumn) in child.constraints;
    assert Refers(db, x.table, child, table, x.parentColumn);
  }

  lemma NoneLost(db: D.Db, table: string, filter: Option<Filter>, referencing: seq<Reference>)
    requires table in db.tables
    requires forall x ::
      x in referencing <==> x.table in db.tables && RefersIn(db.tables[x.table].columns, x.column, table, x.parentColumn)
    requires forall i :: 0 <= i < |referencing| ==>
      referencing[i].table in db.tables && !LastParentThrough(db, table, filter, referencing[i])
    ensures !DeleteStrands(db, table, filter)
  {
    hide LastParent;
    forall t, child, column | Refers(db, t, child, table, column)
      ensures !LastParentThrough(db, table, filter, Reference(t, child.name, column))
    {
      assert RefersIn(db.tables[t].columns, child.name, table, column);
      assert Reference(t, child.name, column) in referencing;
    }
  }

  lemma ReferenceFound(db: D.Db, name: string, x: Reference)
    requires x.table in db.tables && x.table != name
    requires RefersIn(db.tables[x.table].columns, x.column, name, x.parentColumn)
    ensures RunDropTable(db, name) == Err(ConstraintViolation)
  {
    var child :| child in db.tables[x.table].columns && child.name == x.column && References(name, x.parentColumn) in child.constraints;
    assert Refers(db, x.table, child, name, x.parentColumn);
  }

  lemma OnlyOwnReferences(db: D.Db, name: string, referencing: seq<Reference>)
    requires forall x ::
      x in referencing <==> x.table in db.tables && RefersIn(db.tables[x.table].columns, x.column, name, x.parentColumn)
    requires forall i :: 0 <= i < |referencing| ==> referencing[i].table == name
    ensures RunDropTable(db, name) == D.DropTable(db, name)
  {
    hide D.DropTable;
    forall t, child, column | Refers(db, t, child, name, column) ensures t == name {
      assert RefersIn(db.tables[t].columns, child.name, name, column);
      assert Reference(t, child.name, column) in referencing;
    }
  }

  /** What a run of safe statements has kept by the time its first statements have run. */
  lemma ConstraintsKept(s: D.Session, script: seq<Statement>, ran: nat)
    requires ran <= |script|
    ensures SessionConforms(s) ==> SessionConforms(AfterAll(s, script[..ran]))
    ensures SessionKeys(s) && EachMeets(SafeForKeys, s, script) ==> SessionKeys(AfterAll(s, script[..ran]))
    ensures (SessionReferences(s) && EachMeets(SafeForReferences, s, script)) ==> SessionReferences(AfterAll(s, script[..ran]))
    ensures SessionConsistent(s) && EachMeets(Safe, s, script) ==> SessionConsistent(AfterAll(s, script[..ran]))
  {
    hide SessionConforms, SessionKeys, SessionReferences, SessionConsistent, EachMeets, AfterAll;
    if SessionConforms(s) {
      RunsConform(s, script[..ran]);
    }
    if SessionKeys(s) && EachMeets(SafeForKeys, s, script) {
      KeysHoldIffSafe(s, script);
      AlwaysMeansAfterPrefixes(SessionKeys, s, script);
    }
    if SessionReferences(s) && EachMeets(SafeForReferences, s, script) {
      ReferencesHoldIffSafe(s, script);
      AlwaysMeansAfterPrefixes(SessionReferences, s, script);
    }
    if SessionConsistent(s) && EachMeets(Safe, s, script) {
      ConsistentIffSafe(s, script);
      AlwaysMeansAfterPrefixes(SessionConsistent, s, script);
    }
  }

  lemma AfterNothing(s: D.Session)
    ensures AfterAll(s, []) == s
  {
  }

  lemma AfterNext(s: D.Session, statements: seq<Statement>, n: nat)
    requires n < |statements|
    ensures AfterAll(s, statements[..n + 1]) == After(AfterAll(s, statements[..n]), statements[n])
  {
    hide After, AfterAll;
    assert statements[..n + 1] == statements[..n] + [statements[n]];
    AfterAppended(s, statements[..n], [statements[n]]);
    AfterOne(AfterAll(s, statements[..n]), statements[n]);
  }
}

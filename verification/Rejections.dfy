/** Which error a rejected statement is answered with. */
module Rejections {
  import opened Types
  import opened Ast
  import opened Filters
  import opened Queries
  import opened Statements
  import opened Coercions
  import opened Answers
  import opened Effects
  import opened Acceptance
  import opened Conformance
  import D = Database

  // ---- filters ----

  /** The error of a filter without subqueries: that of its leftmost comparison that does not fit. */
  ghost predicate FirstMisfit(db: D.Db, columns: seq<Column>, table: string, filter: Filter, e: Error) {
    match filter
    case And(left, right) =>
      if Fits(db, columns, left) then FirstMisfit(db, columns, table, right, e) else FirstMisfit(db, columns, table, left, e)
    case Or(left, right) =>
      if Fits(db, columns, left) then FirstMisfit(db, columns, table, right, e) else FirstMisfit(db, columns, table, left, e)
    case InSubquery(_, _, _) => false
    case _ => e == if D.HasColumn(columns, filter.column) then TypeMismatch(filter.column) else ColumnNotFound(table, filter.column)
  }

  lemma {:induction false} MisfitReported(db: D.Db, columns: seq<Column>, table: string, filter: Filter)
    requires NoSubquery(filter)
    ensures Fits(db, columns, filter) <==> Prepare(columns, table, filter).Ok?
    ensures !Fits(db, columns, filter) ==> FirstMisfit(db, columns, table, filter, Prepare(columns, table, filter).error)
  {
    hide RunQuery, Coerce, Readable, ConstantFits, AllReadable, Resolve;
    NothingToResolve(db, filter);
    FitsIff(db, columns, table, filter);
    match filter {
      case And(left, right) =>
        MisfitReported(db, columns, table, left);
        MisfitReported(db, columns, table, right);
      case Or(left, right) =>
        MisfitReported(db, columns, table, left);
        MisfitReported(db, columns, table, right);
      case Compare(column, _, value) =>
        if D.HasColumn(columns, column) {
          CoerceReads(column, FindColumn(columns, column).value.dataType, value);
        }
      case InList(column, values, _) =>
        if D.HasColumn(columns, column) {
          ListError(column, FindColumn(columns, column).value.dataType, values);
        }
      case _ =>
    }
  }

  lemma {:induction false} NothingToResolve(db: D.Db, filter: Filter)
    requires NoSubquery(filter)
    ensures Resolve(db, filter) == Ok(filter)
  {
    hide SubqueryValues;
    match filter
    case And(left, right) =>
      NothingToResolve(db, left);
      NothingToResolve(db, right);
    case Or(left, right) =>
      NothingToResolve(db, left);
      NothingToResolve(db, right);
    case _ =>
  }

  lemma {:induction false} ListError(column: string, expected: DataType, values: seq<Value>)
    ensures CoerceAll(column, expected, values).Err? ==> CoerceAll(column, expected, values).error == TypeMismatch(column)
  {
    hide Coerce;
    if values != [] {
      CoerceReads(column, expected, values[0]);
      ListError(column, expected, values[1..]);
    }
  }

  // ---- INSERT ----

  /** A REFERENCES of some column names a table that is not there. */
  ghost predicate MissesTable(db: D.Db, columns: seq<Column>, p: string) {
    p !in db.tables && exists c, q :: c in columns && References(p, q) in c.constraints
  }

  /** A violated constraint is reported as such, except that a missing parent table is named. */
  ghost predicate Violation(db: D.Db, columns: seq<Column>, e: Error) {
    e == ConstraintViolation || (e.TableNotFound? && MissesTable(db, columns, e.table))
  }

  lemma {:induction false} ReferenceError(db: D.Db, constraints: seq<Constraint>, value: Value)
    requires CheckReferences(db, constraints, value).Err?
    ensures var e := CheckReferences(db, constraints, value).error;
      e == ConstraintViolation || (e.TableNotFound? && e.table !in db.tables && exists q :: References(e.table, q) in constraints)
  {
    if constraints[0].References? && constraints[0].table !in db.tables {
      assert References(constraints[0].table, constraints[0].column) in constraints;
    } else if CheckReferences(db, constraints[1..], value).Err? {
      ReferenceError(db, constraints[1..], value);
    }
  }

  lemma {:induction false} RowReferenceError(db: D.Db, columns: seq<Column>, row: Row)
    requires CheckRowReferences(db, columns, row).Err?
    ensures Violation(db, columns, CheckRowReferences(db, columns, row).error)
  {
    hide CheckReferences;
    if CheckReferences(db, columns[0].constraints, Get(row, columns[0].name)).Err? {
      ReferenceError(db, columns[0].constraints, Get(row, columns[0].name));
    } else {
      RowReferenceError(db, columns[1..], row);
    }
  }

  /** The first name that is no column is reported. */
  ghost predicate FirstUnknown(columns: seq<Column>, table: string, names: seq<string>, e: Error) {
    exists i :: 0 <= i < |names| && UnknownAt(columns, names, i) && e == ColumnNotFound(table, names[i])
  }

  predicate UnknownAt(columns: seq<Column>, names: seq<string>, i: nat)
    requires i < |names|
  {
    !D.HasColumn(columns, names[i]) && forall j :: 0 <= j < i ==> D.HasColumn(columns, names[j])
  }

  lemma {:induction false} TargetError(names: seq<string>, columns: seq<Column>, table: string)
    requires TargetColumns(names, columns, table).Err?
    ensures FirstUnknown(columns, table, names, TargetColumns(names, columns, table).error)
  {
    hide D.HasColumn;
    if D.HasColumn(columns, names[0]) {
      TargetError(names[1..], columns, table);
      var e := TargetColumns(names, columns, table).error;
      var i :| 0 <= i < |names[1..]| && UnknownAt(columns, names[1..], i) && e == ColumnNotFound(table, names[1..][i]);
      assert forall j :: 0 < j <= i ==> names[j] == names[1..][j - 1];
      assert UnknownAt(columns, names, i + 1);
    } else {
      assert UnknownAt(columns, names, 0);
    }
  }

  /** The first value its column cannot read is reported. */
  ghost predicate FirstUnreadable(targets: seq<Column>, values: seq<Value>, e: Error)
    requires |targets| == |values|
  {
    exists i :: 0 <= i < |targets| && UnreadableAt(targets, values, i) && e == TypeMismatch(targets[i].name)
  }

  ghost predicate UnreadableAt(targets: seq<Column>, values: seq<Value>, i: nat)
    requires i < |targets| == |values|
  {
    !Readable(targets[i].dataType, values[i]) && forall j :: 0 <= j < i ==> Readable(targets[j].dataType, values[j])
  }

  lemma {:induction false} PutError(targets: seq<Column>, values: seq<Value>)
    requires |targets| == |values| && PutValues(targets, values).Err?
    ensures FirstUnreadable(targets, values, PutValues(targets, values).error)
    decreases |targets|
  {
    hide Coerce, Readable;
    var n := |targets| - 1;
    CoerceReads(targets[n].name, targets[n].dataType, values[n]);
    if PutValues(targets[..n], values[..n]).Err? {
      PutError(targets[..n], values[..n]);
      var e := PutValues(targets, values).error;
      var i :| 0 <= i < n && UnreadableAt(targets[..n], values[..n], i) && e == TypeMismatch(targets[..n][i].name);
      assert UnreadableAt(targets, values, i);
    } else {
      forall j | 0 <= j < n ensures Readable(targets[j].dataType, values[j]) {
        PutReadable(targets[..n], values[..n], j);
        CoerceReads(targets[j].name, targets[j].dataType, values[j]);
      }
      assert UnreadableAt(targets, values, n);
    }
  }

  /** Table, number of values, names, types and constraints are checked in this order. */
  ghost predicate InsertError(db: D.Db, table: string, into: Option<seq<string>>, values: seq<Value>, e: Error) {
    if table !in db.tables then e == TableNotFound(table) else
    var columns := db.tables[table].columns;
    var names := NamesGiven(columns, into);
    if |names| != |values| then e == ValueCountMismatch(|names|, |values|)
    else if Targets(columns, table, into).Err? then FirstUnknown(columns, table, names, e)
    else
      var targets := Targets(columns, table, into).value;
      |targets| == |values| &&
      if exists i :: 0 <= i < |values| && !Readable(targets[i].dataType, values[i])
      then FirstUnreadable(targets, values, e) else Violation(db, columns, e)
  }

  lemma InsertRejected(db: D.Db, table: string, into: Option<seq<string>>, values: seq<Value>)
    requires RunInsert(db, table, into, values).Err?
    ensures InsertError(db, table, into, values, RunInsert(db, table, into, values).error)
  {
    hide Coerce, Readable, RowAllowed, CheckRowReferences, FirstUnreadable, FirstUnknown, Violation, TargetColumns, PutValues;
    if table in db.tables {
      var columns := db.tables[table].columns;
      var names := NamesGiven(columns, into);
      if |names| == |values| {
        if Targets(columns, table, into).Err? {
          TargetError(names, columns, table);
        } else {
          BuildError(db, table, into, values);
        }
      }
    }
  }

  lemma BuildError(db: D.Db, table: string, into: Option<seq<string>>, values: seq<Value>)
    requires table in db.tables && RunInsert(db, table, into, values).Err?
    requires var columns := db.tables[table].columns;
      |NamesGiven(columns, into)| == |values| && Targets(columns, table, into).Ok?
    ensures InsertError(db, table, into, values, RunInsert(db, table, into, values).error)
  {
    hide Coerce, Readable, RowAllowed, CheckRowReferences, FirstUnreadable, FirstUnknown, Violation, TargetColumns, PutValues, FillNulls;
    var columns := db.tables[table].columns;
    var targets := Targets(columns, table, into).value;
    TargetsNamed(columns, table, into);
    if PutValues(targets, values).Err? {
      PutError(targets, values);
      UnreadableExists(targets, values, PutValues(targets, values).error);
    } else {
      forall i | 0 <= i < |values| ensures Readable(targets[i].dataType, values[i]) {
        PutReadable(targets, values, i);
        CoerceReads(targets[i].name, targets[i].dataType, values[i]);
      }
      var row := BuildRow(columns, table, into, values).value;
      AnyViolation(db, columns);
      if CheckRowReferences(db, columns, row).Err? {
        RowReferenceError(db, columns, row);
      }
    }
  }

  lemma AnyViolation(db: D.Db, columns: seq<Column>)
    ensures Violation(db, columns, ConstraintViolation)
  {
  }

  lemma UnreadableExists(targets: seq<Column>, values: seq<Value>, e: Error)
    requires |targets| == |values| && FirstUnreadable(targets, values, e)
    ensures exists i :: 0 <= i < |values| && !Readable(targets[i].dataType, values[i])
  {
    hide Readable;
  }

  // ---- UPDATE and DELETE ----

  /** The error of the filter of a statement, when it holds no subquery. */
  ghost predicate FilterError(db: D.Db, columns: seq<Column>, table: string, filter: Option<Filter>, e: Error) {
    filter.Some? && (NoSubquery(filter.value) ==> FirstMisfit(db, columns, table, filter.value, e))
  }

  lemma FilterRejected(db: D.Db, table: string, filter: Option<Filter>)
    requires table in db.tables
    ensures PreparedFilter(db, table, filter).Ok? <==> OptionFits(db, db.tables[table].columns, filter)
    ensures PreparedFilter(db, table, filter).Err? ==>
      FilterError(db, db.tables[table].columns, table, filter, PreparedFilter(db, table, filter).error)
  {
    hide Resolve, Prepare, FirstMisfit;
    var columns := db.tables[table].columns;
    OptionFitsIff(db, columns, table, filter);
    if filter.Some? && NoSubquery(filter.value) {
      NothingToResolve(db, filter.value);
      MisfitReported(db, columns, table, filter.value);
    }
  }

  /** A repeated column, an unknown one, a value the column cannot read. */
  ghost predicate AssignmentError(columns: seq<Column>, table: string, assignments: Assignments, i: nat, e: Error)
    requires i < |assignments|
  {
    var (name, value) := assignments[i];
    if AssignsName(assignments[..i], name) then e == InvalidSchema
    else match FindColumn(columns, name)
         case None => e == ColumnNotFound(table, name)
         case Some(c) => !Readable(c.dataType, value) && e == TypeMismatch(name)
  }

  ghost predicate FirstAssignmentError(columns: seq<Column>, table: string, assignments: Assignments, e: Error) {
    exists i :: 0 <= i < |assignments| && AssignmentError(columns, table, assignments, i, e)
      && CoerceAssignments(columns, table, assignments[..i]).Ok?
  }

  lemma {:induction false} AssignmentRejected(columns: seq<Column>, table: string, assignments: Assignments)
    requires CoerceAssignments(columns, table, assignments).Err?
    ensures FirstAssignmentError(columns, table, assignments, CoerceAssignments(columns, table, assignments).error)
  {
    hide Coerce, Readable;
    var n := |assignments| - 1;
    var e := CoerceAssignments(columns, table, assignments).error;
    if CoerceAssignments(columns, table, assignments[..n]).Err? {
      AssignmentRejected(columns, table, assignments[..n]);
      var i :| 0 <= i < n && AssignmentError(columns, table, assignments[..n], i, e)
        && CoerceAssignments(columns, table, assignments[..n][..i]).Ok?;
      assert assignments[..n][..i] == assignments[..i];
      assert AssignmentError(columns, table, assignments, i, e);
    } else {
      var (name, value) := assignments[n];
      assert Assigns(assignments[..n], name) <==> AssignsName(assignments[..n], name);
      if !Assigns(assignments[..n], name) && FindColumn(columns, name).Some? {
        CoerceReads(name, FindColumn(columns, name).value.dataType, value);
      }
      assert AssignmentError(columns, table, assignments, n, e);
    }
  }

  lemma {:induction false} AssignedReferenceError(db: D.Db, columns: seq<Column>, assignments: Assignments)
    requires CheckAssignedReferences(db, columns, assignments).Err?
    ensures Violation(db, columns, CheckAssignedReferences(db, columns, assignments).error)
  {
    hide CheckReferences;
    var c := FindColumn(columns, assignments[0].0);
    var constraints := if c.Some? then c.value.constraints else [];
    if CheckReferences(db, constraints, assignments[0].1).Err? {
      ReferenceError(db, constraints, assignments[0].1);
    } else {
      AssignedReferenceError(db, columns, assignments[1..]);
    }
  }

  /** Table, filter, assignments and constraints are checked in this order. */
  ghost predicate UpdateError(db: D.Db, table: string, assignments: Assignments, filter: Option<Filter>, e: Error) {
    if table !in db.tables then e == TableNotFound(table) else
    var columns := db.tables[table].columns;
    if !OptionFits(db, columns, filter) then FilterError(db, columns, table, filter, e)
    else if assignments == [] then e == ParseError
    else if CoerceAssignments(columns, table, assignments).Err? then FirstAssignmentError(columns, table, assignments, e)
    else Violation(db, columns, e)
  }

  lemma UpdateRejected(db: D.Db, table: string, assignments: Assignments, filter: Option<Filter>)
    requires RunUpdate(db, table, assignments, filter).Err?
    ensures UpdateError(db, table, assignments, filter, RunUpdate(db, table, assignments, filter).error)
  {
    hide PreparedFilter, OptionFits, FilterError, CoerceAssignments, FirstAssignmentError, CheckAssignedReferences, Violation;
    hide UpdateStrands, UpdateKeepsUnique;
    if table in db.tables {
      var u := db.tables[table];
      FilterRejected(db, table, filter);
      if PreparedFilter(db, table, filter).Ok? && assignments != [] {
        if CoerceAssignments(u.columns, table, assignments).Err? {
          AssignmentRejected(u.columns, table, assignments);
        } else {
          var coerced := CoerceAssignments(u.columns, table, assignments).value;
          AnyViolation(db, u.columns);
          UpdateRewrites(u.columns, u.rows, coerced, PreparedFilter(db, table, filter).value);
          if CheckAssignedReferences(db, u.columns, coerced).Err? {
            AssignedReferenceError(db, u.columns, coerced);
          }
        }
      }
    }
  }

  ghost predicate DeleteError(db: D.Db, table: string, filter: Option<Filter>, e: Error) {
    if table !in db.tables then e == TableNotFound(table) else
    var columns := db.tables[table].columns;
    if !OptionFits(db, columns, filter) then FilterError(db, columns, table, filter, e) else e == ConstraintViolation
  }

  lemma DeleteRejected(db: D.Db, table: string, filter: Option<Filter>)
    requires RunDelete(db, table, filter).Err?
    ensures DeleteError(db, table, filter, RunDelete(db, table, filter).error)
  {
    hide PreparedFilter, OptionFits, FilterError, DeleteStrands;
    if table in db.tables {
      FilterRejected(db, table, filter);
      if PreparedFilter(db, table, filter).Ok? {
        DeleteRewrites(db.tables[table].rows, PreparedFilter(db, table, filter).value);
      }
    }
  }

  // ---- every statement ----

  /** The error of a statement that is not accepted. */
  ghost predicate Reports(db: D.Db, statement: Statement, e: Error)
    requires ChangesData(statement)
  {
    match statement
    case CreateTable(name, columns) =>
      e == if SchemaFits(db, name, columns) then TableExists(name) else InvalidSchema
    case DropTable(name) =>
      e == if exists t, child, column :: t != name && Refers(db, t, child, name, column) then ConstraintViolation else TableNotFound(name)
    case CreateIndex(_, table, column) =>
      e == if table !in db.tables then TableNotFound(table)
           else if !KnownColumn(db, table, column) then ColumnNotFound(table, column) else InvalidSchema
    case DropIndex(_) => e == InvalidSchema
    case AddColumn(table, c, default) =>
      e == if !Readable(c.dataType, DefaultOf(default)) then TypeMismatch(c.name)
           else if table !in db.tables then TableNotFound(table) else InvalidSchema
    case DropColumn(table, column) =>
      e == if table !in db.tables then TableNotFound(table)
           else if |db.tables[table].columns| <= 1 then InvalidSchema else ColumnNotFound(table, column)
    case RenameColumn(table, from, _) =>
      e == if table !in db.tables then TableNotFound(table)
           else if !KnownColumn(db, table, from) then ColumnNotFound(table, from) else InvalidSchema
    case Insert(table, into, values) => InsertError(db, table, into, values, e)
    case Update(table, assignments, filter) => UpdateError(db, table, assignments, filter, e)
    case Delete(table, filter) => DeleteError(db, table, filter, e)
  }

  /** A rejected statement is answered with the error of the first thing that is wrong with it. */
  lemma RejectedWith(s: D.Session, statement: Statement)
    requires Conforms(s.db) && ChangesData(statement) && Answer(s, statement).Err?
    ensures Reports(s.db, statement, Answer(s, statement).error)
  {
    hide Conforms, RunInsert, RunUpdate, RunDelete, SchemaOk, SchemaFits, InsertError, UpdateError, DeleteError;
    hide KnownColumn, Coerce, Readable, D.HasColumn, MatchCount, RunQuery;
    match statement {
      case CreateTable(name, columns) => SchemaFitsIff(s.db, name, columns);
      case CreateIndex(name, table, column) => ColumnKnown(s.db, table, column);
      case AddColumn(table, c, default) => CoerceReads(c.name, c.dataType, DefaultOf(default));
      case DropColumn(table, column) => ColumnKnown(s.db, table, column);
      case RenameColumn(table, from, to) => ColumnKnown(s.db, table, from);
      case Insert(table, into, values) => InsertRejected(s.db, table, into, values);
      case Update(table, assignments, filter) => UpdateRejected(s.db, table, assignments, filter);
      case Delete(table, filter) => DeleteRejected(s.db, table, filter);
      case _ =>
    }
  }
}

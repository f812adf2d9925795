/** Exactly which statements go through, read off the statement and the database. */
module Acceptance {
  import opened Types
  import opened Ast
  import opened Filters
  import opened Queries
  import opened Statements
  import opened Coercions
  import opened Answers
  import opened Effects
  import opened Conformance
  import ForeignKeys
  import KeyConstraints
  import D = Database

  // ---- filters ----

  /** The first column of that name. */
  ghost predicate ColumnIs(columns: seq<Column>, name: string, c: Column) {
    exists i: nat :: FirstNamed(columns, name, i) && columns[i] == c
  }

  lemma FindsIt(columns: seq<Column>, name: string)
    ensures forall c :: FindColumn(columns, name) == Some(c) <==> ColumnIs(columns, name, c)
    ensures D.HasColumn(columns, name) <==> exists c :: ColumnIs(columns, name, c)
  {
    forall c | ColumnIs(columns, name, c) ensures FindColumn(columns, name) == Some(c) {
      var i: nat :| FirstNamed(columns, name, i) && columns[i] == c;
      FindsFirst(columns, name, i);
    }
    if D.HasColumn(columns, name) {
      var i := HasFirst(columns, name);
      FindsFirst(columns, name, i);
      assert ColumnIs(columns, name, columns[i]);
    }
  }

  /** LIKE needs texts on both sides, the other operators a constant the column can read. */
  ghost predicate ConstantFits(c: Column, op: CompareOp, value: Value) {
    if op == CompareOp.Like then c.dataType == TextType && value.Text? else Readable(c.dataType, value)
  }

  ghost predicate AllReadable(c: Column, values: seq<Value>) {
    forall i :: 0 <= i < |values| ==> Readable(c.dataType, values[i])
  }

  ghost predicate CellsReadable(c: Column, rows: seq<seq<Value>>) {
    forall i :: 0 <= i < |rows| ==> |rows[i]| == 1 && Readable(c.dataType, rows[i][0])
  }

  /** Columns are known, constants fit them, and subqueries run and give one column of fitting values. */
  ghost predicate Fits(db: D.Db, columns: seq<Column>, filter: Filter)
    decreases filter
  {
    match filter
    case Compare(column, op, value) =>
      exists c :: ColumnIs(columns, column, c) && ConstantFits(c, op, value)
    case IsNull(column) => D.HasColumn(columns, column)
    case IsNotNull(column) => D.HasColumn(columns, column)
    case InList(column, values, _) => exists c :: ColumnIs(columns, column, c) && AllReadable(c, values)
    case InSubquery(column, subquery, _) =>
      && subquery.Select? && RunQuery(db, subquery.query).Ok? && |RunQuery(db, subquery.query).value.columns| == 1
      && exists c :: ColumnIs(columns, column, c) && CellsReadable(c, RunQuery(db, subquery.query).value.rows)
    case And(left, right) => Fits(db, columns, left) && Fits(db, columns, right)
    case Or(left, right) => Fits(db, columns, left) && Fits(db, columns, right)
  }

  lemma CompareFits(columns: seq<Column>, table: string, column: string, op: CompareOp, value: Value)
    ensures Prepare(columns, table, Compare(column, op, value)).Ok?
      <==> exists c :: ColumnIs(columns, column, c) && ConstantFits(c, op, value)
  {
    hide ColumnIs, Readable, Coerce;
    FindsIt(columns, column);
    if FindColumn(columns, column).Some? {
      var c := FindColumn(columns, column).value;
      CoerceReads(column, c.dataType, value);
      assert ColumnIs(columns, column, c);
    }
  }

  lemma ListFits(columns: seq<Column>, table: string, column: string, values: seq<Value>, negated: bool)
    ensures Prepare(columns, table, InList(column, values, negated)).Ok?
      <==> exists c :: ColumnIs(columns, column, c) && AllReadable(c, values)
  {
    hide ColumnIs, Readable, Coerce;
    FindsIt(columns, column);
    if FindColumn(columns, column).Some? {
      var c := FindColumn(columns, column).value;
      assert ColumnIs(columns, column, c);
      forall i | 0 <= i < |values| ensures Coerce(column, c.dataType, values[i]).Ok? <==> Readable(c.dataType, values[i]) {
        CoerceReads(column, c.dataType, values[i]);
      }
    }
  }

  lemma SubqueryFits(db: D.Db, c: Column, q: Query)
    requires RunQuery(db, q).Ok? && |RunQuery(db, q).value.columns| == 1
    ensures AllReadable(c, FirstValues(RunQuery(db, q).value.rows)) <==> CellsReadable(c, RunQuery(db, q).value.rows)
  {
    hide RunQuery, Readable;
    var rows := RunQuery(db, q).value.rows;
    QueryIsWide(db, q);
    FirstCells(rows);
    assert forall i :: 0 <= i < |rows| ==> FirstValues(rows)[i] == rows[i][0] && |rows[i]| == 1;
  }

  /** A filter resolves and prepares exactly when it fits. */
  lemma {:induction false} FitsIff(db: D.Db, columns: seq<Column>, table: string, filter: Filter)
    ensures Fits(db, columns, filter) <==> Resolve(db, filter).Ok? && Prepare(columns, table, Resolve(db, filter).value).Ok?
  {
    hide RunQuery, ColumnIs, Readable, FirstValues, AllReadable, CellsReadable;
    match filter {
      case Compare(column, op, value) => CompareFits(columns, table, column, op, value);
      case InList(column, values, negated) => ListFits(columns, table, column, values, negated);
      case InSubquery(column, subquery, negated) =>
        if subquery.Select? && RunQuery(db, subquery.query).Ok? && |RunQuery(db, subquery.query).value.columns| == 1 {
          var rows := RunQuery(db, subquery.query).value.rows;
          ListFits(columns, table, column, FirstValues(rows), negated);
          forall c ensures AllReadable(c, FirstValues(rows)) <==> CellsReadable(c, rows) {
            SubqueryFits(db, c, subquery.query);
          }
        }
      case And(left, right) =>
        FitsIff(db, columns, table, left);
        FitsIff(db, columns, table, right);
      case Or(left, right) =>
        FitsIff(db, columns, table, left);
        FitsIff(db, columns, table, right);
      case _ =>
    }
  }

  ghost predicate OptionFits(db: D.Db, columns: seq<Column>, filter: Option<Filter>) {
    filter.None? || Fits(db, columns, filter.value)
  }

  lemma OptionFitsIff(db: D.Db, columns: seq<Column>, table: string, filter: Option<Filter>)
    ensures OptionFits(db, columns, filter)
      <==> ResolveOption(db, filter).Ok? && PrepareOption(columns, table, ResolveOption(db, filter).value).Ok?
  {
    hide Fits, Resolve, Prepare;
    if filter.Some? {
      FitsIff(db, columns, table, filter.value);
    }
  }

  // ---- INSERT ----

  /** The value breaks no NOT NULL, UNIQUE or PRIMARY KEY of its column. */
  predicate ColumnAllows(c: Column, rows: seq<Row>, value: Value) {
    && (NotNull in c.constraints || PrimaryKey in c.constraints ==> value != Null)
    && ((Unique in c.constraints || PrimaryKey in c.constraints) && value != Null
        ==> forall row :: row in rows ==> Get(row, c.name) != value)
  }

  /** The value is NULL, or some row of the parent table holds it. */
  ghost predicate HasItsParent(db: D.Db, p: string, q: string, value: Value) {
    value == Null || (p in db.tables && exists row :: row in db.tables[p].rows && Get(row, q) == value)
  }

  ghost predicate ColumnHasParents(db: D.Db, c: Column, value: Value) {
    forall p, q :: References(p, q) in c.constraints ==> HasItsParent(db, p, q, value)
  }

  ghost predicate RowFits(db: D.Db, t: D.Table, row: Row) {
    forall c :: c in t.columns ==> ColumnAllows(c, t.rows, Get(row, c.name)) && ColumnHasParents(db, c, Get(row, c.name))
  }

  ghost predicate InsertAccepted(db: D.Db, table: string, into: Option<seq<string>>, values: seq<Value>) {
    && table in db.tables
    && var t := db.tables[table];
    exists row :: Stores(t.columns, NamesGiven(t.columns, into), values, row) && RowFits(db, t, row)
  }

  lemma {:induction false} ReferencesChecked(db: D.Db, constraints: seq<Constraint>, value: Value)
    ensures CheckReferences(db, constraints, value).Ok?
      <==> forall p, q :: References(p, q) in constraints ==> HasItsParent(db, p, q, value)
  {
    if constraints != [] && value != Null {
      ReferencesChecked(db, constraints[1..], value);
      assert constraints == [constraints[0]] + constraints[1..];
    }
  }

  lemma {:induction false} RowReferencesChecked(db: D.Db, columns: seq<Column>, row: Row)
    ensures CheckRowReferences(db, columns, row).Ok? <==> forall c :: c in columns ==> ColumnHasParents(db, c, Get(row, c.name))
  {
    hide HasItsParent, CheckReferences;
    if columns != [] {
      RowReferencesChecked(db, columns[1..], row);
      ReferencesChecked(db, columns[0].constraints, Get(row, columns[0].name));
      assert columns == [columns[0]] + columns[1..];
    }
  }

  lemma {:induction false} TargetsFound(names: seq<string>, columns: seq<Column>, table: string)
    requires forall i :: 0 <= i < |names| ==> D.HasColumn(columns, names[i])
    ensures TargetColumns(names, columns, table).Ok?
  {
    if names != [] {
      TargetsFound(names[1..], columns, table);
    }
  }

  lemma {:induction false} PutSucceeds(targets: seq<Column>, values: seq<Value>)
    requires |targets| == |values|
    requires forall i :: 0 <= i < |targets| ==> Coerce(targets[i].name, targets[i].dataType, values[i]).Ok?
    ensures PutValues(targets, values).Ok?
    decreases |targets|
  {
    if targets != [] {
      var n := |targets| - 1;
      PutSucceeds(targets[..n], values[..n]);
    }
  }

  lemma {:induction false} LastOf(names: seq<string>, name: string) returns (i: nat)
    requires name in names
    ensures i < |names| && names[i] == name && NamedLast(names, i)
  {
    var n := |names| - 1;
    if names[n] == name {
      i := n;
    } else {
      assert name in names[..n];
      i := LastOf(names[..n], name);
    }
  }

  /** Names, values and columns determine the row. */
  lemma StoresOne(columns: seq<Column>, names: seq<string>, values: seq<Value>, row: Row, other: Row)
    requires Stores(columns, names, values, row) && Stores(columns, names, values, other)
    ensures row == other
  {
    hide ReadsAs, Readable;
    forall name ensures Get(row, name) == Get(other, name) {
      if name in names {
        var i := LastOf(names, name);
        assert GivenReadable(columns, names[i], values[i]);
        var c :| c in columns && c.name == name;
        assert ReadInto(columns, name, values[i], Get(row, name)) && ReadInto(columns, name, values[i], Get(other, name));
        CoerceReads(c.name, c.dataType, values[i]);
        assert ReadsAs(c.dataType, values[i], Get(row, name)) && ReadsAs(c.dataType, values[i], Get(other, name));
      }
    }
    forall name | name in row ensures row[name] == other[name] {
      assert Get(row, name) == Get(other, name);
    }
  }

  lemma BuildSucceeds(columns: seq<Column>, table: string, into: Option<seq<string>>, values: seq<Value>, row: Row)
    requires D.DistinctColumns(columns) && Stores(columns, NamesGiven(columns, into), values, row)
    ensures BuildRow(columns, table, into, values) == Ok(row)
  {
    hide Coerce, ReadsAs, Readable, PutValues;
    var names := NamesGiven(columns, into);
    forall i | 0 <= i < |names| ensures D.HasColumn(columns, names[i]) {
      assert GivenReadable(columns, names[i], values[i]);
      ColumnsIn(columns, names[i]);
    }
    if into.Some? {
      TargetsFound(names, columns, table);
    }
    var targets := Targets(columns, table, into).value;
    TargetsNamed(columns, table, into);
    forall i | 0 <= i < |targets| ensures Coerce(targets[i].name, targets[i].dataType, values[i]).Ok? {
      assert GivenReadable(columns, names[i], values[i]);
      var c :| c in columns && c.name == names[i] && Readable(c.dataType, values[i]);
      SameColumn(columns, c, targets[i]);
      CoerceReads(targets[i].name, targets[i].dataType, values[i]);
    }
    PutSucceeds(targets, values);
    BuiltRowStores(columns, table, into, values);
    StoresOne(columns, names, values, row, BuildRow(columns, table, into, values).value);
  }

  lemma RowFitsIff(db: D.Db, t: D.Table, row: Row)
    ensures RowFits(db, t, row) <==> RowAllowed(t.columns, t.rows, row) && CheckRowReferences(db, t.columns, row).Ok?
  {
    hide ColumnHasParents, CheckRowReferences;
    RowReferencesChecked(db, t.columns, row);
    forall c: Column ensures ColumnAllows(c, t.rows, Get(row, c.name)) <==> ValueAllowed(c, t.rows, Get(row, c.name)) {
    }
  }

  lemma InsertAcceptedIff(db: D.Db, table: string, into: Option<seq<string>>, values: seq<Value>)
    requires Conforms(db)
    ensures RunInsert(db, table, into, values).Ok? <==> InsertAccepted(db, table, into, values)
  {
    hide Stores, RowFits, RowAllowed, CheckRowReferences, BuildRow;
    if table in db.tables {
      var t := db.tables[table];
      assert TableConforms(t);
      if row :| Stores(t.columns, NamesGiven(t.columns, into), values, row) && RowFits(db, t, row) {
        BuildSucceeds(t.columns, table, into, values, row);
        RowFitsIff(db, t, row);
      }
      if RunInsert(db, table, into, values).Ok? {
        var row := BuildRow(t.columns, table, into, values).value;
        BuiltRowStores(t.columns, table, into, values);
        RowFitsIff(db, t, row);
      }
    }
  }

  // ---- DELETE ----

  /** Some row the filter does not select holds the value. */
  ghost predicate Spared(db: D.Db, u: D.Table, filter: Option<Filter>, column: string, value: Value) {
    exists other :: other in u.rows && Get(other, column) == value && !Selected(db, u.columns, filter, other)
  }

  /** The row holds a referenced value that no spared row holds, and a child row has it. */
  ghost predicate Bereaves(db: D.Db, table: string, filter: Option<Filter>, t: string, child: Column, column: string, row: Row)
    requires table in db.tables && t in db.tables
  {
    var value := Get(row, column);
    && value != Null
    && (exists held :: held in db.tables[t].rows && Get(held, child.name) == value)
    && !Spared(db, db.tables[table], filter, column, value)
  }

  ghost predicate DeleteAccepted(db: D.Db, table: string, filter: Option<Filter>) {
    && table in db.tables
    && var u := db.tables[table];
    && OptionFits(db, u.columns, filter)
    && forall t, child, column, row :: Refers(db, t, child, table, column) && row in u.rows ==>
         !(Selected(db, u.columns, filter, row) && Bereaves(db, table, filter, t, child, column, row))
  }

  lemma BereavesIff(db: D.Db, table: string, filter: Option<Filter>, t: string, child: Column, column: string, row: Row)
    requires table in db.tables && t in db.tables && PreparedFilter(db, table, filter).Ok?
    ensures LastParent(row, db.tables[table].rows, PreparedFilter(db, table, filter).value, column, db.tables[t].rows, child.name)
      <==> Selected(db, db.tables[table].columns, filter, row) && Bereaves(db, table, filter, t, child, column, row)
  {
    hide Selected, RowMatches, ResolveOption, PrepareOption;
    var u := db.tables[table];
    forall r ensures RowMatches(r, PreparedFilter(db, table, filter).value) <==> Selected(db, u.columns, filter, r) {
      PreparedSelects(db, u.columns, table, filter, r);
    }
  }

  lemma DeleteAcceptedIff(db: D.Db, table: string, filter: Option<Filter>)
    ensures RunDelete(db, table, filter).Ok? <==> DeleteAccepted(db, table, filter)
  {
    hide Selected, Bereaves, LastParent, ResolveOption, PrepareOption, OptionFits, RowMatches;
    if table in db.tables {
      var u := db.tables[table];
      OptionFitsIff(db, u.columns, table, filter);
      if PreparedFilter(db, table, filter).Ok? {
        var prepared := PreparedFilter(db, table, filter).value;
        DeleteRewrites(u.rows, prepared);
        forall t, child, column, row | Refers(db, t, child, table, column) && row in u.rows
          ensures LastParent(row, u.rows, prepared, column, db.tables[t].rows, child.name)
            <==> Selected(db, u.columns, filter, row) && Bereaves(db, table, filter, t, child, column, row)
        {
          BereavesIff(db, table, filter, t, child, column, row);
        }
      }
    }
  }

  // ---- UPDATE ----

  predicate DistinctNames(assignments: Assignments) {
    forall i, j :: 0 <= i < j < |assignments| ==> assignments[i].0 != assignments[j].0
  }

  ghost predicate GivesTo(columns: seq<Column>, name: string, value: Value, out: Value) {
    exists c :: c in columns && c.name == name && ReadsAs(c.dataType, value, out)
  }

  /** What the assigned columns, each known and assigned once, read the constants as. */
  ghost predicate Given(columns: seq<Column>, assignments: Assignments, given: seq<Value>) {
    && assignments != [] && DistinctNames(assignments) && |given| == |assignments|
    && forall i :: 0 <= i < |given| ==> GivesTo(columns, assignments[i].0, assignments[i].1, given[i])
  }

  /** The value a row would have in an assigned column. */
  ghost function NextIn(db: D.Db, u: D.Table, filter: Option<Filter>, name: string, value: Value, row: Row): Value {
    if Selected(db, u.columns, filter, row) then value else Get(row, name)
  }

  ghost predicate Apart(db: D.Db, u: D.Table, filter: Option<Filter>, name: string, value: Value, row: Row, other: Row) {
    var next := NextIn(db, u, filter, name, value, row);
    next == Null || next != NextIn(db, u, filter, name, value, other)
  }

  ghost predicate AllApart(db: D.Db, u: D.Table, filter: Option<Filter>, name: string, value: Value) {
    forall j, k :: 0 <= j < k < |u.rows| ==> Apart(db, u, filter, name, value, u.rows[j], u.rows[k])
  }

  /** The row would lose a value that a child row holds. */
  ghost predicate Abandons(db: D.Db, u: D.Table, filter: Option<Filter>, name: string, value: Value, children: seq<Row>, column: string, row: Row) {
    && Selected(db, u.columns, filter, row)
    && Get(row, name) != Null && Get(row, name) != value
    && exists held :: held in children && Get(held, column) == Get(row, name)
  }

  ghost predicate NullAllowed(db: D.Db, u: D.Table, c: Column, filter: Option<Filter>, value: Value) {
    (value == Null && (NotNull in c.constraints || PrimaryKey in c.constraints)) ==>
      forall row :: row in u.rows ==> !Selected(db, u.columns, filter, row)
  }

  /** The new value of a column breaks none of its constraints, and takes no value from a child row. */
  ghost predicate AssignmentFits(db: D.Db, table: string, filter: Option<Filter>, c: Column, value: Value)
    requires table in db.tables
  {
    var u := db.tables[table];
    && ColumnHasParents(db, c, value) && NullAllowed(db, u, c, filter, value)
    && (Unique in c.constraints || PrimaryKey in c.constraints ==> AllApart(db, u, filter, c.name, value))
    && NoneAbandoned(db, table, filter, c.name, value)
  }

  ghost predicate AssignmentsFit(db: D.Db, table: string, assignments: Assignments, filter: Option<Filter>, given: seq<Value>)
    requires table in db.tables
  {
    && |given| == |assignments|
    && forall i, c :: 0 <= i < |given| && c in db.tables[table].columns && c.name == assignments[i].0 ==>
      AssignmentFits(db, table, filter, c, given[i])
  }

  ghost predicate UpdateAccepted(db: D.Db, table: string, assignments: Assignments, filter: Option<Filter>) {
    && table in db.tables
    && OptionFits(db, db.tables[table].columns, filter)
    && exists given :: Given(db.tables[table].columns, assignments, given) && AssignmentsFit(db, table, assignments, filter, given)
  }

  function Seconds(assignments: Assignments): (values: seq<Value>)
    ensures |values| == |assignments| && forall i :: 0 <= i < |values| ==> values[i] == assignments[i].1
  {
    seq(|assignments|, i requires 0 <= i < |assignments| => assignments[i].1)
  }

  lemma {:induction false} CoerceSucceeds(columns: seq<Column>, table: string, assignments: Assignments, given: seq<Value>)
    requires D.DistinctColumns(columns) && DistinctNames(assignments) && |given| == |assignments|
    requires forall i :: 0 <= i < |given| ==> GivesTo(columns, assignments[i].0, assignments[i].1, given[i])
    ensures CoerceAssignments(columns, table, assignments).Ok?
    ensures Seconds(CoerceAssignments(columns, table, assignments).value) == given
  {
    hide Coerce, ReadsAs;
    if assignments != [] {
      var n := |assignments| - 1;
      CoerceSucceeds(columns, table, assignments[..n], given[..n]);
      var c :| c in columns && c.name == assignments[n].0 && ReadsAs(c.dataType, assignments[n].1, given[n]);
      FindsColumn(columns, c);
      CoerceReads(c.name, c.dataType, assignments[n].1);
      assert !Assigns(assignments[..n], c.name);
    }
  }

  lemma PreparedIsGiven(columns: seq<Column>, table: string, assignments: Assignments)
    requires D.DistinctColumns(columns) && PrepareAssignments(columns, table, assignments).Ok?
    ensures Given(columns, assignments, Seconds(PrepareAssignments(columns, table, assignments).value))
  {
    hide ReadsAs, CoerceAssignments;
    KeyConstraints.CoercedAreDistinct(columns, table, assignments);
    var coerced := PrepareAssignments(columns, table, assignments).value;
    forall i | 0 <= i < |assignments| ensures GivesTo(columns, assignments[i].0, assignments[i].1, coerced[i].1) {
      CoercedReads(columns, table, assignments, i);
      ColumnsIn(columns, assignments[i].0);
      var c :| c in columns && c.name == assignments[i].0;
    }
    forall i, j | 0 <= i < j < |assignments| ensures assignments[i].0 != assignments[j].0 {
      assert coerced[i].0 == assignments[i].0 && coerced[j].0 == assignments[j].0;
    }
  }

  /** Column `c` is given its value by assignment `i`. */
  predicate Assigning(columns: seq<Column>, assignments: Assignments, i: nat, c: Column) {
    i < |assignments| && c in columns && c.name == assignments[i].0
  }

  ghost predicate SomeAssigning(columns: seq<Column>, assignments: Assignments, i: nat) {
    exists c :: Assigning(columns, assignments, i, c)
  }

  lemma {:induction false} AssignedParents(db: D.Db, columns: seq<Column>, assignments: Assignments)
    requires D.DistinctColumns(columns)
    ensures CheckAssignedReferences(db, columns, assignments).Ok? <==>
      forall i: nat, c :: Assigning(columns, assignments, i, c) ==> ColumnHasParents(db, c, assignments[i].1)
  {
    hide HasItsParent, CheckReferences;
    if assignments != [] {
      var c, rest := FindColumn(columns, assignments[0].0), assignments[1..];
      AssignedParents(db, columns, rest);
      ReferencesChecked(db, if c.Some? then c.value.constraints else [], assignments[0].1);
      if c.Some? {
        assert Assigning(columns, assignments, 0, c.value);
      }
      forall d | Assigning(columns, assignments, 0, d) ensures c == Some(d) {
        FindsColumn(columns, d);
      }
      assert forall i: nat, d :: i > 0 ==> (Assigning(columns, assignments, i, d) <==> Assigning(columns, rest, i - 1, d));
      assert forall i: nat, d :: Assigning(columns, rest, i, d) <==> Assigning(columns, assignments, i + 1, d);
    }
  }

  lemma FindsValue(assignments: Assignments, i: nat)
    requires i < |assignments| && KeyConstraints.DistinctAssignments(assignments)
    ensures FindAssignment(assignments, assignments[i].0) == Some(assignments[i].1)
  {
    KeyConstraints.FoundAssignment(assignments, assignments[i].0);
    assert Assigns(assignments, assignments[i].0);
  }

  /** The filter as the checks evaluate it selects what the statement's filter selects. */
  ghost predicate SameFilter(db: D.Db, u: D.Table, filter: Option<Filter>, prepared: Option<Filter>) {
    forall row :: RowMatches(row, prepared) <==> Selected(db, u.columns, filter, row)
  }

  lemma AssignedNulls(db: D.Db, u: D.Table, assignments: Assignments, filter: Option<Filter>, prepared: Option<Filter>)
    requires D.DistinctColumns(u.columns) && SameFilter(db, u, filter, prepared)
    ensures AssignsForbiddenNull(u.columns, assignments) && AnyMatches(u.rows, prepared) <==>
      !forall i: nat, c :: Assigning(u.columns, assignments, i, c) ==> NullAllowed(db, u, c, filter, assignments[i].1)
  {
    hide RowMatches, Selected;
    if AssignsForbiddenNull(u.columns, assignments) && AnyMatches(u.rows, prepared) {
      var i :| 0 <= i < |assignments| && assignments[i].1 == Null
        && FindColumn(u.columns, assignments[i].0).Some? && MustNotBeNull(FindColumn(u.columns, assignments[i].0).value);
      var c := FindColumn(u.columns, assignments[i].0).value;
      var row :| row in u.rows && RowMatches(row, prepared);
      assert Assigning(u.columns, assignments, i, c) && !NullAllowed(db, u, c, filter, assignments[i].1);
    }
    if i: nat, c :| Assigning(u.columns, assignments, i, c) && !NullAllowed(db, u, c, filter, assignments[i].1) {
      FindsColumn(u.columns, c);
    }
  }

  lemma AssignedUnique(db: D.Db, u: D.Table, assignments: Assignments, filter: Option<Filter>, prepared: Option<Filter>)
    requires KeyConstraints.DistinctAssignments(assignments) && SameFilter(db, u, filter, prepared)
    ensures UpdateKeepsUnique(u.columns, u.rows, assignments, prepared) <==>
      forall i: nat, c :: Assigning(u.columns, assignments, i, c) && MustBeUnique(c) ==> AllApart(db, u, filter, c.name, assignments[i].1)
  {
    hide RowMatches, Selected, StaysUnique, AllApart;
    forall i: nat, c: Column | Assigning(u.columns, assignments, i, c)
      ensures Assigns(assignments, c.name)
      ensures StaysUnique(u.rows, assignments, prepared, c.name) <==> AllApart(db, u, filter, c.name, assignments[i].1)
    {
      FindsValue(assignments, i);
      UniqueIsApart(db, u, assignments, filter, prepared, c.name, assignments[i].1);
    }
    forall c | c in u.columns && Assigns(assignments, c.name) ensures exists i: nat :: Assigning(u.columns, assignments, i, c) {
      var i :| 0 <= i < |assignments| && assignments[i].0 == c.name;
      assert Assigning(u.columns, assignments, i, c);
    }
  }

  lemma UniqueIsApart(db: D.Db, u: D.Table, assignments: Assignments, filter: Option<Filter>, prepared: Option<Filter>,
                      name: string, value: Value)
    requires FindAssignment(assignments, name) == Some(value) && SameFilter(db, u, filter, prepared)
    ensures StaysUnique(u.rows, assignments, prepared, name) <==> AllApart(db, u, filter, name, value)
  {
    hide RowMatches, Selected;
    forall row: Row ensures UpdatedValue(row, assignments, prepared, name) == NextIn(db, u, filter, name, value, row) {
      assert RowMatches(row, prepared) <==> Selected(db, u.columns, filter, row);
    }
    forall j, k | 0 <= j < k < |u.rows|
      ensures Clash(u.rows[j], u.rows[k], assignments, prepared, name)
        <==> !Apart(db, u, filter, name, value, u.rows[j], u.rows[k])
    {
    }
  }

  /** No row of the table loses a value in this column that a child row holds. */
  ghost predicate NoneAbandoned(db: D.Db, table: string, filter: Option<Filter>, name: string, value: Value)
    requires table in db.tables
  {
    forall t, child, row :: Refers(db, t, child, table, name) && row in db.tables[table].rows ==>
      !Abandons(db, db.tables[table], filter, name, value, db.tables[t].rows, child.name, row)
  }

  lemma AbandonsIff(db: D.Db, u: D.Table, filter: Option<Filter>, prepared: Option<Filter>, name: string, value: Value,
                    children: seq<Row>, column: string, row: Row)
    requires SameFilter(db, u, filter, prepared)
    ensures Abandons(db, u, filter, name, value, children, column, row) <==> LosesValue(row, prepared, name, value, children, column)
  {
    hide RowMatches, Selected;
    assert RowMatches(row, prepared) <==> Selected(db, u.columns, filter, row);
  }

  lemma StrandedIsAbandoned(db: D.Db, table: string, assignments: Assignments, filter: Option<Filter>, prepared: Option<Filter>)
    requires table in db.tables && UpdateStrands(db, table, assignments, prepared)
    requires SameFilter(db, db.tables[table], filter, prepared)
    ensures exists i :: 0 <= i < |assignments| && !NoneAbandoned(db, table, filter, assignments[i].0, assignments[i].1)
  {
    hide SameFilter, Abandons, LosesValue;
    var u := db.tables[table];
    var t, child, column, row :|
      && Refers(db, t, child, table, column) && row in u.rows
      && FindAssignment(assignments, column).Some?
      && LosesValue(row, prepared, column, FindAssignment(assignments, column).value, db.tables[t].rows, child.name);
    KeyConstraints.FoundAssignment(assignments, column);
    var i :| 0 <= i < |assignments| && assignments[i] == (column, FindAssignment(assignments, column).value);
    AbandonsIff(db, u, filter, prepared, column, assignments[i].1, db.tables[t].rows, child.name, row);
  }

  lemma AbandonedIsStranded(db: D.Db, table: string, assignments: Assignments, filter: Option<Filter>, prepared: Option<Filter>, i: nat)
    requires table in db.tables && i < |assignments| && KeyConstraints.DistinctAssignments(assignments)
    requires SameFilter(db, db.tables[table], filter, prepared)
    requires !NoneAbandoned(db, table, filter, assignments[i].0, assignments[i].1)
    ensures UpdateStrands(db, table, assignments, prepared)
  {
    hide SameFilter, Abandons, LosesValue;
    var u := db.tables[table];
    FindsValue(assignments, i);
    var t, child, row :| Refers(db, t, child, table, assignments[i].0) && row in u.rows
      && Abandons(db, u, filter, assignments[i].0, assignments[i].1, db.tables[t].rows, child.name, row);
    AbandonsIff(db, u, filter, prepared, assignments[i].0, assignments[i].1, db.tables[t].rows, child.name, row);
  }

  lemma ChecksFit(db: D.Db, table: string, assignments: Assignments, filter: Option<Filter>, prepared: Option<Filter>)
    requires table in db.tables && D.DistinctColumns(db.tables[table].columns)
    requires KeyConstraints.DistinctAssignments(assignments) && SameFilter(db, db.tables[table], filter, prepared)
    requires forall i :: 0 <= i < |assignments| ==> D.HasColumn(db.tables[table].columns, assignments[i].0)
    ensures AssignmentsFit(db, table, assignments, filter, Seconds(assignments)) <==>
      (&& CheckAssignedReferences(db, db.tables[table].columns, assignments).Ok?
       && !UpdateStrands(db, table, assignments, prepared)
       && UpdateKeepsUnique(db.tables[table].columns, db.tables[table].rows, assignments, prepared)
       && !(AssignsForbiddenNull(db.tables[table].columns, assignments) && AnyMatches(db.tables[table].rows, prepared)))
  {
    hide SameFilter, ColumnHasParents, NullAllowed, AllApart, NoneAbandoned, UpdateStrands, UpdateKeepsUnique;
    hide AssignsForbiddenNull, AnyMatches, CheckAssignedReferences;
    var u := db.tables[table];
    AssignedParents(db, u.columns, assignments);
    AssignedNulls(db, u, assignments, filter, prepared);
    AssignedUnique(db, u, assignments, filter, prepared);
    if UpdateStrands(db, table, assignments, prepared) {
      StrandedIsAbandoned(db, table, assignments, filter, prepared);
    }
    if i: nat :| i < |assignments| && !NoneAbandoned(db, table, filter, assignments[i].0, assignments[i].1) {
      AbandonedIsStranded(db, table, assignments, filter, prepared, i);
    }
    forall i: nat | i < |assignments| ensures SomeAssigning(u.columns, assignments, i) {
      ColumnsIn(u.columns, assignments[i].0);
      var c :| c in u.columns && c.name == assignments[i].0;
      assert Assigning(u.columns, assignments, i, c);
    }
    forall i: nat, c | Assigning(u.columns, assignments, i, c)
      ensures AssignmentFits(db, table, filter, c, assignments[i].1) <==>
        (&& ColumnHasParents(db, c, assignments[i].1) && NullAllowed(db, u, c, filter, assignments[i].1)
         && (MustBeUnique(c) ==> AllApart(db, u, filter, c.name, assignments[i].1))
         && NoneAbandoned(db, table, filter, assignments[i].0, assignments[i].1))
    {
    }
    assert AssignmentsFit(db, table, assignments, filter, Seconds(assignments)) <==>
      forall i: nat, c :: Assigning(u.columns, assignments, i, c) ==> AssignmentFits(db, table, filter, c, assignments[i].1);
  }

  lemma UpdateGoesThrough(db: D.Db, table: string, assignments: Assignments, filter: Option<Filter>)
    requires Conforms(db) && table in db.tables && PreparedFilter(db, table, filter).Ok?
    requires PrepareAssignments(db.tables[table].columns, table, assignments).Ok?
    ensures RunUpdate(db, table, assignments, filter).Ok? <==>
      AssignmentsFit(db, table, assignments, filter, Seconds(PrepareAssignments(db.tables[table].columns, table, assignments).value))
  {
    hide Selected, RowMatches, ResolveOption, PrepareOption, UpdateStrands, UpdateKeepsUnique, CheckAssignedReferences;
    hide AssignsForbiddenNull, AnyMatches, CoerceAssignments, AssignmentFits, Given;
    var u := db.tables[table];
    assert TableConforms(u);
    var prepared := PreparedFilter(db, table, filter).value;
    var coerced := PrepareAssignments(u.columns, table, assignments).value;
    forall row ensures RowMatches(row, prepared) <==> Selected(db, u.columns, filter, row) {
      PreparedSelects(db, u.columns, table, filter, row);
    }
    KeyConstraints.CoercedAreDistinct(u.columns, table, assignments);
    forall i | 0 <= i < |coerced| ensures D.HasColumn(u.columns, coerced[i].0) {
      CoercedReads(u.columns, table, assignments, i);
    }
    ChecksFit(db, table, coerced, filter, prepared);
    UpdateRewrites(u.columns, u.rows, coerced, prepared);
    assert forall i :: 0 <= i < |assignments| ==> coerced[i].0 == assignments[i].0;
  }

  lemma UpdateAcceptedIff(db: D.Db, table: string, assignments: Assignments, filter: Option<Filter>)
    requires Conforms(db)
    ensures RunUpdate(db, table, assignments, filter).Ok? <==> UpdateAccepted(db, table, assignments, filter)
  {
    hide ResolveOption, PrepareOption, OptionFits, UpdateStrands, UpdateKeepsUnique, CheckAssignedReferences;
    hide CoerceAssignments, AssignmentsFit;
    if table in db.tables {
      var u := db.tables[table];
      assert TableConforms(u);
      OptionFitsIff(db, u.columns, table, filter);
      if given :| Given(u.columns, assignments, given) && AssignmentsFit(db, table, assignments, filter, given) {
        CoerceSucceeds(u.columns, table, assignments, given);
        if OptionFits(db, u.columns, filter) {
          UpdateGoesThrough(db, table, assignments, filter);
        }
      }
      if RunUpdate(db, table, assignments, filter).Ok? {
        UpdateGoesThrough(db, table, assignments, filter);
        PreparedIsGiven(u.columns, table, assignments);
      }
    }
  }

  // ---- schema statements ----

  /** The referenced column exists, in the new table or another one, and has the same type. */
  predicate TargetExists(db: D.Db, name: string, columns: seq<Column>, c: Column, p: string, q: string) {
    var parents := if p == name then columns else if p in db.tables then db.tables[p].columns else [];
    exists d :: d in parents && d.name == q && d.dataType == c.dataType
  }

  predicate ReferencesExist(db: D.Db, name: string, columns: seq<Column>, c: Column) {
    forall constraint :: constraint in c.constraints && constraint.References? ==>
      TargetExists(db, name, columns, c, constraint.table, constraint.column)
  }

  predicate PrimaryOnce(columns: seq<Column>) {
    forall i, j :: 0 <= i < |columns| && 0 <= j < |columns| ==>
      (PrimaryKey in columns[i].constraints && PrimaryKey in columns[j].constraints ==> i == j)
  }

  /** The columns make a table: some, distinct, at most one primary key, references to columns of the same type. */
  predicate SchemaFits(db: D.Db, name: string, columns: seq<Column>) {
    && columns != []
    && (forall i, j :: 0 <= i < j < |columns| ==> columns[i].name != columns[j].name)
    && PrimaryOnce(columns)
    && forall c :: c in columns ==> ReferencesExist(db, name, columns, c)
  }

  lemma ReferenceOkIff(db: D.Db, name: string, columns: seq<Column>, c: Column, constraint: Constraint)
    requires Conforms(db) && D.DistinctColumns(columns) && constraint.References?
    ensures ReferenceOk(db, name, columns, c, constraint) <==> TargetExists(db, name, columns, c, constraint.table, constraint.column)
  {
    var p := constraint.table;
    assert p in db.tables ==> TableConforms(db.tables[p]);
    var parents := if p == name then columns else if p in db.tables then db.tables[p].columns else [];
    if d :| d in parents && d.name == constraint.column && d.dataType == c.dataType {
      FindsColumn(parents, d);
    }
  }

  lemma SchemaFitsIff(db: D.Db, name: string, columns: seq<Column>)
    requires Conforms(db)
    ensures SchemaOk(db, name, columns) <==> SchemaFits(db, name, columns)
  {
    hide TargetExists, ReferenceOk, Conforms;
    if D.DistinctColumns(columns) {
      forall c, constraint: Constraint | constraint.References?
        ensures ReferenceOk(db, name, columns, c, constraint) <==> TargetExists(db, name, columns, c, constraint.table, constraint.column)
      {
        ReferenceOkIff(db, name, columns, c, constraint);
      }
      ReferencesOkIff(db, name, columns);
    }
    assert OnePrimaryKey(columns) <==> PrimaryOnce(columns);
  }

  lemma ReferencesOkIff(db: D.Db, name: string, columns: seq<Column>)
    requires forall c, constraint: Constraint :: constraint.References? ==>
      (ReferenceOk(db, name, columns, c, constraint) <==> TargetExists(db, name, columns, c, constraint.table, constraint.column))
    ensures ReferencesOk(db, name, columns) <==> forall c :: c in columns ==> ReferencesExist(db, name, columns, c)
  {
    hide TargetExists;
    if ReferencesOk(db, name, columns) {
      forall c, constraint | c in columns && constraint in c.constraints && constraint.References?
        ensures TargetExists(db, name, columns, c, constraint.table, constraint.column)
      {
        var i :| 0 <= i < |columns| && columns[i] == c;
        var k :| 0 <= k < |c.constraints| && c.constraints[k] == constraint;
        assert ReferenceOk(db, name, columns, columns[i], columns[i].constraints[k]);
      }
    }
    if forall c :: c in columns ==> ReferencesExist(db, name, columns, c) {
      forall i, k | 0 <= i < |columns| && 0 <= k < |columns[i].constraints|
        ensures ReferenceOk(db, name, columns, columns[i], columns[i].constraints[k])
      {
        assert columns[i] in columns && columns[i].constraints[k] in columns[i].constraints;
        assert ReferencesExist(db, name, columns, columns[i]);
      }
    }
  }

  predicate KnownColumn(db: D.Db, table: string, column: string) {
    table in db.tables && exists c :: c in db.tables[table].columns && c.name == column
  }

  /** What a statement that changes data needs in order to go through. */
  ghost predicate Accepted(db: D.Db, statement: Statement)
    requires ChangesData(statement)
  {
    match statement
    case CreateTable(name, columns) => SchemaFits(db, name, columns) && name !in db.tables
    case DropTable(name) => name in db.tables && !exists t, child, column :: t != name && Refers(db, t, child, name, column)
    case CreateIndex(name, table, column) =>
      KnownColumn(db, table, column) && !exists d :: d in db.indexes && (d.name == name || (d.table == table && d.column == column))
    case DropIndex(name) => exists d :: d in db.indexes && d.name == name
    case AddColumn(table, c, default) =>
      table in db.tables && !KnownColumn(db, table, c.name) && Readable(c.dataType, DefaultOf(default))
    case DropColumn(table, column) => KnownColumn(db, table, column) && |db.tables[table].columns| > 1
    case RenameColumn(table, from, to) => KnownColumn(db, table, from) && !KnownColumn(db, table, to)
    case Insert(table, into, values) => InsertAccepted(db, table, into, values)
    case Update(table, assignments, filter) => UpdateAccepted(db, table, assignments, filter)
    case Delete(table, filter) => DeleteAccepted(db, table, filter)
  }

  lemma ColumnKnown(db: D.Db, table: string, column: string)
    ensures KnownColumn(db, table, column) <==> table in db.tables && D.HasColumn(db.tables[table].columns, column)
  {
    if table in db.tables {
      ColumnsIn(db.tables[table].columns, column);
    }
  }

  lemma DefsNamed(defs: seq<IndexDef>, name: string, table: string, column: string)
    ensures D.HasIndexNamed(defs, name) <==> exists d :: d in defs && d.name == name
    ensures D.HasIndexOn(defs, table, column) <==> exists d :: d in defs && d.table == table && d.column == column
  {
    if d :| d in defs && d.name == name {
      var i :| 0 <= i < |defs| && defs[i] == d;
    }
    if d :| d in defs && d.table == table && d.column == column {
      var i :| 0 <= i < |defs| && defs[i] == d;
    }
  }

  /** On a conforming database a statement goes through exactly when it meets what it needs. */
  lemma AcceptedIff(db: D.Db, statement: Statement)
    requires Conforms(db) && ChangesData(statement)
    ensures Change(db, statement).Ok? <==> Accepted(db, statement)
  {
    hide Conforms, RunInsert, RunUpdate, RunDelete, SchemaOk, SchemaFits, InsertAccepted, UpdateAccepted;
    hide DeleteAccepted, KnownColumn, Coerce, Readable, D.HasColumn;
    match statement {
      case CreateTable(name, columns) => SchemaFitsIff(db, name, columns);
      case CreateIndex(name, table, column) =>
        ColumnKnown(db, table, column);
        DefsNamed(db.indexes, name, table, column);
      case DropIndex(name) => DefsNamed(db.indexes, name, "", "");
      case AddColumn(table, c, default) =>
        ColumnKnown(db, table, c.name);
        CoerceReads(c.name, c.dataType, DefaultOf(default));
      case DropColumn(table, column) => ColumnKnown(db, table, column);
      case RenameColumn(table, from, to) =>
        ColumnKnown(db, table, from);
        ColumnKnown(db, table, to);
      case Insert(table, into, values) => InsertAcceptedIff(db, table, into, values);
      case Update(table, assignments, filter) => UpdateAcceptedIff(db, table, assignments, filter);
      case Delete(table, filter) => DeleteAcceptedIff(db, table, filter);
      case DropTable(name) =>
    }
  }

  /** So a session answers a statement that changes data exactly when it meets what it needs. */
  lemma AnsweredIff(s: D.Session, statement: Statement)
    requires Conforms(s.db) && ChangesData(statement)
    ensures Answer(s, statement).Ok? <==> Accepted(s.db, statement)
  {
    hide Accepted, Change, MatchCount, RunQuery;
    AcceptedIff(s.db, statement);
  }
}

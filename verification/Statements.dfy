/** What every statement does to a session: the checks it makes, the database it leaves, what it answers. */
module Statements {
  import opened Types
  import opened Ast
  import opened Filters
  import opened Queries
  import D = Database

  /** What a statement answers: a bare confirmation, a number of rows, or the rows of a SELECT. */
  datatype Outcome = Done | Counted(rows: nat) | Rows(result: RowSet)

  // ---- constraints of a column ----

  predicate MustNotBeNull(c: Column) {
    NotNull in c.constraints || PrimaryKey in c.constraints
  }

  predicate MustBeUnique(c: Column) {
    Unique in c.constraints || PrimaryKey in c.constraints
  }

  /** Some row of the table holds the value. */
  predicate Holds(rows: seq<Row>, column: string, value: Value) {
    exists row :: row in rows && Get(row, column) == value
  }

  predicate HasParent(db: D.Db, table: string, column: string, value: Value) {
    table in db.tables && Holds(db.tables[table].rows, column, value)
  }

  /** The REFERENCES constraints of one column against one value, in order; NULL is never checked. */
  function CheckReferences(db: D.Db, constraints: seq<Constraint>, value: Value): Result<()> {
    if constraints == [] || value == Null then Ok(()) else
    match constraints[0]
    case References(table, column) =>
      if table !in db.tables then Err(TableNotFound(table))
      else if !Holds(db.tables[table].rows, column, value) then Err(ConstraintViolation)
      else CheckReferences(db, constraints[1..], value)
    case _ => CheckReferences(db, constraints[1..], value)
  }

  // ---- CREATE TABLE ----

  predicate OnePrimaryKey(columns: seq<Column>) {
    forall i, j :: 0 <= i < j < |columns| ==> !BothPrimary(columns[i], columns[j])
  }

  predicate BothPrimary(c: Column, d: Column) {
    PrimaryKey in c.constraints && PrimaryKey in d.constraints
  }

  predicate ReferenceOk(db: D.Db, name: string, columns: seq<Column>, c: Column, constraint: Constraint) {
    constraint.References? ==>
      var parents := if constraint.table == name then columns
                     else if constraint.table in db.tables then db.tables[constraint.table].columns else [];
      var parent := FindColumn(parents, constraint.column);
      parent.Some? && parent.value.dataType == c.dataType
  }

  /** Every REFERENCES names an existing column of the same type, of the new table itself or of another one. */
  predicate ReferencesOk(db: D.Db, name: string, columns: seq<Column>) {
    forall i, k :: 0 <= i < |columns| && 0 <= k < |columns[i].constraints| ==>
      ReferenceOk(db, name, columns, columns[i], columns[i].constraints[k])
  }

  predicate SchemaOk(db: D.Db, name: string, columns: seq<Column>) {
    columns != [] && D.DistinctColumns(columns) && OnePrimaryKey(columns) && ReferencesOk(db, name, columns)
  }

  function RunCreateTable(db: D.Db, name: string, columns: seq<Column>): Result<D.Db> {
    if !SchemaOk(db, name, columns) then Err(InvalidSchema) else D.CreateTable(db, name, columns)
  }

  // ---- DROP TABLE ----

  /** A column of table `t` declares REFERENCES parent(column): one entry of `referencing_columns(parent)`. */
  ghost predicate Refers(db: D.Db, t: string, child: Column, parent: string, column: string) {
    t in db.tables && child in db.tables[t].columns && References(parent, column) in child.constraints
  }

  ghost function RunDropTable(db: D.Db, name: string): Result<D.Db> {
    if exists t, child, column :: t != name && Refers(db, t, child, name, column)
    then Err(ConstraintViolation) else D.DropTable(db, name)
  }

  // ---- ALTER TABLE ADD COLUMN ----

  function RunAddColumn(db: D.Db, table: string, column: Column, default: Option<Value>): Result<D.Db> {
    var value :- Coerce(column.name, column.dataType, if default.Some? then default.value else Null);
    D.AddColumn(db, table, column, value)
  }

  // ---- INSERT ----

  /** The columns an INSERT names, which must all exist. */
  function TargetColumns(names: seq<string>, columns: seq<Column>, table: string): (r: Result<seq<Column>>)
    ensures r.Ok? ==> |r.value| == |names|
    ensures r.Ok? ==> forall i :: 0 <= i < |names| ==> r.value[i] in columns && r.value[i].name == names[i]
  {
    if names == [] then Ok([]) else
    match FindColumn(columns, names[0])
    case None => Err(ColumnNotFound(table, names[0]))
    case Some(c) =>
      var tail :- TargetColumns(names[1..], columns, table);
      Ok([c] + tail)
  }

  /** The columns take the coerced values in order; a column named twice keeps the last one. */
  function PutValues(targets: seq<Column>, values: seq<Value>): Result<Row>
    requires |targets| == |values|
    decreases |targets|
  {
    if targets == [] then Ok(map[]) else
    var n := |targets| - 1;
    var row :- PutValues(targets[..n], values[..n]);
    var value :- Coerce(targets[n].name, targets[n].dataType, values[n]);
    Ok(row[targets[n].name := value])
  }

  function NameSet(columns: seq<Column>): set<string> {
    set c | c in columns :: c.name
  }

  function FillNulls(row: Row, columns: seq<Column>): Row {
    row + map name | name in NameSet(columns) && name !in row :: Null
  }

  /** The row an INSERT stores. */
  function BuildRow(columns: seq<Column>, table: string, into: Option<seq<string>>, values: seq<Value>): Result<Row> {
    match into
    case Some(names) =>
      if |values| != |names| then Err(ValueCountMismatch(|names|, |values|)) else
      var targets :- TargetColumns(names, columns, table);
      var row :- PutValues(targets, values);
      Ok(FillNulls(row, columns))
    case None =>
      if |values| != |columns| then Err(ValueCountMismatch(|columns|, |values|)) else
      PutValues(columns, values)
  }

  /** NOT NULL, UNIQUE and PRIMARY KEY of a new row against the stored ones. */
  predicate RowAllowed(columns: seq<Column>, rows: seq<Row>, row: Row) {
    forall c :: c in columns ==> ValueAllowed(c, rows, Get(row, c.name))
  }

  predicate ValueAllowed(c: Column, rows: seq<Row>, value: Value) {
    if value == Null then !MustNotBeNull(c) else MustBeUnique(c) ==> !Holds(rows, c.name, value)
  }

  /** The foreign keys of a new row, column by column. */
  function CheckRowReferences(db: D.Db, columns: seq<Column>, row: Row): Result<()> {
    if columns == [] then Ok(()) else
    var _ :- CheckReferences(db, columns[0].constraints, Get(row, columns[0].name));
    CheckRowReferences(db, columns[1..], row)
  }

  function RunInsert(db: D.Db, table: string, into: Option<seq<string>>, values: seq<Value>): Result<D.Db> {
    if table !in db.tables then Err(TableNotFound(table)) else
    var t := db.tables[table];
    var row :- BuildRow(t.columns, table, into, values);
    if !RowAllowed(t.columns, t.rows, row) then Err(ConstraintViolation) else
    var _ :- CheckRowReferences(db, t.columns, row);
    D.AppendRow(db, table, row)
  }

  // ---- UPDATE ----

  /** The filter of an UPDATE or DELETE, its subqueries resolved and its constants coerced. */
  function PreparedFilter(db: D.Db, table: string, filter: Option<Filter>): Result<Option<Filter>>
    requires table in db.tables
  {
    var resolved :- ResolveOption(db, filter);
    PrepareOption(db.tables[table].columns, table, resolved)
  }

  type Assignments = seq<(string, Value)>

  function FindAssignment(assignments: Assignments, column: string): Option<Value> {
    if assignments == [] then None
    else if assignments[0].0 == column then Some(assignments[0].1)
    else FindAssignment(assignments[1..], column)
  }

  predicate Assigns(assignments: Assignments, column: string) {
    exists i :: 0 <= i < |assignments| && assignments[i].0 == column
  }

  /** Assigned columns are distinct and known, and values are coerced, left to right. */
  function CoerceAssignments(columns: seq<Column>, table: string, assignments: Assignments): Result<Assignments> {
    if assignments == [] then Ok([]) else
    var n := |assignments| - 1;
    var head :- CoerceAssignments(columns, table, assignments[..n]);
    var column := assignments[n].0;
    if Assigns(assignments[..n], column) then Err(InvalidSchema) else
    match FindColumn(columns, column)
    case None => Err(ColumnNotFound(table, column))
    case Some(c) =>
      var coerced :- Coerce(column, c.dataType, assignments[n].1);
      Ok(head + [(column, coerced)])
  }

  /** `prepare_assignments`. */
  function PrepareAssignments(columns: seq<Column>, table: string, assignments: Assignments): Result<Assignments> {
    if assignments == [] then Err(ParseError) else CoerceAssignments(columns, table, assignments)
  }

  /** The foreign keys of the assigned values, against the rows as they are before the update. */
  function CheckAssignedReferences(db: D.Db, columns: seq<Column>, assignments: Assignments): Result<()> {
    if assignments == [] then Ok(()) else
    var c := FindColumn(columns, assignments[0].0);
    var _ :- CheckReferences(db, if c.Some? then c.value.constraints else [], assignments[0].1);
    CheckAssignedReferences(db, columns, assignments[1..])
  }

  /** The row matches, and the update takes from it a referenced value that some child row still holds. */
  predicate LosesValue(row: Row, filter: Option<Filter>, parentColumn: string, next: Value, children: seq<Row>, childColumn: string) {
    && RowMatches(row, filter)
    && Get(row, parentColumn) != Null && Get(row, parentColumn) != next
    && Holds(children, childColumn, Get(row, parentColumn))
  }

  /** `check_referencing_children_on_update`: some row would lose a value that a child row still holds. */
  ghost predicate UpdateStrands(db: D.Db, table: string, assignments: Assignments, filter: Option<Filter>)
    requires table in db.tables
  {
    exists t, child, column, row ::
      && Refers(db, t, child, table, column) && row in db.tables[table].rows
      && FindAssignment(assignments, column).Some?
      && LosesValue(row, filter, column, FindAssignment(assignments, column).value, db.tables[t].rows, child.name)
  }

  /** The value a row will have in a column once the update is done. */
  function UpdatedValue(row: Row, assignments: Assignments, filter: Option<Filter>, column: string): Value {
    var coerced := FindAssignment(assignments, column);
    if RowMatches(row, filter) && coerced.Some? then coerced.value else Get(row, column)
  }

  /** Two rows would share a non-NULL value. */
  predicate Clash(row: Row, other: Row, assignments: Assignments, filter: Option<Filter>, column: string) {
    && UpdatedValue(row, assignments, filter, column) != Null
    && UpdatedValue(row, assignments, filter, column) == UpdatedValue(other, assignments, filter, column)
  }

  /** No two rows would share a non-NULL value of the column. */
  predicate StaysUnique(rows: seq<Row>, assignments: Assignments, filter: Option<Filter>, column: string) {
    forall i, j :: 0 <= i < j < |rows| ==> !Clash(rows[i], rows[j], assignments, filter, column)
  }

  /** `check_unique_constraints_for_update`: the assigned unique columns stay unique. */
  predicate UpdateKeepsUnique(columns: seq<Column>, rows: seq<Row>, assignments: Assignments, filter: Option<Filter>) {
    forall c :: c in columns && MustBeUnique(c) && Assigns(assignments, c.name)
      ==> StaysUnique(rows, assignments, filter, c.name)
  }

  function Assigned(row: Row, assignments: Assignments): Row {
    if assignments == [] then row else
    var n := |assignments| - 1;
    Assigned(row, assignments[..n])[assignments[n].0 := assignments[n].1]
  }

  predicate AssignsForbiddenNull(columns: seq<Column>, assignments: Assignments) {
    exists i :: 0 <= i < |assignments| && assignments[i].1 == Null
      && FindColumn(columns, assignments[i].0).Some?
      && MustNotBeNull(FindColumn(columns, assignments[i].0).value)
  }

  /** What the rewrite of an UPDATE does to one row. */
  function UpdateRow(columns: seq<Column>, assignments: Assignments, filter: Option<Filter>): Row -> Result<Option<Row>> {
    (row: Row) =>
      if !RowMatches(row, filter) then Ok(Some(row))
      else if AssignsForbiddenNull(columns, assignments) then Err(ConstraintViolation)
      else Ok(Some(Assigned(row, assignments)))
  }

  ghost function RunUpdate(db: D.Db, table: string, assignments: Assignments, filter: Option<Filter>): Result<D.Db> {
    if table !in db.tables then Err(TableNotFound(table)) else
    var t := db.tables[table];
    var prepared :- PreparedFilter(db, table, filter);
    var coerced :- PrepareAssignments(t.columns, table, assignments);
    var _ :- CheckAssignedReferences(db, t.columns, coerced);
    if UpdateStrands(db, table, coerced, prepared) then Err(ConstraintViolation)
    else if !UpdateKeepsUnique(t.columns, t.rows, coerced, prepared) then Err(ConstraintViolation)
    else D.RewriteRows(db, table, UpdateRow(t.columns, coerced, prepared))
  }

  // ---- DELETE ----

  /** Some row that does not match the filter holds the value. */
  predicate Survives(rows: seq<Row>, filter: Option<Filter>, column: string, value: Value) {
    exists row :: row in rows && !RowMatches(row, filter) && Get(row, column) == value
  }

  /** The row is doomed, and with it the last occurrence of a referenced value that some child row holds. */
  predicate LastParent(row: Row, rows: seq<Row>, filter: Option<Filter>, parentColumn: string, children: seq<Row>, childColumn: string) {
    && RowMatches(row, filter) && Get(row, parentColumn) != Null
    && !Survives(rows, filter, parentColumn, Get(row, parentColumn))
    && Holds(children, childColumn, Get(row, parentColumn))
  }

  /** The foreign-key check of DELETE. */
  ghost predicate DeleteStrands(db: D.Db, table: string, filter: Option<Filter>)
    requires table in db.tables
  {
    exists t, child, column, row ::
      && Refers(db, t, child, table, column) && row in db.tables[table].rows
      && LastParent(row, db.tables[table].rows, filter, column, db.tables[t].rows, child.name)
  }

  function DeleteRow(filter: Option<Filter>): Row -> Result<Option<Row>> {
    (row: Row) => if RowMatches(row, filter) then Ok(None) else Ok(Some(row))
  }

  ghost function RunDelete(db: D.Db, table: string, filter: Option<Filter>): Result<D.Db> {
    if table !in db.tables then Err(TableNotFound(table)) else
    var prepared :- PreparedFilter(db, table, filter);
    if DeleteStrands(db, table, prepared) then Err(ConstraintViolation)
    else D.RewriteRows(db, table, DeleteRow(prepared))
  }

  // ---- statements on a session ----

  /** The database a statement other than SELECT and transaction control leaves, or why it is rejected. */
  ghost function Change(db: D.Db, statement: Statement): Result<D.Db>
    requires ChangesData(statement)
  {
    match statement
    case CreateTable(name, columns) => RunCreateTable(db, name, columns)
    case DropTable(name) => RunDropTable(db, name)
    case CreateIndex(name, table, column) => D.CreateIndex(db, name, table, column)
    case DropIndex(name) => D.DropIndex(db, name)
    case AddColumn(table, column, default) => RunAddColumn(db, table, column, default)
    case DropColumn(table, column) => D.DropColumn(db, table, column)
    case RenameColumn(table, from, to) => D.RenameColumn(db, table, from, to)
    case Insert(table, into, values) => RunInsert(db, table, into, values)
    case Update(table, assignments, filter) => RunUpdate(db, table, assignments, filter)
    case Delete(table, filter) => RunDelete(db, table, filter)
  }

  predicate ControlsTransaction(statement: Statement) {
    statement.Begin? || statement.Commit? || statement.Rollback?
  }

  predicate ChangesData(statement: Statement) {
    !statement.Select? && !ControlsTransaction(statement)
  }

  function OrUnchanged<T>(before: T, after: Result<T>): T {
    match after
    case Ok(t) => t
    case Err(_) => before
  }

  /** The session after a statement, rejected ones included. */
  ghost function After(s: D.Session, statement: Statement): D.Session {
    match statement
    case Begin => OrUnchanged(s, D.Begin(s))
    case Commit => OrUnchanged(s, D.Commit(s))
    case Rollback => OrUnchanged(s, D.Rollback(s))
    case Select(_) => s
    case _ => s.(db := OrUnchanged(s.db, Change(s.db, statement)))
  }

  function Then<T, U>(r: Result<T>, answer: U): Result<U> {
    match r
    case Ok(_) => Ok(answer)
    case Err(e) => Err(e)
  }

  function RowCount(db: D.Db, table: string): nat {
    if table in db.tables then |db.tables[table].rows| else 0
  }

  /** The number of rows an UPDATE or DELETE reports. */
  function MatchCount(db: D.Db, table: string, filter: Option<Filter>): nat {
    if table in db.tables && PreparedFilter(db, table, filter).Ok?
    then |FilterRows(db.tables[table].rows, PreparedFilter(db, table, filter).value)| else 0
  }

  /** What a statement answers, or the error it is rejected with. */
  ghost function Answer(s: D.Session, statement: Statement): Result<Outcome> {
    match statement
    case Begin => Then(D.Begin(s), Done)
    case Commit => Then(D.Commit(s), Done)
    case Rollback => Then(D.Rollback(s), Done)
    case Select(q) => (var rows :- RunQuery(s.db, q); Ok(Rows(rows)))
    case Insert(_, _, _) => Then(Change(s.db, statement), Counted(1))
    case Update(table, _, filter) => Then(Change(s.db, statement), Counted(MatchCount(s.db, table, filter)))
    case Delete(table, filter) => Then(Change(s.db, statement), Counted(MatchCount(s.db, table, filter)))
    case AddColumn(table, _, _) => Then(Change(s.db, statement), Counted(RowCount(s.db, table)))
    case DropColumn(table, _) => Then(Change(s.db, statement), Counted(RowCount(s.db, table)))
    case RenameColumn(table, _, _) => Then(Change(s.db, statement), Counted(RowCount(s.db, table)))
    case _ => Then(Change(s.db, statement), Done)
  }

  ghost function AfterAll(s: D.Session, statements: seq<Statement>): D.Session
    decreases |statements|
  {
    if statements == [] then s else AfterAll(After(s, statements[0]), statements[1..])
  }
}

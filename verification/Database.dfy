/**
 The logical database: what the storage engine's files, indexes, caches and cursors stand for.
 Every storage operation is specified as one of the functions below.
 */
module Database {
  import opened Types

  datatype Table = Table(columns: seq<Column>, rows: seq<Row>)

  datatype Db = Db(tables: map<string, Table>, indexes: seq<IndexDef>, migrations: seq<Migration>)

  /** A database together with the one a ROLLBACK would bring back. */
  datatype Session = Session(db: Db, saved: Option<Db>)

  const EMPTY_DB: Db := Db(map[], [], [])

  // ---- sequences ----

  function Keep<T>(xs: seq<T>, keep: T -> bool): seq<T> {
    if xs == [] then [] else
    var n := |xs| - 1;
    Keep(xs[..n], keep) + (if keep(xs[n]) then [xs[n]] else [])
  }

  lemma KeepAppend<T>(xs: seq<T>, x: T, keep: T -> bool)
    ensures Keep(xs + [x], keep) == Keep(xs, keep) + if keep(x) then [x] else []
  {
    assert (xs + [x])[..|xs|] == xs;
  }

  lemma {:induction false} KeepMembers<T(!new)>(xs: seq<T>, keep: T -> bool)
    ensures forall x :: x in Keep(xs, keep) <==> x in xs && keep(x)
  {
    if xs != [] {
      var n := |xs| - 1;
      KeepMembers(xs[..n], keep);
      assert xs == xs[..n] + [xs[n]];
    }
  }

  lemma {:induction false} KeepAll<T(!new)>(xs: seq<T>, keep: T -> bool)
    requires forall x :: x in xs ==> keep(x)
    ensures Keep(xs, keep) == xs
  {
    if xs != [] {
      var n := |xs| - 1;
      KeepAll(xs[..n], keep);
      assert xs == xs[..n] + [xs[n]];
    }
  }

  predicate Increasing(at: seq<nat>) {
    forall i, j :: 0 <= i < j < |at| ==> at[i] < at[j]
  }

  /** The positions of the kept elements: one increasing sequence that leaves out exactly those that are not kept. */
  ghost predicate Positions<T(!new)>(xs: seq<T>, keep: T -> bool, at: seq<nat>) {
    && |at| == |Keep(xs, keep)| && Increasing(at)
    && (forall i :: 0 <= i < |at| ==> at[i] < |xs| && xs[at[i]] == Keep(xs, keep)[i])
    && forall k :: 0 <= k < |xs| ==> (k in at <==> keep(xs[k]))
  }

  lemma PositionsSkip<T(!new)>(xs: seq<T>, x: T, keep: T -> bool, at: seq<nat>)
    requires Positions(xs, keep, at) && !keep(x)
    ensures Positions(xs + [x], keep, at)
  {
    KeepAppend(xs, x, keep);
    hide Keep;
    assert |xs| !in at by {
      if i :| 0 <= i < |at| && at[i] == |xs| {
        assert false;
      }
    }
    assert forall k :: 0 <= k < |xs| ==> (xs + [x])[k] == xs[k];
  }

  lemma PositionsTake<T(!new)>(xs: seq<T>, x: T, keep: T -> bool, at: seq<nat>)
    requires Positions(xs, keep, at) && keep(x)
    ensures Positions(xs + [x], keep, at + [|xs|])
  {
    KeepAppend(xs, x, keep);
    hide Keep;
    assert forall k :: 0 <= k < |xs| ==> (xs + [x])[k] == xs[k];
  }

  lemma {:induction false} KeepPositions<T(!new)>(xs: seq<T>, keep: T -> bool) returns (at: seq<nat>)
    ensures Positions(xs, keep, at)
  {
    at := [];
    if xs != [] {
      hide Positions;
      var n := |xs| - 1;
      at := KeepPositions(xs[..n], keep);
      assert xs == xs[..n] + [xs[n]];
      if keep(xs[n]) {
        PositionsTake(xs[..n], xs[n], keep, at);
        at := at + [n];
      } else {
        PositionsSkip(xs[..n], xs[n], keep, at);
      }
    }
  }

  // ---- schemas ----

  predicate HasColumn(columns: seq<Column>, name: string) {
    exists i :: 0 <= i < |columns| && columns[i].name == name
  }

  predicate DistinctColumns(columns: seq<Column>) {
    forall i, j :: 0 <= i < j < |columns| ==> columns[i].name != columns[j].name
  }

  function WithoutColumn(columns: seq<Column>, name: string): seq<Column> {
    Keep(columns, (c: Column) => c.name != name)
  }

  function ColumnsRenamed(columns: seq<Column>, from: string, to: string): (r: seq<Column>)
    ensures |r| == |columns|
    ensures forall i :: 0 <= i < |r| ==>
      r[i] == if columns[i].name == from then columns[i].(name := to) else columns[i]
  {
    seq(|columns|, i requires 0 <= i < |columns| =>
      if columns[i].name == from then columns[i].(name := to) else columns[i])
  }

  lemma DistinctWithout(columns: seq<Column>, name: string)
    requires DistinctColumns(columns)
    ensures DistinctColumns(WithoutColumn(columns, name))
    ensures forall other :: HasColumn(WithoutColumn(columns, name), other) <==> other != name && HasColumn(columns, other)
  {
    var keep := (c: Column) => c.name != name;
    var kept := WithoutColumn(columns, name);
    assert kept == Keep(columns, keep);
    KeepMembers(columns, keep);
    var at := KeepPositions(columns, keep);
    forall i, j | 0 <= i < j < |kept| ensures kept[i].name != kept[j].name {
      assert columns[at[i]].name != columns[at[j]].name;
    }
    forall other | other != name && HasColumn(columns, other) ensures HasColumn(kept, other) {
      var i :| 0 <= i < |columns| && columns[i].name == other;
      assert columns[i] in kept;
    }
    forall other | HasColumn(kept, other) ensures other != name && HasColumn(columns, other) {
      var i :| 0 <= i < |kept| && kept[i].name == other;
      assert kept[i] in kept;
      var j :| 0 <= j < |columns| && columns[j] == kept[i];
    }
  }

  lemma RenamedColumns(columns: seq<Column>, from: string, to: string)
    requires DistinctColumns(columns) && !HasColumn(columns, to)
    ensures DistinctColumns(ColumnsRenamed(columns, from, to))
  {
    var renamed := ColumnsRenamed(columns, from, to);
    forall i, j | 0 <= i < j < |renamed| ensures renamed[i].name != renamed[j].name {
      assert columns[i].name != columns[j].name && columns[i].name != to && columns[j].name != to;
    }
  }

  lemma RenamedHas(columns: seq<Column>, from: string, to: string)
    ensures forall name :: HasColumn(columns, name) ==> HasColumn(ColumnsRenamed(columns, from, to), if name == from then to else name)
  {
    var renamed := ColumnsRenamed(columns, from, to);
    forall name | HasColumn(columns, name) ensures HasColumn(renamed, if name == from then to else name) {
      var i :| 0 <= i < |columns| && columns[i].name == name;
      assert renamed[i].name == if name == from then to else name;
    }
  }

  // ---- index definitions ----

  predicate HasIndexNamed(defs: seq<IndexDef>, name: string) {
    exists i :: 0 <= i < |defs| && defs[i].name == name
  }

  predicate HasIndexOn(defs: seq<IndexDef>, table: string, column: string) {
    exists i :: 0 <= i < |defs| && defs[i].table == table && defs[i].column == column
  }

  function FindIndexNamed(defs: seq<IndexDef>, name: string): (r: Option<IndexDef>)
    ensures r.Some? <==> HasIndexNamed(defs, name)
    ensures r.Some? ==> r.value in defs && r.value.name == name
  {
    if defs == [] then None
    else if defs[0].name == name then Some(defs[0])
    else
      assert forall i :: 0 < i < |defs| ==> defs[i] == defs[1..][i - 1];
      FindIndexNamed(defs[1..], name)
  }

  function OffTable(table: string): IndexDef -> bool {
    (d: IndexDef) => d.table != table
  }

  function NotNamed(name: string): IndexDef -> bool {
    (d: IndexDef) => d.name != name
  }

  function OffColumn(table: string, column: string): IndexDef -> bool {
    (d: IndexDef) => !(d.table == table && d.column == column)
  }

  function DefsRenamed(defs: seq<IndexDef>, table: string, from: string, to: string): (r: seq<IndexDef>)
    ensures |r| == |defs|
    ensures forall i :: 0 <= i < |r| ==>
      r[i] == if defs[i].table == table && defs[i].column == from then defs[i].(column := to) else defs[i]
  {
    seq(|defs|, i requires 0 <= i < |defs| =>
      if defs[i].table == table && defs[i].column == from then defs[i].(column := to) else defs[i])
  }

  // ---- sound index definitions ----

  /** Whether a table has a column. */
  type Columns = (string, string) -> bool

  /** Different names, and not on the same column. */
  predicate DefsDiffer(d: IndexDef, e: IndexDef) {
    d.name != e.name && !(d.table == e.table && d.column == e.column)
  }

  /** Every index names an existing column; names are unique, and a column has at most one index. */
  ghost predicate DefsSound(has: Columns, defs: seq<IndexDef>) {
    && (forall i, j :: 0 <= i < j < |defs| ==> DefsDiffer(defs[i], defs[j]))
    && forall i :: 0 <= i < |defs| ==> has(defs[i].table, defs[i].column)
  }

  lemma DefsSoundElsewhere(has: Columns, has1: Columns, defs: seq<IndexDef>)
    requires DefsSound(has, defs)
    requires forall d :: d in defs && has(d.table, d.column) ==> has1(d.table, d.column)
    ensures DefsSound(has1, defs)
  {
  }

  lemma KeptDefsSound(has: Columns, has1: Columns, defs: seq<IndexDef>, keep: IndexDef -> bool)
    requires DefsSound(has, defs)
    requires forall d :: d in defs && keep(d) && has(d.table, d.column) ==> has1(d.table, d.column)
    ensures DefsSound(has1, Keep(defs, keep))
  {
    hide DefsDiffer;
    var kept := Keep(defs, keep);
    var at := KeepPositions(defs, keep);
    forall i, j | 0 <= i < j < |kept| ensures DefsDiffer(kept[i], kept[j]) {
      assert DefsDiffer(defs[at[i]], defs[at[j]]);
    }
    forall i | 0 <= i < |kept| ensures has1(kept[i].table, kept[i].column) {
      assert at[i] in at && defs[at[i]] in defs;
    }
  }

  lemma AddedDefSound(has: Columns, defs: seq<IndexDef>, d: IndexDef)
    requires DefsSound(has, defs) && has(d.table, d.column)
    requires !HasIndexNamed(defs, d.name) && !HasIndexOn(defs, d.table, d.column)
    ensures DefsSound(has, defs + [d])
  {
    var longer := defs + [d];
    forall i, j | 0 <= i < j < |longer| ensures DefsDiffer(longer[i], longer[j]) {
      if j < |defs| {
        assert DefsDiffer(defs[i], defs[j]);
      }
    }
  }

  /** An index on a renamed column follows it, and cannot meet another, because the new name was free. */
  lemma RenamedDefsSound(has: Columns, has1: Columns, defs: seq<IndexDef>, table: string, from: string, to: string)
    requires DefsSound(has, defs) && !has(table, to)
    requires forall t, c :: has(t, c) ==> has1(t, if t == table && c == from then to else c)
    ensures DefsSound(has1, DefsRenamed(defs, table, from, to))
  {
    var renamed := DefsRenamed(defs, table, from, to);
    forall i, j | 0 <= i < j < |renamed| ensures DefsDiffer(renamed[i], renamed[j]) {
      assert DefsDiffer(defs[i], defs[j]);
      assert has(defs[i].table, defs[i].column) && has(defs[j].table, defs[j].column);
    }
    forall i | 0 <= i < |renamed| ensures has1(renamed[i].table, renamed[i].column) {
      assert has(defs[i].table, defs[i].column);
    }
  }

  // ---- rows ----

  function AddsValue(column: string, value: Value): Row -> Row {
    (row: Row) => row[column := value]
  }

  function RemovesValue(column: string): Row -> Row {
    (row: Row) => row - {column}
  }

  function RenamesValue(from: string, to: string): Row -> Row {
    (row: Row) => if from in row then (row - {from})[to := row[from]] else row
  }

  function MapRows(rows: seq<Row>, f: Row -> Row): (r: seq<Row>)
    ensures |r| == |rows| && forall i :: 0 <= i < |r| ==> r[i] == f(rows[i])
  {
    seq(|rows|, i requires 0 <= i < |rows| => f(rows[i]))
  }

  lemma MapRowsAppend(rows: seq<Row>, row: Row, f: Row -> Row)
    ensures MapRows(rows + [row], f) == MapRows(rows, f) + [f(row)]
  {
  }

  // ---- storage operations ----

  /** A call that returned `r` moved `before` to `after` as `spec` says, or failed and changed nothing. */
  ghost predicate Follows<T>(before: Session, after: Session, spec: Result<Db>, r: Result<T>) {
    && after.saved == before.saved
    && match spec
       case Ok(db) => r.Ok? && after.db == db
       case Err(e) => r.Err? && r.error == e && after.db == before.db
  }

  function Logged(log: seq<Migration>, table: string, operation: Operation): seq<Migration> {
    log + [Migration(if log == [] then 1 else log[|log| - 1].id + 1, table, operation)]
  }

  function Record(db: Db, table: string, operation: Operation): Db {
    db.(migrations := Logged(db.migrations, table, operation))
  }

  function CreateTable(db: Db, name: string, columns: seq<Column>): Result<Db> {
    if name in db.tables then Err(TableExists(name))
    else Ok(Record(db.(tables := db.tables[name := Table(columns, [])]), name, CreatedTable))
  }

  function DropTable(db: Db, name: string): Result<Db> {
    if name !in db.tables then Err(TableNotFound(name))
    else Ok(Record(db.(tables := db.tables - {name}, indexes := Keep(db.indexes, OffTable(name))), name, DroppedTable))
  }

  function CreateIndex(db: Db, name: string, table: string, column: string): Result<Db> {
    if table !in db.tables then Err(TableNotFound(table))
    else if !HasColumn(db.tables[table].columns, column) then Err(ColumnNotFound(table, column))
    else if HasIndexNamed(db.indexes, name) || HasIndexOn(db.indexes, table, column) then Err(InvalidSchema)
    else Ok(Record(db.(indexes := db.indexes + [IndexDef(name, table, column)]), table, CreatedIndex))
  }

  function DropIndex(db: Db, name: string): Result<Db> {
    match FindIndexNamed(db.indexes, name)
    case None => Err(InvalidSchema)
    case Some(d) => Ok(Record(db.(indexes := Keep(db.indexes, NotNamed(name))), d.table, DroppedIndex))
  }

  function SetTable(db: Db, name: string, table: Table): Db {
    db.(tables := db.tables[name := table])
  }

  function AddColumn(db: Db, table: string, column: Column, default: Value): Result<Db> {
    if table !in db.tables then Err(TableNotFound(table)) else
    var t := db.tables[table];
    if HasColumn(t.columns, column.name) then Err(InvalidSchema) else
    var rows := MapRows(t.rows, AddsValue(column.name, default));
    Ok(Record(SetTable(db, table, Table(t.columns + [column], rows)), table, AddedColumn))
  }

  function DropColumn(db: Db, table: string, column: string): Result<Db> {
    if table !in db.tables then Err(TableNotFound(table)) else
    var t := db.tables[table];
    if |t.columns| <= 1 then Err(InvalidSchema)
    else if !HasColumn(t.columns, column) then Err(ColumnNotFound(table, column)) else
    var rows := MapRows(t.rows, RemovesValue(column));
    Ok(Record(SetTable(db, table, Table(WithoutColumn(t.columns, column), rows))
      .(indexes := Keep(db.indexes, OffColumn(table, column))), table, DroppedColumn))
  }

  function RenameColumn(db: Db, table: string, from: string, to: string): Result<Db> {
    if table !in db.tables then Err(TableNotFound(table)) else
    var t := db.tables[table];
    if !HasColumn(t.columns, from) then Err(ColumnNotFound(table, from))
    else if HasColumn(t.columns, to) then Err(InvalidSchema) else
    var rows := MapRows(t.rows, RenamesValue(from, to));
    Ok(Record(SetTable(db, table, Table(ColumnsRenamed(t.columns, from, to), rows))
      .(indexes := DefsRenamed(db.indexes, table, from, to)), table, RenamedColumn))
  }

  function AppendRow(db: Db, table: string, row: Row): Result<Db> {
    if table !in db.tables then Err(TableNotFound(table)) else
    var t := db.tables[table];
    Ok(SetTable(db, table, t.(rows := t.rows + [row])))
  }

  /** The rewriting of a table row by row: a row is replaced, dropped (None), or fails the whole rewrite. */
  function MapOrDrop(rows: seq<Row>, f: Row -> Result<Option<Row>>): Result<seq<Row>> {
    if rows == [] then Ok([]) else
    var n := |rows| - 1;
    var head :- MapOrDrop(rows[..n], f);
    var mapped :- f(rows[n]);
    Ok(if mapped.Some? then head + [mapped.value] else head)
  }

  function RewriteRows(db: Db, table: string, f: Row -> Result<Option<Row>>): Result<Db> {
    if table !in db.tables then Err(TableNotFound(table)) else
    var t := db.tables[table];
    var rows :- MapOrDrop(t.rows, f);
    Ok(SetTable(db, table, t.(rows := rows)))
  }

  // ---- transactions ----

  function Begin(s: Session): Result<Session> {
    if s.saved.Some? then Err(TransactionError) else Ok(Session(s.db, Some(s.db)))
  }

  function Commit(s: Session): Result<Session> {
    if s.saved.None? then Err(TransactionError) else Ok(Session(s.db, None))
  }

  function Rollback(s: Session): Result<Session> {
    if s.saved.None? then Err(TransactionError) else Ok(Session(s.saved.value, None))
  }

  /** Likewise for calls that open or close a transaction. */
  ghost predicate Becomes<T>(before: Session, after: Session, spec: Result<Session>, r: Result<T>) {
    match spec
    case Ok(s) => r.Ok? && after == s
    case Err(e) => r.Err? && r.error == e && after == before
  }
}

/**
 The storage engine's state as a value: the data directory and everything kept in memory about it,
 the invariant that ties the copies together, and what each kind of change does to it.
 */
module StorageState {
  import opened Types
  import opened TableFile
  import opened IndexMaps
  import opened Database

  type Catalog = map<string, TableSchema>

  /** A batch of row ids being handed out: `next` up to but not including `limit`. */
  datatype Cursor = Cursor(next: nat, limit: nat)

  /** A file; its generation changes whenever another file takes its path. */
  datatype DataFile = DataFile(generation: nat, bytes: Bytes)

  /** The files that BEGIN copies into the snapshot directory and ROLLBACK copies back. */
  datatype Files = Files(
    catalog: Option<Catalog>,
    migrations: Option<seq<Migration>>,
    indexCatalog: Option<seq<IndexDef>>,
    tables: map<string, DataFile>,
    temps: map<string, Bytes>,
    indexes: map<string, IndexMap>)

  /** The data directory: `marker` is the file `indexes.clean`, `clock` the next unused generation. */
  datatype Disk = Disk(root: Files, marker: bool, snapshot: Option<Files>, clock: nat)

  const NO_FILES: Files := Files(None, None, None, map[], map[], map[])

  datatype State = State(
    disk: Disk,
    catalog: Catalog,
    migrations: seq<Migration>,
    indexCatalog: seq<IndexDef>,
    indexMaps: map<string, IndexMap>,
    cursors: map<string, Cursor>,
    handles: map<string, nat>,
    caches: map<string, map<string, set<string>>>,
    dirty: set<string>,
    indexesClean: bool,
    inTransaction: bool)

  // ---- file operations ----

  function SaveCatalog(d: Disk, catalog: Catalog): Disk {
    d.(root := d.root.(catalog := Some(catalog)))
  }

  function SaveMigrations(d: Disk, migrations: seq<Migration>): Disk {
    d.(root := d.root.(migrations := Some(migrations)))
  }

  function SaveIndexCatalog(d: Disk, defs: seq<IndexDef>): Disk {
    d.(root := d.root.(indexCatalog := Some(defs)))
  }

  function RemoveIndexMaps(d: Disk, names: set<string>): Disk {
    d.(root := d.root.(indexes := d.root.indexes - names))
  }

  /** `File::create`: an existing file is truncated in place, a missing one is a new file. */
  function CreateTableFile(d: Disk, table: string): Disk {
    if table in d.root.tables then
      d.(root := d.root.(tables := d.root.tables[table := d.root.tables[table].(bytes := [])]))
    else ReplaceTableFile(d, table, [])
  }

  /** Opening a table's path with `create(true)`. */
  function EnsureTableFile(d: Disk, table: string): Disk {
    if table in d.root.tables then d else CreateTableFile(d, table)
  }

  /** Renaming a finished file over a table's path. */
  function ReplaceTableFile(d: Disk, table: string, bytes: Bytes): Disk {
    d.(root := d.root.(tables := d.root.tables[table := DataFile(d.clock, bytes)]), clock := d.clock + 1)
  }

  function RemoveTableFile(d: Disk, table: string): Disk {
    d.(root := d.root.(tables := d.root.tables - {table}))
  }

  /** Writing through an open handle: the bytes reach the table's path only if the handle is not stale. */
  function WriteThrough(d: Disk, table: string, handle: nat, bytes: Bytes): Disk {
    if table in d.root.tables && d.root.tables[table].generation == handle then
      var file := d.root.tables[table];
      d.(root := d.root.(tables := d.root.tables[table := file.(bytes := file.bytes + bytes)]))
    else d
  }

  // ---- loading ----

  function LoadCatalog(f: Files): Catalog {
    if f.catalog.Some? then f.catalog.value else map[]
  }

  function LoadMigrations(f: Files): seq<Migration> {
    if f.migrations.Some? then f.migrations.value else []
  }

  function LoadIndexCatalog(f: Files): seq<IndexDef> {
    if f.indexCatalog.Some? then f.indexCatalog.value else []
  }

  function LoadIndexMap(f: Files, name: string): IndexMap {
    if name in f.indexes then f.indexes[name] else map[]
  }

  // ---- the invariant, one redundancy at a time ----

  /** Row-id discipline of one file: ids strictly increase and lie below a bound. */
  ghost predicate TableOk(c: Crypto, file: Bytes, next: nat) {
    && Tidy(c, file)
    && IdsIncrease(RowsOf(c, file))
    && IdsBelow(RowsOf(c, file), next)
  }

  ghost predicate IdsBelow(rows: seq<Located>, bound: nat) {
    forall i :: 0 <= i < |rows| ==> rows[i].row.id < bound
  }

  ghost predicate TablesOk(c: Crypto, catalog: Catalog, tables: map<string, DataFile>) {
    && tables.Keys == catalog.Keys
    && forall t :: t in catalog ==>
      && catalog[t].name == t
      && DistinctColumns(catalog[t].columns)
      && TableOk(c, tables[t].bytes, catalog[t].nextRowId)
  }

  function CatalogHas(catalog: Catalog): Columns {
    (t, column) => t in catalog && HasColumn(catalog[t].columns, column)
  }

  ghost predicate DefsOk(catalog: Catalog, defs: seq<IndexDef>) {
    DefsSound(CatalogHas(catalog), defs)
  }

  ghost function FreshIndex(c: Crypto, tables: map<string, DataFile>, d: IndexDef): IndexMap
    requires d.table in tables
  {
    IndexOf(RowsOf(c, tables[d.table].bytes), d.column)
  }

  ghost function Names(defs: seq<IndexDef>): set<string> {
    set i | 0 <= i < |defs| :: defs[i].name
  }

  ghost function NamesOn(defs: seq<IndexDef>, table: string): set<string> {
    set i | 0 <= i < |defs| && defs[i].table == table :: defs[i].name
  }

  /** Outside `pending`, each index in memory is what a rebuild gives, and when not dirty so is its disk copy. */
  ghost predicate IndexesOk(c: Crypto, root: Files, defs: seq<IndexDef>, maps: map<string, IndexMap>,
                            dirty: set<string>, pending: set<string>)
  {
    && maps.Keys <= Names(defs)
    && dirty <= maps.Keys
    && forall i :: 0 <= i < |defs| && defs[i].name !in pending ==>
      && defs[i].table in root.tables
      && defs[i].name in maps
      && maps[defs[i].name] == FreshIndex(c, root.tables, defs[i])
      && (defs[i].name in dirty || LoadIndexMap(root, defs[i].name) == maps[defs[i].name])
  }

  /** The set of keys a unique cache holds: those of the non-NULL values of the column. */
  function ValueKeySet(rows: seq<Located>, column: string): set<string> {
    set i | 0 <= i < |rows| && Get(rows[i].row.data, column) != Null :: RowKey(rows[i].row.data, column)
  }

  ghost predicate CachesOk(c: Crypto, tables: map<string, DataFile>, caches: map<string, map<string, set<string>>>) {
    forall t, column :: t in caches && column in caches[t] ==>
      t in tables && caches[t][column] == ValueKeySet(RowsOf(c, tables[t].bytes), column)
  }

  /** A live cursor hands out ids above every stored one and below the persisted bound. */
  ghost predicate CursorsOk(c: Crypto, catalog: Catalog, tables: map<string, DataFile>, cursors: map<string, Cursor>) {
    forall t :: t in cursors ==>
      && t in catalog && t in tables
      && cursors[t].next <= cursors[t].limit <= catalog[t].nextRowId
      && IdsBelow(RowsOf(c, tables[t].bytes), cursors[t].next)
  }

  /** An open append handle still refers to the file that readers open by path. */
  ghost predicate HandlesOk(tables: map<string, DataFile>, handles: map<string, nat>) {
    forall t :: t in handles ==> t in tables && tables[t].generation == handles[t]
  }

  /** A directory whose catalogs describe its table files. */
  ghost predicate DirectoryOk(c: Crypto, f: Files) {
    && TablesOk(c, LoadCatalog(f), f.tables)
    && DefsOk(LoadCatalog(f), LoadIndexCatalog(f))
  }

  /** A directory whose index files may be loaded without a rebuild. */
  ghost predicate IndexFilesOk(c: Crypto, f: Files) {
    var defs := LoadIndexCatalog(f);
    forall i :: 0 <= i < |defs| ==>
      defs[i].table in f.tables && LoadIndexMap(f, defs[i].name) == FreshIndex(c, f.tables, defs[i])
  }

  ghost predicate MemoryMatchesDisk(s: State) {
    && LoadCatalog(s.disk.root) == s.catalog
    && LoadMigrations(s.disk.root) == s.migrations
    && LoadIndexCatalog(s.disk.root) == s.indexCatalog
  }

  ghost predicate MarkerOk(s: State) {
    && s.disk.marker == s.indexesClean
    && (s.indexesClean ==> s.dirty == {})
  }

  ghost predicate SnapshotOk(c: Crypto, snapshot: Option<Files>, inTransaction: bool) {
    && inTransaction == snapshot.Some?
    && (inTransaction ==> DirectoryOk(c, snapshot.value) && IndexFilesOk(c, snapshot.value))
  }

  /** The whole invariant, with the indexes named in `pending` still to be rebuilt. */
  ghost predicate Inv(c: Crypto, s: State, pending: set<string>) {
    && Sound(c)
    && MemoryMatchesDisk(s)
    && TablesOk(c, s.catalog, s.disk.root.tables)
    && DefsOk(s.catalog, s.indexCatalog)
    && IndexesOk(c, s.disk.root, s.indexCatalog, s.indexMaps, s.dirty, pending)
    && MarkerOk(s)
    && CachesOk(c, s.disk.root.tables, s.caches)
    && CursorsOk(c, s.catalog, s.disk.root.tables, s.cursors)
    && HandlesOk(s.disk.root.tables, s.handles)
    && SnapshotOk(c, s.disk.snapshot, s.inTransaction)
  }

  // ---- what the state stands for ----

  ghost function TableRows(c: Crypto, tables: map<string, DataFile>, t: string): seq<Row>
    requires t in tables
  {
    Datas(RowsOf(c, tables[t].bytes))
  }

  ghost function DbOf(c: Crypto, catalog: Catalog, migrations: seq<Migration>, defs: seq<IndexDef>,
                      tables: map<string, DataFile>): Db
  {
    Db(map t | t in catalog && t in tables :: Table(catalog[t].columns, TableRows(c, tables, t)), defs, migrations)
  }

  ghost function DirectoryDb(c: Crypto, f: Files): Db {
    DbOf(c, LoadCatalog(f), LoadMigrations(f), LoadIndexCatalog(f), f.tables)
  }

  ghost function LogicalDb(c: Crypto, s: State): Db {
    DbOf(c, s.catalog, s.migrations, s.indexCatalog, s.disk.root.tables)
  }

  ghost function SessionOf(c: Crypto, s: State): Session {
    Session(LogicalDb(c, s), if s.disk.snapshot.Some? then Some(DirectoryDb(c, s.disk.snapshot.value)) else None)
  }

  /** Everything a ROLLBACK must bring back, down to the bytes of the table files. */
  datatype Checkpoint = Checkpoint(
    catalog: Catalog,
    migrations: seq<Migration>,
    indexCatalog: seq<IndexDef>,
    tables: map<string, Bytes>,
    indexMaps: map<string, IndexMap>)

  ghost function FileBytes(tables: map<string, DataFile>): map<string, Bytes> {
    map t | t in tables :: tables[t].bytes
  }

  ghost function CheckpointOf(s: State): Checkpoint {
    Checkpoint(s.catalog, s.migrations, s.indexCatalog, FileBytes(s.disk.root.tables), s.indexMaps)
  }

  ghost function SnapshotCheckpoint(f: Files): Checkpoint {
    var defs := LoadIndexCatalog(f);
    Checkpoint(LoadCatalog(f), LoadMigrations(f), defs, FileBytes(f.tables),
               map name | name in Names(defs) :: LoadIndexMap(f, name))
  }

  // ---- reopening ----

  /** A directory that `open` can start from: after a clean stop the marker vouches for the index files. */
  ghost predicate Durable(c: Crypto, disk: Disk) {
    && Sound(c)
    && DirectoryOk(c, disk.root)
    && (disk.marker ==> IndexFilesOk(c, disk.root))
  }

  /** However the process stops between two statements, the directory it leaves can be reopened. */
  lemma EveryBoundaryIsDurable(c: Crypto, s: State)
    requires Inv(c, s, {})
    ensures Durable(c, s.disk)
    ensures DirectoryDb(c, s.disk.root) == LogicalDb(c, s)
    ensures s.disk.marker ==> s.dirty == {}
  {
    if s.disk.marker {
      var defs := s.indexCatalog;
      forall i | 0 <= i < |defs|
        ensures LoadIndexMap(s.disk.root, defs[i].name) == FreshIndex(c, s.disk.root.tables, defs[i])
      {
        assert defs[i].name !in s.dirty;
      }
    }
  }

  /** An empty directory can be opened: it is the empty database. */
  lemma EmptyDirectoryIsDurable(c: Crypto)
    requires Sound(c)
    ensures var disk := Disk(NO_FILES, false, None, 0);
      Durable(c, disk) && DirectoryDb(c, disk.root) == EMPTY_DB
  {
    assert DirectoryDb(c, NO_FILES).tables == map[];
  }
}

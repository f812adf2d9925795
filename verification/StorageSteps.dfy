/** How each kind of change to the storage state affects its invariant and the database it stands for. */
module StorageSteps {
  import opened Types
  import opened ValueKeys
  import opened TableFile
  import opened IndexMaps
  import opened Database
  import opened StorageState

  /** `write_index_map`: the map is kept in memory, dirty, and the clean marker is gone. */
  function Touched(s: State, name: string, index: IndexMap): State {
    s.(indexMaps := s.indexMaps[name := index], dirty := s.dirty + {name},
       indexesClean := false, disk := s.disk.(marker := false))
  }

  lemma MinusAbsent<V>(m: map<string, V>, key: string)
    requires key !in m
    ensures m - {key} == m
  {
  }

  /** Only the index maps and what records their freshness differ. */
  ghost predicate IndexStateOnly(s: State, s1: State) {
    && s1 == s.(indexMaps := s1.indexMaps, dirty := s1.dirty, indexesClean := s1.indexesClean, disk := s1.disk)
    && s1.disk.root == s.disk.root && s1.disk.snapshot == s.disk.snapshot && s1.disk.clock == s.disk.clock
  }

  /** Only table files and temporary files differ. */
  ghost predicate TableFilesOnly(d: Disk, d1: Disk) {
    && OtherFilesSame(d.root, d1.root)
    && d1.marker == d.marker && d1.snapshot == d.snapshot
  }

  ghost predicate OtherFilesSame(f: Files, f1: Files) {
    && f1.catalog == f.catalog && f1.migrations == f.migrations
    && f1.indexCatalog == f.indexCatalog && f1.indexes == f.indexes
  }

  /** The parts of the invariant that methods rely on directly. */
  lemma InvFacts(c: Crypto, s: State, pending: set<string>)
    requires Inv(c, s, pending)
    ensures Sound(c) && TablesOk(c, s.catalog, s.disk.root.tables)
    ensures s.disk.root.tables.Keys == s.catalog.Keys && s.disk.marker == s.indexesClean
    ensures HandlesOk(s.disk.root.tables, s.handles) && MemoryMatchesDisk(s)
  {
  }

  /** The catalog's tables are those of the logical database. */
  lemma InvTables(c: Crypto, s: State, pending: set<string>)
    requires Inv(c, s, pending)
    ensures LogicalDb(c, s).tables.Keys == s.catalog.Keys
    ensures forall t :: t in s.catalog ==> LogicalDb(c, s).tables[t].columns == s.catalog[t].columns
  {
  }

  lemma DefsAreNamed(defs: seq<IndexDef>, i: nat)
    requires i < |defs|
    ensures defs[i].name in Names(defs) && defs[i].name in NamesOn(defs, defs[i].table)
  {
  }

  lemma TouchedIndexes(c: Crypto, root: Files, defs: seq<IndexDef>, maps: map<string, IndexMap>,
                       dirty: set<string>, pending: set<string>, i: nat)
    requires IndexesOk(c, root, defs, maps, dirty, pending)
    requires i < |defs| && defs[i].table in root.tables
    requires forall j, k :: 0 <= j < k < |defs| ==> defs[j].name != defs[k].name
    ensures IndexesOk(c, root, defs, maps[defs[i].name := FreshIndex(c, root.tables, defs[i])],
                      dirty + {defs[i].name}, pending - {defs[i].name})
  {
    DefsAreNamed(defs, i);
    forall j | 0 <= j < |defs| && j != i ensures defs[j].name != defs[i].name {
      if j < i {} else {}
    }
  }

  lemma TouchedInv(c: Crypto, s: State, pending: set<string>, i: nat)
    requires Inv(c, s, pending) && i < |s.indexCatalog|
    ensures var d := s.indexCatalog[i];
      Inv(c, Touched(s, d.name, FreshIndex(c, s.disk.root.tables, d)), pending - {d.name})
  {
    hide Sound, TablesOk, IndexesOk, CachesOk, CursorsOk, HandlesOk, SnapshotOk;
    InvFacts(c, s, pending);
    TouchedIndexes(c, s.disk.root, s.indexCatalog, s.indexMaps, s.dirty, pending, i);
  }

  lemma ReplacedIndexes(c: Crypto, root: Files, root1: Files, defs: seq<IndexDef>, maps: map<string, IndexMap>,
                        dirty: set<string>, pending: set<string>, table: string)
    requires IndexesOk(c, root, defs, maps, dirty, pending)
    requires root1.indexes == root.indexes && table in root1.tables
    requires root1.tables == root.tables[table := root1.tables[table]]
    ensures IndexesOk(c, root1, defs, maps, dirty, pending + NamesOn(defs, table))
  {
    forall i | 0 <= i < |defs| && defs[i].name !in pending + NamesOn(defs, table)
      ensures defs[i].table != table
    {
      DefsAreNamed(defs, i);
    }
  }

  lemma ReplacedTables(c: Crypto, catalog: Catalog, tables: map<string, DataFile>, table: string, file: DataFile)
    requires TablesOk(c, catalog, tables) && table in catalog
    requires TableOk(c, file.bytes, catalog[table].nextRowId)
    ensures TablesOk(c, catalog, tables[table := file])
  {
  }

  lemma ReplacedOthers(c: Crypto, catalog: Catalog, tables: map<string, DataFile>, table: string, file: DataFile,
                       caches: map<string, map<string, set<string>>>, cursors: map<string, Cursor>)
    requires CachesOk(c, tables, caches) && CursorsOk(c, catalog, tables, cursors)
    requires table in cursors ==> IdsBelow(RowsOf(c, file.bytes), cursors[table].next)
    ensures CachesOk(c, tables[table := file], caches - {table})
    ensures CursorsOk(c, catalog, tables[table := file], cursors)
  {
  }

  /**
   A table's file changes: its cache is dropped, its indexes must be rebuilt, and its handle must be
   closed unless the file was changed in place.
   */
  lemma ReplacedInv(c: Crypto, s: State, s1: State, table: string, file: DataFile, pending: set<string>)
    requires Inv(c, s, pending) && table in s.catalog
    requires TableOk(c, file.bytes, s.catalog[table].nextRowId)
    requires table in s.cursors ==> IdsBelow(RowsOf(c, file.bytes), s.cursors[table].next)
    requires s1 == s.(disk := s1.disk, handles := s1.handles, caches := s.caches - {table})
    requires TableFilesOnly(s.disk, s1.disk) && s1.disk.root.tables == s.disk.root.tables[table := file]
    requires HandlesOk(s1.disk.root.tables, s1.handles)
    ensures Inv(c, s1, pending + NamesOn(s.indexCatalog, table))
  {
    hide Sound, TablesOk, DefsOk, IndexesOk, CachesOk, CursorsOk, HandlesOk, SnapshotOk;
    ReplacedTables(c, s.catalog, s.disk.root.tables, table, file);
    ReplacedIndexes(c, s.disk.root, s1.disk.root, s.indexCatalog, s.indexMaps, s.dirty, pending, table);
    ReplacedOthers(c, s.catalog, s.disk.root.tables, table, file, s.caches, s.cursors);
  }

  lemma ClosedHandles(tables: map<string, DataFile>, handles: map<string, nat>, table: string, file: DataFile)
    requires HandlesOk(tables, handles)
    ensures HandlesOk(tables[table := file], handles - {table})
  {
  }

  lemma LiveHandle(tables: map<string, DataFile>, handles: map<string, nat>, table: string, file: DataFile)
    requires HandlesOk(tables, handles) && table in handles && table in tables
    requires file.generation == tables[table].generation
    ensures handles[table] == tables[table].generation
    ensures HandlesOk(tables[table := file], handles)
  {
  }

  lemma ReplacedDb(c: Crypto, s: State, s1: State, table: string, file: DataFile)
    requires table in s.catalog
    requires s1.catalog == s.catalog && s1.migrations == s.migrations && s1.indexCatalog == s.indexCatalog
    requires s1.disk.root.tables == s.disk.root.tables[table := file]
    ensures LogicalDb(c, s1)
      == SetTable(LogicalDb(c, s), table, Table(s.catalog[table].columns, Datas(RowsOf(c, file.bytes))))
  {
  }

  // ---- appending a row ----

  /** Only the persisted id counter and the cursor of a table moved. */
  ghost predicate IdCountersOnly(s: State, s1: State) {
    && s1 == s.(catalog := s1.catalog, cursors := s1.cursors, disk := s1.disk)
    && s1.disk.root.tables == s.disk.root.tables && s1.disk.snapshot == s.disk.snapshot
  }

  /** An id that is new to a table and that its counters have moved past. */
  ghost predicate FreshId(c: Crypto, catalog: Catalog, tables: map<string, DataFile>, cursors: map<string, Cursor>,
                          table: string, id: nat)
  {
    && table in catalog && table in tables && table in cursors
    && id < catalog[table].nextRowId && id < cursors[table].next
    && IdsBelow(RowsOf(c, tables[table].bytes), id)
  }

  lemma TablesFacts(c: Crypto, catalog: Catalog, tables: map<string, DataFile>, table: string)
    requires TablesOk(c, catalog, tables) && table in catalog
    ensures table in tables && catalog[table].name == table && DistinctColumns(catalog[table].columns)
    ensures TableOk(c, tables[table].bytes, catalog[table].nextRowId)
  {
  }

  lemma CatalogTables(c: Crypto, catalog: Catalog, tables: map<string, DataFile>, table: string, schema: TableSchema)
    requires TablesOk(c, catalog, tables) && table in catalog
    requires schema.name == table && DistinctColumns(schema.columns)
    requires catalog[table].nextRowId <= schema.nextRowId
    ensures TablesOk(c, catalog[table := schema], tables)
  {
  }

  lemma CatalogDefs(catalog: Catalog, defs: seq<IndexDef>, table: string, schema: TableSchema)
    requires DefsOk(catalog, defs) && table in catalog
    requires forall name :: HasColumn(catalog[table].columns, name) ==> HasColumn(schema.columns, name)
    ensures DefsOk(catalog[table := schema], defs)
  {
  }

  lemma CatalogCursors(c: Crypto, catalog: Catalog, tables: map<string, DataFile>, cursors: map<string, Cursor>,
                       table: string, schema: TableSchema, cursor: Cursor)
    requires CursorsOk(c, catalog, tables, cursors) && table in catalog && table in tables
    requires catalog[table].nextRowId <= schema.nextRowId && cursor.next <= cursor.limit <= schema.nextRowId
    requires IdsBelow(RowsOf(c, tables[table].bytes), cursor.next)
    ensures CursorsOk(c, catalog[table := schema], tables, cursors[table := cursor])
  {
  }

  /** The row-id batch: a fresh cursor starts where the persisted counter stood. */
  lemma AllocatedInv(c: Crypto, s: State, s1: State, table: string, cursor: Cursor, next: nat)
    requires Inv(c, s, {}) && table in s.catalog
    requires s.catalog[table].nextRowId <= next && cursor.next <= cursor.limit <= next
    requires IdsBelow(RowsOf(c, s.disk.root.tables[table].bytes), cursor.next)
    requires s1 == s.(catalog := s.catalog[table := s.catalog[table].(nextRowId := next)],
                      cursors := s.cursors[table := cursor], disk := SaveCatalog(s.disk, s1.catalog))
    ensures Inv(c, s1, {})
  {
    hide Sound, TablesOk, DefsOk, IndexesOk, CachesOk, CursorsOk, HandlesOk, SnapshotOk;
    InvFacts(c, s, {});
    var schema := s.catalog[table].(nextRowId := next);
    assert s.catalog[table].name == table && DistinctColumns(s.catalog[table].columns) by {
      TablesFacts(c, s.catalog, s.disk.root.tables, table);
    }
    CatalogTables(c, s.catalog, s.disk.root.tables, table, schema);
    CatalogDefs(s.catalog, s.indexCatalog, table, schema);
    CatalogCursors(c, s.catalog, s.disk.root.tables, s.cursors, table, schema, cursor);
    SameIndexes(c, s.disk.root, s1.disk.root, s.indexCatalog, s.indexMaps, s.dirty, {});
  }

  lemma BatchSession(c: Crypto, s: State, s1: State, table: string, next: nat)
    requires table in s.catalog && s1.catalog == s.catalog[table := s.catalog[table].(nextRowId := next)]
    requires s1.migrations == s.migrations && s1.indexCatalog == s.indexCatalog
    requires s1.disk == SaveCatalog(s.disk, s1.catalog)
    ensures SessionOf(c, s1) == SessionOf(c, s)
  {
    assert LogicalDb(c, s1).tables == LogicalDb(c, s).tables;
  }

  /** Taking the next id of a live batch. */
  lemma CursorInv(c: Crypto, s: State, s1: State, table: string)
    requires Inv(c, s, {}) && table in s.cursors && s.cursors[table].next < s.cursors[table].limit
    requires s1 == s.(cursors := s.cursors[table := Cursor(s.cursors[table].next + 1, s.cursors[table].limit)])
    ensures Inv(c, s1, {}) && SessionOf(c, s1) == SessionOf(c, s)
    ensures FreshId(c, s1.catalog, s1.disk.root.tables, s1.cursors, table, s.cursors[table].next)
    ensures IdCountersOnly(s, s1) && table in s.catalog
  {
    hide Sound, TablesOk, DefsOk, IndexesOk, CachesOk, HandlesOk, SnapshotOk;
  }

  lemma StartIsFree(c: Crypto, s: State, table: string)
    requires Inv(c, s, {}) && table in s.catalog
    ensures table in s.disk.root.tables
    ensures IdsBelow(RowsOf(c, s.disk.root.tables[table].bytes), s.catalog[table].nextRowId)
  {
    assert TableOk(c, s.disk.root.tables[table].bytes, s.catalog[table].nextRowId);
  }

  lemma BatchInv(c: Crypto, s: State, s1: State, table: string, schema: TableSchema, cursor: Cursor)
    requires Inv(c, s, {}) && table in s.catalog
    requires schema == s.catalog[table].(nextRowId := cursor.limit)
    requires cursor.next == s.catalog[table].nextRowId + 1 <= cursor.limit
    requires s1 == s.(catalog := s.catalog[table := schema], cursors := s.cursors[table := cursor],
                      disk := SaveCatalog(s.disk, s1.catalog))
    ensures Inv(c, s1, {}) && SessionOf(c, s1) == SessionOf(c, s)
    ensures FreshId(c, s1.catalog, s1.disk.root.tables, s1.cursors, table, s.catalog[table].nextRowId) && IdCountersOnly(s, s1)
  {
    hide Inv;
    StartIsFree(c, s, table);
    AllocatedInv(c, s, s1, table, cursor, cursor.limit);
    BatchSession(c, s, s1, table, cursor.limit);
  }

  lemma SameIndexes(c: Crypto, root: Files, root1: Files, defs: seq<IndexDef>, maps: map<string, IndexMap>,
                    dirty: set<string>, pending: set<string>)
    requires IndexesOk(c, root, defs, maps, dirty, pending)
    requires root1.tables == root.tables && root1.indexes == root.indexes
    ensures IndexesOk(c, root1, defs, maps, dirty, pending)
  {
  }

  /** `note_unique_values`: every cached column of the table learns the new row's key. */
  function NoteKeys(columns: map<string, set<string>>, row: Row): map<string, set<string>> {
    map column | column in columns ::
      if Get(row, column) == Null then columns[column] else columns[column] + {RowKey(row, column)}
  }

  lemma ValueKeySetAppend(rows: seq<Located>, found: Located, column: string)
    ensures ValueKeySet(rows + [found], column) == ValueKeySet(rows, column)
      + if Get(found.row.data, column) == Null then {} else {RowKey(found.row.data, column)}
  {
    var longer := rows + [found];
    assert longer[|rows|] == found;
    forall k | k in ValueKeySet(rows, column) ensures k in ValueKeySet(longer, column) {
      var i :| 0 <= i < |rows| && Get(rows[i].row.data, column) != Null && RowKey(rows[i].row.data, column) == k;
      assert longer[i] == rows[i];
    }
  }

  function NotedCaches(caches: map<string, map<string, set<string>>>, table: string, row: Row):
    map<string, map<string, set<string>>>
  {
    if table in caches then caches[table := NoteKeys(caches[table], row)] else caches
  }

  lemma NotedCachesOk(c: Crypto, before: map<string, DataFile>, after: map<string, DataFile>, table: string,
                      found: Located, caches: map<string, map<string, set<string>>>)
    requires CachesOk(c, before, caches) && table in before && table in after
    requires forall t :: t in before && t != table ==> t in after && after[t] == before[t]
    requires RowsOf(c, after[table].bytes) == RowsOf(c, before[table].bytes) + [found]
    ensures CachesOk(c, after, NotedCaches(caches, table, found.row.data))
  {
    var noted := NotedCaches(caches, table, found.row.data);
    forall t, column | t in noted && column in noted[t]
      ensures t in after && noted[t][column] == ValueKeySet(RowsOf(c, after[t].bytes), column)
    {
      assert t in caches && column in caches[t];
      if t == table {
        ValueKeySetAppend(RowsOf(c, before[table].bytes), found, column);
      }
    }
  }

  /** A key is in a column's cached set exactly when some row holds the value. */
  lemma CachedKeyMeansStored(rows: seq<Located>, column: string, value: Value)
    ensures ValueKey(value) in ValueKeySet(rows, column)
      <==> value != Null && exists row :: row in Datas(rows) && Get(row, column) == value
  {
    if ValueKey(value) in ValueKeySet(rows, column) {
      var i :| 0 <= i < |rows| && Get(rows[i].row.data, column) != Null
        && RowKey(rows[i].row.data, column) == ValueKey(value);
      ValueKeyInjective(Get(rows[i].row.data, column), value);
      assert Datas(rows)[i] in Datas(rows);
    }
  }

  /** The loop that builds a unique cache from a full scan. */
  method CollectKeys(rows: seq<Located>, column: string) returns (keys: set<string>)
    ensures keys == ValueKeySet(rows, column)
  {
    keys := {};
    for i := 0 to |rows|
      invariant keys == ValueKeySet(rows[..i], column)
    {
      ValueKeySetAppend(rows[..i], rows[i], column);
      assert rows[..i + 1] == rows[..i] + [rows[i]];
      if Get(rows[i].row.data, column) != Null {
        keys := keys + {RowKey(rows[i].row.data, column)};
      }
    }
    assert rows[..|rows|] == rows;
  }

  lemma CacheBuiltInv(c: Crypto, s: State, s1: State, table: string, column: string)
    requires Inv(c, s, {}) && table in s.disk.root.tables
    requires var columns := if table in s.caches then s.caches[table] else map[];
      s1 == s.(caches := s.caches[table :=
        columns[column := ValueKeySet(RowsOf(c, s.disk.root.tables[table].bytes), column)]])
    ensures Inv(c, s1, {}) && SessionOf(c, s1) == SessionOf(c, s)
  {
    hide Sound, TablesOk, DefsOk, IndexesOk, CachesOk, CursorsOk, HandlesOk, SnapshotOk;
    CacheBuiltOk(c, s.disk.root.tables, s.caches, table, column);
  }

  lemma CacheBuiltOk(c: Crypto, tables: map<string, DataFile>, caches: map<string, map<string, set<string>>>,
                     table: string, column: string)
    requires CachesOk(c, tables, caches) && table in tables
    ensures var columns := if table in caches then caches[table] else map[];
      CachesOk(c, tables, caches[table := columns[column := ValueKeySet(RowsOf(c, tables[table].bytes), column)]])
  {
  }

  method PositionOf(defs: seq<IndexDef>, name: string) returns (i: nat)
    requires HasIndexNamed(defs, name)
    ensures i < |defs| && defs[i].name == name
  {
    i := 0;
    while defs[i].name != name
      invariant i < |defs| && forall j :: 0 <= j < i ==> defs[j].name != name
      decreases |defs| - i
    {
      i := i + 1;
    }
  }

  /** The first index definition on a column. */
  method FindOn(defs: seq<IndexDef>, table: string, column: string) returns (position: Option<nat>)
    ensures position.Some? <==> HasIndexOn(defs, table, column)
    ensures position.Some? ==> position.value < |defs|
    ensures position.Some? ==> defs[position.value].table == table && defs[position.value].column == column
  {
    position := None;
    for i := 0 to |defs|
      invariant forall j :: 0 <= j < i ==> !(defs[j].table == table && defs[j].column == column)
    {
      if defs[i].table == table && defs[i].column == column {
        return Some(i);
      }
    }
  }

  /** Looking a value up in a live index yields the locators of exactly the rows holding it, in file order. */
  lemma IndexAnswers(c: Crypto, s: State, i: nat, value: Value)
    requires Inv(c, s, {}) && i < |s.indexCatalog|
    ensures var d := s.indexCatalog[i];
      && d.table in s.disk.root.tables && d.name in s.indexMaps
      && Lookup(s.indexMaps[d.name], ValueKey(value))
        == Locators(Holding(RowsOf(c, s.disk.root.tables[d.table].bytes), d.column, ValueKey(value)))
  {
    var d := s.indexCatalog[i];
    assert d.name !in {};
    LookupIsHolding(RowsOf(c, s.disk.root.tables[d.table].bytes), d.column, ValueKey(value));
  }

  /** A cached set answers a uniqueness question as a full scan would. */
  lemma CacheAnswers(c: Crypto, s: State, table: string, column: string, value: Value)
    requires Inv(c, s, {}) && table in s.caches && column in s.caches[table]
    ensures table in s.catalog
    ensures ValueKey(value) in s.caches[table][column]
      <==> value != Null && exists row :: row in LogicalDb(c, s).tables[table].rows && Get(row, column) == value
  {
    assert table in s.disk.root.tables;
    CachedKeyMeansStored(RowsOf(c, s.disk.root.tables[table].bytes), column, value);
    assert LogicalDb(c, s).tables[table].rows == TableRows(c, s.disk.root.tables, table);
  }

  // ---- rewriting a table ----

  /** The ids of rewritten rows are increasing and no larger than those the table had. */
  ghost predicate IdsFit(catalog: Catalog, cursors: map<string, Cursor>, table: string, rows: seq<StoredRow>)
    requires table in catalog
  {
    && (forall i, j :: 0 <= i < j < |rows| ==> rows[i].id < rows[j].id)
    && (forall i :: 0 <= i < |rows| ==> rows[i].id < catalog[table].nextRowId)
    && (table in cursors ==> forall i :: 0 <= i < |rows| ==> rows[i].id < cursors[table].next)
  }

  /** Catalogs, migrations, index definitions and the snapshot are the same. */
  ghost predicate SameCatalogs(s: State, s1: State) {
    && s1.catalog == s.catalog && s1.migrations == s.migrations && s1.indexCatalog == s.indexCatalog
    && s1.disk.snapshot == s.disk.snapshot
  }

  lemma FittingFile(c: Crypto, s: State, table: string, bytes: Bytes)
    requires table in s.catalog && Tidy(c, bytes) && IdsFit(s.catalog, s.cursors, table, Stored(RowsOf(c, bytes)))
    ensures TableOk(c, bytes, s.catalog[table].nextRowId)
    ensures table in s.cursors ==> IdsBelow(RowsOf(c, bytes), s.cursors[table].next)
  {
    var rows := RowsOf(c, bytes);
    forall i | 0 <= i < |rows| ensures rows[i].row == Stored(rows)[i] {}
  }

  /** A new file with fitting ids takes the table's place; only its indexes still have to be rebuilt. */
  lemma InstalledInv(c: Crypto, s: State, s1: State, table: string, file: DataFile, pending: set<string>)
    requires Inv(c, s, pending) && table in s.catalog && table !in s.handles && table !in s.caches
    requires Tidy(c, file.bytes) && IdsFit(s.catalog, s.cursors, table, Stored(RowsOf(c, file.bytes)))
    requires s1 == s.(disk := s1.disk)
    requires TableFilesOnly(s.disk, s1.disk) && s1.disk.root.tables == s.disk.root.tables[table := file]
    ensures Inv(c, s1, pending + NamesOn(s.indexCatalog, table))
    ensures SessionOf(c, s1) == SessionOf(c, s).(db :=
      SetTable(LogicalDb(c, s), table, Table(s.catalog[table].columns, Datas(RowsOf(c, file.bytes)))))
  {
    hide Inv, Sound, RowsOf, LogicalDb, TablesOk, HandlesOk, TableOk;
    InvFacts(c, s, pending);
    FittingFile(c, s, table, file.bytes);
    ClosedHandles(s.disk.root.tables, s.handles, table, file);
    MinusAbsent(s.handles, table);
    MinusAbsent(s.caches, table);
    ReplacedInv(c, s, s1, table, file, pending);
    ReplacedDb(c, s, s1, table, file);
  }

  lemma IndexStateKeepsSession(c: Crypto, s: State, s1: State)
    requires IndexStateOnly(s, s1)
    ensures SessionOf(c, s1) == SessionOf(c, s) && SameCatalogs(s, s1)
  {
  }

  /** Closing a table's handle, dropping its cache or writing a temporary file changes nothing that is seen. */
  lemma ForgottenInv(c: Crypto, s: State, s1: State, table: string, pending: set<string>)
    requires Inv(c, s, pending)
    requires s1 == s.(disk := s1.disk, handles := s1.handles, caches := s1.caches)
    requires TableFilesOnly(s.disk, s1.disk) && s1.disk.root.tables == s.disk.root.tables
    requires s1.handles == s.handles || s1.handles == s.handles - {table}
    requires s1.caches == s.caches || s1.caches == s.caches - {table}
    ensures Inv(c, s1, pending) && SessionOf(c, s1) == SessionOf(c, s) && SameCatalogs(s, s1)
  {
    hide Sound, TablesOk, DefsOk, IndexesOk, SnapshotOk;
    SameIndexes(c, s.disk.root, s1.disk.root, s.indexCatalog, s.indexMaps, s.dirty, pending);
  }

  function StoredData(rows: seq<StoredRow>): (datas: seq<Row>)
    ensures |datas| == |rows| && forall i :: 0 <= i < |rows| ==> datas[i] == rows[i].data
  {
    seq(|rows|, i requires 0 <= i < |rows| => rows[i].data)
  }

  lemma DatasOfStored(rows: seq<Located>)
    ensures Datas(rows) == StoredData(Stored(rows))
  {
  }

  /** `MapOrDrop` on rows that carry their ids. */
  function MapOrDropStored(rows: seq<StoredRow>, f: Row -> Result<Option<Row>>): Result<seq<StoredRow>> {
    if rows == [] then Ok([]) else
    var n := |rows| - 1;
    var head :- MapOrDropStored(rows[..n], f);
    var mapped :- f(rows[n].data);
    Ok(if mapped.Some? then head + [StoredRow(rows[n].id, mapped.value)] else head)
  }

  lemma {:induction false} MapOrDropData(rows: seq<StoredRow>, f: Row -> Result<Option<Row>>)
    ensures MapOrDrop(StoredData(rows), f) ==
      match MapOrDropStored(rows, f)
      case Ok(mapped) => Ok(StoredData(mapped))
      case Err(e) => Err(e)
  {
    if rows != [] {
      var n := |rows| - 1;
      MapOrDropData(rows[..n], f);
      assert StoredData(rows)[..n] == StoredData(rows[..n]);
      var head := MapOrDropStored(rows[..n], f);
      if head.Ok? {
        assert forall last :: StoredData(head.value + [last]) == StoredData(head.value) + [last.data];
      }
    }
  }

  /** Mapping and dropping rows keeps their ids in order and adds none. */
  lemma {:induction false} MapOrDropIds(rows: seq<StoredRow>, f: Row -> Result<Option<Row>>, bound: nat)
    requires forall i, j :: 0 <= i < j < |rows| ==> rows[i].id < rows[j].id
    requires forall i :: 0 <= i < |rows| ==> rows[i].id < bound
    requires MapOrDropStored(rows, f).Ok?
    ensures var mapped := MapOrDropStored(rows, f).value;
      && (forall i, j :: 0 <= i < j < |mapped| ==> mapped[i].id < mapped[j].id)
      && (forall i :: 0 <= i < |mapped| ==> mapped[i].id < bound)
  {
    if rows != [] {
      var n := |rows| - 1;
      MapOrDropIds(rows[..n], f, rows[n].id);
    }
  }

  /** The first failing row fails the whole mapping. */
  lemma {:induction false} MapOrDropFails(rows: seq<StoredRow>, f: Row -> Result<Option<Row>>, i: nat)
    requires i <= |rows| && MapOrDropStored(rows[..i], f).Err?
    ensures MapOrDropStored(rows, f) == MapOrDropStored(rows[..i], f)
    decreases |rows|
  {
    if i < |rows| {
      var n := |rows| - 1;
      assert rows[..n][..i] == rows[..i];
      MapOrDropFails(rows[..n], f, i);
    } else {
      assert rows[..i] == rows;
    }
  }

  /** The bytes a rewrite has produced after its first `i` rows. */
  ghost predicate RewriteProgress(c: Crypto, rows: seq<StoredRow>, f: Row -> Result<Option<Row>>, i: nat,
                                  output: Bytes, dropped: nat)
    requires i <= |rows|
  {
    && Tidy(c, output)
    && MapOrDropStored(rows[..i], f) == Ok(Stored(RowsOf(c, output)))
    && dropped == i - |Stored(RowsOf(c, output))|
  }

  ghost predicate RewriteResult(c: Crypto, rows: seq<StoredRow>, f: Row -> Result<Option<Row>>,
                                r: Result<Bytes>, dropped: nat)
  {
    match r
    case Ok(output) => RewriteProgress(c, rows, f, |rows|, output, dropped)
    case Err(e) => MapOrDropStored(rows, f) == Err(e)
  }

  /** The row-by-row loop of `rewrite_rows`, writing to a temporary file. */
  method RewriteLoop(c: Crypto, rows: seq<StoredRow>, f: Row -> Result<Option<Row>>)
    returns (r: Result<Bytes>, partial: Bytes, dropped: nat)
    requires Sound(c)
    ensures RewriteResult(c, rows, f, r, dropped)
  {
    partial, dropped := [], 0;
    TidyEmpty(c);
    for i := 0 to |rows|
      invariant RewriteProgress(c, rows, f, i, partial, dropped)
    {
      assert rows[..i + 1][..i] == rows[..i];
      var mapped := f(rows[i].data);
      match mapped {
        case Err(e) =>
          MapOrDropFails(rows, f, i + 1);
          return Err(e), partial, dropped;
        case Ok(None) =>
          dropped := dropped + 1;
        case Ok(Some(data)) =>
          var length;
          partial, length := WriteRow(c, partial, StoredRow(rows[i].id, data));
      }
    }
    r := Ok(partial);
  }

  /** What the rewrite loop wrote is what the logical rewrite of the table says. */
  lemma RewriteMeaning(c: Crypto, s: State, table: string, f: Row -> Result<Option<Row>>, r: Result<Bytes>, dropped: nat)
    requires Inv(c, s, {}) && table in s.catalog
    requires RewriteResult(c, Stored(RowsOf(c, s.disk.root.tables[table].bytes)), f, r, dropped)
    ensures r.Err? ==> Database.RewriteRows(LogicalDb(c, s), table, f) == Err(r.error)
    ensures r.Ok? ==> Tidy(c, r.value) && IdsFit(s.catalog, s.cursors, table, Stored(RowsOf(c, r.value)))
    ensures r.Ok? ==> Database.RewriteRows(LogicalDb(c, s), table, f) ==
                      Ok(SetTable(LogicalDb(c, s), table, Table(s.catalog[table].columns, Datas(RowsOf(c, r.value)))))
    ensures r.Ok? ==> dropped == |LogicalDb(c, s).tables[table].rows| - |Datas(RowsOf(c, r.value))|
  {
    hide Inv;
    InvFacts(c, s, {});
    var rows := Stored(RowsOf(c, s.disk.root.tables[table].bytes));
    assert rows[..|rows|] == rows;
    RewriteSpec(c, s, table, f);
    if r.Ok? {
      MapOrDropFits(c, s, table, f);
      DatasOfStored(RowsOf(c, r.value));
    }
  }

  lemma NamesOnNext(defs: seq<IndexDef>, table: string, i: nat)
    requires i < |defs|
    ensures NamesOn(defs[..i + 1], table)
      == NamesOn(defs[..i], table) + if defs[i].table == table then {defs[i].name} else {}
  {
    assert defs[..i + 1] == defs[..i] + [defs[i]];
    forall k | 0 <= k < i ensures defs[..i + 1][k] == defs[..i][k] {}
    assert defs[..i + 1][i] == defs[i];
    forall name | name in NamesOn(defs[..i], table) ensures name in NamesOn(defs[..i + 1], table) {
      var k :| 0 <= k < i && defs[..i][k].table == table && defs[..i][k].name == name;
      assert defs[..i + 1][k].name == name;
    }
  }

  lemma RewriteSpec(c: Crypto, s: State, table: string, f: Row -> Result<Option<Row>>)
    requires Inv(c, s, {}) && table in s.catalog
    ensures Database.RewriteRows(LogicalDb(c, s), table, f) ==
      match MapOrDropStored(Stored(RowsOf(c, s.disk.root.tables[table].bytes)), f)
      case Ok(rows) => Ok(SetTable(LogicalDb(c, s), table, Table(s.catalog[table].columns, StoredData(rows))))
      case Err(e) => Err(e)
  {
    var rows := RowsOf(c, s.disk.root.tables[table].bytes);
    assert LogicalDb(c, s).tables[table] == Table(s.catalog[table].columns, Datas(rows));
    assert Datas(rows) == StoredData(Stored(rows));
    MapOrDropData(Stored(rows), f);
  }

  lemma StoredIds(c: Crypto, s: State, table: string)
    requires TablesOk(c, s.catalog, s.disk.root.tables) && table in s.catalog
    requires CursorsOk(c, s.catalog, s.disk.root.tables, s.cursors)
    ensures IdsFit(s.catalog, s.cursors, table, Stored(RowsOf(c, s.disk.root.tables[table].bytes)))
  {
    assert TableOk(c, s.disk.root.tables[table].bytes, s.catalog[table].nextRowId);
  }

  lemma MapOrDropFits(c: Crypto, s: State, table: string, f: Row -> Result<Option<Row>>)
    requires Inv(c, s, {}) && table in s.catalog
    requires MapOrDropStored(Stored(RowsOf(c, s.disk.root.tables[table].bytes)), f).Ok?
    ensures IdsFit(s.catalog, s.cursors, table, MapOrDropStored(Stored(RowsOf(c, s.disk.root.tables[table].bytes)), f).value)
  {
    var rows := Stored(RowsOf(c, s.disk.root.tables[table].bytes));
    StoredIds(c, s, table);
    MapOrDropIds(rows, f, s.catalog[table].nextRowId);
    if table in s.cursors {
      MapOrDropIds(rows, f, s.cursors[table].next);
    }
  }

  // ---- appending to a table file ----

  /** The state as it would be without the unique caches of one table, which a row being appended outdates. */
  function Masked(s: State, table: string): State {
    s.(caches := s.caches - {table})
  }

  lemma TidyAppendIds(c: Crypto, file: Bytes, line: Bytes, row: StoredRow, next: nat)
    requires TableOk(c, file, next) && GoodLine(c, line) && c.dec(line) == Some(row)
    requires IdsBelow(RowsOf(c, file), row.id) && row.id < next
    ensures RowsOf(c, file + (line + [NEWLINE])) == RowsOf(c, file) + [Found(row, |file|, |line|)]
    ensures TableOk(c, file + (line + [NEWLINE]), next)
  {
    TidyAppend(c, file, line);
    assert file + (line + [NEWLINE]) == file + line + [NEWLINE];
  }

  lemma IdsBelowAppend(rows: seq<Located>, found: Located, bound: nat)
    requires IdsBelow(rows, found.row.id) && found.row.id < bound
    ensures IdsBelow(rows + [found], bound)
  {
  }

  lemma AppendFacts(c: Crypto, s: State, table: string)
    requires Inv(c, s, {}) && table in s.catalog
    ensures TableOk(c, s.disk.root.tables[table].bytes, s.catalog[table].nextRowId)
    ensures HandlesOk(s.disk.root.tables, s.handles)
  {
  }

  /** Opening a table's file for appending. */
  lemma OpenedInv(c: Crypto, s: State, s1: State, table: string)
    requires Inv(c, s, {}) && table in s.catalog
    requires s1 == s.(handles := s.handles[table := s.disk.root.tables[table].generation])
    ensures Inv(c, s1, {}) && SessionOf(c, s1) == SessionOf(c, s)
  {
    hide Sound, TablesOk, DefsOk, IndexesOk, CachesOk, CursorsOk, SnapshotOk;
    InvFacts(c, s, {});
    assert HandlesOk(s.disk.root.tables, s1.handles);
  }

  /** One more row at the end of a table's file, every other file as it was. */
  ghost predicate LineAppended(c: Crypto, d: Disk, d1: Disk, table: string, found: Located) {
    && TableFilesOnly(d, d1)
    && table in d.root.tables && table in d1.root.tables
    && d1.root.tables == d.root.tables[table := d1.root.tables[table]]
    && RowsOf(c, d1.root.tables[table].bytes) == RowsOf(c, d.root.tables[table].bytes) + [found]
  }

  lemma AppendedRows(c: Crypto, d: Disk, d1: Disk, table: string, found: Located)
    requires LineAppended(c, d, d1, table, found)
    ensures table in d.root.tables && table in d1.root.tables
    ensures RowsOf(c, d1.root.tables[table].bytes) == RowsOf(c, d.root.tables[table].bytes) + [found]
  {
  }

  lemma FreshIdKnown(c: Crypto, catalog: Catalog, tables: map<string, DataFile>, cursors: map<string, Cursor>,
                     table: string, id: nat)
    requires FreshId(c, catalog, tables, cursors, table, id)
    ensures table in catalog && table in tables
  {
  }

  /** Writing one encrypted line through a live handle: all that is left to update are indexes and caches. */
  lemma AppendedInv(c: Crypto, s: State, s1: State, table: string, line: Bytes, row: StoredRow)
    requires Inv(c, s, {}) && FreshId(c, s.catalog, s.disk.root.tables, s.cursors, table, row.id)
    requires GoodLine(c, line) && c.dec(line) == Some(row)
    requires table in s.handles && s1 == s.(disk := s1.disk)
    requires s1.disk == WriteThrough(s.disk, table, s.handles[table], line + [NEWLINE])
    ensures Inv(c, Masked(s1, table), NamesOn(s.indexCatalog, table))
    ensures LineAppended(c, s.disk, s1.disk, table, Found(row, |s.disk.root.tables[table].bytes|, |line|))
  {
    hide Inv, Sound, RowsOf, TablesOk, HandlesOk, GoodLine, TableOk;
    InvFacts(c, s, {});
    var file := s.disk.root.tables[table];
    var file1 := file.(bytes := file.bytes + (line + [NEWLINE]));
    AppendFacts(c, s, table);
    TidyAppendIds(c, file.bytes, line, row, s.catalog[table].nextRowId);
    LiveHandle(s.disk.root.tables, s.handles, table, file1);
    IdsBelowAppend(RowsOf(c, file.bytes), Found(row, |file.bytes|, |line|), s.cursors[table].next);
    assert {} + NamesOn(s.indexCatalog, table) == NamesOn(s.indexCatalog, table);
    ReplacedInv(c, s, Masked(s1, table), table, file1, {});
  }

  lemma AppendedSession(c: Crypto, s: State, s1: State, table: string, found: Located)
    requires table in s.catalog && table in s.disk.root.tables && table in s1.disk.root.tables
    requires SameCatalogs(s, s1)
    requires s1.disk.root.tables == s.disk.root.tables[table := s1.disk.root.tables[table]]
    requires RowsOf(c, s1.disk.root.tables[table].bytes) == RowsOf(c, s.disk.root.tables[table].bytes) + [found]
    ensures Database.AppendRow(LogicalDb(c, s), table, found.row.data) == Ok(LogicalDb(c, s1))
    ensures SessionOf(c, s1).saved == SessionOf(c, s).saved
  {
    var rows := RowsOf(c, s.disk.root.tables[table].bytes);
    ReplacedDb(c, s, s1, table, s1.disk.root.tables[table]);
    assert Datas(rows + [found]) == Datas(rows) + [found.row.data];
    assert LogicalDb(c, s).tables[table] == Table(s.catalog[table].columns, Datas(rows));
  }

  /** Pushing the new row's locator makes one more index live again. */
  lemma PushedInv(c: Crypto, s: State, pending: set<string>, i: nat, rows: seq<Located>, found: Located)
    requires Inv(c, s, pending) && i < |s.indexCatalog|
    requires s.indexCatalog[i].table in s.disk.root.tables
    requires RowsOf(c, s.disk.root.tables[s.indexCatalog[i].table].bytes) == rows + [found]
    ensures var d := s.indexCatalog[i];
      Inv(c, Touched(s, d.name, Push(IndexOf(rows, d.column), RowKey(found.row.data, d.column), found.loc)),
          pending - {d.name})
  {
    hide Inv;
    AppendRefinesRebuild(rows, found, s.indexCatalog[i].column);
    TouchedInv(c, s, pending, i);
  }

  /** Once the cached columns have learnt the new row, the whole invariant holds again. */
  lemma UnmaskedInv(c: Crypto, before: State, s: State, s1: State, table: string, found: Located)
    requires Inv(c, before, {}) && Inv(c, Masked(s, table), {}) && table in before.disk.root.tables
    requires s.caches == before.caches && s1 == s.(caches := NotedCaches(s.caches, table, found.row.data))
    requires table in s.disk.root.tables
    requires s.disk.root.tables == before.disk.root.tables[table := s.disk.root.tables[table]]
    requires RowsOf(c, s.disk.root.tables[table].bytes) == RowsOf(c, before.disk.root.tables[table].bytes) + [found]
    ensures Inv(c, s1, {})
  {
    hide Sound, TablesOk, DefsOk, IndexesOk, CachesOk, CursorsOk, HandlesOk, SnapshotOk;
    NotedCachesOk(c, before.disk.root.tables, s.disk.root.tables, table, found, before.caches);
  }

  lemma DistinctNames(c: Crypto, s: State, pending: set<string>)
    requires Inv(c, s, pending)
    ensures forall i, j :: 0 <= i < j < |s.indexCatalog| ==> s.indexCatalog[i].name != s.indexCatalog[j].name
    ensures forall i :: 0 <= i < |s.indexCatalog| ==> s.indexCatalog[i].table in s.disk.root.tables
  {
  }

  lemma LiveIndexes(c: Crypto, s: State, table: string)
    requires Inv(c, s, {}) && table in s.disk.root.tables
    ensures MapsHold(s.indexCatalog, s.indexMaps, table, RowsOf(c, s.disk.root.tables[table].bytes), 0)
  {
    forall i | 0 <= i < |s.indexCatalog| && s.indexCatalog[i].table == table
      ensures s.indexCatalog[i].name in s.indexMaps
    {
      assert s.indexCatalog[i].name !in {};
    }
  }

  /** From position `from` on, the maps of the table's indexes are those of the given rows. */
  ghost predicate MapsHold(defs: seq<IndexDef>, maps: map<string, IndexMap>, table: string, rows: seq<Located>, from: nat) {
    forall i :: from <= i < |defs| && defs[i].table == table ==>
      defs[i].name in maps && maps[defs[i].name] == IndexOf(rows, defs[i].column)
  }

  lemma AppendEnd(c: Crypto, s: State, written: State, indexed: State, s1: State, table: string, found: Located)
    requires Inv(c, s, {}) && table in s.catalog
    requires written == s.(handles := written.handles, disk := written.disk)
    requires LineAppended(c, s.disk, written.disk, table, found)
    requires IndexStateOnly(written, indexed) && Inv(c, Masked(indexed, table), {})
    requires s1 == indexed.(caches := NotedCaches(indexed.caches, table, found.row.data))
    ensures Inv(c, s1, {}) && s1.disk.snapshot == s.disk.snapshot
    ensures Database.AppendRow(LogicalDb(c, s), table, found.row.data) == Ok(LogicalDb(c, s1))
    ensures SessionOf(c, s1).saved == SessionOf(c, s).saved
  {
    hide Inv;
    UnmaskedInv(c, s, indexed, s1, table, found);
    AppendedSession(c, s, s1, table, found);
  }

  lemma MapsHoldNext(defs: seq<IndexDef>, maps: map<string, IndexMap>, table: string, rows: seq<Located>, i: nat)
    requires MapsHold(defs, maps, table, rows, i)
    ensures MapsHold(defs, maps, table, rows, i + 1)
  {
  }
}

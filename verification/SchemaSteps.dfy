/** How schema changes, index changes and transactions affect the storage invariant and the logical database. */
module SchemaSteps {
  import opened Types
  import opened TableFile
  import opened IndexMaps
  import opened Database
  import opened StorageState
  import opened StorageSteps

  // ---- migrations ----

  lemma MigratedInv(c: Crypto, s: State, s1: State, pending: set<string>)
    requires Inv(c, s, pending)
    requires s1 == s.(migrations := s1.migrations, disk := SaveMigrations(s.disk, s1.migrations))
    ensures Inv(c, s1, pending)
    ensures SessionOf(c, s1) == SessionOf(c, s).(db := LogicalDb(c, s).(migrations := s1.migrations))
  {
    hide Sound, TablesOk, DefsOk, IndexesOk, CachesOk, CursorsOk, HandlesOk, SnapshotOk;
    SameIndexes(c, s.disk.root, s1.disk.root, s.indexCatalog, s.indexMaps, s.dirty, pending);
  }

  lemma DbParts(c: Crypto, s: State)
    ensures LogicalDb(c, s).migrations == s.migrations && LogicalDb(c, s).indexes == s.indexCatalog
  {
  }

  // ---- creating and dropping tables ----

  lemma NewTables(c: Crypto, catalog: Catalog, tables: map<string, DataFile>, schema: TableSchema, generation: nat)
    requires TablesOk(c, catalog, tables) && DistinctColumns(schema.columns)
    ensures TablesOk(c, catalog[schema.name := schema], tables[schema.name := DataFile(generation, [])])
  {
    TidyEmpty(c);
  }

  lemma NewTableIndexes(c: Crypto, root: Files, root1: Files, defs: seq<IndexDef>, maps: map<string, IndexMap>,
                        dirty: set<string>, table: string, file: DataFile)
    requires IndexesOk(c, root, defs, maps, dirty, {}) && table !in root.tables
    requires root1.tables == root.tables[table := file] && root1.indexes == root.indexes
    ensures IndexesOk(c, root1, defs, maps, dirty, {})
  {
  }

  lemma NewTableOthers(c: Crypto, catalog: Catalog, tables: map<string, DataFile>, schema: TableSchema, file: DataFile,
                       caches: map<string, map<string, set<string>>>, cursors: map<string, Cursor>,
                       handles: map<string, nat>, defs: seq<IndexDef>)
    requires schema.name !in tables && schema.name !in catalog
    requires CachesOk(c, tables, caches) && CursorsOk(c, catalog, tables, cursors) && HandlesOk(tables, handles)
    requires DefsOk(catalog, defs)
    ensures CachesOk(c, tables[schema.name := file], caches)
    ensures CursorsOk(c, catalog[schema.name := schema], tables[schema.name := file], cursors)
    ensures HandlesOk(tables[schema.name := file], handles - {schema.name})
    ensures DefsOk(catalog[schema.name := schema], defs)
  {
  }

  lemma CreatedInv(c: Crypto, s: State, s1: State, schema: TableSchema)
    requires Inv(c, s, {}) && schema.name !in s.catalog && DistinctColumns(schema.columns)
    requires s1 == s.(catalog := s.catalog[schema.name := schema], handles := s.handles - {schema.name},
                      disk := SaveCatalog(CreateTableFile(s.disk, schema.name), s1.catalog))
    ensures Inv(c, s1, {})
    ensures s1.disk.root.tables == s.disk.root.tables[schema.name := DataFile(s.disk.clock, [])]
  {
    hide Sound, TablesOk, DefsOk, IndexesOk, CachesOk, CursorsOk, HandlesOk, SnapshotOk;
    InvFacts(c, s, {});
    var file := DataFile(s.disk.clock, []);
    NewTables(c, s.catalog, s.disk.root.tables, schema, s.disk.clock);
    NewTableIndexes(c, s.disk.root, s1.disk.root, s.indexCatalog, s.indexMaps, s.dirty, schema.name, file);
    NewTableOthers(c, s.catalog, s.disk.root.tables, schema, file, s.caches, s.cursors, s.handles, s.indexCatalog);
  }

  lemma CreatedSession(c: Crypto, s: State, s1: State, schema: TableSchema, generation: nat)
    requires s1.catalog == s.catalog[schema.name := schema] && schema.name !in s.catalog
    requires s1.disk.root.tables == s.disk.root.tables[schema.name := DataFile(generation, [])]
    requires s1.migrations == s.migrations && s1.indexCatalog == s.indexCatalog
    requires s1.disk.snapshot == s.disk.snapshot
    ensures SessionOf(c, s1)
      == SessionOf(c, s).(db := SetTable(LogicalDb(c, s), schema.name, Table(schema.columns, [])))
  {
    hide RowsOf, Datas;
    EmptyFileHasNoRows(c);
  }

  lemma EmptyFileHasNoRows(c: Crypto)
    ensures Datas(RowsOf(c, [])) == []
  {
    TidyEmpty(c);
  }

  lemma GoneTables(c: Crypto, catalog: Catalog, tables: map<string, DataFile>, table: string,
                   caches: map<string, map<string, set<string>>>, cursors: map<string, Cursor>,
                   handles: map<string, nat>)
    requires TablesOk(c, catalog, tables) && CachesOk(c, tables, caches)
    requires CursorsOk(c, catalog, tables, cursors) && HandlesOk(tables, handles)
    ensures TablesOk(c, catalog - {table}, tables - {table})
    ensures CachesOk(c, tables - {table}, caches - {table})
    ensures CursorsOk(c, catalog - {table}, tables - {table}, cursors - {table})
    ensures HandlesOk(tables - {table}, handles - {table})
  {
  }

  /** The names of the definitions a retain removes. */
  function GoneNames(defs: seq<IndexDef>, keep: IndexDef -> bool): set<string> {
    set i | 0 <= i < |defs| && !keep(defs[i]) :: defs[i].name
  }

  /** None of the named indexes has a map in memory or a file on disk. */
  ghost predicate NoIndexFiles(root: Files, maps: map<string, IndexMap>, names: set<string>) {
    forall name :: name in names ==> name !in maps && name !in root.indexes
  }

  lemma OffTableNames(defs: seq<IndexDef>, table: string)
    ensures GoneNames(defs, OffTable(table)) == NamesOn(defs, table)
  {
  }

  lemma KeptNotGone(catalog: Catalog, defs: seq<IndexDef>, keep: IndexDef -> bool, k: nat) returns (i: nat)
    requires DefsOk(catalog, defs) && k < |Keep(defs, keep)|
    ensures i < |defs| && defs[i] == Keep(defs, keep)[k] && keep(defs[i])
    ensures defs[i].name !in GoneNames(defs, keep)
  {
    KeepMembers(defs, keep);
    assert Keep(defs, keep)[k] in Keep(defs, keep);
    i :| 0 <= i < |defs| && defs[i] == Keep(defs, keep)[k];
    forall j | 0 <= j < |defs| && !keep(defs[j]) ensures defs[j].name != defs[i].name {
      assert if i < j then DefsDiffer(defs[i], defs[j]) else DefsDiffer(defs[j], defs[i]);
    }
  }

  lemma NamesSplit(defs: seq<IndexDef>, keep: IndexDef -> bool)
    ensures Names(defs) <= Names(Keep(defs, keep)) + GoneNames(defs, keep)
  {
    KeepMembers(defs, keep);
    forall i | 0 <= i < |defs| && keep(defs[i]) ensures defs[i].name in Names(Keep(defs, keep)) {
      assert defs[i] in Keep(defs, keep);
    }
  }

  /** Index definitions are removed together with their maps, dirty marks and files. */
  lemma RemovedIndexes(c: Crypto, root: Files, root1: Files, catalog: Catalog, defs: seq<IndexDef>, keep: IndexDef -> bool,
                       maps: map<string, IndexMap>, dirty: set<string>)
    requires IndexesOk(c, root, defs, maps, dirty, {}) && DefsOk(catalog, defs)
    requires root1.indexes == root.indexes - GoneNames(defs, keep)
    requires forall i :: 0 <= i < |defs| && keep(defs[i]) && defs[i].table in root.tables ==>
      defs[i].table in root1.tables && root1.tables[defs[i].table] == root.tables[defs[i].table]
    ensures IndexesOk(c, root1, Keep(defs, keep), maps - GoneNames(defs, keep), dirty - GoneNames(defs, keep), {})
  {
    hide Keep, GoneNames, DefsOk, Names, FreshIndex;
    var kept, gone := Keep(defs, keep), GoneNames(defs, keep);
    NamesSplit(defs, keep);
    forall k | 0 <= k < |kept|
      ensures kept[k].table in root1.tables && kept[k].name in maps - gone
      ensures (maps - gone)[kept[k].name] == FreshIndex(c, root1.tables, kept[k])
      ensures kept[k].name in dirty - gone || LoadIndexMap(root1, kept[k].name) == (maps - gone)[kept[k].name]
    {
      var i := KeptNotGone(catalog, defs, keep, k);
      SameFresh(c, root.tables, root1.tables, defs[i]);
    }
  }

  lemma SameFresh(c: Crypto, tables: map<string, DataFile>, tables1: map<string, DataFile>, d: IndexDef)
    requires d.table in tables && d.table in tables1 && tables1[d.table] == tables[d.table]
    ensures FreshIndex(c, tables1, d) == FreshIndex(c, tables, d)
  {
  }

  lemma UnindexedTable(c: Crypto, root: Files, root1: Files, catalog: Catalog, defs: seq<IndexDef>,
                       maps: map<string, IndexMap>, dirty: set<string>, table: string)
    requires IndexesOk(c, root, defs, maps, dirty, {}) && DefsOk(catalog, defs)
    requires forall i :: 0 <= i < |defs| ==> defs[i].table != table
    requires root1.indexes == root.indexes && root1.tables == root.tables - {table}
    ensures IndexesOk(c, root1, defs, maps, dirty, {}) && DefsOk(catalog - {table}, defs)
  {
  }

  /** A table without indexes goes together with its cursor, cache and handle. */
  lemma DroppedInv(c: Crypto, s: State, s1: State, table: string)
    requires Inv(c, s, {}) && table in s.catalog
    requires forall i :: 0 <= i < |s.indexCatalog| ==> s.indexCatalog[i].table != table
    requires s1 == s.(catalog := s.catalog - {table}, cursors := s.cursors - {table}, handles := s.handles - {table},
                      caches := s.caches - {table}, disk := SaveCatalog(RemoveTableFile(s.disk, table), s1.catalog))
    ensures Inv(c, s1, {})
    ensures SessionOf(c, s1) == SessionOf(c, s).(db := LogicalDb(c, s).(tables := LogicalDb(c, s).tables - {table}))
  {
    hide Sound, TablesOk, DefsOk, IndexesOk, CachesOk, CursorsOk, HandlesOk, SnapshotOk;
    GoneTables(c, s.catalog, s.disk.root.tables, table, s.caches, s.cursors, s.handles);
    UnindexedTable(c, s.disk.root, s1.disk.root, s.catalog, s.indexCatalog, s.indexMaps, s.dirty, table);
    DroppedSession(c, s, s1, table);
  }

  lemma DroppedSession(c: Crypto, s: State, s1: State, table: string)
    requires s1.catalog == s.catalog - {table} && s1.disk.root.tables == s.disk.root.tables - {table}
    requires s1.migrations == s.migrations && s1.indexCatalog == s.indexCatalog
    requires s1.disk.snapshot == s.disk.snapshot
    ensures SessionOf(c, s1) == SessionOf(c, s).(db := LogicalDb(c, s).(tables := LogicalDb(c, s).tables - {table}))
  {
    assert LogicalDb(c, s1).tables == LogicalDb(c, s).tables - {table};
  }

  // ---- creating and dropping indexes ----

  lemma DeclaredDefs(catalog: Catalog, defs: seq<IndexDef>, d: IndexDef)
    requires DefsOk(catalog, defs) && d.table in catalog && HasColumn(catalog[d.table].columns, d.column)
    requires !HasIndexNamed(defs, d.name) && !HasIndexOn(defs, d.table, d.column)
    ensures DefsOk(catalog, defs + [d])
  {
    AddedDefSound(CatalogHas(catalog), defs, d);
  }

  lemma DeclaredIndexes(c: Crypto, root: Files, root1: Files, defs: seq<IndexDef>, maps: map<string, IndexMap>,
                        dirty: set<string>, d: IndexDef)
    requires IndexesOk(c, root, defs, maps, dirty, {})
    requires root1.tables == root.tables && root1.indexes == root.indexes
    ensures IndexesOk(c, root1, defs + [d], maps, dirty, {d.name})
  {
    forall name | name in Names(defs) ensures name in Names(defs + [d]) {
      var i :| 0 <= i < |defs| && defs[i].name == name;
      assert (defs + [d])[i].name == name;
    }
  }

  /** A new index definition is saved before its map is built. */
  lemma DeclaredInv(c: Crypto, s: State, s1: State, d: IndexDef)
    requires Inv(c, s, {}) && d.table in s.catalog && HasColumn(s.catalog[d.table].columns, d.column)
    requires !HasIndexNamed(s.indexCatalog, d.name) && !HasIndexOn(s.indexCatalog, d.table, d.column)
    requires s1 == s.(indexCatalog := s.indexCatalog + [d], disk := SaveIndexCatalog(s.disk, s1.indexCatalog))
    ensures Inv(c, s1, {d.name})
    ensures SessionOf(c, s1) == SessionOf(c, s).(db := LogicalDb(c, s).(indexes := s1.indexCatalog))
    ensures HasIndexNamed(s1.indexCatalog, d.name)
  {
    hide Sound, TablesOk, DefsOk, IndexesOk, CachesOk, CursorsOk, HandlesOk, SnapshotOk;
    DeclaredDefs(s.catalog, s.indexCatalog, d);
    DeclaredIndexes(c, s.disk.root, s1.disk.root, s.indexCatalog, s.indexMaps, s.dirty, d);
    assert s1.indexCatalog[|s.indexCatalog|].name == d.name;
  }

  lemma WithdrawnDefs(catalog: Catalog, defs: seq<IndexDef>, keep: IndexDef -> bool)
    requires DefsOk(catalog, defs)
    ensures DefsOk(catalog, Keep(defs, keep))
  {
    KeptDefsSound(CatalogHas(catalog), CatalogHas(catalog), defs, keep);
  }

  /** Definitions are withdrawn together with their maps, dirty marks and files. */
  lemma WithdrawnInv(c: Crypto, s: State, s1: State, keep: IndexDef -> bool)
    requires Inv(c, s, {})
    requires var gone := GoneNames(s.indexCatalog, keep);
      s1 == s.(indexCatalog := Keep(s.indexCatalog, keep), indexMaps := s.indexMaps - gone, dirty := s.dirty - gone,
               disk := SaveIndexCatalog(RemoveIndexMaps(s.disk, gone), s1.indexCatalog))
    ensures Inv(c, s1, {})
    ensures SessionOf(c, s1) == SessionOf(c, s).(db := LogicalDb(c, s).(indexes := s1.indexCatalog))
  {
    hide Sound, TablesOk, DefsOk, IndexesOk, CachesOk, CursorsOk, HandlesOk, SnapshotOk, Keep;
    WithdrawnDefs(s.catalog, s.indexCatalog, keep);
    RemovedIndexes(c, s.disk.root, s1.disk.root, s.catalog, s.indexCatalog, keep, s.indexMaps, s.dirty);
  }

  lemma OffTableDefs(defs: seq<IndexDef>, table: string)
    ensures forall i :: 0 <= i < |Keep(defs, OffTable(table))| ==> Keep(defs, OffTable(table))[i].table != table
  {
    KeepMembers(defs, OffTable(table));
    var kept := Keep(defs, OffTable(table));
    forall i | 0 <= i < |kept| ensures kept[i].table != table {
      assert kept[i] in kept;
    }
  }

  // ---- columns ----

  lemma AlteredSession(c: Crypto, s: State, s1: State, table: string, columns: seq<Column>)
    requires table in s.catalog && table in s.disk.root.tables
    requires s1.catalog == s.catalog[table := s.catalog[table].(columns := columns)]
    requires s1.disk.root.tables == s.disk.root.tables && s1.disk.snapshot == s.disk.snapshot
    requires s1.migrations == s.migrations
    ensures SessionOf(c, s1) == SessionOf(c, s).(db :=
      SetTable(LogicalDb(c, s), table, Table(columns, TableRows(c, s.disk.root.tables, table))).(indexes := s1.indexCatalog))
  {
    hide RowsOf;
    assert LogicalDb(c, s1).tables
      == LogicalDb(c, s).tables[table := Table(columns, TableRows(c, s.disk.root.tables, table))];
  }

  lemma AlteredCursors(c: Crypto, catalog: Catalog, tables: map<string, DataFile>, cursors: map<string, Cursor>,
                       table: string, columns: seq<Column>)
    requires CursorsOk(c, catalog, tables, cursors) && table in catalog
    ensures CursorsOk(c, catalog[table := catalog[table].(columns := columns)], tables, cursors)
  {
  }

  /** A column is added to the saved schema before the rows are backfilled. */
  lemma ColumnAddedInv(c: Crypto, s: State, s1: State, table: string, column: Column)
    requires Inv(c, s, {}) && table in s.catalog && !HasColumn(s.catalog[table].columns, column.name)
    requires var schema := s.catalog[table].(columns := s.catalog[table].columns + [column]);
      s1 == s.(catalog := s.catalog[table := schema], disk := SaveCatalog(s.disk, s1.catalog))
    ensures Inv(c, s1, {})
  {
    hide Sound, TablesOk, DefsOk, IndexesOk, CachesOk, CursorsOk, HandlesOk, SnapshotOk;
    var schema := s.catalog[table].(columns := s.catalog[table].columns + [column]);
    TablesFacts(c, s.catalog, s.disk.root.tables, table);
    assert forall name :: HasColumn(s.catalog[table].columns, name) ==> HasColumn(schema.columns, name) by {
      forall name | HasColumn(s.catalog[table].columns, name) ensures HasColumn(schema.columns, name) {
        var i :| 0 <= i < |s.catalog[table].columns| && s.catalog[table].columns[i].name == name;
        assert schema.columns[i].name == name;
      }
    }
    CatalogTables(c, s.catalog, s.disk.root.tables, table, schema);
    CatalogDefs(s.catalog, s.indexCatalog, table, schema);
    AlteredCursors(c, s.catalog, s.disk.root.tables, s.cursors, table, schema.columns);
    SameIndexes(c, s.disk.root, s1.disk.root, s.indexCatalog, s.indexMaps, s.dirty, {});
  }

  lemma ColumnDroppedDefs(catalog: Catalog, defs: seq<IndexDef>, table: string, column: string, schema: TableSchema)
    requires DefsOk(catalog, defs) && table in catalog && DistinctColumns(catalog[table].columns)
    requires schema.columns == WithoutColumn(catalog[table].columns, column)
    ensures DefsOk(catalog[table := schema], Keep(defs, OffColumn(table, column)))
  {
    DistinctWithout(catalog[table].columns, column);
    KeptDefsSound(CatalogHas(catalog), CatalogHas(catalog[table := schema]), defs, OffColumn(table, column));
  }

  /** A column leaves the saved schema, and its index goes when it has one. */
  function ColumnDropped(s: State, table: string, column: string): State
    requires table in s.catalog
  {
    var gone := GoneNames(s.indexCatalog, OffColumn(table, column));
    var schema := s.catalog[table].(columns := WithoutColumn(s.catalog[table].columns, column));
    var d := RemoveIndexMaps(SaveCatalog(s.disk, s.catalog[table := schema]), gone);
    var kept := Keep(s.indexCatalog, OffColumn(table, column));
    s.(catalog := s.catalog[table := schema], indexCatalog := kept, indexMaps := s.indexMaps - gone,
       dirty := s.dirty - gone, disk := if gone == {} then d else SaveIndexCatalog(d, kept))
  }

  lemma ColumnDroppedInv(c: Crypto, s: State, table: string, column: string)
    requires Inv(c, s, {}) && table in s.catalog
    ensures Inv(c, ColumnDropped(s, table, column), {})
  {
    hide Sound, TablesOk, DefsOk, IndexesOk, CachesOk, CursorsOk, HandlesOk, SnapshotOk, Keep, WithoutColumn, GoneNames;
    var s1 := ColumnDropped(s, table, column);
    var schema := s.catalog[table].(columns := WithoutColumn(s.catalog[table].columns, column));
    TablesFacts(c, s.catalog, s.disk.root.tables, table);
    DistinctWithout(s.catalog[table].columns, column);
    CatalogTables(c, s.catalog, s.disk.root.tables, table, schema);
    ColumnDroppedDefs(s.catalog, s.indexCatalog, table, column, schema);
    AlteredCursors(c, s.catalog, s.disk.root.tables, s.cursors, table, schema.columns);
    RemovedIndexes(c, s.disk.root, s1.disk.root, s.catalog, s.indexCatalog, OffColumn(table, column), s.indexMaps, s.dirty);
    NothingGone(s.indexCatalog, OffColumn(table, column));
  }

  lemma ColumnDroppedSession(c: Crypto, s: State, table: string, column: string)
    requires table in s.catalog && table in s.disk.root.tables
    ensures var s1 := ColumnDropped(s, table, column);
      && s1.disk.root.tables == s.disk.root.tables && s1.disk.snapshot == s.disk.snapshot
      && SessionOf(c, s1) == SessionOf(c, s).(db := SetTable(LogicalDb(c, s), table,
        Table(WithoutColumn(s.catalog[table].columns, column), TableRows(c, s.disk.root.tables, table)))
        .(indexes := Keep(s.indexCatalog, OffColumn(table, column))))
  {
    hide Keep, WithoutColumn, GoneNames, TableRows;
    AlteredSession(c, s, ColumnDropped(s, table, column), table, WithoutColumn(s.catalog[table].columns, column));
  }

  lemma RenamedDefs(catalog: Catalog, defs: seq<IndexDef>, table: string, from: string, to: string, schema: TableSchema)
    requires DefsOk(catalog, defs) && table in catalog
    requires HasColumn(catalog[table].columns, from) && !HasColumn(catalog[table].columns, to)
    requires schema.columns == ColumnsRenamed(catalog[table].columns, from, to)
    ensures DefsOk(catalog[table := schema], DefsRenamed(defs, table, from, to))
  {
    RenamedHas(catalog[table].columns, from, to);
    RenamedDefsSound(CatalogHas(catalog), CatalogHas(catalog[table := schema]), defs, table, from, to);
  }

  lemma RenamedIndexes(c: Crypto, root: Files, root1: Files, defs: seq<IndexDef>, maps: map<string, IndexMap>,
                       dirty: set<string>, table: string, from: string, to: string)
    requires IndexesOk(c, root, defs, maps, dirty, {})
    requires root1.tables == root.tables && root1.indexes == root.indexes
    ensures var renamed := DefsRenamed(defs, table, from, to);
      IndexesOk(c, root1, renamed, maps, dirty, NamesOn(renamed, table))
  {
    var renamed := DefsRenamed(defs, table, from, to);
    forall i | 0 <= i < |defs| ensures defs[i].name in Names(renamed) {
      assert renamed[i].name == defs[i].name;
    }
    forall i | 0 <= i < |renamed| && renamed[i].name !in NamesOn(renamed, table) ensures renamed[i] == defs[i] {
      DefsAreNamed(renamed, i);
    }
  }

  /** A column and the index on it are renamed in the saved catalogs before the rows are rewritten. */
  lemma ColumnRenamedInv(c: Crypto, s: State, s1: State, table: string, from: string, to: string)
    requires Inv(c, s, {}) && table in s.catalog
    requires HasColumn(s.catalog[table].columns, from) && !HasColumn(s.catalog[table].columns, to)
    requires var schema := s.catalog[table].(columns := ColumnsRenamed(s.catalog[table].columns, from, to));
      && s1 == s.(catalog := s.catalog[table := schema], indexCatalog := DefsRenamed(s.indexCatalog, table, from, to),
                  disk := SaveIndexCatalog(SaveCatalog(s.disk, s1.catalog), s1.indexCatalog))
    ensures Inv(c, s1, NamesOn(s1.indexCatalog, table))
  {
    hide Sound, TablesOk, DefsOk, IndexesOk, CachesOk, CursorsOk, HandlesOk, SnapshotOk, DefsRenamed, ColumnsRenamed, NamesOn;
    var schema := s.catalog[table].(columns := ColumnsRenamed(s.catalog[table].columns, from, to));
    TablesFacts(c, s.catalog, s.disk.root.tables, table);
    RenamedColumns(s.catalog[table].columns, from, to);
    CatalogTables(c, s.catalog, s.disk.root.tables, table, schema);
    RenamedDefs(s.catalog, s.indexCatalog, table, from, to, schema);
    AlteredCursors(c, s.catalog, s.disk.root.tables, s.cursors, table, schema.columns);
    RenamedIndexes(c, s.disk.root, s1.disk.root, s.indexCatalog, s.indexMaps, s.dirty, table, from, to);
  }

  // ---- backfilling rows ----

  function MapStored(rows: seq<StoredRow>, f: Row -> Row): (mapped: seq<StoredRow>)
    ensures |mapped| == |rows| && forall i :: 0 <= i < |rows| ==> mapped[i] == StoredRow(rows[i].id, f(rows[i].data))
  {
    seq(|rows|, i requires 0 <= i < |rows| => StoredRow(rows[i].id, f(rows[i].data)))
  }

  lemma MapStoredFits(catalog: Catalog, cursors: map<string, Cursor>, table: string, rows: seq<StoredRow>, f: Row -> Row)
    requires table in catalog && IdsFit(catalog, cursors, table, rows)
    ensures IdsFit(catalog, cursors, table, MapStored(rows, f))
  {
  }

  lemma MapStoredData(rows: seq<Located>, f: Row -> Row)
    ensures StoredData(MapStored(Stored(rows), f)) == MapRows(Datas(rows), f)
  {
  }

  lemma InvIds(c: Crypto, s: State, pending: set<string>, table: string)
    requires Inv(c, s, pending) && table in s.catalog
    ensures table in s.disk.root.tables
    ensures IdsFit(s.catalog, s.cursors, table, Stored(RowsOf(c, s.disk.root.tables[table].bytes)))
  {
    StoredIds(c, s, table);
  }

  lemma DbRows(c: Crypto, s: State, table: string)
    requires Inv(c, s, {}) && table in s.catalog
    ensures table in s.disk.root.tables && table in LogicalDb(c, s).tables
    ensures LogicalDb(c, s).tables[table].rows == TableRows(c, s.disk.root.tables, table)
  {
  }

  lemma NothingGone(defs: seq<IndexDef>, keep: IndexDef -> bool)
    ensures GoneNames(defs, keep) == {} ==> Keep(defs, keep) == defs
  {
    if GoneNames(defs, keep) != {} {
      return;
    }
    forall d | d in defs ensures keep(d) {
      var i :| 0 <= i < |defs| && defs[i] == d;
      assert keep(d) || d.name in GoneNames(defs, keep);
    }
    KeepAll(defs, keep);
  }
}

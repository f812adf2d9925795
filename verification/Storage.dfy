/**
 The storage engine: table files, in-memory indexes, row-id cursors, unique caches, append handles,
 the clean marker and the transaction snapshot, all updated in place. Every public method keeps
 Valid() and moves Contents() exactly as the logical database says.
 */
module StorageEngine {
  import opened Types
  import opened ValueKeys
  import opened TableFile
  import opened IndexMaps
  import opened Database
  import opened StorageState
  import opened StorageSteps
  import opened SchemaSteps
  import opened TransactionSteps

  const ROW_ID_BATCH: nat := 256

  class Storage {
    const crypto: Crypto
    var disk: Disk
    var catalog: Catalog
    var migrations: seq<Migration>
    var indexCatalog: seq<IndexDef>
    var indexMaps: map<string, IndexMap>
    var rowIdCursors: map<string, Cursor>
    var tableFiles: map<string, nat>
    var uniqueCaches: map<string, map<string, set<string>>>
    var dirtyIndexes: set<string>
    var indexesClean: bool
    var inTransaction: bool

    ghost function View(): State
      reads this
    {
      State(disk, catalog, migrations, indexCatalog, indexMaps, rowIdCursors, tableFiles, uniqueCaches,
            dirtyIndexes, indexesClean, inTransaction)
    }

    ghost predicate Valid()
      reads this
    {
      Inv(crypto, View(), {})
    }

    /** The logical database the engine stands for, and the one ROLLBACK would restore. */
    ghost function Contents(): Session
      reads this
    {
      SessionOf(crypto, View())
    }

    // ---- opening and flushing ----

    /**
     `open`: the catalogs are loaded, a leftover snapshot is discarded, and the indexes are loaded when the
     clean marker vouches for them and rebuilt from the tables otherwise.
     */
    constructor (c: Crypto, d: Disk)
      requires Durable(c, d)
      ensures Valid() && crypto == c
      ensures Contents() == Session(DirectoryDb(c, d.root), None)
    {
      crypto := c;
      disk := d.(snapshot := None);
      catalog, migrations, indexCatalog := LoadCatalog(d.root), LoadMigrations(d.root), LoadIndexCatalog(d.root);
      indexMaps, rowIdCursors, tableFiles, uniqueCaches, dirtyIndexes := map[], map[], map[], map[], {};
      indexesClean, inTransaction := false, false;
      new;
      hide Inv;
      var marked := disk.marker;
      disk := disk.(marker := false);
      InitialInv(c, d);
      if marked {
        indexMaps := LoadMaps(disk.root, indexCatalog);
        LoadedInv(c, d, View());
      } else {
        RebuildAllIndexes();
      }
    }

    /** `rebuild_all_indexes`. */
    method RebuildAllIndexes()
      requires Inv(crypto, View(), Names(indexCatalog)) && indexMaps == map[]
      modifies this
      ensures Valid() && Contents() == old(Contents())
    {
      hide Inv;
      ghost var remaining := Names(indexCatalog);
      for i := 0 to |indexCatalog|
        invariant IndexStateOnly(old(View()), View())
        invariant Inv(crypto, View(), remaining)
        invariant remaining == Names(indexCatalog) - Names(indexCatalog[..i])
      {
        NamesNext(indexCatalog, i);
        var keys := RebuildIndex(indexCatalog[i].name, remaining);
        remaining := remaining - {indexCatalog[i].name};
      }
      assert indexCatalog[..|indexCatalog|] == indexCatalog;
      assert remaining == {};
      IndexStateKeepsSession(crypto, old(View()), View());
    }

    /** `flush_indexes`, also what dropping the engine does: afterwards the index files may be loaded as they are. */
    method FlushIndexes()
      requires Valid()
      modifies this
      ensures Valid() && Contents() == old(Contents())
      ensures disk.marker && dirtyIndexes == {} && IndexFilesOk(crypto, disk.root) && DirectoryOk(crypto, disk.root)
      ensures CheckpointOf(View()) == old(CheckpointOf(View())) && disk.snapshot == old(disk.snapshot)
    {
      hide Inv, IndexFilesOk, DirectoryOk;
      var files := SaveDirty(disk.root.indexes, indexMaps, dirtyIndexes);
      disk := disk.(root := disk.root.(indexes := files), marker := true);
      dirtyIndexes, indexesClean := {}, true;
      FlushedInv(crypto, old(View()), View());
    }

    // ---- transactions ----

    /** `begin_transaction`: indexes are flushed, then every file a rollback needs is copied. */
    method BeginTransaction() returns (r: Result<()>)
      requires Valid()
      modifies this
      ensures Valid() && Becomes(old(Contents()), Contents(), Begin(old(Contents())), r)
      ensures r.Err? ==> View() == old(View())
      ensures r.Ok? ==> disk.snapshot.Some? && SnapshotCheckpoint(disk.snapshot.value) == old(CheckpointOf(View()))
      ensures r.Ok? ==> CheckpointOf(View()) == old(CheckpointOf(View()))
    {
      hide Inv, IndexFilesOk, DirectoryOk, LogicalDb, FileBytes, LoadedMaps;
      InvTransaction(crypto, View());
      if inTransaction {
        return Err(TransactionError);
      }
      tableFiles := map[];
      ClosedAllInv(crypto, old(View()), View());
      FlushIndexes();
      ghost var flushed := View();
      disk := disk.(snapshot := Some(disk.root));
      inTransaction := true;
      BegunInv(crypto, flushed, View());
      r := Ok(());
    }

    /** `commit_transaction`: the snapshot is discarded. */
    method CommitTransaction() returns (r: Result<()>)
      requires Valid()
      modifies this
      ensures Valid() && Becomes(old(Contents()), Contents(), Commit(old(Contents())), r)
      ensures CheckpointOf(View()) == old(CheckpointOf(View()))
    {
      hide Inv, LogicalDb;
      InvTransaction(crypto, View());
      if !inTransaction {
        return Err(TransactionError);
      }
      inTransaction := false;
      disk := disk.(snapshot := None);
      CommittedInv(crypto, old(View()), View());
      r := Ok(());
    }

    /**
     `rollback_transaction`: the snapshot's files replace the directory's, everything is loaded again and
     every cache cleared. Catalog, migrations, index definitions, the bytes of every table file and all
     index maps are those of BEGIN.
     */
    method RollbackTransaction() returns (r: Result<()>)
      requires Valid()
      modifies this
      ensures Valid() && Becomes(old(Contents()), Contents(), Rollback(old(Contents())), r)
      ensures r.Err? ==> View() == old(View())
      ensures r.Ok? ==> CheckpointOf(View()) == SnapshotCheckpoint(old(disk.snapshot).value)
    {
      hide Inv, LogicalDb, SnapshotCheckpoint, CheckpointOf, DirectoryDb, LoadedMaps, RowsOf;
      InvTransaction(crypto, View());
      if !inTransaction {
        return Err(TransactionError);
      }
      RolledBackInv(crypto, View());
      var restored := Restored(disk.snapshot.value, disk.clock);
      var maps := LoadMaps(restored, LoadIndexCatalog(restored));
      LoadsAlike(disk.snapshot.value, restored, maps);
      inTransaction, disk := false, disk.(root := restored, snapshot := None, clock := disk.clock + 1);
      catalog, migrations, indexCatalog := LoadCatalog(restored), LoadMigrations(restored), LoadIndexCatalog(restored);
      tableFiles, uniqueCaches, dirtyIndexes, indexMaps, rowIdCursors := map[], map[], {}, maps, map[];
      r := Ok(());
    }

    // ---- reading ----

    /** `read_stored_rows_located`. */
    method ReadStoredRowsLocated(table: string) returns (r: Result<seq<Located>>)
      requires TablesOk(crypto, catalog, disk.root.tables)
      ensures r == if table in catalog then Ok(RowsOf(crypto, disk.root.tables[table].bytes))
                   else Err(TableNotFound(table))
    {
      if table !in catalog {
        return Err(TableNotFound(table));
      }
      if table !in disk.root.tables {
        return Ok([]);
      }
      assert TableOk(crypto, disk.root.tables[table].bytes, catalog[table].nextRowId);
      TidyScans(crypto, disk.root.tables[table].bytes);
      r := ReadLocated(crypto, disk.root.tables[table].bytes);
    }

    /** `read_rows`. */
    method ReadRows(table: string) returns (r: Result<seq<Row>>)
      requires Valid()
      ensures r == if table in Contents().db.tables then Ok(Contents().db.tables[table].rows)
                   else Err(TableNotFound(table))
    {
      var located :- ReadStoredRowsLocated(table);
      r := Ok(Datas(located));
    }

    /** `get_schema`. */
    method GetSchema(table: string) returns (r: Result<TableSchema>)
      requires Valid()
      ensures if table in Contents().db.tables
        then r.Ok? && r.value.columns == Contents().db.tables[table].columns && DistinctColumns(r.value.columns)
        else r == Err(TableNotFound(table))
    {
      InvTables(crypto, View(), {});
      r := if table in catalog then Ok(catalog[table]) else Err(TableNotFound(table));
    }

    /** `list_tables`: every table once; the order of the names is not modelled. */
    method ListTables() returns (names: seq<string>)
      requires Valid()
      ensures forall t :: t in names <==> t in Contents().db.tables
    {
      hide Inv;
      InvTables(crypto, View(), {});
      var rest := catalog.Keys;
      names := [];
      while rest != {}
        invariant rest <= catalog.Keys
        invariant forall t :: t in names <==> t in catalog && t !in rest
        decreases |rest|
      {
        var t :| t in rest;
        names, rest := names + [t], rest - {t};
      }
    }

    /** `find_indexed_locators`: Some exactly when the column is indexed, with the locators of the rows holding the value. */
    method FindIndexedLocators(table: string, column: string, value: Value) returns (r: Option<seq<Locator>>)
      requires Valid()
      ensures r.Some? <==> HasIndexOn(indexCatalog, table, column)
      ensures r.Some? ==> table in catalog
      ensures r.Some? ==>
        r.value == Locators(Holding(RowsOf(crypto, disk.root.tables[table].bytes), column, ValueKey(value)))
    {
      var position := FindOn(indexCatalog, table, column);
      if position.None? {
        return None;
      }
      var d := indexCatalog[position.value];
      if d.name !in indexMaps {
        return None;
      }
      IndexAnswers(crypto, View(), position.value, value);
      r := Some(Lookup(indexMaps[d.name], ValueKey(value)));
    }

    /**
     `read_rows_filtered`: without locators all rows; through the locators of an index bucket exactly
     the rows holding the value, in file order.
     */
    method ReadRowsFiltered(table: string, locators: Option<seq<Locator>>) returns (r: Result<seq<Row>>)
      requires Valid()
      ensures table !in catalog ==> r == Err(TableNotFound(table))
      ensures table in catalog && locators.None? ==> r == Ok(Contents().db.tables[table].rows)
      ensures forall column, key ::
        table in catalog
        && locators == Some(Locators(Holding(RowsOf(crypto, disk.root.tables[table].bytes), column, key)))
        ==> r == Ok(Datas(Holding(RowsOf(crypto, disk.root.tables[table].bytes), column, key)))
    {
      if locators.None? {
        r := ReadRows(table);
        return;
      }
      if table !in catalog {
        return Err(TableNotFound(table));
      }
      if table !in disk.root.tables {
        return Ok([]);
      }
      ghost var file := disk.root.tables[table].bytes;
      assert TableOk(crypto, file, catalog[table].nextRowId);
      forall column, key ensures ReadResult(crypto, file, Locators(Holding(RowsOf(crypto, file), column, key)))
        == Ok(Datas(Holding(RowsOf(crypto, file), column, key)))
      {
        BucketReadsItsRows(crypto, file, column, key);
      }
      r := ReadThrough(crypto, disk.root.tables[table].bytes, locators.value);
    }

    // ---- unique caches ----

    /** `unique_value_exists`: whether from the cache or by building it, the answer is that of a full scan; NULL never exists. */
    method UniqueValueExists(table: string, column: string, value: Value) returns (r: Result<bool>)
      requires Valid()
      modifies this`uniqueCaches
      ensures Valid() && Contents() == old(Contents())
      ensures table !in catalog ==> r == Err(TableNotFound(table))
      ensures table in catalog ==>
        r == Ok(value != Null && exists row :: row in Contents().db.tables[table].rows && Get(row, column) == value)
    {
      var key := ValueKey(value);
      if table in uniqueCaches && column in uniqueCaches[table] {
        CacheAnswers(crypto, View(), table, column, value);
        return Ok(key in uniqueCaches[table][column]);
      }
      var rows :- ReadStoredRowsLocated(table);
      var found := CollectKeys(rows, column);
      var columns := if table in uniqueCaches then uniqueCaches[table] else map[];
      ghost var before := View();
      uniqueCaches := uniqueCaches[table := columns[column := found]];
      CacheBuiltInv(crypto, before, View(), table, column);
      CacheAnswers(crypto, View(), table, column, value);
      r := Ok(key in found);
    }

    // ---- writing indexes ----

    /** `write_index_map`. */
    method WriteIndexMap(name: string, index: IndexMap)
      requires disk.marker == indexesClean
      modifies this
      ensures View() == Touched(old(View()), name, index)
    {
      indexMaps := indexMaps[name := index];
      dirtyIndexes := dirtyIndexes + {name};
      if indexesClean {
        if disk.marker {
          disk := disk.(marker := false);
        }
        indexesClean := false;
      }
    }

    /** `rebuild_index`: one index is brought up to date, and its number of keys returned; an unknown name is an error. */
    method RebuildIndex(name: string, ghost pending: set<string>) returns (r: Result<nat>)
      requires Inv(crypto, View(), pending)
      modifies this
      ensures if HasIndexNamed(old(indexCatalog), name) then r.Ok? else r == Err(InvalidSchema) && View() == old(View())
      ensures r.Ok? ==> Inv(crypto, View(), pending - {name}) && IndexStateOnly(old(View()), View())
      ensures r.Ok? ==> name in indexMaps && r.value == |indexMaps[name]|
    {
      if FindIndexNamed(indexCatalog, name).None? {
        return Err(InvalidSchema);
      }
      var i := PositionOf(indexCatalog, name);
      var rows := ReadStoredRowsLocated(indexCatalog[i].table);
      var index := Rebuild(rows.value, indexCatalog[i].column);
      TouchedInv(crypto, View(), pending, i);
      WriteIndexMap(name, index);
      r := Ok(|index|);
    }
  
    /** `rebuild_indexes_for_table`. */
    method RebuildIndexesForTable(table: string, ghost pending: set<string>)
      requires Inv(crypto, View(), pending)
      modifies this
      ensures Inv(crypto, View(), pending - NamesOn(indexCatalog, table))
      ensures IndexStateOnly(old(View()), View())
    {
      hide Inv;
      ghost var remaining := pending;
      for i := 0 to |indexCatalog|
        invariant IndexStateOnly(old(View()), View())
        invariant Inv(crypto, View(), remaining)
        invariant remaining == pending - NamesOn(indexCatalog[..i], table)
      {
        if indexCatalog[i].table == table {
          var keys := RebuildIndex(indexCatalog[i].name, remaining);
          remaining := remaining - {indexCatalog[i].name};
        }
        NamesOnNext(indexCatalog, table, i);
      }
      assert indexCatalog[..|indexCatalog|] == indexCatalog;
    }

    // ---- rewriting tables ----

    /** `close_table_file` and `invalidate_unique_cache`. */
    method ForgetTable(table: string, ghost pending: set<string>)
      requires Inv(crypto, View(), pending)
      modifies this
      ensures Inv(crypto, View(), pending) && Contents() == old(Contents()) && SameCatalogs(old(View()), View())
      ensures disk == old(disk) && rowIdCursors == old(rowIdCursors) && indexMaps == old(indexMaps)
      ensures table !in tableFiles && table !in uniqueCaches
    {
      hide Inv;
      tableFiles := tableFiles - {table};
      uniqueCaches := uniqueCaches - {table};
      ForgottenInv(crypto, old(View()), View(), table, pending);
    }

    /** Writing the temporary file of a rewrite. */
    method WriteTemp(table: string, bytes: Bytes)
      requires Valid()
      modifies this
      ensures Valid() && Contents() == old(Contents()) && SameCatalogs(old(View()), View())
      ensures tableFiles == old(tableFiles) && uniqueCaches == old(uniqueCaches) && rowIdCursors == old(rowIdCursors)
      ensures disk.root.tables == old(disk.root.tables) && indexMaps == old(indexMaps)
    {
      hide Inv;
      disk := disk.(root := disk.root.(temps := disk.root.temps[table := bytes]));
      ForgottenInv(crypto, old(View()), View(), table, {});
    }

    /** A finished file takes the table's path, and the table's indexes are rebuilt from it. */
    method InstallTable(table: string, bytes: Bytes, ghost pending: set<string>)
      requires Inv(crypto, View(), pending) && table in catalog && table !in tableFiles && table !in uniqueCaches
      requires pending <= NamesOn(indexCatalog, table)
      requires Tidy(crypto, bytes) && IdsFit(catalog, rowIdCursors, table, Stored(RowsOf(crypto, bytes)))
      modifies this
      ensures Valid() && SameCatalogs(old(View()), View())
      ensures Contents() == old(Contents()).(db :=
        SetTable(old(Contents()).db, table, Table(catalog[table].columns, Datas(RowsOf(crypto, bytes)))))
    {
      hide Inv, IdsFit;
      disk := disk.(root := disk.root.(temps := disk.root.temps - {table}));
      disk := ReplaceTableFile(disk, table, bytes);
      InstalledInv(crypto, old(View()), View(), table, disk.root.tables[table], pending);
      ghost var installed := View();
      RebuildIndexesForTable(table, pending + NamesOn(indexCatalog, table));
      assert pending + NamesOn(indexCatalog, table) - NamesOn(indexCatalog, table) == {};
      IndexStateKeepsSession(crypto, installed, View());
    }

    /** `write_stored_rows`: the table is written anew with the given rows; a missing table is an error. */
    method WriteStoredRows(table: string, rows: seq<StoredRow>, ghost pending: set<string>) returns (r: Result<()>)
      requires Inv(crypto, View(), pending)
      requires pending <= NamesOn(indexCatalog, table)
      requires table in catalog ==> IdsFit(catalog, rowIdCursors, table, rows)
      modifies this
      ensures if table in old(catalog) then r.Ok? else r == Err(TableNotFound(table)) && View() == old(View())
      ensures r.Ok? ==> Valid() && SameCatalogs(old(View()), View()) && table in catalog
      ensures r.Ok? ==> Contents() == old(Contents()).(db :=
        SetTable(old(Contents()).db, table, Table(catalog[table].columns, StoredData(rows))))
    {
      hide Inv, IdsFit;
      if table !in catalog {
        return Err(TableNotFound(table));
      }
      InvFacts(crypto, View(), pending);
      ForgetTable(table, pending);
      var bytes := WriteRows(crypto, rows);
      DatasOfStored(RowsOf(crypto, bytes));
      InstallTable(table, bytes, pending);
      r := Ok(());
    }

    /**
     `rewrite_rows`: every row is mapped, dropped, or fails the whole rewrite; a failure leaves catalogs, index maps
     and the bytes of every table as they were. Returns the number of rows dropped.
     */
    method RewriteRows(table: string, mapper: Row -> Result<Option<Row>>) returns (r: Result<nat>)
      requires Valid()
      modifies this
      ensures Valid() && disk.snapshot == old(disk.snapshot)
      ensures Follows(old(Contents()), Contents(), Database.RewriteRows(old(Contents()).db, table, mapper), r)
      ensures r.Ok? ==>
        r.value == |old(Contents()).db.tables[table].rows| - |Contents().db.tables[table].rows|
      ensures r.Err? ==> CheckpointOf(View()) == old(CheckpointOf(View()))
    {
      hide Inv, TablesOk, IdsFit, RewriteResult;
      InvFacts(crypto, View(), {});
      if table !in catalog {
        return Err(TableNotFound(table));
      }
      ForgetTable(table, {});
      InvFacts(crypto, View(), {});
      var located := ReadStoredRowsLocated(table);
      var output, partial, dropped := RewriteLoop(crypto, Stored(located.value), mapper);
      RewriteMeaning(crypto, View(), table, mapper, output, dropped);
      if output.Err? {
        WriteTemp(table, partial);
        return Err(output.error);
      }
      InstallTable(table, output.value, {});
      r := Ok(dropped);
    }
  
    // ---- appending ----

    /**
     `allocate_row_id`: the next id of the live batch, or the first of a new batch reserved in the saved
     catalog. Either way it is above every stored id and below the persisted bound.
     */
    method AllocateRowId(table: string) returns (r: Result<nat>)
      requires Valid()
      modifies this
      ensures Valid() && Contents() == old(Contents()) && IdCountersOnly(old(View()), View())
      ensures if table in old(catalog) then r.Ok? else r == Err(TableNotFound(table)) && View() == old(View())
      ensures r.Ok? ==> FreshId(crypto, catalog, disk.root.tables, rowIdCursors, table, r.value)
      ensures r.Ok? ==> catalog[table].nextRowId <= old(catalog[table].nextRowId) + ROW_ID_BATCH
    {
      hide Inv, FreshId, RowsOf, LogicalDb, SessionOf, TablesOk, HandlesOk, Sound;
      InvFacts(crypto, View(), {});
      if table in rowIdCursors && rowIdCursors[table].next < rowIdCursors[table].limit {
        var cursor := rowIdCursors[table];
        rowIdCursors := rowIdCursors[table := Cursor(cursor.next + 1, cursor.limit)];
        CursorInv(crypto, old(View()), View(), table);
        return Ok(cursor.next);
      }
      if table !in catalog {
        return Err(TableNotFound(table));
      }
      var start := ReserveBatch(table);
      r := Ok(start);
    }

    /** The next batch of ids is reserved in the saved catalog before any of them is handed out. */
    method ReserveBatch(table: string) returns (start: nat)
      requires Valid() && table in catalog
      modifies this
      ensures Valid() && Contents() == old(Contents()) && IdCountersOnly(old(View()), View())
      ensures table in catalog && FreshId(crypto, catalog, disk.root.tables, rowIdCursors, table, start)
      ensures catalog[table].nextRowId == old(catalog[table].nextRowId) + ROW_ID_BATCH
    {
      hide Inv, FreshId, RowsOf, LogicalDb, SessionOf, TablesOk, HandlesOk, Sound;
      InvFacts(crypto, View(), {});
      start := catalog[table].nextRowId;
      var schema := catalog[table].(nextRowId := start + ROW_ID_BATCH);
      var cursor := Cursor(start + 1, start + ROW_ID_BATCH);
      var saved := SaveCatalog(disk, catalog[table := schema]);
      catalog, disk, rowIdCursors := catalog[table := schema], saved, rowIdCursors[table := cursor];
      BatchInv(crypto, old(View()), View(), table, schema, cursor);
    }

    /** The append handle of a table, opened when there is none. */
    method OpenForAppend(table: string)
      requires Valid() && table in catalog
      modifies this
      ensures Valid() && Contents() == old(Contents()) && View() == old(View()).(handles := tableFiles)
      ensures table in tableFiles
    {
      hide Inv, RowsOf, SessionOf, TablesOk, HandlesOk;
      InvFacts(crypto, View(), {});
      if table !in tableFiles {
        disk := EnsureTableFile(disk, table);
        tableFiles := tableFiles[table := disk.root.tables[table].generation];
        OpenedInv(crypto, old(View()), View(), table);
      }
    }

    /** One step of the index loop of `append_row`: the new row's locator is pushed onto one index. */
    method PushLocator(table: string, i: nat, found: Located, ghost rows: seq<Located>, ghost pending: set<string>)
      requires Inv(crypto, Masked(View(), table), pending)
      requires i < |indexCatalog| && indexCatalog[i].table == table && table in disk.root.tables
      requires RowsOf(crypto, disk.root.tables[table].bytes) == rows + [found]
      requires MapsHold(indexCatalog, indexMaps, table, rows, i)
      modifies this
      ensures Inv(crypto, Masked(View(), table), pending - {old(indexCatalog)[i].name})
      ensures IndexStateOnly(old(View()), View())
      ensures MapsHold(indexCatalog, indexMaps, table, rows, i + 1)
    {
      hide Inv, RowsOf, TablesOk, HandlesOk, Sound, IndexOf, Push, RowKey;
      var d := indexCatalog[i];
      var key := RowKey(found.row.data, d.column);
      var index := if d.name in indexMaps then indexMaps[d.name] else map[];
      PushedInv(crypto, Masked(View(), table), pending, i, rows, found);
      InvFacts(crypto, Masked(View(), table), pending);
      DistinctNames(crypto, Masked(View(), table), pending);
      WriteIndexMap(d.name, Push(index, key, found.loc));
      assert Masked(View(), table) == Touched(Masked(old(View()), table), d.name, Push(index, key, found.loc));
    }

    /** The index loop of `append_row`. */
    method PushLocators(table: string, found: Located, ghost rows: seq<Located>)
      requires Inv(crypto, Masked(View(), table), NamesOn(indexCatalog, table))
      requires table in disk.root.tables
      requires RowsOf(crypto, disk.root.tables[table].bytes) == rows + [found]
      requires MapsHold(indexCatalog, indexMaps, table, rows, 0)
      modifies this
      ensures Inv(crypto, Masked(View(), table), {}) && IndexStateOnly(old(View()), View())
    {
      hide Inv, RowsOf, Masked, MapsHold;
      ghost var remaining := NamesOn(indexCatalog, table);
      for i := 0 to |indexCatalog|
        invariant IndexStateOnly(old(View()), View())
        invariant Inv(crypto, Masked(View(), table), remaining)
        invariant remaining == NamesOn(indexCatalog, table) - NamesOn(indexCatalog[..i], table)
        invariant MapsHold(indexCatalog, indexMaps, table, rows, i)
      {
        NamesOnNext(indexCatalog, table, i);
        if indexCatalog[i].table == table {
          PushLocator(table, i, found, rows, remaining);
          remaining := remaining - {indexCatalog[i].name};
        } else {
          MapsHoldNext(indexCatalog, indexMaps, table, rows, i);
        }
      }
      assert indexCatalog[..|indexCatalog|] == indexCatalog;
      assert remaining == {};
    }

    /** Encrypting a row and writing its line at the end of the table's file. */
    method WriteLine(table: string, stored: StoredRow) returns (found: Located)
      requires Valid() && FreshId(crypto, catalog, disk.root.tables, rowIdCursors, table, stored.id)
      modifies this
      ensures Inv(crypto, Masked(View(), table), NamesOn(indexCatalog, table))
      ensures View() == old(View()).(handles := tableFiles, disk := disk) && found.row == stored
      ensures LineAppended(crypto, old(disk), disk, table, found)
    {
      hide Inv, FreshId, GoodLine, RowsOf, SessionOf, LogicalDb, TablesOk, HandlesOk, LineAppended;
      InvFacts(crypto, View(), {});
      assert table in catalog by { FreshIdKnown(crypto, catalog, disk.root.tables, rowIdCursors, table, stored.id); }
      OpenForAppend(table);
      ghost var ready := View();
      var nonce: nat :| true;
      var line := crypto.enc(stored, nonce);
      assert Encrypts(crypto, stored, nonce);
      found := Found(stored, |disk.root.tables[table].bytes|, |line|);
      disk := WriteThrough(disk, table, tableFiles[table], line + [NEWLINE]);
      AppendedInv(crypto, ready, View(), table, line, stored);
    }

    /** `append_row`: one more encrypted line, its locator in every index, its keys in every live cache. */
    method AppendRow(table: string, row: Row) returns (r: Result<()>)
      requires Valid()
      modifies this
      ensures Valid() && disk.snapshot == old(disk.snapshot)
      ensures Follows(old(Contents()), Contents(), Database.AppendRow(old(Contents()).db, table, row), r)
      ensures r.Err? ==> View() == old(View())
    {
      hide Inv, FreshId, RowsOf, LogicalDb, NotedCaches, MapsHold, LineAppended;
      InvTables(crypto, View(), {});
      var id :- AllocateRowId(table);
      ghost var before := View();
      FreshIdKnown(crypto, catalog, disk.root.tables, rowIdCursors, table, id);
      LiveIndexes(crypto, before, table);
      var found := WriteLine(table, StoredRow(id, row));
      ghost var written := View();
      AppendedRows(crypto, before.disk, disk, table, found);
      PushLocators(table, found, RowsOf(crypto, before.disk.root.tables[table].bytes));
      ghost var indexed := View();
      uniqueCaches := NotedCaches(uniqueCaches, table, row);
      AppendEnd(crypto, before, written, indexed, View(), table, found);
      r := Ok(());
    }
  
    // ---- tables ----

    /** `record_migration`. */
    method RecordMigration(table: string, operation: Operation)
      requires Valid()
      modifies this
      ensures Valid() && disk.snapshot == old(disk.snapshot)
      ensures Contents() == old(Contents()).(db := Record(old(Contents()).db, table, operation))
      ensures catalog == old(catalog) && indexMaps == old(indexMaps)
      ensures disk.root.indexes == old(disk.root.indexes) && disk.root.tables == old(disk.root.tables)
    {
      hide Inv;
      migrations := Logged(migrations, table, operation);
      disk := SaveMigrations(disk, migrations);
      MigratedInv(crypto, old(View()), View(), {});
    }

    /** `create_table`. */
    method CreateTable(schema: TableSchema) returns (r: Result<()>)
      requires Valid() && DistinctColumns(schema.columns)
      modifies this
      ensures Valid() && disk.snapshot == old(disk.snapshot)
      ensures Follows(old(Contents()), Contents(),
                      Database.CreateTable(old(Contents()).db, schema.name, schema.columns), r)
      ensures r.Err? ==> View() == old(View())
    {
      hide Inv, LogicalDb;
      InvTables(crypto, View(), {});
      if schema.name in catalog {
        return Err(TableExists(schema.name));
      }
      catalog := catalog[schema.name := schema];
      tableFiles := tableFiles - {schema.name};
      disk := CreateTableFile(disk, schema.name);
      disk := SaveCatalog(disk, catalog);
      CreatedInv(crypto, old(View()), View(), schema);
      CreatedSession(crypto, old(View()), View(), schema, old(disk.clock));
      RecordMigration(schema.name, CreatedTable);
      r := Ok(());
    }
  
    /** Index definitions are removed together with their maps, dirty marks and files. */
    method WithdrawIndexes(keep: IndexDef -> bool)
      requires Valid()
      modifies this
      ensures Valid() && disk.snapshot == old(disk.snapshot)
      ensures indexCatalog == Keep(old(indexCatalog), keep) && catalog == old(catalog)
      ensures Contents() == old(Contents()).(db := old(Contents()).db.(indexes := indexCatalog))
      ensures disk.root.indexes == old(disk.root.indexes) - GoneNames(old(indexCatalog), keep)
      ensures indexMaps == old(indexMaps) - GoneNames(old(indexCatalog), keep)
    {
      hide Inv, LogicalDb, GoneNames, Keep;
      var gone := GoneNames(indexCatalog, keep);
      disk := RemoveIndexMaps(disk, gone);
      indexMaps := indexMaps - gone;
      dirtyIndexes := dirtyIndexes - gone;
      indexCatalog := Keep(indexCatalog, keep);
      disk := SaveIndexCatalog(disk, indexCatalog);
      WithdrawnInv(crypto, old(View()), View(), keep);
    }

    /** `drop_table`: the table goes together with its file, its indexes and their files, its cursor, caches and handle. */
    method DropTable(table: string) returns (r: Result<()>)
      requires Valid()
      modifies this
      ensures Valid() && disk.snapshot == old(disk.snapshot)
      ensures Follows(old(Contents()), Contents(), Database.DropTable(old(Contents()).db, table), r)
      ensures r.Err? ==> View() == old(View())
      ensures r.Ok? ==> table !in disk.root.tables && NoIndexFiles(disk.root, indexMaps, NamesOn(old(indexCatalog), table))
    {
      hide Inv, LogicalDb, Keep;
      InvTables(crypto, View(), {});
      DbParts(crypto, View());
      if table !in catalog {
        return Err(TableNotFound(table));
      }
      DropKnownTable(table);
      r := Ok(());
    }

    /** `drop_table` once its check has passed. */
    method DropKnownTable(table: string)
      requires Valid() && table in catalog
      modifies this
      ensures Valid() && disk.snapshot == old(disk.snapshot)
      ensures Contents() == old(Contents()).(db := Record(old(Contents()).db.(tables := old(Contents()).db.tables - {table},
        indexes := Keep(old(indexCatalog), OffTable(table))), table, DroppedTable))
      ensures table !in disk.root.tables && NoIndexFiles(disk.root, indexMaps, NamesOn(old(indexCatalog), table))
    {
      hide Inv, LogicalDb, Keep, GoneNames, NamesOn;
      WithdrawIndexes(OffTable(table));
      OffTableDefs(old(indexCatalog), table);
      OffTableNames(old(indexCatalog), table);
      ghost var unindexed := View();
      tableFiles := tableFiles - {table};
      uniqueCaches := uniqueCaches - {table};
      disk := RemoveTableFile(disk, table);
      catalog := catalog - {table};
      rowIdCursors := rowIdCursors - {table};
      disk := SaveCatalog(disk, catalog);
      DroppedInv(crypto, unindexed, View(), table);
      RecordMigration(table, DroppedTable);
    }

    // ---- indexes ----

    /** `create_index`: the definition is saved, then the map is built from a scan; returns its number of keys. */
    method CreateIndex(name: string, table: string, column: string) returns (r: Result<nat>)
      requires Valid()
      modifies this
      ensures Valid() && disk.snapshot == old(disk.snapshot)
      ensures Follows(old(Contents()), Contents(), Database.CreateIndex(old(Contents()).db, name, table, column), r)
      ensures r.Err? ==> View() == old(View())
      ensures r.Ok? ==> name in indexMaps && r.value == |indexMaps[name]|
    {
      hide Inv, LogicalDb;
      InvTables(crypto, View(), {});
      DbParts(crypto, View());
      if table !in catalog {
        return Err(TableNotFound(table));
      }
      if !HasColumn(catalog[table].columns, column) {
        return Err(ColumnNotFound(table, column));
      }
      if HasIndexNamed(indexCatalog, name) {
        return Err(InvalidSchema);
      }
      if HasIndexOn(indexCatalog, table, column) {
        return Err(InvalidSchema);
      }
      indexCatalog := indexCatalog + [IndexDef(name, table, column)];
      disk := SaveIndexCatalog(disk, indexCatalog);
      DeclaredInv(crypto, old(View()), View(), IndexDef(name, table, column));
      ghost var declared := View();
      var keys := RebuildIndex(name, {name});
      assert {name} - {name} == {};
      IndexStateKeepsSession(crypto, declared, View());
      RecordMigration(table, CreatedIndex);
      r := keys;
    }

    /** `drop_index`: returns the table the index was on. */
    method DropIndex(name: string) returns (r: Result<string>)
      requires Valid()
      modifies this
      ensures Valid() && disk.snapshot == old(disk.snapshot)
      ensures Follows(old(Contents()), Contents(), Database.DropIndex(old(Contents()).db, name), r)
      ensures r.Ok? ==> name !in indexMaps && name !in disk.root.indexes
      ensures r.Err? ==> View() == old(View())
    {
      hide Inv, LogicalDb, Keep;
      DbParts(crypto, View());
      var found := FindIndexNamed(indexCatalog, name);
      if found.None? {
        return Err(InvalidSchema);
      }
      WithdrawIndexes(NotNamed(name));
      RecordMigration(found.value.table, DroppedIndex);
      r := Ok(found.value.table);
    }
  
    // ---- columns ----

    /** Every row of a table is changed by `f` and the table written anew; returns the number of rows. */
    method Backfill(table: string, f: Row -> Row, ghost pending: set<string>) returns (count: nat)
      requires Inv(crypto, View(), pending) && table in catalog && table in disk.root.tables
      requires pending <= NamesOn(indexCatalog, table)
      modifies this
      ensures Valid() && SameCatalogs(old(View()), View())
      ensures Contents() == old(Contents()).(db := SetTable(old(Contents()).db, table,
        Table(catalog[table].columns, MapRows(TableRows(crypto, old(disk.root.tables), table), f))))
      ensures count == |TableRows(crypto, old(disk.root.tables), table)|
    {
      hide Inv, LogicalDb, SessionOf, RowsOf, IdsFit, TablesOk, HandlesOk, CursorsOk;
      InvFacts(crypto, View(), pending);
      var located := ReadStoredRowsLocated(table);
      var rows := Stored(located.value);
      InvIds(crypto, View(), pending, table);
      MapStoredFits(catalog, rowIdCursors, table, rows, f);
      MapStoredData(located.value, f);
      var written := WriteStoredRows(table, MapStored(rows, f), pending);
      count := |rows|;
    }

    /** `add_column`: the schema is saved first, then every row is backfilled with the default. */
    method AddColumn(table: string, column: Column, default: Value) returns (r: Result<nat>)
      requires Valid()
      modifies this
      ensures Valid() && disk.snapshot == old(disk.snapshot)
      ensures Follows(old(Contents()), Contents(), Database.AddColumn(old(Contents()).db, table, column, default), r)
      ensures r.Err? ==> View() == old(View())
      ensures r.Ok? ==> r.value == |old(Contents()).db.tables[table].rows|
    {
      hide Inv, LogicalDb, TableRows, RowsOf;
      InvTables(crypto, View(), {});
      DbParts(crypto, View());
      if table !in catalog {
        return Err(TableNotFound(table));
      }
      if HasColumn(catalog[table].columns, column.name) {
        return Err(InvalidSchema);
      }
      var count := AddNewColumn(table, column, default);
      r := Ok(count);
    }

    /** `add_column` once its checks have passed. */
    method AddNewColumn(table: string, column: Column, default: Value) returns (count: nat)
      requires Valid() && table in catalog && !HasColumn(catalog[table].columns, column.name)
      requires table in Contents().db.tables
      modifies this
      ensures Valid() && disk.snapshot == old(disk.snapshot)
      ensures Contents() == old(Contents()).(db := Record(SetTable(old(Contents()).db, table,
        Table(old(catalog)[table].columns + [column],
              MapRows(old(Contents()).db.tables[table].rows, AddsValue(column.name, default)))), table, AddedColumn))
      ensures count == |old(Contents()).db.tables[table].rows|
    {
      hide Inv, LogicalDb, TableRows, RowsOf;
      DbRows(crypto, View(), table);
      AddColumnToCatalog(table, column);
      count := Backfill(table, AddsValue(column.name, default), {});
      RecordMigration(table, AddedColumn);
    }

    /** The schema part of `add_column`. */
    method AddColumnToCatalog(table: string, column: Column)
      requires Valid() && table in catalog && !HasColumn(catalog[table].columns, column.name)
      modifies this
      ensures Valid() && disk.snapshot == old(disk.snapshot) && disk.root.tables == old(disk.root.tables)
      ensures catalog == old(catalog)[table :=
        old(catalog)[table].(columns := old(catalog)[table].columns + [column])]
      ensures table in disk.root.tables
      ensures Contents() == old(Contents()).(db := SetTable(old(Contents()).db, table,
        Table(catalog[table].columns, TableRows(crypto, disk.root.tables, table))))
    {
      hide Inv, LogicalDb, TableRows, TablesOk, HandlesOk, Sound, RowsOf;
      InvFacts(crypto, View(), {});
      DbParts(crypto, View());
      var schema := catalog[table].(columns := catalog[table].columns + [column]);
      catalog := catalog[table := schema];
      disk := SaveCatalog(disk, catalog);
      ColumnAddedInv(crypto, old(View()), View(), table, column);
      AlteredSession(crypto, old(View()), View(), table, schema.columns);
    }

    /** `drop_column`: schema first, then the index on the column, then the rows. */
    method DropColumn(table: string, column: string) returns (r: Result<nat>)
      requires Valid()
      modifies this
      ensures Valid() && disk.snapshot == old(disk.snapshot)
      ensures Follows(old(Contents()), Contents(), Database.DropColumn(old(Contents()).db, table, column), r)
      ensures r.Err? ==> View() == old(View())
      ensures r.Ok? ==> r.value == |old(Contents()).db.tables[table].rows|
    {
      hide Inv, LogicalDb, TableRows, Keep, WithoutColumn, RowsOf;
      InvTables(crypto, View(), {});
      DbParts(crypto, View());
      if table !in catalog {
        return Err(TableNotFound(table));
      }
      if |catalog[table].columns| <= 1 {
        return Err(InvalidSchema);
      }
      if !HasColumn(catalog[table].columns, column) {
        return Err(ColumnNotFound(table, column));
      }
      var count := DropKnownColumn(table, column);
      r := Ok(count);
    }

    /** `drop_column` once its checks have passed. */
    method DropKnownColumn(table: string, column: string) returns (count: nat)
      requires Valid() && table in catalog && table in Contents().db.tables
      modifies this
      ensures Valid() && disk.snapshot == old(disk.snapshot)
      ensures Contents() == old(Contents()).(db := Record(SetTable(old(Contents()).db, table,
        Table(WithoutColumn(old(catalog)[table].columns, column),
              MapRows(old(Contents()).db.tables[table].rows, RemovesValue(column))))
        .(indexes := Keep(old(indexCatalog), OffColumn(table, column))), table, DroppedColumn))
      ensures count == |old(Contents()).db.tables[table].rows|
    {
      hide Inv, LogicalDb, TableRows, Keep, WithoutColumn, RowsOf;
      DbRows(crypto, View(), table);
      RemoveColumnFromCatalogs(table, column);
      ColumnDroppedSession(crypto, old(View()), table, column);
      count := Backfill(table, RemovesValue(column), {});
      RecordMigration(table, DroppedColumn);
    }

    /** The schema and index-catalog part of `drop_column`. */
    method RemoveColumnFromCatalogs(table: string, column: string)
      requires Valid() && table in catalog
      modifies this
      ensures Valid() && View() == ColumnDropped(old(View()), table, column)
    {
      hide Inv, Keep, WithoutColumn, GoneNames, RemoveIndexMaps, SaveCatalog, SaveIndexCatalog, OffColumn;
      ColumnDroppedInv(crypto, View(), table, column);
      var schema := catalog[table].(columns := WithoutColumn(catalog[table].columns, column));
      ReplaceSchema(table, schema);
      RemoveIndexOn(table, column);
    }

    method ReplaceSchema(table: string, schema: TableSchema)
      modifies this
      ensures View() == old(View()).(catalog := old(catalog)[table := schema],
                                     disk := SaveCatalog(old(disk), old(catalog)[table := schema]))
    {
      hide SaveCatalog;
      var changed := catalog[table := schema];
      catalog, disk := changed, SaveCatalog(disk, changed);
    }

    /** The index on a dropped column, when there is one, goes with its map, its dirty mark and its file. */
    method RemoveIndexOn(table: string, column: string)
      modifies this
      ensures var (gone, kept) := (GoneNames(old(indexCatalog), OffColumn(table, column)), Keep(old(indexCatalog), OffColumn(table, column)));
        View() == old(View()).(indexCatalog := kept, indexMaps := old(indexMaps) - gone, dirty := old(dirtyIndexes) - gone,
          disk := if gone == {} then RemoveIndexMaps(old(disk), gone) else SaveIndexCatalog(RemoveIndexMaps(old(disk), gone), kept))
    {
      hide Keep, GoneNames, RemoveIndexMaps, SaveIndexCatalog, OffColumn;
      var gone, kept := GoneNames(indexCatalog, OffColumn(table, column)), Keep(indexCatalog, OffColumn(table, column));
      var removed := RemoveIndexMaps(disk, gone);
      indexMaps, dirtyIndexes, indexCatalog, disk :=
        indexMaps - gone, dirtyIndexes - gone, kept, if gone == {} then removed else SaveIndexCatalog(removed, kept);
    }

    /** `rename_column`: catalogs first, then the rows, then the table's indexes once more. */
    method RenameColumn(table: string, from: string, to: string) returns (r: Result<nat>)
      requires Valid()
      modifies this
      ensures Valid() && disk.snapshot == old(disk.snapshot)
      ensures Follows(old(Contents()), Contents(), Database.RenameColumn(old(Contents()).db, table, from, to), r)
      ensures r.Err? ==> View() == old(View())
      ensures r.Ok? ==> r.value == |old(Contents()).db.tables[table].rows|
    {
      hide Inv, LogicalDb, TableRows, RowsOf;
      InvTables(crypto, View(), {});
      DbParts(crypto, View());
      if table !in catalog {
        return Err(TableNotFound(table));
      }
      if !HasColumn(catalog[table].columns, from) {
        return Err(ColumnNotFound(table, from));
      }
      if HasColumn(catalog[table].columns, to) {
        return Err(InvalidSchema);
      }
      DbRows(crypto, View(), table);
      RenameInCatalogs(table, from, to);
      var count := Backfill(table, RenamesValue(from, to), NamesOn(indexCatalog, table));
      ghost var written := View();
      RebuildIndexesForTable(table, {});
      IndexStateKeepsSession(crypto, written, View());
      assert {} - NamesOn(indexCatalog, table) == {};
      RecordMigration(table, RenamedColumn);
      r := Ok(count);
    }

    /** The schema and index-catalog part of `rename_column`. */
    method RenameInCatalogs(table: string, from: string, to: string)
      requires Valid() && table in catalog
      requires HasColumn(catalog[table].columns, from) && !HasColumn(catalog[table].columns, to)
      modifies this
      ensures Inv(crypto, View(), NamesOn(indexCatalog, table))
      ensures disk.snapshot == old(disk.snapshot) && disk.root.tables == old(disk.root.tables)
      ensures catalog == old(catalog)[table :=
        old(catalog)[table].(columns := ColumnsRenamed(old(catalog)[table].columns, from, to))]
      ensures table in disk.root.tables
      ensures Contents() == old(Contents()).(db := SetTable(old(Contents()).db, table,
          Table(catalog[table].columns, TableRows(crypto, disk.root.tables, table)))
        .(indexes := DefsRenamed(old(Contents()).db.indexes, table, from, to)))
    {
      hide Inv, LogicalDb, TableRows, DefsRenamed, ColumnsRenamed, NamesOn, TablesOk, HandlesOk, Sound, RowsOf;
      InvFacts(crypto, View(), {});
      DbParts(crypto, View());
      var schema := catalog[table].(columns := ColumnsRenamed(catalog[table].columns, from, to));
      catalog := catalog[table := schema];
      disk := SaveCatalog(disk, catalog);
      indexCatalog := DefsRenamed(indexCatalog, table, from, to);
      disk := SaveIndexCatalog(disk, indexCatalog);
      ColumnRenamedInv(crypto, old(View()), View(), table, from, to);
      AlteredSession(crypto, old(View()), View(), table, schema.columns);
    }
  }
}

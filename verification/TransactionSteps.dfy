/** Flushing indexes, taking and restoring a snapshot, and opening a data directory. */
module TransactionSteps {
  import opened Types
  import opened TableFile
  import opened IndexMaps
  import opened Database
  import opened StorageState
  import opened StorageSteps

  // ---- flushing ----

  /** The index files after the maps of the dirty indexes have been written over them. */
  function Saved(files: map<string, IndexMap>, maps: map<string, IndexMap>, dirty: set<string>): map<string, IndexMap> {
    files + (map name | name in dirty && name in maps :: maps[name])
  }

  /** The loop of `flush_indexes`. */
  method SaveDirty(files: map<string, IndexMap>, maps: map<string, IndexMap>, dirty: set<string>)
    returns (files1: map<string, IndexMap>)
    ensures files1 == Saved(files, maps, dirty)
  {
    files1 := files;
    var left := dirty;
    while left != {}
      invariant left <= dirty
      invariant forall name :: name in files1 <==> name in files || (name in maps && name in dirty && name !in left)
      invariant forall name :: name in files1 ==>
        files1[name] == if name in maps && name in dirty && name !in left then maps[name] else files[name]
    {
      var name :| name in left;
      left := left - {name};
      if name in maps {
        files1 := files1[name := maps[name]];
      }
    }
  }

  lemma FlushedIndexes(c: Crypto, root: Files, root1: Files, defs: seq<IndexDef>, maps: map<string, IndexMap>, dirty: set<string>)
    requires IndexesOk(c, root, defs, maps, dirty, {})
    requires root1 == root.(indexes := Saved(root.indexes, maps, dirty))
    ensures IndexesOk(c, root1, defs, maps, {}, {})
    ensures forall i :: 0 <= i < |defs| ==>
      defs[i].table in root1.tables && LoadIndexMap(root1, defs[i].name) == FreshIndex(c, root1.tables, defs[i])
  {
    forall i | 0 <= i < |defs|
      ensures defs[i].table in root1.tables && defs[i].name in maps
      ensures maps[defs[i].name] == FreshIndex(c, root1.tables, defs[i])
      ensures LoadIndexMap(root1, defs[i].name) == maps[defs[i].name]
    {
      assert defs[i].name !in {};
    }
  }

  /** After a flush nothing is dirty, the marker stands, and the index files may be loaded as they are. */
  lemma FlushedInv(c: Crypto, s: State, s1: State)
    requires Inv(c, s, {})
    requires s1 == s.(disk := s1.disk, dirty := {}, indexesClean := true)
    requires s1.disk == s.disk.(marker := true,
      root := s.disk.root.(indexes := Saved(s.disk.root.indexes, s.indexMaps, s.dirty)))
    ensures Inv(c, s1, {}) && SessionOf(c, s1) == SessionOf(c, s)
    ensures IndexFilesOk(c, s1.disk.root) && DirectoryOk(c, s1.disk.root)
  {
    hide Sound, TablesOk, DefsOk, IndexesOk, CachesOk, CursorsOk, HandlesOk, SnapshotOk, RowsOf;
    FlushedIndexes(c, s.disk.root, s1.disk.root, s.indexCatalog, s.indexMaps, s.dirty);
  }

  // ---- transactions ----

  lemma ClosedAllInv(c: Crypto, s: State, s1: State)
    requires Inv(c, s, {}) && s1 == s.(handles := map[])
    ensures Inv(c, s1, {}) && SessionOf(c, s1) == SessionOf(c, s)
  {
    hide Sound, TablesOk, DefsOk, IndexesOk, CachesOk, CursorsOk, SnapshotOk;
  }

  lemma BegunInv(c: Crypto, s: State, s1: State)
    requires Inv(c, s, {}) && IndexFilesOk(c, s.disk.root) && DirectoryOk(c, s.disk.root)
    requires s1 == s.(disk := s.disk.(snapshot := Some(s.disk.root)), inTransaction := true)
    ensures Inv(c, s1, {}) && SessionOf(c, s1) == Session(LogicalDb(c, s), Some(LogicalDb(c, s)))
    ensures SnapshotCheckpoint(s.disk.root) == CheckpointOf(s)
  {
    hide Sound, TablesOk, DefsOk, CachesOk, CursorsOk, HandlesOk, RowsOf;
    CleanMaps(c, s);
    assert SnapshotOk(c, s1.disk.snapshot, s1.inTransaction);
  }

  /** When the index files may be loaded, loading them gives the maps in memory. */
  lemma CleanMaps(c: Crypto, s: State)
    requires Inv(c, s, {}) && IndexFilesOk(c, s.disk.root)
    ensures s.indexMaps == map name | name in Names(s.indexCatalog) :: LoadIndexMap(s.disk.root, name)
  {
    hide Sound, TablesOk, DefsOk, CachesOk, CursorsOk, HandlesOk, RowsOf;
    forall i | 0 <= i < |s.indexCatalog|
      ensures s.indexCatalog[i].name in s.indexMaps
      ensures s.indexMaps[s.indexCatalog[i].name] == LoadIndexMap(s.disk.root, s.indexCatalog[i].name)
    {
      assert s.indexCatalog[i].name !in {};
    }
  }

  lemma CommittedInv(c: Crypto, s: State, s1: State)
    requires Inv(c, s, {})
    requires s1 == s.(disk := s.disk.(snapshot := None), inTransaction := false)
    ensures Inv(c, s1, {}) && SessionOf(c, s1) == Session(LogicalDb(c, s), None)
  {
    hide Sound, TablesOk, DefsOk, IndexesOk, CachesOk, CursorsOk, HandlesOk, RowsOf;
  }

  /** The snapshot's files copied back: new files with the old contents. */
  function Restored(f: Files, generation: nat): Files {
    f.(tables := map t | t in f.tables :: DataFile(generation, f.tables[t].bytes))
  }

  lemma RestoredTables(c: Crypto, catalog: Catalog, f: Files, generation: nat)
    requires TablesOk(c, catalog, f.tables)
    ensures TablesOk(c, catalog, Restored(f, generation).tables)
    ensures FileBytes(Restored(f, generation).tables) == FileBytes(f.tables)
  {
  }

  ghost function LoadedMaps(f: Files): map<string, IndexMap> {
    map name | name in Names(LoadIndexCatalog(f)) :: LoadIndexMap(f, name)
  }

  /** Loaded index files that match their tables are live indexes. */
  lemma LoadedIndexes(c: Crypto, f: Files, f1: Files)
    requires IndexFilesOk(c, f) && f1.indexes == f.indexes
    requires forall t :: t in f.tables ==> t in f1.tables && f1.tables[t].bytes == f.tables[t].bytes
    ensures IndexesOk(c, f1, LoadIndexCatalog(f), LoadedMaps(f), {}, {})
  {
  }

  /** The snapshot's files are back, everything is loaded again, and every cache is cleared. */
  ghost function RolledBack(s: State): State
    requires s.disk.snapshot.Some?
  {
    var f := s.disk.snapshot.value;
    s.(disk := s.disk.(root := Restored(f, s.disk.clock), snapshot := None, clock := s.disk.clock + 1),
       catalog := LoadCatalog(f), migrations := LoadMigrations(f), indexCatalog := LoadIndexCatalog(f),
       indexMaps := LoadedMaps(f), cursors := map[], handles := map[], caches := map[], dirty := {},
       inTransaction := false)
  }

  lemma RolledBackInv(c: Crypto, s: State)
    requires Inv(c, s, {}) && s.disk.snapshot.Some?
    ensures Inv(c, RolledBack(s), {})
    ensures SessionOf(c, RolledBack(s)) == Session(DirectoryDb(c, s.disk.snapshot.value), None)
    ensures CheckpointOf(RolledBack(s)) == SnapshotCheckpoint(s.disk.snapshot.value)
  {
    hide Sound, TablesOk, DefsOk, IndexesOk, IndexFilesOk, RowsOf;
    var f, s1 := s.disk.snapshot.value, RolledBack(s);
    RestoredTables(c, s1.catalog, f, s.disk.clock);
    LoadedIndexes(c, f, s1.disk.root);
    assert LogicalDb(c, s1) == DirectoryDb(c, f);
  }

  // ---- opening a data directory ----

  /** The state `open` starts from: catalogs loaded, the leftover snapshot and the marker removed. */
  function Initial(d: Disk): State {
    State(d.(snapshot := None, marker := false), LoadCatalog(d.root), LoadMigrations(d.root), LoadIndexCatalog(d.root),
          map[], map[], map[], map[], {}, false, false)
  }

  lemma InitialInv(c: Crypto, d: Disk)
    requires Durable(c, d)
    ensures Inv(c, Initial(d), Names(LoadIndexCatalog(d.root)))
    ensures SessionOf(c, Initial(d)) == Session(DirectoryDb(c, d.root), None)
  {
    hide Sound, TablesOk, DefsOk, RowsOf;
    var defs := LoadIndexCatalog(d.root);
    forall i | 0 <= i < |defs| ensures defs[i].name in Names(defs) {}
  }

  /** With the marker present the index files are loaded; no rebuild is needed. */
  lemma LoadedInv(c: Crypto, d: Disk, s1: State)
    requires Durable(c, d) && d.marker
    requires s1 == Initial(d).(indexMaps := LoadedMaps(d.root))
    ensures Inv(c, s1, {}) && SessionOf(c, s1) == Session(DirectoryDb(c, d.root), None)
  {
    hide Sound, TablesOk, DefsOk, IndexesOk, IndexFilesOk, RowsOf;
    LoadedIndexes(c, d.root, s1.disk.root);
  }

  /** `load_all_index_maps`. */
  method LoadMaps(f: Files, defs: seq<IndexDef>) returns (maps: map<string, IndexMap>)
    ensures maps == map name | name in Names(defs) :: LoadIndexMap(f, name)
  {
    maps := map[];
    for i := 0 to |defs|
      invariant maps == map name | name in Names(defs[..i]) :: LoadIndexMap(f, name)
    {
      NamesNext(defs, i);
      maps := maps[defs[i].name := LoadIndexMap(f, defs[i].name)];
    }
    assert defs[..|defs|] == defs;
  }

  lemma NamesNext(defs: seq<IndexDef>, i: nat)
    requires i < |defs|
    ensures Names(defs[..i + 1]) == Names(defs[..i]) + {defs[i].name}
  {
    assert defs[..i + 1] == defs[..i] + [defs[i]];
    assert defs[..i + 1][i] == defs[i];
    forall name | name in Names(defs[..i]) ensures name in Names(defs[..i + 1]) {
      var k :| 0 <= k < i && defs[..i][k].name == name;
      assert defs[..i + 1][k].name == name;
    }
  }

  lemma InvTransaction(c: Crypto, s: State)
    requires Inv(c, s, {})
    ensures s.inTransaction == s.disk.snapshot.Some?
  {
  }

  lemma LoadsAlike(f: Files, f1: Files, maps: map<string, IndexMap>)
    requires f1.indexes == f.indexes && LoadIndexCatalog(f1) == LoadIndexCatalog(f)
    requires maps == map name | name in Names(LoadIndexCatalog(f1)) :: LoadIndexMap(f1, name)
    ensures maps == LoadedMaps(f)
  {
  }
}

/**
 Index maps: for every value of a column, the locators of the rows holding it, in file order.
 The full rebuild, the append path that refines it, and what a lookup followed by a read returns.
 */
module IndexMaps {
  import opened Types
  import opened ValueKeys
  import opened TableFile

  type IndexMap = map<string, seq<Locator>>

  function RowKey(row: Row, column: string): string {
    ValueKey(Get(row, column))
  }

  /** The rows whose column has the given key, in file order. */
  function Holding(rows: seq<Located>, column: string, key: string): seq<Located> {
    if rows == [] then [] else
    var last := rows[|rows| - 1];
    Holding(rows[..|rows| - 1], column, key) + (if RowKey(last.row.data, column) == key then [last] else [])
  }

  function Locators(rows: seq<Located>): (locs: seq<Locator>)
    ensures |locs| == |rows| && forall i :: 0 <= i < |rows| ==> locs[i] == rows[i].loc
  {
    seq(|rows|, i requires 0 <= i < |rows| => rows[i].loc)
  }

  function Datas(rows: seq<Located>): (datas: seq<Row>)
    ensures |datas| == |rows| && forall i :: 0 <= i < |rows| ==> datas[i] == rows[i].row.data
  {
    seq(|rows|, i requires 0 <= i < |rows| => rows[i].row.data)
  }

  function Keys(rows: seq<Located>, column: string): set<string> {
    set i | 0 <= i < |rows| :: RowKey(rows[i].row.data, column)
  }

  /** The index a full rebuild of a column produces. */
  function IndexOf(rows: seq<Located>, column: string): IndexMap {
    map key | key in Keys(rows, column) :: Locators(Holding(rows, column, key))
  }

  function Lookup(index: IndexMap, key: string): seq<Locator> {
    if key in index then index[key] else []
  }

  /** `map.entry(key).or_default().push(locator)`. */
  function Push(index: IndexMap, key: string, loc: Locator): IndexMap {
    index[key := Lookup(index, key) + [loc]]
  }

  lemma {:induction false} HoldingNothing(rows: seq<Located>, column: string, key: string)
    requires key !in Keys(rows, column)
    ensures Holding(rows, column, key) == []
  {
    if rows != [] {
      var n := |rows| - 1;
      forall i | 0 <= i < n ensures rows[..n][i] == rows[i] {}
      assert Keys(rows[..n], column) <= Keys(rows, column);
      HoldingNothing(rows[..n], column, key);
    }
  }

  lemma LookupIsHolding(rows: seq<Located>, column: string, key: string)
    ensures Lookup(IndexOf(rows, column), key) == Locators(Holding(rows, column, key))
  {
    if key !in Keys(rows, column) {
      HoldingNothing(rows, column, key);
    }
  }

  lemma KeysAppend(rows: seq<Located>, found: Located, column: string)
    ensures Keys(rows + [found], column) == Keys(rows, column) + {RowKey(found.row.data, column)}
  {
    var longer := rows + [found];
    assert longer[|rows|] == found;
    forall k | k in Keys(rows, column) ensures k in Keys(longer, column) {
      var i :| 0 <= i < |rows| && RowKey(rows[i].row.data, column) == k;
      assert longer[i] == rows[i];
    }
  }

  lemma HoldingAppend(rows: seq<Located>, found: Located, column: string, key: string)
    ensures Holding(rows + [found], column, key)
      == Holding(rows, column, key) + if RowKey(found.row.data, column) == key then [found] else []
  {
    assert (rows + [found])[..|rows|] == rows;
  }

  /** Pushing the locator of an appended row is the same as rebuilding the whole index. */
  lemma AppendRefinesRebuild(rows: seq<Located>, found: Located, column: string)
    ensures IndexOf(rows + [found], column) == Push(IndexOf(rows, column), RowKey(found.row.data, column), found.loc)
  {
    var key := RowKey(found.row.data, column);
    var rebuilt, pushed := IndexOf(rows + [found], column), Push(IndexOf(rows, column), key, found.loc);
    KeysAppend(rows, found, column);
    LookupIsHolding(rows, column, key);
    forall k | k in rebuilt ensures rebuilt[k] == pushed[k] {
      HoldingAppend(rows, found, column, k);
      if k == key {
        assert Locators(Holding(rows, column, k) + [found]) == Locators(Holding(rows, column, k)) + [found.loc];
      } else {
        assert Holding(rows + [found], column, k) == Holding(rows, column, k);
      }
    }
  }

  /** The loop of `rebuild_index`. */
  method Rebuild(rows: seq<Located>, column: string) returns (index: IndexMap)
    ensures index == IndexOf(rows, column)
  {
    index := map[];
    for i := 0 to |rows|
      invariant index == IndexOf(rows[..i], column)
    {
      var key := RowKey(rows[i].row.data, column);
      AppendRefinesRebuild(rows[..i], rows[i], column);
      assert rows[..i + 1] == rows[..i] + [rows[i]];
      index := Push(index, key, rows[i].loc);
    }
    assert rows[..|rows|] == rows;
  }

  // ---- reading through locators ----

  ghost predicate IdsIncrease(rows: seq<Located>) {
    forall i, j :: 0 <= i < j < |rows| ==> rows[i].row.id < rows[j].row.id
  }

  lemma {:induction false} HoldingIsSelection(rows: seq<Located>, column: string, key: string)
    ensures forall found :: found in Holding(rows, column, key) <==>
      found in rows && RowKey(found.row.data, column) == key
  {
    if rows != [] {
      var n := |rows| - 1;
      HoldingIsSelection(rows[..n], column, key);
      assert rows == rows[..n] + [rows[n]];
    }
  }

  /** The id-based fallback: the rows whose id is wanted, in file order. */
  function WithIds(rows: seq<Located>, ids: set<nat>): seq<Row> {
    if rows == [] then [] else
    var last := rows[|rows| - 1];
    WithIds(rows[..|rows| - 1], ids) + (if last.row.id in ids then [last.row.data] else [])
  }

  function Ids(locs: seq<Locator>): set<nat> {
    set i | 0 <= i < |locs| :: locs[i].id
  }

  lemma {:induction false} WithIdsIsHolding(rows: seq<Located>, column: string, key: string, ids: set<nat>)
    requires forall i :: 0 <= i < |rows| ==>
      (rows[i].row.id in ids <==> RowKey(rows[i].row.data, column) == key)
    ensures WithIds(rows, ids) == Datas(Holding(rows, column, key))
  {
    if rows != [] {
      var n := |rows| - 1;
      WithIdsIsHolding(rows[..n], column, key, ids);
    }
  }

  /** With increasing ids, the fallback selects the rows an index bucket stands for. */
  lemma FallbackReadsBucket(rows: seq<Located>, column: string, key: string)
    requires IdsIncrease(rows)
    requires forall i :: 0 <= i < |rows| ==> rows[i].loc.id == rows[i].row.id
    ensures WithIds(rows, Ids(Locators(Holding(rows, column, key)))) == Datas(Holding(rows, column, key))
  {
    var held := Holding(rows, column, key);
    var ids := Ids(Locators(held));
    HoldingIsSelection(rows, column, key);
    forall i | 0 <= i < |rows|
      ensures rows[i].row.id in ids <==> RowKey(rows[i].row.data, column) == key
    {
      if rows[i].row.id in ids {
        var j :| 0 <= j < |held| && held[j].loc.id == rows[i].row.id;
        assert held[j] in rows;
        var m :| 0 <= m < |rows| && rows[m] == held[j];
        assert m == i;
      }
      if RowKey(rows[i].row.data, column) == key {
        assert rows[i] in held;
        var j :| 0 <= j < |held| && held[j] == rows[i];
        assert Locators(held)[j].id == rows[i].row.id;
      }
    }
    WithIdsIsHolding(rows, column, key, ids);
  }

  predicate AllReadable(c: Crypto, file: Bytes, locators: seq<Locator>) {
    forall i :: 0 <= i < |locators| ==> RowAt(c, file, locators[i]).Some?
  }

  function ReadAll(c: Crypto, file: Bytes, locators: seq<Locator>): (rows: seq<Row>)
    requires AllReadable(c, file, locators)
    ensures |rows| == |locators|
    ensures forall i :: 0 <= i < |rows| ==> RowAt(c, file, locators[i]) == Some(rows[i])
  {
    seq(|locators|, i requires 0 <= i < |locators| => RowAt(c, file, locators[i]).value)
  }

  function ReadResult(c: Crypto, file: Bytes, locators: seq<Locator>): Result<seq<Row>> {
    if AllReadable(c, file, locators) then Ok(ReadAll(c, file, locators))
    else match Scan(c, file, 0)
      case Ok(rows) => Ok(WithIds(rows, Ids(locators)))
      case Err(e) => Err(e)
  }

  /** `read_rows_filtered`: read by locator, and when any locator fails, scan for the wanted ids. */
  method ReadThrough(c: Crypto, file: Bytes, locators: seq<Locator>) returns (r: Result<seq<Row>>)
    ensures r == ReadResult(c, file, locators)
  {
    r := ReadRowsAt(c, file, locators);
    if r.Err? {
      var wanted := set i | 0 <= i < |locators| :: locators[i].id;
      var scanned := ReadLocated(c, file);
      if scanned.Err? {
        return Err(scanned.error);
      }
      var rows := scanned.value;
      var kept: seq<Row> := [];
      for i := 0 to |rows|
        invariant kept == WithIds(rows[..i], wanted)
      {
        assert rows[..i + 1][..i] == rows[..i];
        if rows[i].row.id in wanted {
          kept := kept + [rows[i].row.data];
        }
      }
      assert rows[..|rows|] == rows;
      r := Ok(kept);
    } else {
      assert r.value == ReadAll(c, file, locators);
    }
  }

  lemma HeldRowsReadBack(c: Crypto, file: Bytes, column: string, key: string, j: nat)
    requires Tidy(c, file)
    requires j < |Holding(RowsOf(c, file), column, key)|
    ensures var found := Holding(RowsOf(c, file), column, key)[j];
      RowAt(c, file, found.loc) == Some(found.row.data) || RowAt(c, file, found.loc).None?
  {
    var rows := RowsOf(c, file);
    HoldingIsSelection(rows, column, key);
    var found := Holding(rows, column, key)[j];
    assert found in rows;
    var i :| 0 <= i < |rows| && rows[i] == found;
    LocatorNeverMisreads(c, file, i);
  }

  /** Whatever lengths the lines have, an index bucket reads back exactly the rows it stands for. */
  lemma BucketReadsItsRows(c: Crypto, file: Bytes, column: string, key: string)
    requires Tidy(c, file) && IdsIncrease(RowsOf(c, file))
    ensures var held := Holding(RowsOf(c, file), column, key);
      ReadResult(c, file, Locators(held)) == Ok(Datas(held))
  {
    var rows := RowsOf(c, file);
    var held := Holding(rows, column, key);
    if AllReadable(c, file, Locators(held)) {
      var got := ReadAll(c, file, Locators(held));
      forall j | 0 <= j < |held| ensures got[j] == Datas(held)[j] {
        HeldRowsReadBack(c, file, column, key, j);
        assert RowAt(c, file, Locators(held)[j]) == Some(got[j]);
      }
      assert got == Datas(held);
    } else {
      TidyScans(c, file);
      forall i | 0 <= i < |rows| ensures rows[i].loc.id == rows[i].row.id {
        LocatorNeverMisreads(c, file, i);
      }
      FallbackReadsBucket(rows, column, key);
    }
  }
}

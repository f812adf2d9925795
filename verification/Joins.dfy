/** JOIN: the hash join, the nested loops it refines, and how the columns of both sides are merged. */
module Joins {
  import opened Types
  import opened ValueKeys
  import opened IndexMaps
  import opened Database
  import opened Ast

  /** A right column with the name it gets in the joined row. */
  datatype Renaming = Renaming(original: string, name: string)

  /** What the clauses joined so far have produced. */
  datatype Joined = Joined(rows: seq<Row>, columns: seq<Column>, names: map<(string, string), string>)

  // ---- columns ----

  /** The name of a right column: prefixed with its table when the merged columns already have it. */
  function MergedName(columns: seq<Column>, table: string, name: string): string {
    if HasColumn(columns, name) then table + "_" + name else name
  }

  /** The right columns are appended one by one to the merged columns. */
  function MergeColumns(columns: seq<Column>, table: string, right: seq<Column>): seq<Column>
    decreases |right|
  {
    if right == [] then columns else
    var name := MergedName(columns, table, right[0].name);
    MergeColumns(columns + [right[0].(name := name)], table, right[1..])
  }

  function Renamings(columns: seq<Column>, table: string, right: seq<Column>): seq<Renaming>
    decreases |right|
  {
    if right == [] then [] else
    var name := MergedName(columns, table, right[0].name);
    [Renaming(right[0].name, name)] + Renamings(columns + [right[0].(name := name)], table, right[1..])
  }

  function MergeNames(names: map<(string, string), string>, table: string, renamings: seq<Renaming>):
    map<(string, string), string>
    decreases |renamings|
  {
    if renamings == [] then names else
    MergeNames(names[(table, renamings[0].original) := renamings[0].name], table, renamings[1..])
  }

  /** The column of the joined rows a clause's left side refers to. */
  function LeftLookup(names: map<(string, string), string>, clause: JoinClause): string {
    match clause.leftTable
    case Some(t) => if (t, clause.leftColumn) in names then names[(t, clause.leftColumn)] else clause.leftColumn
    case None => clause.leftColumn
  }

  // ---- rows ----

  /** A left row extended with the renamed columns of a right row. */
  function MergeRow(left: Row, right: Row, renamings: seq<Renaming>): Row {
    if renamings == [] then left else
    var n := |renamings| - 1;
    MergeRow(left, right, renamings[..n])[renamings[n].name := Get(right, renamings[n].original)]
  }

  /** The joined rows of one left row: one per right row with the same value, in the right rows' order. */
  function Pairs(left: Row, lookup: string, rights: seq<Row>, rightColumn: string, renamings: seq<Renaming>): seq<Row> {
    if rights == [] then [] else
    var n := |rights| - 1;
    Pairs(left, lookup, rights[..n], rightColumn, renamings)
      + if Get(left, lookup) == Get(rights[n], rightColumn) then [MergeRow(left, rights[n], renamings)] else []
  }

  /** The nested loops: left-major, NULL equal to NULL and a missing value read as NULL. */
  function NestedJoin(lefts: seq<Row>, lookup: string, rights: seq<Row>, rightColumn: string, renamings: seq<Renaming>):
    seq<Row>
  {
    if lefts == [] then [] else
    var n := |lefts| - 1;
    NestedJoin(lefts[..n], lookup, rights, rightColumn, renamings)
      + Pairs(lefts[n], lookup, rights, rightColumn, renamings)
  }

  /** One JOIN clause over the logical database. */
  function JoinOne(db: Db, sofar: Joined, clause: JoinClause): Result<Joined> {
    if clause.table !in db.tables then Err(TableNotFound(clause.table)) else
    var right := db.tables[clause.table];
    var renamings := Renamings(sofar.columns, clause.table, right.columns);
    var names := MergeNames(sofar.names, clause.table, renamings);
    Ok(Joined(NestedJoin(sofar.rows, LeftLookup(names, clause), right.rows, clause.rightColumn, renamings),
              MergeColumns(sofar.columns, clause.table, right.columns), names))
  }

  /** All JOIN clauses, left to right. */
  function JoinAll(db: Db, sofar: Joined, joins: seq<JoinClause>): Result<Joined>
    decreases |joins|
  {
    if joins == [] then Ok(sofar) else
    var next :- JoinOne(db, sofar, joins[0]);
    JoinAll(db, next, joins[1..])
  }

  function StartNames(table: string, columns: seq<Column>): map<(string, string), string> {
    map i | 0 <= i < |columns| :: (table, columns[i].name) := columns[i].name
  }

  // ---- the hash join ----

  function HasRowKey(column: string, key: string): Row -> bool {
    (row: Row) => RowKey(row, column) == key
  }

  /** A left row joined with the right rows of one bucket. */
  function Extend(left: Row, bucket: seq<Row>, renamings: seq<Renaming>): seq<Row> {
    if bucket == [] then [] else
    var n := |bucket| - 1;
    Extend(left, bucket[..n], renamings) + [MergeRow(left, bucket[n], renamings)]
  }

  /** The bucket of a left row's key holds exactly the right rows of its pairs, in order. */
  lemma {:induction false} BucketGivesPairs(left: Row, lookup: string, rights: seq<Row>, rightColumn: string,
                                            renamings: seq<Renaming>)
    ensures Extend(left, Keep(rights, HasRowKey(rightColumn, RowKey(left, lookup))), renamings)
      == Pairs(left, lookup, rights, rightColumn, renamings)
  {
    if rights != [] {
      var n := |rights| - 1;
      var bucket := Keep(rights[..n], HasRowKey(rightColumn, RowKey(left, lookup)));
      BucketGivesPairs(left, lookup, rights[..n], rightColumn, renamings);
      assert (bucket + [rights[n]])[..|bucket|] == bucket && bucket + [] == bucket;
      if RowKey(rights[n], rightColumn) == RowKey(left, lookup) {
        ValueKeyInjective(Get(rights[n], rightColumn), Get(left, lookup));
      }
    }
  }

  function BucketAt(buckets: map<string, seq<Row>>, key: string): seq<Row> {
    if key in buckets then buckets[key] else []
  }

  /** Each bucket holds the rows with its key, in order. */
  ghost predicate BucketsHold(rights: seq<Row>, rightColumn: string, buckets: map<string, seq<Row>>) {
    forall key :: BucketAt(buckets, key) == Keep(rights, HasRowKey(rightColumn, key))
  }

  lemma BucketsNext(rights: seq<Row>, row: Row, rightColumn: string, buckets: map<string, seq<Row>>)
    requires BucketsHold(rights, rightColumn, buckets)
    ensures var key := RowKey(row, rightColumn);
      BucketsHold(rights + [row], rightColumn, buckets[key := BucketAt(buckets, key) + [row]])
  {
    var key := RowKey(row, rightColumn);
    var next := buckets[key := BucketAt(buckets, key) + [row]];
    forall k ensures BucketAt(next, k) == Keep(rights + [row], HasRowKey(rightColumn, k)) {
      KeepAppend(rights, row, HasRowKey(rightColumn, k));
      assert BucketAt(buckets, k) == Keep(rights, HasRowKey(rightColumn, k));
    }
  }

  lemma BucketsStart(rightColumn: string)
    ensures BucketsHold([], rightColumn, map[])
  {
  }

  /** Filling the buckets of the right rows. */
  method BuildBuckets(rights: seq<Row>, rightColumn: string) returns (buckets: map<string, seq<Row>>)
    ensures BucketsHold(rights, rightColumn, buckets)
  {
    hide BucketsHold, BucketAt;
    buckets := map[];
    BucketsStart(rightColumn);
    assert rights[..0] == [];
    for i := 0 to |rights|
      invariant BucketsHold(rights[..i], rightColumn, buckets)
    {
      var key := RowKey(rights[i], rightColumn);
      BucketsNext(rights[..i], rights[i], rightColumn, buckets);
      assert rights[..i + 1] == rights[..i] + [rights[i]];
      buckets := buckets[key := BucketAt(buckets, key) + [rights[i]]];
    }
    assert rights[..|rights|] == rights;
  }

  /** Joining one left row with its bucket. */
  method ExtendLoop(left: Row, bucket: seq<Row>, renamings: seq<Renaming>) returns (joined: seq<Row>)
    ensures joined == Extend(left, bucket, renamings)
  {
    joined := [];
    for j := 0 to |bucket|
      invariant joined == Extend(left, bucket[..j], renamings)
    {
      assert bucket[..j + 1][..j] == bucket[..j];
      joined := joined + [MergeRow(left, bucket[j], renamings)];
    }
    assert bucket[..|bucket|] == bucket;
  }

  /** The hash join of one clause yields exactly the nested loops' rows, in their order. */
  method HashJoin(lefts: seq<Row>, lookup: string, rights: seq<Row>, rightColumn: string, renamings: seq<Renaming>)
    returns (joined: seq<Row>)
    ensures joined == NestedJoin(lefts, lookup, rights, rightColumn, renamings)
  {
    var buckets := BuildBuckets(rights, rightColumn);
    joined := [];
    for i := 0 to |lefts|
      invariant joined == NestedJoin(lefts[..i], lookup, rights, rightColumn, renamings)
    {
      assert lefts[..i + 1][..i] == lefts[..i];
      var key := RowKey(lefts[i], lookup);
      BucketGivesPairs(lefts[i], lookup, rights, rightColumn, renamings);
      assert BucketAt(buckets, key) == Keep(rights, HasRowKey(rightColumn, key));
      if key in buckets {
        var matches := ExtendLoop(lefts[i], buckets[key], renamings);
        joined := joined + matches;
      } else {
        assert joined + [] == joined;
      }
    }
    assert lefts[..|lefts|] == lefts;
  }

  // ---- what the nested loops mean ----

  /** `row` merges the left row with a right row that agrees with it on the join columns. */
  ghost predicate IsPair(left: Row, lookup: string, rights: seq<Row>, rightColumn: string, renamings: seq<Renaming>, row: Row) {
    exists j :: 0 <= j < |rights| && Get(left, lookup) == Get(rights[j], rightColumn)
      && row == MergeRow(left, rights[j], renamings)
  }

  lemma {:induction false} PairsMembers(left: Row, lookup: string, rights: seq<Row>, rightColumn: string,
                                        renamings: seq<Renaming>, row: Row)
    ensures row in Pairs(left, lookup, rights, rightColumn, renamings)
      <==> IsPair(left, lookup, rights, rightColumn, renamings, row)
  {
    if rights != [] {
      var n := |rights| - 1;
      PairsMembers(left, lookup, rights[..n], rightColumn, renamings, row);
      assert forall j :: 0 <= j < n ==> rights[..n][j] == rights[j];
    }
  }

  /** A row is in the join exactly when it merges a left and a right row that agree on the join columns. */
  lemma {:induction false} JoinMembers(lefts: seq<Row>, lookup: string, rights: seq<Row>, rightColumn: string,
                                       renamings: seq<Renaming>, row: Row)
    ensures row in NestedJoin(lefts, lookup, rights, rightColumn, renamings)
      <==> exists i :: 0 <= i < |lefts| && IsPair(lefts[i], lookup, rights, rightColumn, renamings, row)
  {
    hide IsPair, Pairs;
    if lefts != [] {
      var n := |lefts| - 1;
      JoinMembers(lefts[..n], lookup, rights, rightColumn, renamings, row);
      PairsMembers(lefts[n], lookup, rights, rightColumn, renamings, row);
      assert forall i :: 0 <= i < n ==> lefts[..n][i] == lefts[i];
    }
  }

  // ---- which columns survive ----

  /** The right column that ends up under a name: that of the last renaming onto it. */
  function Origin(renamings: seq<Renaming>, name: string): Option<string> {
    if renamings == [] then None else
    var n := |renamings| - 1;
    if renamings[n].name == name then Some(renamings[n].original) else Origin(renamings[..n], name)
  }

  /** A merged row reads the right row under the names renamed onto, and the left row under all others. */
  lemma {:induction false} MergedReads(left: Row, right: Row, renamings: seq<Renaming>, name: string)
    ensures Get(MergeRow(left, right, renamings), name) ==
      match Origin(renamings, name)
      case None => Get(left, name)
      case Some(original) => Get(right, original)
  {
    if renamings != [] {
      MergedReads(left, right, renamings[..|renamings| - 1], name);
    }
  }

  /** No right column takes the name, unless the join condition makes it bring the same value. */
  predicate ClauseKeeps(renamings: seq<Renaming>, lookup: string, rightColumn: string, name: string) {
    Origin(renamings, name).None? || (name == lookup && Origin(renamings, name) == Some(rightColumn))
  }

  /** Every pair that agrees on the join columns, and only such pairs are merged, keeps the left value of the name. */
  ghost predicate AlwaysSurvives(renamings: seq<Renaming>, lookup: string, rightColumn: string, name: string) {
    forall left: Row, right: Row ::
      Get(left, lookup) == Get(right, rightColumn) ==> Get(MergeRow(left, right, renamings), name) == Get(left, name)
  }

  /** A left column survives every merge of a clause, whatever the rows, exactly when the clause keeps it. */
  lemma LeftSurvivesIffKept(renamings: seq<Renaming>, lookup: string, rightColumn: string, name: string)
    ensures AlwaysSurvives(renamings, lookup, rightColumn, name) <==> ClauseKeeps(renamings, lookup, rightColumn, name)
  {
    if ClauseKeeps(renamings, lookup, rightColumn, name) {
      forall left: Row, right: Row | Get(left, lookup) == Get(right, rightColumn)
        ensures Get(MergeRow(left, right, renamings), name) == Get(left, name)
      {
        MergedReads(left, right, renamings, name);
      }
    } else {
      var left, right := LosingPair(renamings, lookup, rightColumn, name);
    }
  }

  /** Two rows that agree on the join columns and whose merge changes the left value. */
  lemma LosingPair(renamings: seq<Renaming>, lookup: string, rightColumn: string, name: string) returns (left: Row, right: Row)
    requires !ClauseKeeps(renamings, lookup, rightColumn, name)
    ensures Get(left, lookup) == Get(right, rightColumn)
    ensures Get(MergeRow(left, right, renamings), name) != Get(left, name)
  {
    var origin := Origin(renamings, name).value;
    var shared := if name == lookup then Bool(true) else Bool(false);
    left := map[lookup := shared][name := Bool(true)];
    right := map[origin := Bool(false)][rightColumn := shared];
    MergedReads(left, right, renamings, name);
  }

  predicate Renames(renamings: seq<Renaming>, name: string) {
    exists i :: 0 <= i < |renamings| && renamings[i].name == name
  }

  lemma {:induction false} OriginMeansRenames(renamings: seq<Renaming>, name: string)
    ensures Origin(renamings, name).Some? <==> Renames(renamings, name)
  {
    if renamings != [] {
      var n := |renamings| - 1;
      OriginMeansRenames(renamings[..n], name);
      if i :| 0 <= i < |renamings| && renamings[i].name == name {
        assert i < n ==> renamings[..n][i].name == name;
      }
      if i :| 0 <= i < n && renamings[..n][i].name == name {
        assert renamings[i].name == name;
      }
    }
  }

  /** Names not taken from a collision are always fresh. */
  lemma {:induction false} OnlyPrefixedNamesCollide(columns: seq<Column>, table: string, right: seq<Column>, name: string)
    requires HasColumn(columns, name) && Renames(Renamings(columns, table, right), name)
    ensures exists i :: 0 <= i < |right| && name == table + "_" + right[i].name
    decreases |right|
  {
    var merged := MergedName(columns, table, right[0].name);
    var renamings := Renamings(columns, table, right);
    if merged == name {
      assert name == table + "_" + right[0].name;
    } else {
      var wider := columns + [right[0].(name := merged)];
      var i :| 0 <= i < |renamings| && renamings[i].name == name;
      assert Renamings(wider, table, right[1..])[i - 1].name == name;
      var k :| 0 <= k < |columns| && columns[k].name == name;
      assert wider[k].name == name;
      OnlyPrefixedNamesCollide(wider, table, right[1..], name);
      var j :| 0 <= j < |right[1..]| && name == table + "_" + right[1..][j].name;
      assert right[j + 1] == right[1..][j];
    }
  }

  // ---- the fold over all clauses ----

  /** Every clause of the chain keeps the name. */
  predicate NeverOverwritten(db: Db, columns: seq<Column>, names: map<(string, string), string>, joins: seq<JoinClause>, name: string)
    decreases |joins|
  {
    joins == [] || (joins[0].table in db.tables &&
      var right := db.tables[joins[0].table].columns;
      var renamings := Renamings(columns, joins[0].table, right);
      var known := MergeNames(names, joins[0].table, renamings);
      && ClauseKeeps(renamings, LeftLookup(known, joins[0]), joins[0].rightColumn, name)
      && NeverOverwritten(db, MergeColumns(columns, joins[0].table, right), known, joins[1..], name))
  }

  /** The row extends the left row: under names no clause overwrites, it holds the left row's values. */
  ghost predicate ExtendsRow(db: Db, sofar: Joined, joins: seq<JoinClause>, left: Row, row: Row) {
    forall name :: NeverOverwritten(db, sofar.columns, sofar.names, joins, name) ==> Get(row, name) == Get(left, name)
  }

  lemma MergedRowExtends(db: Db, sofar: Joined, clause: JoinClause, mid: Row) returns (left: Row)
    requires JoinOne(db, sofar, clause).Ok? && mid in JoinOne(db, sofar, clause).value.rows
    ensures left in sofar.rows && clause.table in db.tables
    ensures var renamings := Renamings(sofar.columns, clause.table, db.tables[clause.table].columns);
      var lookup := LeftLookup(MergeNames(sofar.names, clause.table, renamings), clause);
      forall name :: ClauseKeeps(renamings, lookup, clause.rightColumn, name) ==> Get(mid, name) == Get(left, name)
  {
    hide ClauseKeeps, Pairs, NestedJoin, IsPair;
    var rights := db.tables[clause.table].rows;
    var renamings := Renamings(sofar.columns, clause.table, db.tables[clause.table].columns);
    var lookup := LeftLookup(MergeNames(sofar.names, clause.table, renamings), clause);
    JoinMembers(sofar.rows, lookup, rights, clause.rightColumn, renamings, mid);
    var i :| 0 <= i < |sofar.rows| && IsPair(sofar.rows[i], lookup, rights, clause.rightColumn, renamings, mid);
    left := sofar.rows[i];
    var right := PairMerges(left, lookup, rights, clause.rightColumn, renamings, mid);
    forall name | ClauseKeeps(renamings, lookup, clause.rightColumn, name) ensures Get(mid, name) == Get(left, name) {
      LeftSurvivesIffKept(renamings, lookup, clause.rightColumn, name);
    }
  }

  lemma PairMerges(left: Row, lookup: string, rights: seq<Row>, rightColumn: string, renamings: seq<Renaming>, row: Row)
    returns (right: Row)
    requires IsPair(left, lookup, rights, rightColumn, renamings, row)
    ensures Get(left, lookup) == Get(right, rightColumn) && row == MergeRow(left, right, renamings)
  {
    var j :| 0 <= j < |rights| && Get(left, lookup) == Get(rights[j], rightColumn)
      && row == MergeRow(left, rights[j], renamings);
    right := rights[j];
  }

  /** Every row of a chain of joins extends one row of the first table. */
  lemma {:induction false} FirstTableSurvives(db: Db, sofar: Joined, joins: seq<JoinClause>, row: Row) returns (left: Row)
    requires JoinAll(db, sofar, joins).Ok? && row in JoinAll(db, sofar, joins).value.rows
    ensures left in sofar.rows && ExtendsRow(db, sofar, joins, left, row)
    decreases |joins|
  {
    if joins == [] {
      left := row;
    } else {
      hide JoinOne, Renamings, MergeColumns, ClauseKeeps, LeftLookup;
      var next := JoinOne(db, sofar, joins[0]).value;
      var mid := FirstTableSurvives(db, next, joins[1..], row);
      left := MergedRowExtends(db, sofar, joins[0], mid);
      NextColumns(db, sofar, joins[0]);
      forall name | NeverOverwritten(db, sofar.columns, sofar.names, joins, name) ensures Get(row, name) == Get(left, name) {
        assert NeverOverwritten(db, next.columns, next.names, joins[1..], name);
      }
    }
  }

  lemma NextColumns(db: Db, sofar: Joined, clause: JoinClause)
    requires JoinOne(db, sofar, clause).Ok?
    ensures clause.table in db.tables
    ensures var right := db.tables[clause.table].columns;
      && JoinOne(db, sofar, clause).value.columns == MergeColumns(sofar.columns, clause.table, right)
      && JoinOne(db, sofar, clause).value.names == MergeNames(sofar.names, clause.table, Renamings(sofar.columns, clause.table, right))
  {
  }
}

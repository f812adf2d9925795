/**
 What a chain of joins means: tuples of rows, one per table, that agree on the columns each clause names. The joined
 rows are those tuples, in the same order, with every column found under its merged name.
 */
module JoinMeaning {
  import opened Types
  import opened Database
  import opened Ast
  import opened Joins

  type NameMap = map<(string, string), string>

  /** The rows a joined row was made of, by table. */
  type Tuple = map<string, Row>

  // ---- names ----

  /** The name the last renaming of a right column gives it. */
  function NewName(renamings: seq<Renaming>, original: string): Option<string> {
    if renamings == [] then None else
    var later := NewName(renamings[1..], original);
    if later.Some? then later
    else if renamings[0].original == original then Some(renamings[0].name) else None
  }

  function NameFor(names: NameMap, key: (string, string)): Option<string> {
    if key in names then Some(names[key]) else None
  }

  /** Merging a clause's names replaces those of its own table and leaves all others. */
  lemma {:induction false} MergedNameFor(names: NameMap, table: string, renamings: seq<Renaming>, key: (string, string))
    ensures NameFor(MergeNames(names, table, renamings), key)
      == if key.0 == table && NewName(renamings, key.1).Some? then NewName(renamings, key.1) else NameFor(names, key)
    decreases |renamings|
  {
    if renamings != [] {
      MergedNameFor(names[(table, renamings[0].original) := renamings[0].name], table, renamings[1..], key);
    }
  }

  /**
   The left column of a clause is looked up after its right names are merged. The lookup is the same as before exactly
   when the clause's left side does not name the joined table itself, or that table brings no other name for it; if it does, that name is read.
   */
  lemma LookupUnmoved(names: NameMap, renamings: seq<Renaming>, clause: JoinClause)
    ensures LeftLookup(MergeNames(names, clause.table, renamings), clause) == LeftLookup(names, clause)
      <==> (clause.leftTable != Some(clause.table)
            || NewName(renamings, clause.leftColumn) in {None, Some(LeftLookup(names, clause))})
    ensures clause.leftTable == Some(clause.table) && NewName(renamings, clause.leftColumn).Some? ==>
      Some(LeftLookup(MergeNames(names, clause.table, renamings), clause)) == NewName(renamings, clause.leftColumn)
  {
    if clause.leftTable.Some? {
      MergedNameFor(names, clause.table, renamings, (clause.leftTable.value, clause.leftColumn));
    }
  }

  // ---- tuples ----

  /** The row shows the tuple: each known column of each table, under its merged name. */
  ghost predicate Shows(names: NameMap, row: Row, tuple: Tuple) {
    forall key :: key in names ==> key.0 in tuple && Get(row, names[key]) == Get(tuple[key.0], key.1)
  }

  ghost predicate AllShow(names: NameMap, rows: seq<Row>, tuples: seq<Tuple>) {
    |rows| == |tuples| && forall i :: 0 <= i < |rows| ==> Shows(names, rows[i], tuples[i])
  }

  lemma AllShowAppend(names: NameMap, rows: seq<Row>, tuples: seq<Tuple>, more: seq<Row>, others: seq<Tuple>)
    requires AllShow(names, rows, tuples) && AllShow(names, more, others)
    ensures AllShow(names, rows + more, tuples + others)
  {
  }

  /** The table and column the left side of a clause names: qualified, or by its merged name. */
  ghost function LeftKey(names: NameMap, clause: JoinClause): (r: Option<(string, string)>)
    ensures r.Some? ==> r.value in names && names[r.value] == LeftLookup(names, clause)
  {
    match clause.leftTable
    case Some(t) => if (t, clause.leftColumn) in names then Some((t, clause.leftColumn)) else None
    case None =>
      if exists key :: key in names && names[key] == clause.leftColumn then
        var key :| key in names && names[key] == clause.leftColumn;
        Some(key)
      else None
  }

  function RowIn(tuple: Tuple, table: string): Row {
    if table in tuple then tuple[table] else map[]
  }

  /** The tuple extended by each right row that agrees with it on the columns the clause names. */
  function TuplePairs(tuple: Tuple, key: (string, string), rights: seq<Row>, clause: JoinClause): seq<Tuple> {
    if rights == [] then [] else
    var n := |rights| - 1;
    TuplePairs(tuple, key, rights[..n], clause)
      + if Get(RowIn(tuple, key.0), key.1) == Get(rights[n], clause.rightColumn) then [tuple[clause.table := rights[n]]] else []
  }

  /** One clause over tuples: left-major, right rows in file order. */
  function TupleJoin(tuples: seq<Tuple>, key: (string, string), rights: seq<Row>, clause: JoinClause): seq<Tuple> {
    if tuples == [] then [] else
    var n := |tuples| - 1;
    TupleJoin(tuples[..n], key, rights, clause) + TuplePairs(tuples[n], key, rights, clause)
  }

  // ---- one clause ----

  /** The right columns keep apart: each is what ends up under its own new name. */
  predicate OwnNames(renamings: seq<Renaming>) {
    forall i :: 0 <= i < |renamings| ==> ReadsItself(renamings, renamings[i].original)
  }

  predicate ReadsItself(renamings: seq<Renaming>, original: string) {
    NewName(renamings, original).Some? && Origin(renamings, NewName(renamings, original).value) == Some(original)
  }

  /** The table is new, the left side names a known column, and no known name is overwritten. */
  ghost predicate ClauseFaithful(names: NameMap, renamings: seq<Renaming>, clause: JoinClause) {
    && (forall key :: key in names ==> key.0 != clause.table)
    && LeftKey(names, clause).Some?
    && (forall key :: key in names ==> ClauseKeeps(renamings, LeftLookup(names, clause), clause.rightColumn, names[key]))
    && OwnNames(renamings)
  }

  lemma {:induction false} NewNameMeans(renamings: seq<Renaming>, original: string)
    ensures NewName(renamings, original).Some? <==> exists i :: 0 <= i < |renamings| && renamings[i].original == original
    ensures NewName(renamings, original).Some? ==>
      exists i :: 0 <= i < |renamings| && renamings[i] == Renaming(original, NewName(renamings, original).value)
  {
    if renamings != [] {
      NewNameMeans(renamings[1..], original);
      assert forall i :: 0 < i < |renamings| ==> renamings[i] == renamings[1..][i - 1];
    }
  }

  /** A merged pair shows the extended tuple. */
  lemma MergedPairShows(names: NameMap, renamings: seq<Renaming>, clause: JoinClause, left: Row, tuple: Tuple, right: Row)
    requires ClauseFaithful(names, renamings, clause) && Shows(names, left, tuple)
    requires Get(left, LeftLookup(names, clause)) == Get(right, clause.rightColumn)
    ensures Shows(MergeNames(names, clause.table, renamings), MergeRow(left, right, renamings), tuple[clause.table := right])
  {
    var known, merged, wider := MergeNames(names, clause.table, renamings), MergeRow(left, right, renamings), tuple[clause.table := right];
    forall key | key in known ensures key.0 in wider && Get(merged, known[key]) == Get(wider[key.0], key.1) {
      MergedNameFor(names, clause.table, renamings, key);
      if key.0 == clause.table {
        NewNameMeans(renamings, key.1);
        assert ReadsItself(renamings, key.1);
        MergedReads(left, right, renamings, known[key]);
      } else {
        LeftSurvivesIffKept(renamings, LeftLookup(names, clause), clause.rightColumn, names[key]);
      }
    }
  }

  lemma {:induction false} PairsShow(names: NameMap, renamings: seq<Renaming>, clause: JoinClause, left: Row, tuple: Tuple,
                                     rights: seq<Row>)
    requires ClauseFaithful(names, renamings, clause) && Shows(names, left, tuple)
    ensures AllShow(MergeNames(names, clause.table, renamings),
      Pairs(left, LeftLookup(names, clause), rights, clause.rightColumn, renamings),
      TuplePairs(tuple, LeftKey(names, clause).value, rights, clause))
  {
    hide ClauseFaithful, MergeNames, MergeRow;
    if rights != [] {
      var n := |rights| - 1;
      PairsShow(names, renamings, clause, left, tuple, rights[..n]);
      LeftIsRead(names, renamings, clause, left, tuple);
      if Get(left, LeftLookup(names, clause)) == Get(rights[n], clause.rightColumn) {
        MergedPairShows(names, renamings, clause, left, tuple, rights[n]);
      }
    }
  }

  /** What the clause compares is the column of the table it names. */
  lemma LeftIsRead(names: NameMap, renamings: seq<Renaming>, clause: JoinClause, left: Row, tuple: Tuple)
    requires ClauseFaithful(names, renamings, clause) && Shows(names, left, tuple)
    ensures LeftKey(names, clause).Some?
    ensures var key := LeftKey(names, clause).value; Get(left, LeftLookup(names, clause)) == Get(RowIn(tuple, key.0), key.1)
  {
  }

  /** The code's lookup is the name of the column the clause names. */
  lemma FaithfulLookup(names: NameMap, renamings: seq<Renaming>, clause: JoinClause)
    requires ClauseFaithful(names, renamings, clause)
    ensures LeftLookup(MergeNames(names, clause.table, renamings), clause) == LeftLookup(names, clause)
  {
    LookupUnmoved(names, renamings, clause);
  }

  lemma {:induction false} ClauseShows(names: NameMap, renamings: seq<Renaming>, clause: JoinClause, lefts: seq<Row>,
                                       tuples: seq<Tuple>, rights: seq<Row>)
    requires ClauseFaithful(names, renamings, clause) && AllShow(names, lefts, tuples)
    ensures LeftKey(names, clause).Some?
    ensures AllShow(MergeNames(names, clause.table, renamings),
      NestedJoin(lefts, LeftLookup(names, clause), rights, clause.rightColumn, renamings),
      TupleJoin(tuples, LeftKey(names, clause).value, rights, clause))
  {
    hide Shows, MergeNames, Pairs, TuplePairs, LeftLookup;
    if lefts != [] {
      var n := |lefts| - 1;
      hide ClauseFaithful;
      KeyThere(names, renamings, clause);
      ClauseShows(names, renamings, clause, lefts[..n], tuples[..n], rights);
      PairsShow(names, renamings, clause, lefts[n], tuples[n], rights);
      AllShowAppend(MergeNames(names, clause.table, renamings),
        NestedJoin(lefts[..n], LeftLookup(names, clause), rights, clause.rightColumn, renamings),
        TupleJoin(tuples[..n], LeftKey(names, clause).value, rights, clause),
        Pairs(lefts[n], LeftLookup(names, clause), rights, clause.rightColumn, renamings),
        TuplePairs(tuples[n], LeftKey(names, clause).value, rights, clause));
    }
  }

  lemma KeyThere(names: NameMap, renamings: seq<Renaming>, clause: JoinClause)
    requires ClauseFaithful(names, renamings, clause)
    ensures LeftKey(names, clause).Some?
  {
  }

  // ---- the whole chain ----

  ghost predicate ChainFaithful(db: Db, columns: seq<Column>, names: NameMap, joins: seq<JoinClause>)
    decreases |joins|
  {
    joins == [] || (joins[0].table in db.tables &&
      var right := db.tables[joins[0].table].columns;
      var renamings := Renamings(columns, joins[0].table, right);
      && ClauseFaithful(names, renamings, joins[0])
      && ChainFaithful(db, MergeColumns(columns, joins[0].table, right), MergeNames(names, joins[0].table, renamings), joins[1..]))
  }

  /** All clauses over tuples. */
  ghost function TupleJoinAll(db: Db, columns: seq<Column>, names: NameMap, joins: seq<JoinClause>, tuples: seq<Tuple>): seq<Tuple>
    requires ChainFaithful(db, columns, names, joins)
    decreases |joins|
  {
    if joins == [] then tuples else
    var right := db.tables[joins[0].table];
    TupleJoinAll(db, MergeColumns(columns, joins[0].table, right.columns),
      MergeNames(names, joins[0].table, Renamings(columns, joins[0].table, right.columns)), joins[1..],
      TupleJoin(tuples, LeftKey(names, joins[0]).value, right.rows, joins[0]))
  }

  /** A faithful chain of joins yields exactly the tuples its clauses describe, in their order. */
  lemma {:induction false} JoinsMeanTuples(db: Db, sofar: Joined, joins: seq<JoinClause>, tuples: seq<Tuple>)
    requires ChainFaithful(db, sofar.columns, sofar.names, joins) && AllShow(sofar.names, sofar.rows, tuples)
    ensures JoinAll(db, sofar, joins).Ok?
    ensures var joined := JoinAll(db, sofar, joins).value;
      AllShow(joined.names, joined.rows, TupleJoinAll(db, sofar.columns, sofar.names, joins, tuples))
    decreases |joins|
  {
    hide AllShow, ClauseFaithful, NestedJoin, TupleJoin, MergeNames, MergeColumns, Renamings, LeftLookup;
    if joins != [] {
      var clause, right := joins[0], db.tables[joins[0].table];
      var renamings := Renamings(sofar.columns, clause.table, right.columns);
      ClauseShows(sofar.names, renamings, clause, sofar.rows, tuples, right.rows);
      FaithfulLookup(sofar.names, renamings, clause);
      var next := JoinOne(db, sofar, clause).value;
      JoinsMeanTuples(db, next, joins[1..], TupleJoin(tuples, LeftKey(sofar.names, clause).value, right.rows, clause));
    }
  }

  // ---- distinct columns are enough ----

  ghost predicate NamesKnown(columns: seq<Column>, names: NameMap) {
    forall key :: key in names ==> HasColumn(columns, names[key])
  }

  /** Each clause joins a new table on a known column, and the merged columns stay distinct. */
  ghost predicate DistinctChain(db: Db, columns: seq<Column>, names: NameMap, joins: seq<JoinClause>)
    decreases |joins|
  {
    joins == [] || (joins[0].table in db.tables &&
      var right := db.tables[joins[0].table].columns;
      && (forall key :: key in names ==> key.0 != joins[0].table)
      && LeftKey(names, joins[0]).Some?
      && DistinctColumns(right) && DistinctColumns(MergeColumns(columns, joins[0].table, right))
      && DistinctChain(db, MergeColumns(columns, joins[0].table, right),
           MergeNames(names, joins[0].table, Renamings(columns, joins[0].table, right)), joins[1..]))
  }

  /** The merged columns are the old ones, followed by the right ones under their new names. */
  lemma {:induction false} MergedColumns(columns: seq<Column>, table: string, right: seq<Column>)
    ensures |Renamings(columns, table, right)| == |right|
    ensures |MergeColumns(columns, table, right)| == |columns| + |right|
    ensures forall i :: 0 <= i < |columns| ==> MergeColumns(columns, table, right)[i] == columns[i]
    ensures forall i :: 0 <= i < |right| ==> Renamings(columns, table, right)[i].original == right[i].name
    ensures forall i :: 0 <= i < |right| ==>
      MergeColumns(columns, table, right)[|columns| + i].name == Renamings(columns, table, right)[i].name
    decreases |right|
  {
    hide MergedName;
    if right != [] {
      var wider := columns + [right[0].(name := MergedName(columns, table, right[0].name))];
      MergedColumns(wider, table, right[1..]);
      forall i | 0 <= i < |right|
        ensures Renamings(columns, table, right)[i].original == right[i].name
        ensures MergeColumns(columns, table, right)[|columns| + i].name == Renamings(columns, table, right)[i].name
      {
        if i > 0 {
          assert right[i] == right[1..][i - 1];
          assert Renamings(columns, table, right)[i] == Renamings(wider, table, right[1..])[i - 1];
          assert MergeColumns(columns, table, right)[|columns| + i] == MergeColumns(wider, table, right[1..])[|wider| + (i - 1)];
        } else {
          assert MergeColumns(columns, table, right)[|columns|] == MergeColumns(wider, table, right[1..])[|columns|] == wider[|columns|];
        }
      }
    }
  }

  /** A right column keeps its name, type and constraints; its name gets the table as prefix when a column before it has it. */
  lemma {:induction false} NamesChosen(columns: seq<Column>, table: string, right: seq<Column>, i: nat)
    requires i < |right|
    ensures |Renamings(columns, table, right)| == |right| && |MergeColumns(columns, table, right)| == |columns| + |right|
    ensures var name := if HasColumn(MergeColumns(columns, table, right[..i]), right[i].name)
        then table + "_" + right[i].name else right[i].name;
      && Renamings(columns, table, right)[i] == Renaming(right[i].name, name)
      && MergeColumns(columns, table, right)[|columns| + i] == Column(name, right[i].dataType, right[i].constraints)
    decreases |right|
  {
    hide HasColumn;
    MergedColumns(columns, table, right);
    var wider := columns + [right[0].(name := MergedName(columns, table, right[0].name))];
    MergedColumns(wider, table, right[1..]);
    if i > 0 {
      NamesChosen(wider, table, right[1..], i - 1);
      assert right[..i][1..] == right[1..][..i - 1];
      assert MergeColumns(columns, table, right)[|columns| + i] == MergeColumns(wider, table, right[1..])[|wider| + (i - 1)];
    } else {
      assert right[..0] == [];
      assert MergeColumns(wider, table, right[1..])[|columns|] == wider[|columns|];
    }
  }

  predicate Apart(renamings: seq<Renaming>) {
    && (forall i, j :: 0 <= i < j < |renamings| ==> renamings[i].name != renamings[j].name)
    && (forall i, j :: 0 <= i < j < |renamings| ==> renamings[i].original != renamings[j].original)
  }

  lemma {:induction false} ApartOrigin(renamings: seq<Renaming>, i: nat)
    requires Apart(renamings) && i < |renamings|
    ensures Origin(renamings, renamings[i].name) == Some(renamings[i].original)
  {
    var n := |renamings| - 1;
    if i < n {
      ApartOrigin(renamings[..n], i);
    }
  }

  lemma ApartNamesThemselves(renamings: seq<Renaming>)
    requires Apart(renamings)
    ensures OwnNames(renamings)
  {
    forall i | 0 <= i < |renamings| ensures ReadsItself(renamings, renamings[i].original) {
      NewNameMeans(renamings, renamings[i].original);
      var k :| 0 <= k < |renamings| && renamings[k] == Renaming(renamings[i].original, NewName(renamings, renamings[i].original).value);
      ApartOrigin(renamings, k);
    }
  }

  /** Distinct merged columns make a clause faithful. */
  lemma DistinctIsFaithful(columns: seq<Column>, names: NameMap, clause: JoinClause, right: seq<Column>)
    requires NamesKnown(columns, names) && LeftKey(names, clause).Some?
    requires forall key :: key in names ==> key.0 != clause.table
    requires DistinctColumns(right) && DistinctColumns(MergeColumns(columns, clause.table, right))
    ensures ClauseFaithful(names, Renamings(columns, clause.table, right), clause)
  {
    hide LeftLookup, NewName, OwnNames;
    var renamings, merged := Renamings(columns, clause.table, right), MergeColumns(columns, clause.table, right);
    MergedColumns(columns, clause.table, right);
    assert Apart(renamings) by {
      forall i, j | 0 <= i < j < |renamings|
        ensures renamings[i].name != renamings[j].name && renamings[i].original != renamings[j].original
      {
        assert merged[|columns| + i].name != merged[|columns| + j].name && right[i].name != right[j].name;
      }
    }
    ApartNamesThemselves(renamings);
    forall key | key in names ensures Origin(renamings, names[key]).None? {
      var k :| 0 <= k < |columns| && columns[k].name == names[key];
      forall i | 0 <= i < |renamings| ensures renamings[i].name != names[key] {
        assert merged[k].name != merged[|columns| + i].name;
      }
      OriginMeansRenames(renamings, names[key]);
    }
  }

  lemma NamesStayKnown(columns: seq<Column>, names: NameMap, table: string, right: seq<Column>)
    requires NamesKnown(columns, names)
    ensures NamesKnown(MergeColumns(columns, table, right), MergeNames(names, table, Renamings(columns, table, right)))
  {
    var renamings, merged := Renamings(columns, table, right), MergeColumns(columns, table, right);
    var known := MergeNames(names, table, renamings);
    MergedColumns(columns, table, right);
    forall key | key in known ensures HasColumn(merged, known[key]) {
      MergedNameFor(names, table, renamings, key);
      if key.0 == table && NewName(renamings, key.1).Some? {
        NewNameMeans(renamings, key.1);
        var i :| 0 <= i < |renamings| && renamings[i] == Renaming(key.1, known[key]);
        assert merged[|columns| + i].name == known[key];
      } else {
        var k :| 0 <= k < |columns| && columns[k].name == names[key];
        assert merged[k].name == known[key];
      }
    }
  }

  lemma {:induction false} DistinctChainIsFaithful(db: Db, columns: seq<Column>, names: NameMap, joins: seq<JoinClause>)
    requires NamesKnown(columns, names) && DistinctChain(db, columns, names, joins)
    ensures ChainFaithful(db, columns, names, joins)
    decreases |joins|
  {
    hide NamesKnown, ClauseFaithful, MergeNames, MergeColumns, Renamings, LeftKey;
    if joins != [] {
      var right := db.tables[joins[0].table].columns;
      DistinctIsFaithful(columns, names, joins[0], right);
      NamesStayKnown(columns, names, joins[0].table, right);
      DistinctChainIsFaithful(db, MergeColumns(columns, joins[0].table, right),
        MergeNames(names, joins[0].table, Renamings(columns, joins[0].table, right)), joins[1..]);
    }
  }

  // ---- from one table ----

  function OneTable(table: string, rows: seq<Row>): (tuples: seq<Tuple>)
    ensures |tuples| == |rows| && forall i :: 0 <= i < |rows| ==> tuples[i] == map[table := rows[i]]
  {
    seq(|rows|, i requires 0 <= i < |rows| => map[table := rows[i]])
  }

  /**
   The joins of a query whose merged columns stay distinct answer the tuples of its tables' rows that agree on the
   columns the clauses name, each column under its merged name.
   */
  lemma QueryMeansTuples(db: Db, table: string, joins: seq<JoinClause>)
    requires table in db.tables
    requires DistinctChain(db, db.tables[table].columns, StartNames(table, db.tables[table].columns), joins)
    ensures var t := db.tables[table];
      var start := StartNames(table, t.columns);
      && ChainFaithful(db, t.columns, start, joins)
      && JoinAll(db, Joined(t.rows, t.columns, start), joins).Ok?
      && var joined := JoinAll(db, Joined(t.rows, t.columns, start), joins).value;
      AllShow(joined.names, joined.rows, TupleJoinAll(db, t.columns, start, joins, OneTable(table, t.rows)))
  {
    hide DistinctChain, ChainFaithful;
    var t := db.tables[table];
    var start := StartNames(table, t.columns);
    forall key | key in start ensures HasColumn(t.columns, start[key]) && key == (table, start[key]) {
      var i :| 0 <= i < |t.columns| && key == (table, t.columns[i].name);
    }
    DistinctChainIsFaithful(db, t.columns, start, joins);
    JoinsMeanTuples(db, Joined(t.rows, t.columns, start), joins, OneTable(table, t.rows));
  }
}

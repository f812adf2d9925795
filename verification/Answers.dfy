/**
 What a SELECT answers: which rows, in which order, under which titles, with which cells. Filters are read off the
 statement, subqueries included.
 */
module Answers {
  import opened Types
  import opened Text
  import opened Ast
  import opened Filters
  import opened Aggregates
  import opened Queries
  import opened Joins
  import opened Coercions
  import opened Comparisons
  import opened Grouping
  import opened GroupedOutput
  import D = Database

  // ---- constants ----

  /** The first column of that name. */
  predicate FirstNamed(columns: seq<Column>, name: string, i: nat) {
    i < |columns| && columns[i].name == name && forall j :: 0 <= j < i ==> columns[j].name != name
  }

  lemma {:induction false} FindsFirst(columns: seq<Column>, name: string, i: nat)
    requires FirstNamed(columns, name, i)
    ensures FindColumn(columns, name) == Some(columns[i])
  {
    if i > 0 {
      FindsFirst(columns[1..], name, i - 1);
    }
  }

  lemma {:induction false} HasFirst(columns: seq<Column>, name: string) returns (i: nat)
    requires D.HasColumn(columns, name)
    ensures FirstNamed(columns, name, i)
  {
    if columns[0].name == name {
      i := 0;
    } else {
      var k :| 0 <= k < |columns| && columns[k].name == name;
      assert columns[1..][k - 1].name == name;
      i := HasFirst(columns[1..], name);
      i := i + 1;
    }
  }

  lemma ConstantRead(columns: seq<Column>, i: nat, value: Value, out: Value)
    requires i < |columns| && FirstNamed(columns, columns[i].name, i) && ReadsAs(columns[i].dataType, value, out)
    ensures AsType(columns, columns[i].name, value) == out
  {
    hide ReadsAs, Coerce;
    FindsFirst(columns, columns[i].name, i);
    CoerceReads(columns[i].name, columns[i].dataType, value);
  }

  /** A comparison accepts a row whose value stands in the relation to the constant, as the column reads it. */
  lemma AcceptsCompares(db: D.Db, columns: seq<Column>, i: nat, op: CompareOp, value: Value, out: Value, row: Row)
    requires i < |columns| && FirstNamed(columns, columns[i].name, i) && ReadsAs(columns[i].dataType, value, out)
    ensures Accepts(db, columns, Compare(columns[i].name, op, value), row)
      <==> HoldsBetween(Get(row, columns[i].name), op, out)
  {
    hide HoldsBetween, ReadsAs;
    FindsFirst(columns, columns[i].name, i);
    ConstantRead(columns, i, value, out);
    EvaluateCompares(row, columns[i].name, op, out);
  }

  // ---- subqueries ----

  predicate Wide(rows: seq<seq<Value>>, width: nat) {
    forall i :: 0 <= i < |rows| ==> |rows[i]| == width
  }

  lemma {:induction false} FirstCells(rows: seq<seq<Value>>)
    requires Wide(rows, 1)
    ensures |FirstValues(rows)| == |rows| && forall i :: 0 <= i < |rows| ==> FirstValues(rows)[i] == rows[i][0]
  {
    if rows != [] {
      FirstCells(rows[..|rows| - 1]);
    }
  }

  // ---- rows ----

  /** The filter of a statement, before subqueries are resolved and constants coerced, lets the row through. */
  ghost predicate Selected(db: D.Db, columns: seq<Column>, filter: Option<Filter>, row: Row) {
    filter.None? || Accepts(db, columns, filter.value, row)
  }

  /** The positions of exactly the selected rows, in order. */
  ghost predicate SelectedAt(db: D.Db, columns: seq<Column>, filter: Option<Filter>, rows: seq<Row>, at: seq<nat>) {
    && D.Increasing(at) && (forall i :: 0 <= i < |at| ==> at[i] < |rows|)
    && forall k :: 0 <= k < |rows| ==> (k in at <==> Selected(db, columns, filter, rows[k]))
  }

  function RowsAt(rows: seq<Row>, at: seq<nat>): (r: seq<Row>)
    requires forall i :: 0 <= i < |at| ==> at[i] < |rows|
    ensures |r| == |at| && forall i :: 0 <= i < |at| ==> r[i] == rows[at[i]]
  {
    seq(|at|, i requires 0 <= i < |at| => rows[at[i]])
  }

  lemma PreparedSelects(db: D.Db, columns: seq<Column>, table: string, filter: Option<Filter>, row: Row)
    requires ResolveOption(db, filter).Ok? && PrepareOption(columns, table, ResolveOption(db, filter).value).Ok?
    ensures RowMatches(row, PrepareOption(columns, table, ResolveOption(db, filter).value).value)
      <==> Selected(db, columns, filter, row)
  {
    hide Evaluate, Accepts, Prepare, Resolve;
    if filter.Some? {
      ResolvingPreservesMeaning(db, columns, table, filter.value, row);
    }
  }

  lemma FilteredAt(db: D.Db, columns: seq<Column>, table: string, filter: Option<Filter>, rows: seq<Row>) returns (at: seq<nat>)
    requires ResolveOption(db, filter).Ok? && PrepareOption(columns, table, ResolveOption(db, filter).value).Ok?
    ensures SelectedAt(db, columns, filter, rows, at)
    ensures FilterRows(rows, PrepareOption(columns, table, ResolveOption(db, filter).value).value) == RowsAt(rows, at)
  {
    hide ResolveOption, PrepareOption, RowMatches, Selected;
    var prepared := PrepareOption(columns, table, ResolveOption(db, filter).value).value;
    at := D.KeepPositions(rows, Matching(prepared));
    forall k | 0 <= k < |rows| ensures k in at <==> Selected(db, columns, filter, rows[k]) {
      PreparedSelects(db, columns, table, filter, rows[k]);
    }
  }

  // ---- OFFSET and LIMIT ----

  function StartOf(offset: Option<nat>): nat {
    if offset.Some? then offset.value else 0
  }

  /** The rows from the offset on, as many as there are but no more than the limit. */
  predicate Windowed(all: seq<seq<Value>>, limit: Option<nat>, offset: Option<nat>, out: seq<seq<Value>>) {
    var start := StartOf(offset);
    && |out| == (if |all| <= start then 0 else if limit.Some? && limit.value < |all| - start then limit.value else |all| - start)
    && forall i :: 0 <= i < |out| ==> out[i] == all[start + i]
  }

  lemma WindowSelects(all: seq<seq<Value>>, limit: Option<nat>, offset: Option<nat>)
    ensures Windowed(all, limit, offset, Window(all, limit, offset))
  {
  }

  // ---- any query ----

  /** What the FROM clause yields: the table, or its joins. */
  ghost predicate FromClause(db: D.Db, q: Query, from: Joined) {
    && q.table in db.tables
    && var t := db.tables[q.table];
    && JoinAll(db, Joined(t.rows, t.columns, StartNames(q.table, t.columns)), q.joins) == Ok(from)
    && (q.joins == [] ==> from.rows == t.rows && from.columns == t.columns)
  }

  /** The projection sees the selected rows of the FROM clause, in order, and OFFSET and LIMIT apply to what it gives. */
  lemma QueryAnswers(db: D.Db, q: Query) returns (from: Joined, at: seq<nat>, all: seq<seq<Value>>)
    requires RunQuery(db, q).Ok?
    ensures FromClause(db, q, from) && SelectedAt(db, from.columns, q.filter, from.rows, at)
    ensures Project(q, from.columns, RowsAt(from.rows, at)) == Ok(RowSet(RunQuery(db, q).value.columns, all))
    ensures Windowed(all, q.limit, q.offset, RunQuery(db, q).value.rows)
  {
    hide Project, ResolveOption, PrepareOption, Window, Windowed, JoinAll, Selected, FilterRows;
    from := Source(db, q).value;
    if q.joins == [] {
      NoJoins(db, q);
    }
    at := FilteredAt(db, from.columns, q.table, q.filter, from.rows);
    all := Project(q, from.columns, RowsAt(from.rows, at)).value.rows;
    WindowSelects(all, q.limit, q.offset);
  }

  // ---- columns and * ----

  /** The names one expression of a SELECT without aggregates stands for. */
  predicate Stands(expr: SelectExpr, columns: seq<Column>, names: seq<string>) {
    match expr
    case ColumnExpr(name) => names == [name] && D.HasColumn(columns, name)
    case AllColumns => |names| == |columns| && forall k :: 0 <= k < |names| ==> names[k] == columns[k].name
    case Aggregate(_, _) => false
  }

  predicate StandsAt(exprs: seq<SelectExpr>, columns: seq<Column>, names: seq<string>, cuts: seq<nat>, p: nat)
    requires p < |exprs| && |cuts| == |exprs| + 1
  {
    cuts[p] <= cuts[p + 1] <= |names| && Stands(exprs[p], columns, names[cuts[p]..cuts[p + 1]])
  }

  /** `cuts` splits the names into consecutive pieces, one per expression, each what its expression stands for. */
  ghost predicate NamesOf(exprs: seq<SelectExpr>, columns: seq<Column>, names: seq<string>, cuts: seq<nat>) {
    && |cuts| == |exprs| + 1 && cuts[0] == 0 && cuts[|exprs|] == |names|
    && forall p :: 0 <= p < |exprs| ==> StandsAt(exprs, columns, names, cuts, p)
  }

  predicate Plain(exprs: seq<SelectExpr>) {
    forall p :: 0 <= p < |exprs| ==> !exprs[p].Aggregate?
  }

  lemma {:induction false} NamesInPieces(exprs: seq<SelectExpr>, columns: seq<Column>, table: string) returns (cuts: seq<nat>)
    requires Plain(exprs) && ColumnNames(exprs, columns, table).Ok?
    ensures NamesOf(exprs, columns, ColumnNames(exprs, columns, table).value, cuts)
  {
    if exprs == [] {
      cuts := [0];
    } else {
      hide D.HasColumn;
      var n := |exprs| - 1;
      var before := NamesInPieces(exprs[..n], columns, table);
      var head, names := ColumnNames(exprs[..n], columns, table).value, ColumnNames(exprs, columns, table).value;
      cuts := before + [|names|];
      forall p | 0 <= p < |exprs| ensures StandsAt(exprs, columns, names, cuts, p) {
        if p < n {
          assert StandsAt(exprs[..n], columns, head, before, p);
          assert names[cuts[p]..cuts[p + 1]] == head[cuts[p]..cuts[p + 1]];
        } else {
          assert names == head + names[|head|..];
        }
      }
    }
  }

  /**
   A query without grouping and aggregates answers one row per selected row, in order, within OFFSET and LIMIT: cell k
   is the row's value in column k, and the columns are those its expressions stand for.
   */
  lemma PlainAnswers(db: D.Db, q: Query) returns (from: Joined, at: seq<nat>, cuts: seq<nat>, all: seq<seq<Value>>)
    requires RunQuery(db, q).Ok? && q.groupBy == [] && Plain(q.columns)
    ensures FromClause(db, q, from) && SelectedAt(db, from.columns, q.filter, from.rows, at)
    ensures var names := RunQuery(db, q).value.columns;
      && q.having.None? && NamesOf(q.columns, from.columns, names, cuts)
      && |all| == |at| && Wide(all, |names|)
      && forall i, k :: 0 <= i < |at| && 0 <= k < |names| ==> all[i][k] == Get(from.rows[at[i]], names[k])
    ensures Windowed(all, q.limit, q.offset, RunQuery(db, q).value.rows)
  {
    hide RunQuery, FromClause, SelectedAt, Windowed, ColumnNames, Grouped, AggregateCells, NamesOf;
    from, at, all := QueryAnswers(db, q);
    cuts := NamesInPieces(q.columns, from.columns, q.table);
  }

  /** SELECT * answers the table's columns, in their order. */
  lemma StarAnswers(db: D.Db, q: Query)
    requires RunQuery(db, q).Ok? && q.groupBy == [] && q.columns == [AllColumns] && q.joins == []
    ensures q.table in db.tables
    ensures var columns := db.tables[q.table].columns;
      var names := RunQuery(db, q).value.columns;
      |names| == |columns| && forall k :: 0 <= k < |columns| ==> names[k] == columns[k].name
  {
    hide RunQuery, SelectedAt, Windowed;
    var from, at, cuts, all := PlainAnswers(db, q);
    var names := RunQuery(db, q).value.columns;
    assert StandsAt(q.columns, from.columns, names, cuts, 0);
    assert names[0..|names|] == names;
  }

  // ---- aggregates without GROUP BY ----

  /** The title of an expression other than *. */
  predicate Titles(exprs: seq<SelectExpr>, names: seq<string>) {
    |names| == |exprs| && forall p :: 0 <= p < |exprs| ==> TitleIs(exprs[p], names[p])
  }

  predicate TitleIs(expr: SelectExpr, name: string) {
    match expr
    case ColumnExpr(column) => name == column
    case Aggregate(func, target) => name == AggregateLabel(func, target)
    case AllColumns => true
  }

  /** The cell of an expression over all selected rows: an aggregate of them, or a column of the first one. */
  predicate CellIs(expr: SelectExpr, columns: seq<Column>, rows: seq<Row>, cell: Value) {
    match expr
    case ColumnExpr(name) => D.HasColumn(columns, name) && cell == if rows == [] then Null else Get(rows[0], name)
    case Aggregate(func, target) =>
      AggregateOf(func, target, rows) == Ok(cell) && (target.OfColumn? ==> D.HasColumn(columns, target.name))
    case AllColumns => false
  }

  lemma {:induction false} CellsAre(exprs: seq<SelectExpr>, columns: seq<Column>, table: string, rows: seq<Row>)
    requires AggregateCells(exprs, columns, table, rows).Ok?
    ensures var cells := AggregateCells(exprs, columns, table, rows).value;
      |cells| == |exprs| && forall p :: 0 <= p < |exprs| ==> CellIs(exprs[p], columns, rows, cells[p])
  {
    hide AggregateOf, D.HasColumn;
    if exprs != [] {
      var n := |exprs| - 1;
      CellsAre(exprs[..n], columns, table, rows);
      assert forall p :: 0 <= p < n ==> exprs[..n][p] == exprs[p];
    }
  }

  lemma NamesAreTitles(exprs: seq<SelectExpr>)
    ensures Titles(exprs, CellNames(exprs))
  {
  }

  /** An aggregate query without grouping answers one row, of one cell per expression. */
  lemma AggregateAnswers(db: D.Db, q: Query) returns (from: Joined, at: seq<nat>, cells: seq<Value>)
    requires RunQuery(db, q).Ok? && q.groupBy == [] && !Plain(q.columns)
    ensures FromClause(db, q, from) && SelectedAt(db, from.columns, q.filter, from.rows, at)
    ensures |cells| == |q.columns|
    ensures forall p :: 0 <= p < |cells| ==> CellIs(q.columns[p], from.columns, RowsAt(from.rows, at), cells[p])
    ensures Titles(q.columns, RunQuery(db, q).value.columns)
    ensures Windowed([cells], q.limit, q.offset, RunQuery(db, q).value.rows)
  {
    hide RunQuery, FromClause, Selected, Windowed, Grouped, ColumnNames, AggregateCells, CellIs, Titles, CellNames;
    var all;
    from, at, all := QueryAnswers(db, q);
    CellsAre(q.columns, from.columns, q.table, RowsAt(from.rows, at));
    NamesAreTitles(q.columns);
    cells := all[0];
  }

  // ---- GROUP BY ----

  /** The listed keys whose groups HAVING accepts. */
  function KeptKeys(having: Option<Filter>, rows: seq<Row>, groupBy: seq<string>): seq<Key> {
    if having.None? then FirstKeys(rows, groupBy)
    else D.Keep(FirstKeys(rows, groupBy), Selects(having.value, rows, groupBy))
  }

  /** A grouped query answers one row per kept key, each holding its group's values. */
  lemma GroupAnswers(db: D.Db, q: Query) returns (from: Joined, at: seq<nat>, all: seq<seq<Value>>)
    requires RunQuery(db, q).Ok? && q.groupBy != []
    ensures FromClause(db, q, from) && SelectedAt(db, from.columns, q.filter, from.rows, at)
    ensures var rows := RowsAt(from.rows, at);
      RowsOfGroups(KeptKeys(q.having, rows, q.groupBy), q.columns, rows, q.groupBy, all)
    ensures Titles(q.columns, RunQuery(db, q).value.columns)
    ensures Windowed(all, q.limit, q.offset, RunQuery(db, q).value.rows)
  {
    hide RunQuery, FromClause, Selected, Windowed, ColumnNames, AggregateCells, Titles, CellNames, RowsOfGroups, GroupRows;
    from, at, all := QueryAnswers(db, q);
    NamesAreTitles(q.columns);
    var rows := RowsAt(from.rows, at);
    if q.having.Some? {
      HavingAnswers(q.columns, from.columns, q.table, rows, q.groupBy, q.having.value);
    } else {
      GroupedAnswers(q.columns, from.columns, q.table, rows, q.groupBy);
    }
  }

  // ---- every row is as wide as the titles ----

  lemma QueryIsWide(db: D.Db, q: Query)
    requires RunQuery(db, q).Ok?
    ensures Wide(RunQuery(db, q).value.rows, |RunQuery(db, q).value.columns|)
  {
    hide RunQuery, FromClause, SelectedAt, NamesOf, CellIs;
    if q.groupBy != [] {
      var from, at, all := GroupAnswers(db, q);
    } else if Plain(q.columns) {
      var from, at, cuts, all := PlainAnswers(db, q);
    } else {
      var from, at, cells := AggregateAnswers(db, q);
    }
  }

  /** Membership in a subquery: it runs, it has one column, and one of its rows holds the value as the column reads it. */
  lemma AcceptsSubquery(db: D.Db, columns: seq<Column>, column: string, q: Query, negated: bool, row: Row)
    ensures Accepts(db, columns, InSubquery(column, Select(q), negated), row) <==>
      (&& Get(row, column) != Null
       && RunQuery(db, q).Ok? && |RunQuery(db, q).value.columns| == 1
       && negated != Yields(columns, column, RunQuery(db, q).value.rows, Get(row, column)))
  {
    hide RunQuery;
    if RunQuery(db, q).Ok? && |RunQuery(db, q).value.columns| == 1 {
      var rows := RunQuery(db, q).value.rows;
      QueryIsWide(db, q);
      FirstCells(rows);
      var values := FirstValues(rows);
      if ListHas(columns, column, values, Get(row, column)) {
        var i :| 0 <= i < |values| && AsType(columns, column, values[i]) == Get(row, column);
        assert YieldsAt(columns, column, rows, Get(row, column), i);
      }
      if i: nat :| YieldsAt(columns, column, rows, Get(row, column), i) {
        assert values[i] == rows[i][0];
      }
    }
  }

  /** Some row of a one-column result reads as the value. */
  ghost predicate Yields(columns: seq<Column>, column: string, rows: seq<seq<Value>>, value: Value) {
    exists i: nat :: YieldsAt(columns, column, rows, value, i)
  }

  predicate YieldsAt(columns: seq<Column>, column: string, rows: seq<seq<Value>>, value: Value, i: nat) {
    i < |rows| && |rows[i]| == 1 && AsType(columns, column, rows[i][0]) == value
  }

  // ---- titles of aggregates ----

  /** A title NAME(column) or NAME(*) in HAVING names the aggregate it is the title of. */
  lemma TitleNames(func: AggregateFunc, target: AggregateTarget)
    requires target.OfColumn? ==> Trim(target.name) == target.name && target.name != "*"
    ensures var title := AggregateLabel(func, target);
      ParseAggregateLabel(title) == Some(HavingAggregate(title, func, target))
  {
    hide FuncNamed, FuncName, Upper, Trim, FindChar;
    var title, name, inner := AggregateLabel(func, target), FuncName(func), if target.Star? then "*" else target.name;
    NamesFunc(func);
    assert title == name + ['('] + (inner + ")");
    FoundAfter(name, '(', inner + ")");
    assert title[..|name|] == name && title[|name| + 1..|title| - 1] == inner;
    StarIsTrimmed();
  }

  lemma {:induction false} FoundAfter(before: string, c: char, rest: string)
    requires c !in before
    ensures FindChar(before + [c] + rest, c) == |before|
  {
    if before != [] {
      FoundAfter(before[1..], c, rest);
      assert (before + [c] + rest)[1..] == before[1..] + [c] + rest;
    }
  }

  lemma NamesFunc(func: AggregateFunc)
    ensures Upper(FuncName(func)) == FuncName(func) && FuncNamed(FuncName(func)) == Some(func) && '(' !in FuncName(func)
  {
  }

  lemma StarIsTrimmed()
    ensures Trim("*") == "*"
  {
  }

  lemma TitlesAreWritten()
    ensures AggregateLabel(Count, Star) == "COUNT(*)" && AggregateLabel(Sum, OfColumn("n")) == "SUM(n)"
    ensures AggregateLabel(Min, OfColumn("n")) == "MIN(n)" && AggregateLabel(Max, OfColumn("n")) == "MAX(n)"
    ensures AggregateLabel(Avg, OfColumn("n")) == "AVG(n)"
  {
  }
}

/** Exactly which queries are answered. */
module QueryAcceptance {
  import opened Types
  import opened Ast
  import opened Filters
  import opened Aggregates
  import opened Joins
  import opened Grouping
  import opened Queries
  import opened GroupedOutput
  import opened Answers
  import opened Acceptance
  import D = Database

  // ---- FROM ----

  predicate TablesKnown(db: D.Db, joins: seq<JoinClause>) {
    forall i :: 0 <= i < |joins| ==> joins[i].table in db.tables
  }

  lemma {:induction false} JoinsSucceed(db: D.Db, sofar: Joined, joins: seq<JoinClause>)
    ensures JoinAll(db, sofar, joins).Ok? <==> TablesKnown(db, joins)
    decreases |joins|
  {
    if joins != [] {
      hide NestedJoin, MergeColumns, MergeNames, Renamings, LeftLookup;
      if joins[0].table in db.tables {
        JoinsSucceed(db, JoinOne(db, sofar, joins[0]).value, joins[1..]);
      }
      assert forall i :: 0 < i < |joins| ==> joins[i] == joins[1..][i - 1];
    }
  }

  // ---- projection without grouping ----

  predicate ColumnsKnown(exprs: seq<SelectExpr>, columns: seq<Column>) {
    forall p :: 0 <= p < |exprs| && exprs[p].ColumnExpr? ==> D.HasColumn(columns, exprs[p].name)
  }

  lemma {:induction false} NamesFound(exprs: seq<SelectExpr>, columns: seq<Column>, table: string)
    ensures ColumnNames(exprs, columns, table).Ok? <==> ColumnsKnown(exprs, columns)
  {
    hide D.HasColumn;
    if exprs != [] {
      var n := |exprs| - 1;
      NamesFound(exprs[..n], columns, table);
      assert forall p :: 0 <= p < n ==> exprs[..n][p] == exprs[p];
    }
  }

  /** Some value is the expression's cell. */
  ghost predicate HasCell(expr: SelectExpr, columns: seq<Column>, rows: seq<Row>) {
    exists cell :: CellIs(expr, columns, rows, cell)
  }

  lemma CellExists(expr: SelectExpr, columns: seq<Column>, table: string, rows: seq<Row>)
    ensures AggregateCell(expr, columns, table, rows).Ok? <==> HasCell(expr, columns, rows)
  {
    hide AggregateOf, D.HasColumn;
    var cell := AggregateCell(expr, columns, table, rows);
    assert cell.Ok? ==> CellIs(expr, columns, rows, cell.value);
  }

  lemma {:induction false} CellsExist(exprs: seq<SelectExpr>, columns: seq<Column>, table: string, rows: seq<Row>)
    ensures AggregateCells(exprs, columns, table, rows).Ok? <==> forall p :: 0 <= p < |exprs| ==> HasCell(exprs[p], columns, rows)
  {
    hide AggregateCell, HasCell;
    if exprs != [] {
      var n := |exprs| - 1;
      CellsExist(exprs[..n], columns, table, rows);
      CellExists(exprs[n], columns, table, rows);
      assert forall p :: 0 <= p < n ==> exprs[..n][p] == exprs[p];
    }
  }

  // ---- grouping ----

  predicate AllKnown(names: seq<string>, columns: seq<Column>) {
    forall i :: 0 <= i < |names| ==> D.HasColumn(columns, names[i])
  }

  lemma {:induction false} GroupColumnsFound(groupBy: seq<string>, columns: seq<Column>, table: string)
    ensures CheckGroupColumns(groupBy, columns, table).Ok? <==> AllKnown(groupBy, columns)
  {
    if groupBy != [] {
      hide D.HasColumn;
      GroupColumnsFound(groupBy[1..], columns, table);
      assert forall i :: 0 < i < |groupBy| ==> groupBy[i] == groupBy[1..][i - 1];
    }
  }

  /** A plain column must be grouped by, an aggregated one known, and * is not allowed. */
  predicate Groupable(expr: SelectExpr, groupBy: seq<string>, columns: seq<Column>) {
    match expr
    case AllColumns => false
    case ColumnExpr(name) => name in groupBy
    case Aggregate(_, target) => target.OfColumn? ==> D.HasColumn(columns, target.name)
  }

  predicate AllGroupable(exprs: seq<SelectExpr>, groupBy: seq<string>, columns: seq<Column>) {
    forall p :: 0 <= p < |exprs| ==> Groupable(exprs[p], groupBy, columns)
  }

  lemma {:induction false} GroupExprsAllowed(exprs: seq<SelectExpr>, groupBy: seq<string>, columns: seq<Column>, table: string)
    ensures CheckGroupExprs(exprs, groupBy, columns, table).Ok? <==> AllGroupable(exprs, groupBy, columns)
  {
    if exprs != [] {
      hide D.HasColumn;
      GroupExprsAllowed(exprs[1..], groupBy, columns, table);
      assert forall i :: 0 < i < |exprs| ==> exprs[i] == exprs[1..][i - 1];
    }
  }

  /** The group has a value for each aggregate the expressions ask for. */
  predicate AggregatesExist(exprs: seq<SelectExpr>, group: seq<Row>) {
    forall p :: 0 <= p < |exprs| && exprs[p].Aggregate? ==> AggregateOf(exprs[p].func, exprs[p].target, group).Ok?
  }

  lemma {:induction false} GroupCellsExist(exprs: seq<SelectExpr>, sample: Row, group: seq<Row>)
    requires forall p :: 0 <= p < |exprs| ==> !exprs[p].AllColumns?
    ensures GroupCells(exprs, sample, group).Ok? <==> AggregatesExist(exprs, group)
  {
    if exprs != [] {
      hide AggregateOf;
      var n := |exprs| - 1;
      GroupCellsExist(exprs[..n], sample, group);
      assert forall p :: 0 <= p < n ==> exprs[..n][p] == exprs[p];
    }
  }

  /** The group has a value for the aggregate a title names. */
  predicate TitleHasValue(title: string, group: seq<Row>) {
    var a := ParseAggregateLabel(title);
    a.Some? ==> AggregateOf(a.value.func, a.value.target, group).Ok?
  }

  lemma {:induction false} SyntheticExists(sample: Row, aggregates: seq<HavingAggregate>, group: seq<Row>)
    requires WellTitled(aggregates)
    ensures Synthetic(sample, aggregates, group).Ok?
      <==> forall i :: 0 <= i < |aggregates| ==> AggregateOf(aggregates[i].func, aggregates[i].target, group).Ok?
  {
    hide AggregateOf, ParseAggregateLabel;
    if aggregates != [] {
      var n := |aggregates| - 1;
      SyntheticExists(sample, aggregates[..n], group);
      assert forall i :: 0 <= i < n ==> aggregates[..n][i] == aggregates[i];
    }
  }

  lemma TitlesHaveValues(aggregates: seq<HavingAggregate>, group: seq<Row>)
    requires WellTitled(aggregates)
    ensures (forall i :: 0 <= i < |aggregates| ==> AggregateOf(aggregates[i].func, aggregates[i].target, group).Ok?)
      <==> forall title :: Titled(aggregates, title) ==> TitleHasValue(title, group)
  {
    hide AggregateOf, ParseAggregateLabel;
    forall i | 0 <= i < |aggregates|
      ensures Titled(aggregates, aggregates[i].title)
      ensures TitleHasValue(aggregates[i].title, group) <==> AggregateOf(aggregates[i].func, aggregates[i].target, group).Ok?
    {
      assert ParseAggregateLabel(aggregates[i].title) == Some(aggregates[i]);
    }
  }

  ghost predicate HavingEvaluates(filter: Filter, group: seq<Row>) {
    forall title :: Compares(filter, title) ==> TitleHasValue(title, group)
  }

  lemma HavingEvaluatesIff(filter: Filter, group: seq<Row>)
    requires group != []
    ensures Synthetic(group[0], CollectHaving(filter, []), group).Ok? <==> HavingEvaluates(filter, group)
  {
    hide Synthetic, CollectHaving, AggregateOf, ParseAggregateLabel, Compares;
    forall title
      ensures WellTitled(CollectHaving(filter, []))
      ensures Titled(CollectHaving(filter, []), title) <==> Compares(filter, title) && ParseAggregateLabel(title).Some?
    {
      CollectedTitles(filter, [], title);
    }
    assert WellTitled(CollectHaving(filter, [])) by {
      CollectedTitles(filter, [], "");
    }
    SyntheticExists(group[0], CollectHaving(filter, []), group);
    TitlesHaveValues(CollectHaving(filter, []), group);
  }

  /** HAVING can be evaluated on the group, and if it accepts it the group's aggregates have values. */
  ghost predicate GroupAnswerable(exprs: seq<SelectExpr>, having: Option<Filter>, group: seq<Row>) {
    && (having.Some? ==> HavingEvaluates(having.value, group))
    && (having.None? || HavingHolds(having.value, group) ==> AggregatesExist(exprs, group))
  }

  lemma GroupOutputExists(exprs: seq<SelectExpr>, having: Option<Filter>, group: seq<Row>)
    requires group != [] && forall p :: 0 <= p < |exprs| ==> !exprs[p].AllColumns?
    ensures GroupOutput(exprs, having, group).Ok? <==> GroupAnswerable(exprs, having, group)
  {
    hide Synthetic, CollectHaving, GroupCells, AggregatesExist, HavingEvaluates, Evaluate;
    GroupCellsExist(exprs, group[0], group);
    if having.Some? {
      HavingEvaluatesIff(having.value, group);
    }
  }

  lemma {:induction false} GroupRowsExist(keys: seq<Key>, exprs: seq<SelectExpr>, having: Option<Filter>, rows: seq<Row>, groupBy: seq<string>)
    requires forall p :: 0 <= p < |exprs| ==> !exprs[p].AllColumns?
    requires forall k :: 0 <= k < |keys| ==> GroupOf(rows, groupBy, keys[k]) != []
    ensures GroupRows(keys, exprs, having, rows, groupBy).Ok?
      <==> forall k :: 0 <= k < |keys| ==> GroupAnswerable(exprs, having, GroupOf(rows, groupBy, keys[k]))
  {
    hide GroupOf, GroupOutput, GroupAnswerable;
    if keys != [] {
      var n := |keys| - 1;
      GroupRowsExist(keys[..n], exprs, having, rows, groupBy);
      GroupOutputExists(exprs, having, GroupOf(rows, groupBy, keys[n]));
      assert forall k :: 0 <= k < n ==> keys[..n][k] == keys[k];
    }
  }

  ghost predicate GroupsAnswerable(exprs: seq<SelectExpr>, having: Option<Filter>, rows: seq<Row>, groupBy: seq<string>) {
    forall key :: key in FirstKeys(rows, groupBy) ==> GroupAnswerable(exprs, having, GroupOf(rows, groupBy, key))
  }

  lemma GroupedExists(exprs: seq<SelectExpr>, columns: seq<Column>, table: string, rows: seq<Row>, groupBy: seq<string>, having: Option<Filter>)
    ensures Grouped(exprs, columns, table, rows, groupBy, having).Ok? <==>
      (AllKnown(groupBy, columns) && AllGroupable(exprs, groupBy, columns) && GroupsAnswerable(exprs, having, rows, groupBy))
  {
    hide CheckGroupColumns, CheckGroupExprs, GroupRows, GroupAnswerable, GroupOf, FirstKeys, CellNames, AllKnown;
    GroupColumnsFound(groupBy, columns, table);
    GroupExprsAllowed(exprs, groupBy, columns, table);
    if AllGroupable(exprs, groupBy, columns) {
      var keys := FirstKeys(rows, groupBy);
      assert forall p :: 0 <= p < |exprs| ==> Groupable(exprs[p], groupBy, columns);
      forall k | 0 <= k < |keys| ensures GroupOf(rows, groupBy, keys[k]) != [] {
        assert keys[k] in keys;
        ListedGroupsHaveRows(rows, groupBy, keys[k]);
      }
      GroupRowsExist(keys, exprs, having, rows, groupBy);
      assert forall k :: 0 <= k < |keys| ==> keys[k] in keys;
    }
  }

  // ---- the whole query ----

  /** What the select list, GROUP BY and HAVING need of the selected rows. */
  ghost predicate ProjectionFits(q: Query, columns: seq<Column>, rows: seq<Row>) {
    if q.groupBy != [] then
      AllKnown(q.groupBy, columns) && AllGroupable(q.columns, q.groupBy, columns) && GroupsAnswerable(q.columns, q.having, rows, q.groupBy)
    else if Plain(q.columns) then q.having.None? && ColumnsKnown(q.columns, columns)
    else forall p :: 0 <= p < |q.columns| ==> HasCell(q.columns[p], columns, rows)
  }

  lemma ProjectionFitsIff(q: Query, columns: seq<Column>, rows: seq<Row>)
    ensures Project(q, columns, rows).Ok? <==> ProjectionFits(q, columns, rows)
  {
    hide Grouped, AggregateCells, ColumnNames, HasCell, ColumnsKnown, AllKnown, AllGroupable, GroupsAnswerable, ProjectRows;
    GroupedExists(q.columns, columns, q.table, rows, q.groupBy, q.having);
    CellsExist(q.columns, columns, q.table, rows);
    NamesFound(q.columns, columns, q.table);
  }

  /** The query names known tables, and its filter fits the columns they give. */
  ghost predicate SourceFits(db: D.Db, q: Query) {
    && q.table in db.tables && TablesKnown(db, q.joins)
    && forall from :: FromClause(db, q, from) ==> OptionFits(db, from.columns, q.filter)
  }

  lemma SourceFitsIff(db: D.Db, q: Query)
    ensures SourceFits(db, q) <==>
      (&& q.table in db.tables && ResolveOption(db, q.filter).Ok? && Source(db, q).Ok?
       && PrepareOption(Source(db, q).value.columns, q.table, ResolveOption(db, q.filter).value).Ok?)
  {
    hide ResolveOption, PrepareOption, OptionFits, JoinAll;
    if q.table in db.tables {
      var t := db.tables[q.table];
      JoinsSucceed(db, Joined(t.rows, t.columns, StartNames(q.table, t.columns)), q.joins);
      if q.joins == [] {
        NoJoins(db, q);
      }
      if Source(db, q).Ok? {
        OptionFitsIff(db, Source(db, q).value.columns, q.table, q.filter);
        assert FromClause(db, q, Source(db, q).value);
      }
    }
  }

  /** A query is answered exactly when its tables and filter fit, and its projection the selected rows. */
  lemma QueryAnsweredIff(db: D.Db, q: Query) returns (from: Joined, at: seq<nat>)
    ensures SourceFits(db, q) ==> FromClause(db, q, from) && SelectedAt(db, from.columns, q.filter, from.rows, at)
    ensures RunQuery(db, q).Ok? <==> SourceFits(db, q) && ProjectionFits(q, from.columns, RowsAt(from.rows, at))
  {
    hide Project, ProjectionFits, ResolveOption, PrepareOption, JoinAll, Window, Selected, FilterRows, SourceFits;
    SourceFitsIff(db, q);
    from, at := Joined([], [], map[]), [];
    if SourceFits(db, q) {
      from := Source(db, q).value;
      if q.joins == [] {
        NoJoins(db, q);
      }
      at := FilteredAt(db, from.columns, q.table, q.filter, from.rows);
      ProjectionFitsIff(q, from.columns, RowsAt(from.rows, at));
    }
  }
}

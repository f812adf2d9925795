/**
 What a SELECT means: scan or nested loops, then filter, then group, aggregate or project. Subqueries
 are resolved first, by running them on the same database.
 */
module Queries {
  import opened Types
  import opened Text
  import opened Database
  import opened Ast
  import opened Filters
  import opened Joins
  import opened Aggregates
  import opened Grouping

  datatype RowSet = RowSet(columns: seq<string>, rows: seq<seq<Value>>)

  // ---- plain projection ----

  /** `resolve_select_columns`. */
  function ColumnNames(exprs: seq<SelectExpr>, columns: seq<Column>, table: string): Result<seq<string>> {
    if exprs == [] then Ok([]) else
    var n := |exprs| - 1;
    var head :- ColumnNames(exprs[..n], columns, table);
    match exprs[n]
    case AllColumns => Ok(head + AllNames(columns))
    case ColumnExpr(name) => if HasColumn(columns, name) then Ok(head + [name]) else Err(ColumnNotFound(table, name))
    case Aggregate(_, _) => Ok(head)
  }

  function AllNames(columns: seq<Column>): seq<string> {
    seq(|columns|, i requires 0 <= i < |columns| => columns[i].name)
  }

  function ValuesOf(row: Row, names: seq<string>): (values: seq<Value>)
    ensures |values| == |names| && forall i :: 0 <= i < |names| ==> values[i] == Get(row, names[i])
  {
    seq(|names|, i requires 0 <= i < |names| => Get(row, names[i]))
  }

  function ProjectRows(rows: seq<Row>, names: seq<string>): (r: seq<seq<Value>>)
    ensures |r| == |rows| && forall i :: 0 <= i < |rows| ==> r[i] == ValuesOf(rows[i], names)
  {
    seq(|rows|, i requires 0 <= i < |rows| => ValuesOf(rows[i], names))
  }

  // ---- aggregates without GROUP BY ----

  function AggregateCell(expr: SelectExpr, columns: seq<Column>, table: string, rows: seq<Row>): Result<Value> {
    match expr
    case Aggregate(func, target) =>
      if target.OfColumn? && !HasColumn(columns, target.name) then Err(ColumnNotFound(table, target.name))
      else AggregateOf(func, target, rows)
    case ColumnExpr(name) =>
      if !HasColumn(columns, name) then Err(ColumnNotFound(table, name))
      else Ok(if rows == [] then Null else Get(rows[0], name))
    case AllColumns => Err(ParseError)
  }

  function CellName(expr: SelectExpr): string {
    match expr
    case Aggregate(func, target) => AggregateLabel(func, target)
    case ColumnExpr(name) => name
    case AllColumns => ""
  }

  function CellNames(exprs: seq<SelectExpr>): seq<string> {
    seq(|exprs|, i requires 0 <= i < |exprs| => CellName(exprs[i]))
  }

  /** `execute_aggregate`: one row of cells, or the first failing cell's error. */
  function AggregateCells(exprs: seq<SelectExpr>, columns: seq<Column>, table: string, rows: seq<Row>): Result<seq<Value>> {
    if exprs == [] then Ok([]) else
    var n := |exprs| - 1;
    var head :- AggregateCells(exprs[..n], columns, table, rows);
    var cell :- AggregateCell(exprs[n], columns, table, rows);
    Ok(head + [cell])
  }

  // ---- GROUP BY ----

  function CheckGroupColumns(groupBy: seq<string>, columns: seq<Column>, table: string): Result<()> {
    if groupBy == [] then Ok(())
    else if !HasColumn(columns, groupBy[0]) then Err(ColumnNotFound(table, groupBy[0]))
    else CheckGroupColumns(groupBy[1..], columns, table)
  }

  function CheckGroupExprs(exprs: seq<SelectExpr>, groupBy: seq<string>, columns: seq<Column>, table: string): Result<()> {
    if exprs == [] then Ok(()) else
    var _ :- CheckGroupExpr(exprs[0], groupBy, columns, table);
    CheckGroupExprs(exprs[1..], groupBy, columns, table)
  }

  function CheckGroupExpr(expr: SelectExpr, groupBy: seq<string>, columns: seq<Column>, table: string): Result<()> {
    match expr
    case AllColumns => Err(ParseError)
    case ColumnExpr(name) => if name in groupBy then Ok(()) else Err(ParseError)
    case Aggregate(_, OfColumn(c)) => if HasColumn(columns, c) then Ok(()) else Err(ColumnNotFound(table, c))
    case Aggregate(_, Star) => Ok(())
  }

  datatype HavingAggregate = HavingAggregate(title: string, func: AggregateFunc, target: AggregateTarget)

  /** `parse_aggregate_label`: NAME(column) or NAME(*). */
  function ParseAggregateLabel(title: string): Option<HavingAggregate> {
    var p := FindChar(title, '(');
    if p == -1 || title[|title| - 1] != ')' then None else
    var inner := Trim(title[p + 1..|title| - 1]);
    var target := if inner == "*" then Star else OfColumn(inner);
    match FuncNamed(Upper(title[..p]))
    case None => None
    case Some(func) => Some(HavingAggregate(title, func, target))
  }

  function FuncNamed(name: string): Option<AggregateFunc> {
    if name == "COUNT" then Some(Count)
    else if name == "SUM" then Some(Sum)
    else if name == "MIN" then Some(Min)
    else if name == "MAX" then Some(Max)
    else if name == "AVG" then Some(Avg)
    else None
  }

  /** `collect_having_aggregates`: each aggregate title once, in order of appearance. */
  function CollectHaving(filter: Filter, sofar: seq<HavingAggregate>): seq<HavingAggregate> {
    match filter
    case Compare(column, _, _) =>
      var a := ParseAggregateLabel(column);
      if a.None? || exists i :: 0 <= i < |sofar| && sofar[i].title == column then sofar else sofar + [a.value]
    case And(left, right) => CollectHaving(right, CollectHaving(left, sofar))
    case Or(left, right) => CollectHaving(right, CollectHaving(left, sofar))
    case _ => sofar
  }

  /** The sample row extended with the group's aggregates, which HAVING is evaluated on. */
  function Synthetic(sample: Row, aggregates: seq<HavingAggregate>, group: seq<Row>): Result<Row> {
    if aggregates == [] then Ok(sample) else
    var n := |aggregates| - 1;
    var row :- Synthetic(sample, aggregates[..n], group);
    var value :- AggregateOf(aggregates[n].func, aggregates[n].target, group);
    Ok(row[aggregates[n].title := value])
  }

  function GroupCells(exprs: seq<SelectExpr>, sample: Row, group: seq<Row>): Result<seq<Value>> {
    if exprs == [] then Ok([]) else
    var n := |exprs| - 1;
    var head :- GroupCells(exprs[..n], sample, group);
    match exprs[n]
    case ColumnExpr(name) => Ok(head + [Get(sample, name)])
    case Aggregate(func, target) =>
      var value :- AggregateOf(func, target, group);
      Ok(head + [value])
    case AllColumns => Err(ParseError)
  }

  /** The output row of one group, None when HAVING rejects it. */
  function GroupOutput(exprs: seq<SelectExpr>, having: Option<Filter>, group: seq<Row>): Result<Option<seq<Value>>>
    requires group != []
  {
    var accepted :- HavingAccepts(having, group);
    if !accepted then Ok(None) else
    var cells :- GroupCells(exprs, group[0], group);
    Ok(Some(cells))
  }

  function HavingAccepts(having: Option<Filter>, group: seq<Row>): Result<bool>
    requires group != []
  {
    match having
    case None => Ok(true)
    case Some(f) =>
      var row :- Synthetic(group[0], CollectHaving(f, []), group);
      Ok(Evaluate(row, f))
  }

  /** The output rows of the groups, in first-occurrence order. */
  function GroupRows(keys: seq<Key>, exprs: seq<SelectExpr>, having: Option<Filter>, rows: seq<Row>, groupBy: seq<string>):
    Result<seq<seq<Value>>>
  {
    if keys == [] then Ok([]) else
    var n := |keys| - 1;
    var head :- GroupRows(keys[..n], exprs, having, rows, groupBy);
    var group := GroupOf(rows, groupBy, keys[n]);
    if group == [] then Ok(head) else
    var output :- GroupOutput(exprs, having, group);
    Ok(if output.Some? then head + [output.value] else head)
  }

  /** `compute_group_by`. */
  function Grouped(exprs: seq<SelectExpr>, columns: seq<Column>, table: string, rows: seq<Row>, groupBy: seq<string>,
                   having: Option<Filter>): Result<RowSet>
  {
    var _ :- CheckGroupColumns(groupBy, columns, table);
    var _ :- CheckGroupExprs(exprs, groupBy, columns, table);
    var out :- GroupRows(FirstKeys(rows, groupBy), exprs, having, rows, groupBy);
    Ok(RowSet(CellNames(exprs), out))
  }

  // ---- SELECT ----

  predicate HasAggregates(exprs: seq<SelectExpr>) {
    exists i :: 0 <= i < |exprs| && exprs[i].Aggregate?
  }

  /** OFFSET, then LIMIT. */
  function Window(rows: seq<seq<Value>>, limit: Option<nat>, offset: Option<nat>): seq<seq<Value>> {
    var start := if offset.Some? && offset.value < |rows| then offset.value else if offset.Some? then |rows| else 0;
    var rest := rows[start..];
    if limit.Some? && limit.value < |rest| then rest[..limit.value] else rest
  }

  function Project(q: Query, columns: seq<Column>, rows: seq<Row>): Result<RowSet> {
    if q.groupBy != [] then Grouped(q.columns, columns, q.table, rows, q.groupBy, q.having)
    else if HasAggregates(q.columns) then
      var cells :- AggregateCells(q.columns, columns, q.table, rows);
      Ok(RowSet(CellNames(q.columns), [cells]))
    else if q.having.Some? then Err(ParseError)
    else
      var names :- ColumnNames(q.columns, columns, q.table);
      Ok(RowSet(names, ProjectRows(rows, names)))
  }

  /** The rows and columns a query starts from: the whole table, or the nested loops over its joins. */
  function Source(db: Db, q: Query): Result<Joined>
    requires q.table in db.tables
  {
    var t := db.tables[q.table];
    JoinAll(db, Joined(t.rows, t.columns, StartNames(q.table, t.columns)), q.joins)
  }

  lemma NoJoins(db: Db, q: Query)
    requires q.table in db.tables && q.joins == []
    ensures var t := db.tables[q.table]; Source(db, q) == Ok(Joined(t.rows, t.columns, StartNames(q.table, t.columns)))
  {
  }

  /** `select`, without ORDER BY. */
  function RunQuery(db: Db, q: Query): Result<RowSet>
    decreases q
  {
    if q.table !in db.tables then Err(TableNotFound(q.table)) else
    var filter :- ResolveOption(db, q.filter);
    var source :- Source(db, q);
    var prepared :- PrepareOption(source.columns, q.table, filter);
    var out :- Project(q, source.columns, FilterRows(source.rows, prepared));
    Ok(RowSet(out.columns, Window(out.rows, q.limit, q.offset)))
  }

  function ResolveOption(db: Db, filter: Option<Filter>): Result<Option<Filter>>
    decreases filter
  {
    match filter
    case None => Ok(None)
    case Some(f) =>
      var resolved :- Resolve(db, f);
      Ok(Some(resolved))
  }

  /** `resolve_subqueries`: every subquery becomes the list of values it returns. */
  function Resolve(db: Db, filter: Filter): Result<Filter>
    decreases filter
  {
    match filter
    case InSubquery(column, subquery, negated) =>
      var values :- SubqueryValues(db, subquery);
      Ok(InList(column, values, negated))
    case And(left, right) =>
      var l :- Resolve(db, left);
      var r :- Resolve(db, right);
      Ok(And(l, r))
    case Or(left, right) =>
      var l :- Resolve(db, left);
      var r :- Resolve(db, right);
      Ok(Or(l, r))
    case _ => Ok(filter)
  }

  /** The values of a one-column subquery. */
  function SubqueryValues(db: Db, subquery: Statement): Result<seq<Value>>
    decreases subquery
  {
    if !subquery.Select? then Err(ParseError) else
    var result :- RunQuery(db, subquery.query);
    if |result.columns| != 1 then Err(ParseError) else Ok(FirstValues(result.rows))
  }

  function FirstValues(rows: seq<seq<Value>>): seq<Value> {
    if rows == [] then [] else
    var n := |rows| - 1;
    FirstValues(rows[..n]) + if rows[n] == [] then [] else [rows[n][0]]
  }

  // ---- subqueries keep their meaning ----

  predicate NoSubquery(filter: Filter) {
    match filter
    case InSubquery(_, _, _) => false
    case And(left, right) => NoSubquery(left) && NoSubquery(right)
    case Or(left, right) => NoSubquery(left) && NoSubquery(right)
    case _ => true
  }

  /**
   Acceptance of a row read off the unresolved filter: a subquery is membership in its result after
   coercion to the column's type, and constants are compared after the same coercion.
   */
  ghost predicate Accepts(db: Db, columns: seq<Column>, filter: Filter, row: Row) {
    match filter
    case Compare(column, op, value) =>
      FindColumn(columns, column).Some? && CompareValues(Get(row, column), op, AsType(columns, column, value))
    case IsNull(column) => Get(row, column) == Null
    case IsNotNull(column) => Get(row, column) != Null
    case InList(column, values, negated) =>
      Get(row, column) != Null && negated != ListHas(columns, column, values, Get(row, column))
    case InSubquery(column, subquery, negated) =>
      && Get(row, column) != Null
      && SubqueryValues(db, subquery).Ok?
      && negated != ListHas(columns, column, SubqueryValues(db, subquery).value, Get(row, column))
    case And(left, right) => Accepts(db, columns, left, row) && Accepts(db, columns, right, row)
    case Or(left, right) => Accepts(db, columns, left, row) || Accepts(db, columns, right, row)
  }

  /** A constant as a column of that name reads it. */
  function AsType(columns: seq<Column>, column: string, value: Value): Value {
    match FindColumn(columns, column)
    case None => value
    case Some(c) =>
      match Coerce(column, c.dataType, value)
      case Ok(v) => v
      case Err(_) => value
  }

  ghost predicate ListHas(columns: seq<Column>, column: string, values: seq<Value>, left: Value) {
    exists i :: 0 <= i < |values| && AsType(columns, column, values[i]) == left
  }

  lemma CoercedListHas(columns: seq<Column>, table: string, column: string, values: seq<Value>, negated: bool, left: Value)
    requires Prepare(columns, table, InList(column, values, negated)).Ok?
    ensures var prepared := Prepare(columns, table, InList(column, values, negated)).value;
      && prepared.InList? && prepared.column == column && prepared.negated == negated
      && (left in prepared.values <==> ListHas(columns, column, values, left))
  {
    var c := FindColumn(columns, column).value;
    var coerced := CoerceAll(column, c.dataType, values).value;
    forall i | 0 <= i < |values| ensures coerced[i] == AsType(columns, column, values[i]) {
      assert Coerce(column, c.dataType, values[i]) == Ok(coerced[i]);
    }
    if left in coerced {
      var i :| 0 <= i < |coerced| && coerced[i] == left;
      assert AsType(columns, column, values[i]) == left;
    }
    if ListHas(columns, column, values, left) {
      var i :| 0 <= i < |values| && AsType(columns, column, values[i]) == left;
      assert coerced[i] == left;
    }
  }

  /**
   Resolving the subqueries of any filter, however nested, and preparing the result leaves no subquery
   behind and accepts a row exactly when the original filter does.
   */
  lemma {:induction false} ResolvingPreservesMeaning(db: Db, columns: seq<Column>, table: string, filter: Filter, row: Row)
    requires Resolve(db, filter).Ok? && Prepare(columns, table, Resolve(db, filter).value).Ok?
    ensures NoSubquery(Resolve(db, filter).value)
    ensures Evaluate(row, Prepare(columns, table, Resolve(db, filter).value).value) <==> Accepts(db, columns, filter, row)
  {
    match filter {
      case Compare(column, op, value) =>
        if op == CompareOp.Like {
          CoerceText(column, value);
        }
      case InList(column, values, negated) =>
        CoercedListHas(columns, table, column, values, negated, Get(row, column));
      case InSubquery(column, subquery, negated) =>
        CoercedListHas(columns, table, column, SubqueryValues(db, subquery).value, negated, Get(row, column));
      case And(left, right) =>
        ResolvingPreservesMeaning(db, columns, table, left, row);
        ResolvingPreservesMeaning(db, columns, table, right, row);
      case Or(left, right) =>
        ResolvingPreservesMeaning(db, columns, table, left, row);
        ResolvingPreservesMeaning(db, columns, table, right, row);
      case _ =>
    }
  }

  lemma CoerceText(column: string, value: Value)
    ensures value.Text? ==> Coerce(column, TextType, value) == Ok(value)
  {
  }
}

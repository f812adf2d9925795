/** Parsed statements and filters. */
module Ast {
  import opened Types

  datatype CompareOp = Eq | NotEq | Gt | Gte | Lt | Lte | Like

  datatype Filter =
    | Compare(column: string, op: CompareOp, value: Value)
    | IsNull(column: string)
    | IsNotNull(column: string)
    | InList(column: string, values: seq<Value>, negated: bool)
    | InSubquery(column: string, subquery: Statement, negated: bool)
    | And(left: Filter, right: Filter)
    | Or(left: Filter, right: Filter)

  datatype AggregateFunc = Count | Sum | Min | Max | Avg

  datatype AggregateTarget = Star | OfColumn(name: string)

  datatype SelectExpr =
    | ColumnExpr(name: string)
    | AllColumns
    | Aggregate(func: AggregateFunc, target: AggregateTarget)

  datatype JoinClause = JoinClause(table: string, leftTable: Option<string>, leftColumn: string, rightColumn: string)

  /** A SELECT without ORDER BY. */
  datatype Query = Query(
    table: string,
    columns: seq<SelectExpr>,
    joins: seq<JoinClause>,
    filter: Option<Filter>,
    groupBy: seq<string>,
    having: Option<Filter>,
    limit: Option<nat>,
    offset: Option<nat>)

  datatype Statement =
    | CreateTable(name: string, columns: seq<Column>)
    | DropTable(name: string)
    | CreateIndex(name: string, table: string, column: string)
    | DropIndex(name: string)
    | AddColumn(table: string, newColumn: Column, default: Option<Value>)
    | DropColumn(table: string, column: string)
    | RenameColumn(table: string, oldName: string, newName: string)
    | Insert(table: string, intoColumns: Option<seq<string>>, values: seq<Value>)
    | Update(table: string, assignments: seq<(string, Value)>, filter: Option<Filter>)
    | Select(query: Query)
    | Delete(table: string, filter: Option<Filter>)
    | Begin
    | Commit
    | Rollback

  function FuncName(f: AggregateFunc): string {
    match f
    case Count => "COUNT"
    case Sum => "SUM"
    case Min => "MIN"
    case Max => "MAX"
    case Avg => "AVG"
  }

  function AggregateLabel(f: AggregateFunc, target: AggregateTarget): string {
    FuncName(f) + "(" + (if target.Star? then "*" else target.name) + ")"
  }
}

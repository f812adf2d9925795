/** Coercing values, preparing filters against a schema, evaluating them, and what an index may prune. */
module Filters {
  import opened Types
  import opened Decimal
  import opened Text
  import opened ValueKeys
  import opened TableFile
  import opened IndexMaps
  import opened Database
  import opened Ast
  import Like

  // ---- values ----

  /** `coerce_value`. */
  function Coerce(column: string, expected: DataType, value: Value): Result<Value> {
    match (expected, value)
    case (_, Null) => Ok(Null)
    case (IntType, Int(_)) => Ok(value)
    case (IntType, Text(s)) => (match ParseI64(s) case Some(i) => Ok(Int(i)) case None => Err(TypeMismatch(column)))
    case (BoolType, Bool(_)) => Ok(value)
    case (BoolType, Text(s)) =>
      if Lower(s) == "true" then Ok(Bool(true))
      else if Lower(s) == "false" then Ok(Bool(false))
      else Err(TypeMismatch(column))
    case (TextType, Text(_)) => Ok(value)
    case (TextType, Int(i)) => Ok(Text(IntToString(i)))
    case (TextType, Bool(b)) => Ok(Text(if b then "true" else "false"))
    case (_, _) => Err(TypeMismatch(column))
  }

  predicate HasType(value: Value, expected: DataType) {
    match value
    case Null => true
    case Int(_) => expected.IntType?
    case Text(_) => expected.TextType?
    case Bool(_) => expected.BoolType?
  }

  lemma CoerceGivesType(column: string, expected: DataType, value: Value)
    requires Coerce(column, expected, value).Ok?
    ensures HasType(Coerce(column, expected, value).value, expected)
    ensures Coerce(column, expected, value).value == Null <==> value == Null
    ensures HasType(value, expected) ==> Coerce(column, expected, value).value == value
  {
  }

  datatype Ordering = Less | Equal | Greater

  predicate TextLess(a: string, b: string) {
    if b == [] then false
    else if a == [] then true
    else a[0] < b[0] || (a[0] == b[0] && TextLess(a[1..], b[1..]))
  }

  /** `compare_ordering`: values of one type are ordered, all others (NULL included) are not comparable. */
  function CompareOrdering(left: Value, right: Value): Option<Ordering> {
    match (left, right)
    case (Int(a), Int(b)) => Some(if a < b then Less else if a == b then Equal else Greater)
    case (Text(a), Text(b)) => Some(if TextLess(a, b) then Less else if a == b then Equal else Greater)
    case (Bool(a), Bool(b)) => Some(if !a && b then Less else if a == b then Equal else Greater)
    case (_, _) => None
  }

  predicate CompareValues(left: Value, op: CompareOp, right: Value) {
    match op
    case Eq => left == right
    case NotEq => left != right
    case Gt => CompareOrdering(left, right) == Some(Greater)
    case Gte => CompareOrdering(left, right) in {Some(Greater), Some(Equal)}
    case Lt => CompareOrdering(left, right) == Some(Less)
    case Lte => CompareOrdering(left, right) in {Some(Less), Some(Equal)}
    case Like => left.Text? && right.Text? && Like.Matches(right.s, left.s)
  }

  // ---- preparing ----

  /** The column of that name, the first one if there were several. */
  function FindColumn(columns: seq<Column>, name: string): (r: Option<Column>)
    ensures r.Some? <==> HasColumn(columns, name)
    ensures r.Some? ==> r.value in columns && r.value.name == name
  {
    if columns == [] then None
    else if columns[0].name == name then Some(columns[0])
    else
      assert forall i :: 0 < i < |columns| ==> columns[i] == columns[1..][i - 1];
      FindColumn(columns[1..], name)
  }

  function CoerceAll(column: string, expected: DataType, values: seq<Value>): (r: Result<seq<Value>>)
    ensures r.Ok? ==> |r.value| == |values|
    ensures r.Ok? ==> forall i :: 0 <= i < |values| ==> Coerce(column, expected, values[i]) == Ok(r.value[i])
    ensures r.Ok? <==> forall i :: 0 <= i < |values| ==> Coerce(column, expected, values[i]).Ok?
  {
    if values == [] then Ok([]) else
    var head :- Coerce(column, expected, values[0]);
    var tail :- CoerceAll(column, expected, values[1..]);
    assert values == [values[0]] + values[1..];
    Ok([head] + tail)
  }

  /** `prepare_filter`. */
  function Prepare(columns: seq<Column>, table: string, filter: Filter): Result<Filter> {
    match filter
    case Compare(column, op, value) =>
      (match FindColumn(columns, column)
       case None => Err(ColumnNotFound(table, column))
       case Some(c) =>
         if op == CompareOp.Like then
           if c.dataType != TextType || !value.Text? then Err(TypeMismatch(column)) else Ok(filter)
         else
           var coerced :- Coerce(column, c.dataType, value);
           Ok(Compare(column, op, coerced)))
    case IsNull(column) => if HasColumn(columns, column) then Ok(filter) else Err(ColumnNotFound(table, column))
    case IsNotNull(column) => if HasColumn(columns, column) then Ok(filter) else Err(ColumnNotFound(table, column))
    case InList(column, values, negated) =>
      (match FindColumn(columns, column)
       case None => Err(ColumnNotFound(table, column))
       case Some(c) =>
         var coerced :- CoerceAll(column, c.dataType, values);
         Ok(InList(column, coerced, negated)))
    case InSubquery(_, _, _) => Err(ParseError)
    case And(left, right) =>
      var l :- Prepare(columns, table, left);
      var r :- Prepare(columns, table, right);
      Ok(And(l, r))
    case Or(left, right) =>
      var l :- Prepare(columns, table, left);
      var r :- Prepare(columns, table, right);
      Ok(Or(l, r))
  }

  function PrepareOption(columns: seq<Column>, table: string, filter: Option<Filter>): Result<Option<Filter>> {
    match filter
    case None => Ok(None)
    case Some(f) =>
      var prepared :- Prepare(columns, table, f);
      Ok(Some(prepared))
  }

  // ---- evaluating ----

  /** `evaluate_filter`. */
  predicate Evaluate(row: Row, filter: Filter) {
    match filter
    case Compare(column, op, value) => CompareValues(Get(row, column), op, value)
    case IsNull(column) => Get(row, column) == Null
    case IsNotNull(column) => Get(row, column) != Null
    case InList(column, values, negated) =>
      Get(row, column) != Null && (negated != (Get(row, column) in values))
    case InSubquery(_, _, _) => false
    case And(left, right) => Evaluate(row, left) && Evaluate(row, right)
    case Or(left, right) => Evaluate(row, left) || Evaluate(row, right)
  }

  /** `row_matches_filter`. */
  predicate RowMatches(row: Row, filter: Option<Filter>) {
    filter.None? || Evaluate(row, filter.value)
  }

  function Matching(filter: Option<Filter>): Row -> bool {
    (row: Row) => RowMatches(row, filter)
  }

  /** The matching rows, in order. */
  function FilterRows(rows: seq<Row>, filter: Option<Filter>): seq<Row> {
    Keep(rows, Matching(filter))
  }

  // ---- what an index may prune ----

  /** `collect_index_candidates`: the equality tests on the AND-spine, left to right. */
  function Candidates(filter: Filter): seq<(string, Value)> {
    match filter
    case Compare(column, op, value) => if op == Eq then [(column, value)] else []
    case And(left, right) => Candidates(left) + Candidates(right)
    case _ => []
  }

  /** Every row a filter accepts satisfies each equality test on its AND-spine, `= NULL` included. */
  lemma CandidateIsNecessary(row: Row, filter: Filter, column: string, value: Value)
    requires (column, value) in Candidates(filter) && Evaluate(row, filter)
    ensures Get(row, column) == value
  {
    match filter
    case And(left, right) =>
      if (column, value) in Candidates(left) {
        CandidateIsNecessary(row, left, column, value);
      } else {
        CandidateIsNecessary(row, right, column, value);
      }
    case _ =>
  }

  lemma DatasAppend(rows: seq<Located>, found: Located)
    ensures Datas(rows + [found]) == Datas(rows) + [found.row.data]
  {
  }

  /** Filtering the rows of an index bucket gives the same sequence as filtering the whole table. */
  lemma {:induction false} BucketThenFilter(rows: seq<Located>, filter: Filter, column: string, value: Value)
    requires (column, value) in Candidates(filter)
    ensures FilterRows(Datas(Holding(rows, column, ValueKey(value))), Some(filter))
      == FilterRows(Datas(rows), Some(filter))
  {
    if rows != [] {
      hide Keep, Evaluate, Datas, Candidates;
      var n := |rows| - 1;
      var last := rows[n];
      var held := Holding(rows[..n], column, ValueKey(value));
      BucketThenFilter(rows[..n], filter, column, value);
      assert rows == rows[..n] + [last];
      DatasAppend(rows[..n], last);
      DatasAppend(held, last);
      KeepAppend(Datas(rows[..n]), last.row.data, Matching(Some(filter)));
      KeepAppend(Datas(held), last.row.data, Matching(Some(filter)));
      if Evaluate(last.row.data, filter) {
        CandidateIsNecessary(last.row.data, filter, column, value);
      }
      assert held + [] == held;
    }
  }
}

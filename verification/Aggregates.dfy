/** Aggregate functions: the accumulating loops, and what they compute. */
module Aggregates {
  import opened Types
  import opened Ast
  import opened Database
  import opened Filters

  const TWO_64: int := 0x1_0000_0000_0000_0000

  /** Two's complement: the `i64` that a mathematical integer wraps to. */
  function Wrap(n: int): (w: I64)
    ensures I64_MIN <= n <= I64_MAX ==> w == n
  {
    (n - I64_MIN) % TWO_64 + I64_MIN
  }

  lemma WrapAdd(a: int, b: int)
    ensures Wrap(Wrap(a) + b) == Wrap(a + b)
  {
    var k := (a - I64_MIN) / TWO_64;
    assert Wrap(a) == a - k * TWO_64;
    ModShift(a + b - I64_MIN, k);
  }

  lemma ModShift(n: int, k: int)
    ensures (n - k * TWO_64) % TWO_64 == n % TWO_64
  {
    var q, r := n / TWO_64, n % TWO_64;
    assert n - k * TWO_64 == (q - k) * TWO_64 + r;
  }

  /** Rust's `/`: truncation toward zero. */
  function TruncDiv(a: int, b: int): int
    requires b != 0
  {
    if (a >= 0) == (b > 0) then Magnitude(a) / Magnitude(b) else 0 - Magnitude(a) / Magnitude(b)
  }

  function Magnitude(n: int): nat {
    if n < 0 then 0 - n else n
  }

  predicate NonNull(row: Row, column: string) {
    Get(row, column) != Null
  }

  function HasValue(column: string): Row -> bool {
    (row: Row) => NonNull(row, column)
  }

  /** SUM and AVG accept a column whose values are all integers or NULL. */
  predicate Summable(rows: seq<Row>, column: string) {
    forall i :: 0 <= i < |rows| ==> Get(rows[i], column).Int? || Get(rows[i], column).Null?
  }

  function IntOf(row: Row, column: string): int {
    match Get(row, column)
    case Int(i) => i
    case _ => 0
  }

  /** The mathematical sum of a column. */
  function SumOf(rows: seq<Row>, column: string): int {
    if rows == [] then 0 else SumOf(rows[..|rows| - 1], column) + IntOf(rows[|rows| - 1], column)
  }

  /** The number of non-NULL values of a column. */
  function CountOf(rows: seq<Row>, column: string): nat {
    |Keep(rows, HasValue(column))|
  }

  /** The value the MIN (or MAX) loop holds after all rows: a later value replaces it only when strictly beyond it. */
  function Extreme(rows: seq<Row>, column: string, beyond: Ordering): Option<Value> {
    if rows == [] then None else
    var sofar := Extreme(rows[..|rows| - 1], column, beyond);
    var v := Get(rows[|rows| - 1], column);
    if v == Null then sofar
    else if sofar.None? || CompareOrdering(v, sofar.value) == Some(beyond) then Some(v)
    else sofar
  }

  function OrNull(v: Option<Value>): Value {
    if v.Some? then v.value else Null
  }

  /** What an aggregate over a list of rows is. */
  function AggregateOf(func: AggregateFunc, target: AggregateTarget, rows: seq<Row>): Result<Value> {
    match (func, target)
    case (Count, Star) => Ok(Int(Wrap(|rows|)))
    case (Count, OfColumn(c)) => Ok(Int(Wrap(CountOf(rows, c))))
    case (_, Star) => Err(ParseError)
    case (Sum, OfColumn(c)) =>
      if Summable(rows, c) then Ok(Int(Wrap(SumOf(rows, c)))) else Err(TypeMismatch(c))
    case (Avg, OfColumn(c)) =>
      if !Summable(rows, c) then Err(TypeMismatch(c))
      else if Wrap(CountOf(rows, c)) == 0 then Ok(Null)
      else Ok(Int(Wrap(TruncDiv(Wrap(SumOf(rows, c)), Wrap(CountOf(rows, c))))))
    case (Min, OfColumn(c)) => Ok(OrNull(Extreme(rows, c, Less)))
    case (Max, OfColumn(c)) => Ok(OrNull(Extreme(rows, c, Greater)))
  }

  // ---- the loops of `compute_aggregate` ----

  method CountLoop(rows: seq<Row>, column: string) returns (count: nat)
    ensures count == CountOf(rows, column)
  {
    count := 0;
    for i := 0 to |rows|
      invariant count == CountOf(rows[..i], column)
    {
      KeepAppend(rows[..i], rows[i], HasValue(column));
      assert rows[..i + 1] == rows[..i] + [rows[i]];
      if Get(rows[i], column) != Null {
        count := count + 1;
      }
    }
    assert rows[..|rows|] == rows;
  }

  /** The loop shared by SUM and AVG: a wrapping sum and a count of the integers added. */
  method SumLoop(rows: seq<Row>, column: string) returns (r: Result<(I64, I64)>)
    ensures r == if Summable(rows, column)
      then Ok((Wrap(SumOf(rows, column)), Wrap(CountOf(rows, column)))) else Err(TypeMismatch(column))
  {
    var sum: I64, count: I64 := 0, 0;
    for i := 0 to |rows|
      invariant Summable(rows[..i], column)
      invariant sum == Wrap(SumOf(rows[..i], column)) && count == Wrap(CountOf(rows[..i], column))
    {
      assert rows[..i + 1] == rows[..i] + [rows[i]] && rows[..i + 1][..i] == rows[..i];
      KeepAppend(rows[..i], rows[i], HasValue(column));
      match Get(rows[i], column) {
        case Int(v) =>
          WrapAdd(SumOf(rows[..i], column), v);
          WrapAdd(CountOf(rows[..i], column), 1);
          sum, count := Wrap(sum + v), Wrap(count + 1);
        case Null =>
        case _ =>
          return Err(TypeMismatch(column));
      }
    }
    assert rows[..|rows|] == rows;
    r := Ok((sum, count));
  }

  method ExtremeLoop(rows: seq<Row>, column: string, beyond: Ordering) returns (best: Option<Value>)
    ensures best == Extreme(rows, column, beyond)
  {
    best := None;
    for i := 0 to |rows|
      invariant best == Extreme(rows[..i], column, beyond)
    {
      assert rows[..i + 1][..i] == rows[..i];
      var v := Get(rows[i], column);
      if v != Null {
        if best.None? || CompareOrdering(v, best.value) == Some(beyond) {
          best := Some(v);
        }
      }
    }
    assert rows[..|rows|] == rows;
  }

  /** `compute_aggregate`. */
  method ComputeAggregate(func: AggregateFunc, target: AggregateTarget, rows: seq<Row>) returns (r: Result<Value>)
    ensures r == AggregateOf(func, target, rows)
  {
    match (func, target) {
      case (Count, Star) =>
        r := Ok(Int(Wrap(|rows|)));
      case (Count, OfColumn(c)) =>
        var count := CountLoop(rows, c);
        r := Ok(Int(Wrap(count)));
      case (_, Star) =>
        r := Err(ParseError);
      case (Sum, OfColumn(c)) =>
        var totals :- SumLoop(rows, c);
        r := Ok(Int(totals.0));
      case (Avg, OfColumn(c)) =>
        var totals :- SumLoop(rows, c);
        var (sum, count) := totals;
        r := if count == 0 then Ok(Null) else Ok(Int(Wrap(TruncDiv(sum, count))));
      case (Min, OfColumn(c)) =>
        var best := ExtremeLoop(rows, c, Less);
        r := Ok(OrNull(best));
      case (Max, OfColumn(c)) =>
        var best := ExtremeLoop(rows, c, Greater);
        r := Ok(OrNull(best));
    }
  }

  // ---- what the results mean ----

  /** The average is the sum divided by the count, truncated toward zero, while neither leaves the i64 range. */
  lemma AverageTruncates(rows: seq<Row>, column: string)
    requires Summable(rows, column) && 0 < CountOf(rows, column) <= I64_MAX
    requires I64_MIN <= SumOf(rows, column) <= I64_MAX
    ensures var r := AggregateOf(Avg, OfColumn(column), rows);
      && r.Ok? && r.value.Int?
      && var (q, sum, n) := (r.value.i, SumOf(rows, column), CountOf(rows, column));
      && (if sum >= 0 then q * n <= sum < (q + 1) * n else (q - 1) * n < sum <= q * n)
  {
    TruncDivBounds(SumOf(rows, column), CountOf(rows, column));
  }

  lemma TruncDivBounds(a: int, n: int)
    requires n > 0
    ensures var q := TruncDiv(a, n);
      && (if a >= 0 then q * n <= a < (q + 1) * n else (q - 1) * n < a <= q * n)
      && (if a >= 0 then 0 <= q <= a else a <= q <= 0)
  {
    var m := Magnitude(a);
    DivBounds(m, n);
    var d := m / n;
    if a < 0 {
      assert (0 - d) * n == 0 - d * n && (0 - d - 1) * n == 0 - (d + 1) * n by { Negated(d, n); }
    }
  }

  lemma Negated(d: int, n: int)
    ensures (0 - d) * n == 0 - d * n && (0 - d - 1) * n == 0 - (d + 1) * n
  {
  }

  lemma DivBounds(m: nat, n: int)
    requires n > 0
    ensures var d := m / n; 0 <= d <= m && d * n <= m < (d + 1) * n
  {
    var d, r := m / n, m % n;
    assert m == d * n + r && 0 <= r < n;
    ProductBound(d, r, n);
  }

  lemma ProductBound(d: int, r: int, n: int)
    requires d >= 0 && 0 <= r < n
    ensures d <= d * n && d * n + r < (d + 1) * n
  {
    assert d * (n - 1) >= 0;
  }

  lemma {:induction false} TextOrder(a: string, b: string, c: string)
    ensures !(TextLess(a, b) && TextLess(b, a))
    ensures TextLess(a, b) || a == b || TextLess(b, a)
    ensures TextLess(a, b) && TextLess(b, c) ==> TextLess(a, c)
  {
    if a != [] && b != [] {
      TextOrder(a[1..], b[1..], if c != [] then c[1..] else []);
      assert a == [a[0]] + a[1..] && b == [b[0]] + b[1..];
    }
  }

  /** `u` does not lie strictly beyond `v`. */
  predicate NotBeyond(u: Value, v: Value, beyond: Ordering) {
    CompareOrdering(u, v) != Some(beyond)
  }

  lemma BeyondIsTransitive(u: Value, v: Value, w: Value, expected: DataType, beyond: Ordering)
    requires HasType(u, expected) && HasType(v, expected) && HasType(w, expected)
    requires u != Null && v != Null && w != Null && beyond != Equal
    requires NotBeyond(u, v, beyond) && CompareOrdering(w, v) == Some(beyond)
    ensures NotBeyond(u, w, beyond)
  {
    if u.Text? {
      TextOrder(u.s, w.s, v.s);
      TextOrder(w.s, v.s, u.s);
      TextOrder(v.s, u.s, w.s);
      TextOrder(v.s, w.s, u.s);
      TextOrder(w.s, u.s, v.s);
      TextOrder(u.s, v.s, w.s);
    }
  }

  /** On a column of one type, MIN and MAX are attained bounds, and NULL exactly when every value is. */
  lemma {:induction false} ExtremeIsAttainedBound(rows: seq<Row>, column: string, expected: DataType, beyond: Ordering)
    requires beyond != Equal
    requires forall i :: 0 <= i < |rows| ==> HasType(Get(rows[i], column), expected)
    ensures Extreme(rows, column, beyond).None? <==> forall i :: 0 <= i < |rows| ==> Get(rows[i], column) == Null
    ensures Extreme(rows, column, beyond).Some? ==>
      var m := Extreme(rows, column, beyond).value;
      && m != Null && HasType(m, expected)
      && (exists i :: 0 <= i < |rows| && Get(rows[i], column) == m)
      && forall i :: 0 <= i < |rows| && Get(rows[i], column) != Null ==> NotBeyond(Get(rows[i], column), m, beyond)
  {
    if rows != [] {
      var n := |rows| - 1;
      var head := rows[..n];
      ExtremeIsAttainedBound(head, column, expected, beyond);
      var sofar, v := Extreme(head, column, beyond), Get(rows[n], column);
      assert forall i :: 0 <= i < n ==> head[i] == rows[i];
      if v != Null && sofar.Some? && CompareOrdering(v, sofar.value) == Some(beyond) {
        forall i | 0 <= i < n && Get(rows[i], column) != Null ensures NotBeyond(Get(rows[i], column), v, beyond) {
          BeyondIsTransitive(Get(head[i], column), sofar.value, v, expected, beyond);
        }
        NotBeyondItself(v, beyond);
      } else if v != Null && sofar.None? {
        NotBeyondItself(v, beyond);
      }
    }
  }

  lemma NotBeyondItself(v: Value, beyond: Ordering)
    requires beyond != Equal
    ensures NotBeyond(v, v, beyond)
  {
    if v.Text? {
      TextOrder(v.s, v.s, v.s);
    }
  }
}

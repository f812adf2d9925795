/** What COUNT, SUM, AVG, MIN and MAX answer, stated without the functions the loops are proved against. */
module AggregateMeaning {
  import opened Types
  import opened Ast
  import opened Database
  import opened Filters
  import opened Aggregates
  import opened Comparisons

  // ---- COUNT ----

  /** The positions of the rows with a value in the column. */
  function Filled(rows: seq<Row>, column: string): set<nat> {
    set i: nat | i < |rows| && Get(rows[i], column) != Null
  }

  lemma {:induction false} CountIsFilled(rows: seq<Row>, column: string)
    ensures CountOf(rows, column) == |Filled(rows, column)| <= |rows|
  {
    if rows != [] {
      var n := |rows| - 1;
      CountIsFilled(rows[..n], column);
      var before := Filled(rows[..n], column);
      assert Filled(rows, column) == if Get(rows[n], column) == Null then before else before + {n};
    }
  }

  /** The i64 that a number wraps to: the one that differs from it by a multiple of 2^64. */
  predicate WrapsTo(n: int, w: I64) {
    (n - w) % TWO_64 == 0
  }

  lemma WrapWraps(n: int, w: I64)
    ensures Wrap(n) == w <==> WrapsTo(n, w)
  {
    var k := (n - I64_MIN) / TWO_64;
    assert Wrap(n) == n - k * TWO_64;
    ModShift(n - w, k);
  }

  /** COUNT(*) counts the rows, COUNT(column) those with a value. */
  lemma CountMeans(rows: seq<Row>, column: string)
    ensures exists w :: AggregateOf(Count, Star, rows) == Ok(Int(w)) && WrapsTo(|rows|, w)
    ensures exists w :: AggregateOf(Count, OfColumn(column), rows) == Ok(Int(w)) && WrapsTo(|Filled(rows, column)|, w)
  {
    WrapWraps(|rows|, Wrap(|rows|));
    CountIsFilled(rows, column);
    WrapWraps(CountOf(rows, column), Wrap(CountOf(rows, column)));
  }

  // ---- SUM and AVG ----

  /** The running totals of a column, NULL adding nothing. */
  predicate Totals(rows: seq<Row>, column: string, totals: seq<int>) {
    && |totals| == |rows| + 1 && totals[0] == 0
    && forall i :: 0 <= i < |rows| ==> totals[i + 1] == totals[i] + Addend(Get(rows[i], column))
  }

  function Addend(value: Value): int {
    if value.Int? then value.i else 0
  }

  lemma {:induction false} TotalsAreSum(rows: seq<Row>, column: string, totals: seq<int>)
    requires Totals(rows, column, totals)
    ensures totals[|rows|] == SumOf(rows, column)
  {
    if rows != [] {
      var n := |rows| - 1;
      TotalsAreSum(rows[..n], column, totals[..n + 1]);
    }
  }

  predicate IntegersOnly(rows: seq<Row>, column: string) {
    forall i :: 0 <= i < |rows| ==> Get(rows[i], column).Int? || Get(rows[i], column) == Null
  }

  /** SUM is the last running total, wrapped to an i64; a text or truth value makes it fail. */
  lemma SumMeans(rows: seq<Row>, column: string, totals: seq<int>)
    requires Totals(rows, column, totals)
    ensures IntegersOnly(rows, column) ==>
      exists w :: AggregateOf(Sum, OfColumn(column), rows) == Ok(Int(w)) && WrapsTo(totals[|rows|], w)
    ensures !IntegersOnly(rows, column) ==> AggregateOf(Sum, OfColumn(column), rows) == Err(TypeMismatch(column))
  {
    TotalsAreSum(rows, column, totals);
    WrapWraps(totals[|rows|], Wrap(totals[|rows|]));
    assert IntegersOnly(rows, column) <==> Summable(rows, column);
  }

  /** `q` is the quotient of `sum` by `n`, truncated toward zero. */
  predicate Truncates(q: int, sum: int, n: int) {
    if sum >= 0 then q * n <= sum < (q + 1) * n else (q - 1) * n < sum <= q * n
  }

  /** AVG is the total over the number of values, truncated toward zero while the total fits an i64; NULL without values. */
  lemma AvgMeans(rows: seq<Row>, column: string, totals: seq<int>)
    requires Totals(rows, column, totals) && |rows| <= I64_MAX
    ensures !IntegersOnly(rows, column) ==> AggregateOf(Avg, OfColumn(column), rows) == Err(TypeMismatch(column))
    ensures IntegersOnly(rows, column) && Filled(rows, column) == {} ==> AggregateOf(Avg, OfColumn(column), rows) == Ok(Null)
    ensures IntegersOnly(rows, column) && Filled(rows, column) != {} && I64_MIN <= totals[|rows|] <= I64_MAX ==>
      exists q: I64 :: AggregateOf(Avg, OfColumn(column), rows) == Ok(Int(q)) && Truncates(q, totals[|rows|], |Filled(rows, column)|)
  {
    hide SumOf, CountOf, TruncDiv;
    TotalsAreSum(rows, column, totals);
    CountIsFilled(rows, column);
    assert IntegersOnly(rows, column) <==> Summable(rows, column);
    var r := AggregateOf(Avg, OfColumn(column), rows);
    if IntegersOnly(rows, column) && Filled(rows, column) != {} && I64_MIN <= totals[|rows|] <= I64_MAX {
      AverageTruncates(rows, column);
      var q: I64 := r.value.i;
      assert r == Ok(Int(q)) && Truncates(q, totals[|rows|], |Filled(rows, column)|);
    }
  }

  // ---- MIN and MAX ----

  /** The value is in the column, and no value of it comes before. */
  ghost predicate IsLeast(rows: seq<Row>, column: string, m: Value) {
    && (exists i :: 0 <= i < |rows| && Get(rows[i], column) == m)
    && forall i :: 0 <= i < |rows| && Get(rows[i], column) != Null ==> !Before(Get(rows[i], column), m)
  }

  ghost predicate IsGreatest(rows: seq<Row>, column: string, m: Value) {
    && (exists i :: 0 <= i < |rows| && Get(rows[i], column) == m)
    && forall i :: 0 <= i < |rows| && Get(rows[i], column) != Null ==> !Before(m, Get(rows[i], column))
  }

  predicate Typed(rows: seq<Row>, column: string, expected: DataType) {
    forall i :: 0 <= i < |rows| ==> HasType(Get(rows[i], column), expected)
  }

  /** On a typed column MIN answers its least value and MAX its greatest, and NULL exactly when there is none. */
  lemma MinMaxMean(rows: seq<Row>, column: string, expected: DataType)
    requires Typed(rows, column, expected)
    ensures AggregateOf(Min, OfColumn(column), rows).Ok? && AggregateOf(Max, OfColumn(column), rows).Ok?
    ensures var (least, greatest) := (AggregateOf(Min, OfColumn(column), rows).value, AggregateOf(Max, OfColumn(column), rows).value);
      if Filled(rows, column) == {} then least == greatest == Null
      else least != Null && greatest != Null && IsLeast(rows, column, least) && IsGreatest(rows, column, greatest)
  {
    ExtremeIsAttainedBound(rows, column, expected, Less);
    ExtremeIsAttainedBound(rows, column, expected, Greater);
    assert Filled(rows, column) == {} <==> forall i :: 0 <= i < |rows| ==> Get(rows[i], column) == Null by {
      assert forall i: nat :: i in Filled(rows, column) <==> i < |rows| && Get(rows[i], column) != Null;
    }
    forall v, m ensures NotBeyond(v, m, Less) <==> !Before(v, m) ensures NotBeyond(v, m, Greater) <==> !Before(m, v) {
      OrderingIsBefore(v, m);
    }
  }

  /** On integers: MIN is at most, and MAX at least, every value of the column. */
  lemma IntegerBounds(rows: seq<Row>, column: string, i: nat)
    requires Typed(rows, column, IntType) && i < |rows| && Get(rows[i], column).Int?
    ensures var (least, greatest) := (AggregateOf(Min, OfColumn(column), rows), AggregateOf(Max, OfColumn(column), rows));
      && least.Ok? && least.value.Int? && greatest.Ok? && greatest.value.Int?
      && least.value.i <= Get(rows[i], column).i <= greatest.value.i
  {
    hide AggregateOf;
    MinMaxMean(rows, column, IntType);
    assert i in Filled(rows, column);
  }

  /** Every aggregate but COUNT needs a column. */
  lemma StarNeedsCount(func: AggregateFunc, rows: seq<Row>)
    ensures AggregateOf(func, Star, rows).Ok? <==> func == Count
  {
  }
}

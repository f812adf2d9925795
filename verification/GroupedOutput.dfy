/** What the output rows of a GROUP BY hold, which groups HAVING selects, and when COUNT and SUM add up without wrapping. */
module GroupedOutput {
  import opened Types
  import opened Ast
  import opened Filters
  import opened Aggregates
  import opened Grouping
  import opened Queries
  import D = Database

  // ---- output rows ----

  lemma {:induction false} CellsOfGroup(exprs: seq<SelectExpr>, sample: Row, group: seq<Row>, p: nat)
    requires GroupCells(exprs, sample, group).Ok? && p < |exprs|
    ensures var cells := GroupCells(exprs, sample, group).value;
      && |cells| == |exprs|
      && (exprs[p].ColumnExpr? ==> cells[p] == Get(sample, exprs[p].name))
      && (exprs[p].Aggregate? ==> AggregateOf(exprs[p].func, exprs[p].target, group) == Ok(cells[p]))
  {
    hide AggregateOf;
    var n := |exprs| - 1;
    if p < n {
      CellsOfGroup(exprs[..n], sample, group, p);
    } else if n > 0 {
      CellsOfGroup(exprs[..n], sample, group, 0);
    }
  }

  /** The row of one group, and its cells. */
  ghost predicate RowOfGroup(exprs: seq<SelectExpr>, group: seq<Row>, row: seq<Value>) {
    && group != [] && |row| == |exprs|
    && forall p :: 0 <= p < |exprs| ==>
      && (exprs[p].ColumnExpr? ==> row[p] == Get(group[0], exprs[p].name))
      && (exprs[p].Aggregate? ==> AggregateOf(exprs[p].func, exprs[p].target, group) == Ok(row[p]))
  }

  lemma CellsMakeRow(exprs: seq<SelectExpr>, group: seq<Row>)
    requires group != [] && GroupCells(exprs, group[0], group).Ok?
    ensures RowOfGroup(exprs, group, GroupCells(exprs, group[0], group).value)
  {
    hide AggregateOf, GroupCells;
    CellCount(exprs, group[0], group);
    forall p | 0 <= p < |exprs|
      ensures exprs[p].ColumnExpr? ==> GroupCells(exprs, group[0], group).value[p] == Get(group[0], exprs[p].name)
      ensures exprs[p].Aggregate? ==>
        AggregateOf(exprs[p].func, exprs[p].target, group) == Ok(GroupCells(exprs, group[0], group).value[p])
    {
      CellsOfGroup(exprs, group[0], group, p);
    }
  }

  lemma {:induction false} CellCount(exprs: seq<SelectExpr>, sample: Row, group: seq<Row>)
    requires GroupCells(exprs, sample, group).Ok?
    ensures |GroupCells(exprs, sample, group).value| == |exprs|
  {
    hide AggregateOf;
    if exprs != [] {
      CellCount(exprs[..|exprs| - 1], sample, group);
    }
  }

  ghost predicate RowsOfGroups(keys: seq<Key>, exprs: seq<SelectExpr>, rows: seq<Row>, groupBy: seq<string>, out: seq<seq<Value>>) {
    |out| == |keys| && forall k :: 0 <= k < |keys| ==> RowOfGroup(exprs, GroupOf(rows, groupBy, keys[k]), out[k])
  }

  lemma {:induction false} EachKeyHasRow(keys: seq<Key>, exprs: seq<SelectExpr>, rows: seq<Row>, groupBy: seq<string>)
    requires GroupRows(keys, exprs, None, rows, groupBy).Ok?
    requires forall k :: 0 <= k < |keys| ==> GroupOf(rows, groupBy, keys[k]) != []
    ensures RowsOfGroups(keys, exprs, rows, groupBy, GroupRows(keys, exprs, None, rows, groupBy).value)
  {
    hide RowOfGroup, GroupOf, GroupCells;
    if keys != [] {
      var n := |keys| - 1;
      EachKeyHasRow(keys[..n], exprs, rows, groupBy);
      CellsMakeRow(exprs, GroupOf(rows, groupBy, keys[n]));
    }
  }

  /** Without HAVING a grouped query answers one row per key, in first-occurrence order, each holding its group's values. */
  lemma GroupedAnswers(exprs: seq<SelectExpr>, columns: seq<Column>, table: string, rows: seq<Row>, groupBy: seq<string>)
    requires Grouped(exprs, columns, table, rows, groupBy, None).Ok?
    ensures RowsOfGroups(FirstKeys(rows, groupBy), exprs, rows, groupBy, Grouped(exprs, columns, table, rows, groupBy, None).value.rows)
  {
    hide RowsOfGroups, GroupRows, GroupOf, FirstKeys;
    var keys := FirstKeys(rows, groupBy);
    forall k | 0 <= k < |keys| ensures GroupOf(rows, groupBy, keys[k]) != [] {
      assert keys[k] in keys;
      ListedGroupsHaveRows(rows, groupBy, keys[k]);
    }
    EachKeyHasRow(keys, exprs, rows, groupBy);
  }

  // ---- HAVING ----

  /** A comparison of the filter names this column or title. */
  predicate Compares(filter: Filter, name: string) {
    match filter
    case Compare(column, _, _) => column == name
    case And(left, right) => Compares(left, name) || Compares(right, name)
    case Or(left, right) => Compares(left, name) || Compares(right, name)
    case _ => false
  }

  predicate Titled(aggregates: seq<HavingAggregate>, name: string) {
    exists i :: 0 <= i < |aggregates| && aggregates[i].title == name
  }

  /** Every entry is what its own title says, so entries with one title are the same. */
  predicate WellTitled(aggregates: seq<HavingAggregate>) {
    forall i :: 0 <= i < |aggregates| ==> ParseAggregateLabel(aggregates[i].title) == Some(aggregates[i])
  }

  lemma {:induction false} CollectedTitles(filter: Filter, sofar: seq<HavingAggregate>, name: string)
    requires WellTitled(sofar)
    ensures WellTitled(CollectHaving(filter, sofar))
    ensures Titled(CollectHaving(filter, sofar), name)
      <==> (Titled(sofar, name) || (Compares(filter, name) && ParseAggregateLabel(name).Some?))
  {
    match filter {
      case Compare(column, _, _) =>
        if ParseAggregateLabel(column).Some? {
          TitleAppended(sofar, column, name);
        }
      case And(left, right) =>
        CollectedTitles(left, sofar, name);
        CollectedTitles(right, CollectHaving(left, sofar), name);
      case Or(left, right) =>
        CollectedTitles(left, sofar, name);
        CollectedTitles(right, CollectHaving(left, sofar), name);
      case _ =>
    }
  }

  lemma TitleAppended(sofar: seq<HavingAggregate>, column: string, name: string)
    requires WellTitled(sofar) && ParseAggregateLabel(column).Some?
    ensures var a := ParseAggregateLabel(column).value;
      && a.title == column && WellTitled(sofar + [a])
      && (Titled(sofar + [a], name) <==> Titled(sofar, name) || name == column)
  {
    var a := ParseAggregateLabel(column).value;
    var wider := sofar + [a];
    assert a.title == column;
    hide ParseAggregateLabel;
    assert wider[|sofar|] == a;
    forall i | 0 <= i < |sofar| ensures wider[i] == sofar[i] {
    }
    assert Titled(sofar, name) ==> Titled(wider, name);
  }

  lemma {:induction false} SyntheticCells(sample: Row, aggregates: seq<HavingAggregate>, group: seq<Row>, name: string)
    requires WellTitled(aggregates) && Synthetic(sample, aggregates, group).Ok?
    ensures var row := Synthetic(sample, aggregates, group).value;
      if Titled(aggregates, name) then
        var a := ParseAggregateLabel(name);
        a.Some? && AggregateOf(a.value.func, a.value.target, group) == Ok(Get(row, name))
      else Get(row, name) == Get(sample, name)
  {
    hide AggregateOf, ParseAggregateLabel;
    if aggregates != [] {
      var n := |aggregates| - 1;
      SyntheticCells(sample, aggregates[..n], group, name);
      var before := Synthetic(sample, aggregates[..n], group).value;
      var value := AggregateOf(aggregates[n].func, aggregates[n].target, group).value;
      assert Synthetic(sample, aggregates, group).value == before[aggregates[n].title := value];
      if aggregates[n].title == name {
        assert Titled(aggregates, name);
        assert ParseAggregateLabel(aggregates[n].title) == Some(aggregates[n]);
      } else {
        assert Titled(aggregates, name) <==> Titled(aggregates[..n], name);
      }
    }
  }

  /**
   The row HAVING is evaluated on reads each compared aggregate title as that aggregate of the group, and every other
   name from the group's first row.
   */
  lemma HavingReads(filter: Filter, group: seq<Row>, name: string)
    requires group != [] && Synthetic(group[0], CollectHaving(filter, []), group).Ok?
    ensures var row := Synthetic(group[0], CollectHaving(filter, []), group).value;
      if Compares(filter, name) && ParseAggregateLabel(name).Some? then
        var a := ParseAggregateLabel(name).value;
        AggregateOf(a.func, a.target, group) == Ok(Get(row, name))
      else Get(row, name) == Get(group[0], name)
  {
    hide AggregateOf, ParseAggregateLabel, Synthetic, CollectHaving;
    CollectedTitles(filter, [], name);
    SyntheticCells(group[0], CollectHaving(filter, []), group, name);
  }

  /** The group's extended row satisfies the filter. */
  predicate HavingHolds(filter: Filter, group: seq<Row>) {
    && group != []
    && var row := Synthetic(group[0], CollectHaving(filter, []), group);
    row.Ok? && Evaluate(row.value, filter)
  }

  /** The keys of the groups HAVING accepts. */
  function Selects(filter: Filter, rows: seq<Row>, groupBy: seq<string>): Key -> bool {
    (key: Key) => HavingHolds(filter, GroupOf(rows, groupBy, key))
  }

  lemma {:induction false} EachAcceptedKeyHasRow(keys: seq<Key>, exprs: seq<SelectExpr>, filter: Filter, rows: seq<Row>,
                                                 groupBy: seq<string>)
    requires GroupRows(keys, exprs, Some(filter), rows, groupBy).Ok?
    ensures RowsOfGroups(D.Keep(keys, Selects(filter, rows, groupBy)), exprs, rows, groupBy,
      GroupRows(keys, exprs, Some(filter), rows, groupBy).value)
  {
    hide RowOfGroup, GroupOf, GroupCells, Synthetic, CollectHaving;
    if keys != [] {
      var n := |keys| - 1;
      EachAcceptedKeyHasRow(keys[..n], exprs, filter, rows, groupBy);
      if HavingHolds(filter, GroupOf(rows, groupBy, keys[n])) {
        CellsMakeRow(exprs, GroupOf(rows, groupBy, keys[n]));
      }
    }
  }

  /**
   With HAVING a grouped query answers one row per key whose group satisfies the filter, and no other, in
   first-occurrence order, each holding its group's values.
   */
  lemma HavingAnswers(exprs: seq<SelectExpr>, columns: seq<Column>, table: string, rows: seq<Row>, groupBy: seq<string>,
                      filter: Filter)
    requires Grouped(exprs, columns, table, rows, groupBy, Some(filter)).Ok?
    ensures RowsOfGroups(D.Keep(FirstKeys(rows, groupBy), Selects(filter, rows, groupBy)), exprs, rows, groupBy,
      Grouped(exprs, columns, table, rows, groupBy, Some(filter)).value.rows)
  {
    hide RowsOfGroups, GroupRows, FirstKeys, Selects;
    EachAcceptedKeyHasRow(FirstKeys(rows, groupBy), exprs, filter, rows, groupBy);
  }

  // ---- a bound that keeps every partial sum in range ----

  /** The sum of the magnitudes of a column. */
  function AbsSum(rows: seq<Row>, column: string): nat {
    if rows == [] then 0 else AbsSum(rows[..|rows| - 1], column) + Magnitude(IntOf(rows[|rows| - 1], column))
  }

  lemma {:induction false} SumWithinAbs(rows: seq<Row>, column: string)
    ensures 0 - AbsSum(rows, column) <= SumOf(rows, column) <= AbsSum(rows, column)
  {
    if rows != [] {
      SumWithinAbs(rows[..|rows| - 1], column);
    }
  }

  lemma {:induction false} AbsOfPrefix(rows: seq<Row>, column: string, n: nat)
    requires n <= |rows|
    ensures AbsSum(rows[..n], column) <= AbsSum(rows, column)
    decreases |rows|
  {
    if n < |rows| {
      AbsOfPrefix(rows[..|rows| - 1], column, n);
      assert rows[..|rows| - 1][..n] == rows[..n];
    } else {
      assert rows[..n] == rows;
    }
  }

  lemma {:induction false} AbsOfKept(rows: seq<Row>, column: string, keep: Row -> bool)
    ensures AbsSum(D.Keep(rows, keep), column) <= AbsSum(rows, column)
  {
    if rows != [] {
      var n := |rows| - 1;
      AbsOfKept(rows[..n], column, keep);
      var kept := D.Keep(rows[..n], keep);
      assert (kept + [rows[n]])[..|kept|] == kept && kept + [] == kept;
    }
  }

  /** While the magnitudes sum to an i64, no partial sum over the rows, nor over any group of them, leaves the range. */
  lemma PartialSumsFit(rows: seq<Row>, column: string, groupBy: seq<string>, key: Key, n: nat)
    requires AbsSum(rows, column) <= I64_MAX
    ensures n <= |rows| ==> I64_MIN <= SumOf(rows[..n], column) <= I64_MAX
    ensures n <= |GroupOf(rows, groupBy, key)| ==> I64_MIN <= SumOf(GroupOf(rows, groupBy, key)[..n], column) <= I64_MAX
  {
    var group := GroupOf(rows, groupBy, key);
    AbsOfKept(rows, column, HasKey(groupBy, key));
    if n <= |rows| {
      AbsOfPrefix(rows, column, n);
      SumWithinAbs(rows[..n], column);
    }
    if n <= |group| {
      AbsOfPrefix(group, column, n);
      SumWithinAbs(group[..n], column);
    }
  }

  // ---- adding up a column of the output ----

  function IntCell(row: seq<Value>, p: nat): int
    requires p < |row|
  {
    if row[p].Int? then row[p].i else 0
  }

  function CellTotal(out: seq<seq<Value>>, p: nat): int
    requires forall k :: 0 <= k < |out| ==> p < |out[k]|
  {
    if out == [] then 0 else CellTotal(out[..|out| - 1], p) + IntCell(out[|out| - 1], p)
  }

  lemma {:induction false} CellsTotal(keys: seq<Key>, out: seq<seq<Value>>, p: nat, f: Key -> int)
    requires |out| == |keys| && forall k :: 0 <= k < |out| ==> p < |out[k]| && IntCell(out[k], p) == f(keys[k])
    ensures CellTotal(out, p) == Total(keys, f)
  {
    if keys != [] {
      var n := |keys| - 1;
      CellsTotal(keys[..n], out[..n], p, f);
    }
  }

  lemma CountCell(rows: seq<Row>, groupBy: seq<string>, key: Key, row: seq<Value>, exprs: seq<SelectExpr>, p: nat)
    requires RowOfGroup(exprs, GroupOf(rows, groupBy, key), row) && p < |exprs|
    requires exprs[p] == Aggregate(Count, Star) && |rows| <= I64_MAX
    ensures row[p].Int? && row[p].i == |GroupOf(rows, groupBy, key)|
  {
    KeptIsShorter(rows, HasKey(groupBy, key));
  }

  lemma {:induction false} KeptIsShorter(rows: seq<Row>, keep: Row -> bool)
    ensures |D.Keep(rows, keep)| <= |rows|
  {
    if rows != [] {
      KeptIsShorter(rows[..|rows| - 1], keep);
    }
  }

  /** The COUNT(*) column of the output adds up to the number of rows. */
  lemma OutputCountsAddUp(exprs: seq<SelectExpr>, columns: seq<Column>, table: string, rows: seq<Row>, groupBy: seq<string>, p: nat)
    requires Grouped(exprs, columns, table, rows, groupBy, None).Ok? && |rows| <= I64_MAX
    requires p < |exprs| && exprs[p] == Aggregate(Count, Star)
    ensures var out := Grouped(exprs, columns, table, rows, groupBy, None).value.rows;
      && (forall k :: 0 <= k < |out| ==> p < |out[k]| && out[k][p].Int?)
      && CellTotal(out, p) == |rows|
  {
    hide Grouped, GroupOf, RowOfGroup, FirstKeys;
    var keys := FirstKeys(rows, groupBy);
    var out: seq<seq<Value>> := Grouped(exprs, columns, table, rows, groupBy, None).value.rows;
    GroupedAnswers(exprs, columns, table, rows, groupBy);
    forall k | 0 <= k < |out| ensures |out[k]| == |exprs| && out[k][p].Int? && out[k][p].i == |GroupOf(rows, groupBy, keys[k])| {
      CountCell(rows, groupBy, keys[k], out[k], exprs, p);
      RowLength(exprs, GroupOf(rows, groupBy, keys[k]), out[k]);
    }
    CellsTotal(keys, out, p, GroupSize(rows, groupBy));
    GroupTotals(rows, groupBy, "");
  }

  lemma RowLength(exprs: seq<SelectExpr>, group: seq<Row>, row: seq<Value>)
    requires RowOfGroup(exprs, group, row)
    ensures |row| == |exprs|
  {
  }

  lemma SumCell(rows: seq<Row>, groupBy: seq<string>, key: Key, row: seq<Value>, exprs: seq<SelectExpr>, p: nat, column: string)
    requires RowOfGroup(exprs, GroupOf(rows, groupBy, key), row) && p < |exprs|
    requires exprs[p] == Aggregate(Sum, OfColumn(column)) && AbsSum(rows, column) <= I64_MAX
    ensures row[p].Int? && row[p].i == SumOf(GroupOf(rows, groupBy, key), column)
  {
    var group := GroupOf(rows, groupBy, key);
    PartialSumsFit(rows, column, groupBy, key, |group|);
    assert group[..|group|] == group;
  }

  /** While the magnitudes sum to an i64, the SUM column of the output adds up to the ungrouped SUM, and nothing wraps. */
  lemma OutputSumsAddUp(exprs: seq<SelectExpr>, columns: seq<Column>, table: string, rows: seq<Row>, groupBy: seq<string>,
                        p: nat, column: string)
    requires Grouped(exprs, columns, table, rows, groupBy, None).Ok? && AbsSum(rows, column) <= I64_MAX
    requires p < |exprs| && exprs[p] == Aggregate(Sum, OfColumn(column)) && Summable(rows, column)
    ensures var out := Grouped(exprs, columns, table, rows, groupBy, None).value.rows;
      && (forall k :: 0 <= k < |out| ==> p < |out[k]| && out[k][p].Int?)
      && var total := AggregateOf(Sum, OfColumn(column), rows);
      && total.Ok? && total.value.Int? && total.value.i == CellTotal(out, p)
  {
    hide Grouped, GroupOf, RowOfGroup, FirstKeys, AbsSum, Summable;
    var keys := FirstKeys(rows, groupBy);
    var out: seq<seq<Value>> := Grouped(exprs, columns, table, rows, groupBy, None).value.rows;
    GroupedAnswers(exprs, columns, table, rows, groupBy);
    forall k | 0 <= k < |out|
      ensures |out[k]| == |exprs| && out[k][p].Int? && out[k][p].i == SumOf(GroupOf(rows, groupBy, keys[k]), column)
    {
      SumCell(rows, groupBy, keys[k], out[k], exprs, p, column);
      RowLength(exprs, GroupOf(rows, groupBy, keys[k]), out[k]);
    }
    CellsTotal(keys, out, p, GroupSum(rows, groupBy, column));
    GroupTotals(rows, groupBy, column);
    PartialSumsFit(rows, column, groupBy, [], |rows|);
    assert rows[..|rows|] == rows;
  }
}

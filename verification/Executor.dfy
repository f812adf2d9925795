/** The executor's loops over rows, expressions and assignments: each computes what the semantics says. */
module Executor {
  import opened Types
  import opened ValueKeys
  import opened IndexMaps
  import opened Ast
  import opened Filters
  import opened Aggregates
  import opened Grouping
  import opened Joins
  import opened Queries
  import opened Statements
  import D = Database

  // ---- SELECT ----

  /** `resolve_select_columns`. */
  method ResolveSelectColumns(exprs: seq<SelectExpr>, columns: seq<Column>, table: string) returns (r: Result<seq<string>>)
    ensures r == ColumnNames(exprs, columns, table)
  {
    var names := [];
    for n := 0 to |exprs|
      invariant ColumnNames(exprs[..n], columns, table) == Ok(names)
    {
      NamesStep(exprs, columns, table, n);
      match exprs[n] {
        case AllColumns => names := names + AllNames(columns);
        case ColumnExpr(name) =>
          if !D.HasColumn(columns, name) {
            NamesFail(exprs, columns, table, n + 1);
            return Err(ColumnNotFound(table, name));
          }
          names := names + [name];
        case Aggregate(_, _) =>
      }
    }
    assert exprs[..|exprs|] == exprs;
    r := Ok(names);
  }

  lemma NamesStep(exprs: seq<SelectExpr>, columns: seq<Column>, table: string, n: nat)
    requires n < |exprs|
    ensures exprs[..n + 1][..n] == exprs[..n] && exprs[..n + 1][n] == exprs[n]
  {
  }

  lemma {:induction false} NamesFail(exprs: seq<SelectExpr>, columns: seq<Column>, table: string, n: nat)
    requires n <= |exprs| && ColumnNames(exprs[..n], columns, table).Err?
    ensures ColumnNames(exprs, columns, table) == ColumnNames(exprs[..n], columns, table)
    decreases |exprs| - n
  {
    if n < |exprs| {
      assert exprs[..n + 1][..n] == exprs[..n];
      NamesFail(exprs, columns, table, n + 1);
    } else {
      assert exprs[..n] == exprs;
    }
  }

  /** `execute_aggregate`. */
  method ExecuteAggregate(exprs: seq<SelectExpr>, columns: seq<Column>, table: string, rows: seq<Row>) returns (r: Result<seq<Value>>)
    ensures r == AggregateCells(exprs, columns, table, rows)
  {
    var cells := [];
    for n := 0 to |exprs|
      invariant AggregateCells(exprs[..n], columns, table, rows) == Ok(cells)
    {
      assert exprs[..n + 1][..n] == exprs[..n];
      var cell := ComputeCell(exprs[n], columns, table, rows);
      if cell.Err? {
        CellsFail(exprs, columns, table, rows, n + 1);
        return Err(cell.error);
      }
      cells := cells + [cell.value];
    }
    assert exprs[..|exprs|] == exprs;
    r := Ok(cells);
  }

  method ComputeCell(expr: SelectExpr, columns: seq<Column>, table: string, rows: seq<Row>) returns (r: Result<Value>)
    ensures r == AggregateCell(expr, columns, table, rows)
  {
    match expr {
      case Aggregate(func, target) =>
        if target.OfColumn? && !D.HasColumn(columns, target.name) {
          return Err(ColumnNotFound(table, target.name));
        }
        r := ComputeAggregate(func, target, rows);
      case ColumnExpr(name) =>
        if !D.HasColumn(columns, name) {
          return Err(ColumnNotFound(table, name));
        }
        r := Ok(if rows == [] then Null else Get(rows[0], name));
      case AllColumns => r := Err(ParseError);
    }
  }

  lemma {:induction false} CellsFail(exprs: seq<SelectExpr>, columns: seq<Column>, table: string, rows: seq<Row>, n: nat)
    requires n <= |exprs| && AggregateCells(exprs[..n], columns, table, rows).Err?
    ensures AggregateCells(exprs, columns, table, rows) == AggregateCells(exprs[..n], columns, table, rows)
    decreases |exprs| - n
  {
    if n < |exprs| {
      assert exprs[..n + 1][..n] == exprs[..n];
      CellsFail(exprs, columns, table, rows, n + 1);
    } else {
      assert exprs[..n] == exprs;
    }
  }

  // ---- GROUP BY ----

  /** The synthetic row HAVING is evaluated on. */
  method BuildSynthetic(sample: Row, aggregates: seq<HavingAggregate>, group: seq<Row>) returns (r: Result<Row>)
    ensures r == Synthetic(sample, aggregates, group)
  {
    var row := sample;
    for n := 0 to |aggregates|
      invariant Synthetic(sample, aggregates[..n], group) == Ok(row)
    {
      assert aggregates[..n + 1][..n] == aggregates[..n];
      var value := ComputeAggregate(aggregates[n].func, aggregates[n].target, group);
      if value.Err? {
        SyntheticFail(sample, aggregates, group, n + 1);
        return Err(value.error);
      }
      row := row[aggregates[n].title := value.value];
    }
    assert aggregates[..|aggregates|] == aggregates;
    r := Ok(row);
  }

  lemma {:induction false} SyntheticFail(sample: Row, aggregates: seq<HavingAggregate>, group: seq<Row>, n: nat)
    requires n <= |aggregates| && Synthetic(sample, aggregates[..n], group).Err?
    ensures Synthetic(sample, aggregates, group) == Synthetic(sample, aggregates[..n], group)
    decreases |aggregates| - n
  {
    if n < |aggregates| {
      assert aggregates[..n + 1][..n] == aggregates[..n];
      SyntheticFail(sample, aggregates, group, n + 1);
    } else {
      assert aggregates[..n] == aggregates;
    }
  }

  method BuildGroupCells(exprs: seq<SelectExpr>, sample: Row, group: seq<Row>) returns (r: Result<seq<Value>>)
    ensures r == GroupCells(exprs, sample, group)
  {
    var cells := [];
    for n := 0 to |exprs|
      invariant GroupCells(exprs[..n], sample, group) == Ok(cells)
    {
      assert exprs[..n + 1][..n] == exprs[..n];
      match exprs[n] {
        case ColumnExpr(name) => cells := cells + [Get(sample, name)];
        case Aggregate(func, target) =>
          var value := ComputeAggregate(func, target, group);
          if value.Err? {
            GroupCellsFail(exprs, sample, group, n + 1);
            return Err(value.error);
          }
          cells := cells + [value.value];
        case AllColumns =>
          GroupCellsFail(exprs, sample, group, n + 1);
          return Err(ParseError);
      }
    }
    assert exprs[..|exprs|] == exprs;
    r := Ok(cells);
  }

  lemma {:induction false} GroupCellsFail(exprs: seq<SelectExpr>, sample: Row, group: seq<Row>, n: nat)
    requires n <= |exprs| && GroupCells(exprs[..n], sample, group).Err?
    ensures GroupCells(exprs, sample, group) == GroupCells(exprs[..n], sample, group)
    decreases |exprs| - n
  {
    if n < |exprs| {
      assert exprs[..n + 1][..n] == exprs[..n];
      GroupCellsFail(exprs, sample, group, n + 1);
    } else {
      assert exprs[..n] == exprs;
    }
  }

  method OutputGroup(exprs: seq<SelectExpr>, having: Option<Filter>, group: seq<Row>) returns (r: Result<Option<seq<Value>>>)
    requires group != []
    ensures r == GroupOutput(exprs, having, group)
  {
    if having.Some? {
      var row :- BuildSynthetic(group[0], CollectHaving(having.value, []), group);
      if !Evaluate(row, having.value) {
        return Ok(None);
      }
    }
    var cells :- BuildGroupCells(exprs, group[0], group);
    r := Ok(Some(cells));
  }

  lemma {:induction false} GroupsFail(keys: seq<Key>, exprs: seq<SelectExpr>, having: Option<Filter>, rows: seq<Row>,
                                      groupBy: seq<string>, n: nat)
    requires n <= |keys| && GroupRows(keys[..n], exprs, having, rows, groupBy).Err?
    ensures GroupRows(keys, exprs, having, rows, groupBy) == GroupRows(keys[..n], exprs, having, rows, groupBy)
    decreases |keys| - n
  {
    if n < |keys| {
      assert keys[..n + 1][..n] == keys[..n];
      GroupsFail(keys, exprs, having, rows, groupBy, n + 1);
    } else {
      assert keys[..n] == keys;
    }
  }

  /** `compute_group_by`: the hashed groups, in first-occurrence order, give the rows of the semantics. */
  method ComputeGroupBy(exprs: seq<SelectExpr>, columns: seq<Column>, table: string, rows: seq<Row>, groupBy: seq<string>,
                        having: Option<Filter>) returns (r: Result<RowSet>)
    ensures r == Grouped(exprs, columns, table, rows, groupBy, having)
  {
    var known :- CheckGroupColumns(groupBy, columns, table);
    var allowed :- CheckGroupExprs(exprs, groupBy, columns, table);
    var order, groups := BuildGroups(rows, groupBy);
    var out := [];
    for n := 0 to |order|
      invariant GroupRows(order[..n], exprs, having, rows, groupBy) == Ok(out)
    {
      assert order[..n + 1][..n] == order[..n];
      ListedGroupsHaveRows(rows, groupBy, order[n]);
      var output := OutputGroup(exprs, having, groups[order[n]]);
      if output.Err? {
        GroupsFail(order, exprs, having, rows, groupBy, n + 1);
        return Err(output.error);
      }
      if output.value.Some? {
        out := out + [output.value.value];
      }
    }
    assert order[..|order|] == order;
    r := Ok(RowSet(CellNames(exprs), out));
  }

  // ---- JOIN ----

  /** The loop that names and appends the right columns of one JOIN clause. */
  method MergeRight(columns: seq<Column>, names: map<(string, string), string>, table: string, right: seq<Column>)
    returns (merged: seq<Column>, renamings: seq<Renaming>, known: map<(string, string), string>)
    ensures merged == MergeColumns(columns, table, right)
    ensures renamings == Renamings(columns, table, right)
    ensures known == MergeNames(names, table, renamings)
  {
    merged, renamings, known := columns, [], names;
    for i := 0 to |right|
      invariant MergeColumns(columns, table, right) == MergeColumns(merged, table, right[i..])
      invariant Renamings(columns, table, right) == renamings + Renamings(merged, table, right[i..])
      invariant known == MergeNames(names, table, renamings)
    {
      var name := MergedName(merged, table, right[i].name);
      assert right[i..][1..] == right[i + 1..];
      var renaming := Renaming(right[i].name, name);
      assert renamings + Renamings(merged, table, right[i..])
        == renamings + [renaming] + Renamings(merged + [right[i].(name := name)], table, right[i + 1..]);
      NamesAppend(names, table, renamings, renaming);
      renamings := renamings + [renaming];
      known := known[(table, right[i].name) := name];
      merged := merged + [right[i].(name := name)];
    }
    assert right[|right|..] == [];
  }

  lemma {:induction false} NamesAppend(names: map<(string, string), string>, table: string, renamings: seq<Renaming>, more: Renaming)
    ensures MergeNames(names, table, renamings + [more]) == MergeNames(names, table, renamings)[(table, more.original) := more.name]
    decreases |renamings|
  {
    if renamings == [] {
      assert ([] + [more])[1..] == [];
    } else {
      assert (renamings + [more])[1..] == renamings[1..] + [more];
      NamesAppend(names[(table, renamings[0].original) := renamings[0].name], table, renamings[1..], more);
    }
  }

  // ---- INSERT ----

  /** The loops of `insert` that build the row. */
  method BuildNewRow(columns: seq<Column>, table: string, into: Option<seq<string>>, values: seq<Value>) returns (r: Result<Row>)
    ensures r == BuildRow(columns, table, into, values)
  {
    if into.Some? {
      if |values| != |into.value| {
        return Err(ValueCountMismatch(|into.value|, |values|));
      }
      var targets :- TargetColumns(into.value, columns, table);
      var row :- CastValues(targets, values);
      r := Ok(FillNulls(row, columns));
    } else {
      if |values| != |columns| {
        return Err(ValueCountMismatch(|columns|, |values|));
      }
      r := CastValues(columns, values);
    }
  }

  method CastValues(targets: seq<Column>, values: seq<Value>) returns (r: Result<Row>)
    requires |targets| == |values|
    ensures r == PutValues(targets, values)
  {
    var row: Row := map[];
    for n := 0 to |targets|
      invariant PutValues(targets[..n], values[..n]) == Ok(row)
    {
      assert targets[..n + 1][..n] == targets[..n] && values[..n + 1][..n] == values[..n];
      var value := Coerce(targets[n].name, targets[n].dataType, values[n]);
      if value.Err? {
        PutFail(targets, values, n + 1);
        return Err(value.error);
      }
      row := row[targets[n].name := value.value];
    }
    assert targets[..|targets|] == targets && values[..|targets|] == values;
    r := Ok(row);
  }

  lemma {:induction false} PutFail(targets: seq<Column>, values: seq<Value>, n: nat)
    requires |targets| == |values| && n <= |targets| && PutValues(targets[..n], values[..n]).Err?
    ensures PutValues(targets, values) == PutValues(targets[..n], values[..n])
    decreases |targets| - n
  {
    if n < |targets| {
      assert targets[..n + 1][..n] == targets[..n] && values[..n + 1][..n] == values[..n];
      PutFail(targets, values, n + 1);
    } else {
      assert targets[..n] == targets && values[..n] == values;
    }
  }

  // ---- UPDATE ----

  /** `prepare_assignments`. */
  method CheckAssignments(columns: seq<Column>, table: string, assignments: Assignments) returns (r: Result<Assignments>)
    ensures r == PrepareAssignments(columns, table, assignments)
  {
    if assignments == [] {
      return Err(ParseError);
    }
    var seen: set<string> := {};
    var prepared: Assignments := [];
    for n := 0 to |assignments|
      invariant forall name :: name in seen <==> Assigns(assignments[..n], name)
      invariant CoerceAssignments(columns, table, assignments[..n]) == Ok(prepared)
    {
      assert assignments[..n + 1][..n] == assignments[..n];
      var (column, value) := assignments[n];
      if column in seen {
        AssignmentsFail(columns, table, assignments, n + 1);
        return Err(InvalidSchema);
      }
      AssignsNext(assignments, n);
      seen := seen + {column};
      var c := FindColumn(columns, column);
      if c.None? {
        AssignmentsFail(columns, table, assignments, n + 1);
        return Err(ColumnNotFound(table, column));
      }
      var coerced := Coerce(column, c.value.dataType, value);
      if coerced.Err? {
        AssignmentsFail(columns, table, assignments, n + 1);
        return Err(coerced.error);
      }
      prepared := prepared + [(column, coerced.value)];
    }
    assert assignments[..|assignments|] == assignments;
    r := Ok(prepared);
  }

  lemma AssignsNext(assignments: Assignments, n: nat)
    requires n < |assignments|
    ensures forall name :: Assigns(assignments[..n + 1], name) <==> Assigns(assignments[..n], name) || name == assignments[n].0
  {
    var head, longer := assignments[..n], assignments[..n + 1];
    forall name ensures Assigns(longer, name) <==> Assigns(head, name) || name == assignments[n].0 {
      if i :| 0 <= i < |longer| && longer[i].0 == name {
        assert i < n ==> head[i].0 == name;
      }
      if i :| 0 <= i < |head| && head[i].0 == name {
        assert longer[i].0 == name;
      }
      assert longer[n] == assignments[n];
    }
  }

  lemma {:induction false} AssignmentsFail(columns: seq<Column>, table: string, assignments: Assignments, n: nat)
    requires n <= |assignments| && CoerceAssignments(columns, table, assignments[..n]).Err?
    ensures CoerceAssignments(columns, table, assignments) == CoerceAssignments(columns, table, assignments[..n])
    decreases |assignments| - n
  {
    if n < |assignments| {
      assert assignments[..n + 1][..n] == assignments[..n];
      AssignmentsFail(columns, table, assignments, n + 1);
    } else {
      assert assignments[..n] == assignments;
    }
  }

  predicate KeyIs(value: Value, key: string) {
    value != Null && ValueKey(value) == key
  }

  predicate Repeats(value: Value, other: Value) {
    value != Null && value == other
  }

  /** The values a column will hold after the update. */
  function NewValues(rows: seq<Row>, assignments: Assignments, filter: Option<Filter>, column: string): (values: seq<Value>)
    ensures |values| == |rows|
    ensures forall i :: 0 <= i < |rows| ==> values[i] == UpdatedValue(rows[i], assignments, filter, column)
  {
    seq(|rows|, i requires 0 <= i < |rows| => UpdatedValue(rows[i], assignments, filter, column))
  }

  /** The set holds the keys of the first n values. */
  ghost predicate SeenKeys(values: seq<Value>, n: nat, seen: set<string>)
    requires n <= |values|
  {
    forall key :: key in seen <==> exists i :: 0 <= i < n && KeyIs(values[i], key)
  }

  predicate Unrepeated(values: seq<Value>, n: nat)
    requires n <= |values|
  {
    forall i, j :: 0 <= i < j < n ==> !Repeats(values[i], values[j])
  }

  lemma SeenNext(values: seq<Value>, n: nat, seen: set<string>)
    requires n < |values| && SeenKeys(values, n, seen)
    ensures SeenKeys(values, n + 1, if values[n] == Null then seen else seen + {ValueKey(values[n])})
  {
    hide ValueKey;
    var next := if values[n] == Null then seen else seen + {ValueKey(values[n])};
    forall key ensures key in next <==> exists i :: 0 <= i < n + 1 && KeyIs(values[i], key) {
      if key in next && key !in seen {
        assert KeyIs(values[n], key);
      }
    }
  }

  /** A value repeats an earlier one exactly when its key has been seen. */
  lemma SeenDecides(values: seq<Value>, n: nat, seen: set<string>)
    requires n < |values| && SeenKeys(values, n, seen) && Unrepeated(values, n)
    ensures Unrepeated(values, n + 1) <==> values[n] == Null || ValueKey(values[n]) !in seen
  {
    hide ValueKey;
    if values[n] != Null && ValueKey(values[n]) in seen {
      var i :| 0 <= i < n && KeyIs(values[i], ValueKey(values[n]));
      ValueKeyInjective(values[i], values[n]);
      assert Repeats(values[i], values[n]);
    }
    if values[n] != Null && ValueKey(values[n]) !in seen {
      forall i | 0 <= i < n ensures !Repeats(values[i], values[n]) {
        assert Repeats(values[i], values[n]) ==> KeyIs(values[i], ValueKey(values[n]));
      }
    }
  }

  lemma RepetitionStays(values: seq<Value>, n: nat)
    requires n <= |values| && !Unrepeated(values, n)
    ensures !Unrepeated(values, |values|)
  {
  }

  /** The loop over one column's values: a hash set of the keys seen so far finds the first repetition. */
  method NoRepetition(values: seq<Value>) returns (distinct: bool)
    ensures distinct <==> Unrepeated(values, |values|)
  {
    var seen: set<string> := {};
    assert SeenKeys(values, 0, seen) && Unrepeated(values, 0);
    hide SeenKeys, Unrepeated, ValueKey;
    for n := 0 to |values|
      invariant SeenKeys(values, n, seen) && Unrepeated(values, n)
    {
      SeenNext(values, n, seen);
      SeenDecides(values, n, seen);
      if values[n] != Null {
        var key := ValueKey(values[n]);
        if key in seen {
          RepetitionStays(values, n + 1);
          return false;
        }
        seen := seen + {key};
      }
    }
    distinct := true;
  }

  /** The uniqueness check of one column of an UPDATE. */
  method ColumnStaysUnique(rows: seq<Row>, assignments: Assignments, filter: Option<Filter>, column: string) returns (unique: bool)
    ensures unique <==> StaysUnique(rows, assignments, filter, column)
  {
    hide UpdatedValue;
    var values := NewValues(rows, assignments, filter, column);
    unique := NoRepetition(values);
    forall i, j | 0 <= i < j < |rows|
      ensures Clash(rows[i], rows[j], assignments, filter, column) <==> Repeats(values[i], values[j])
    {
    }
  }

  /** `check_unique_constraints_for_update`. */
  method CheckUniqueForUpdate(columns: seq<Column>, rows: seq<Row>, assignments: Assignments, filter: Option<Filter>)
    returns (ok: bool)
    ensures ok <==> UpdateKeepsUnique(columns, rows, assignments, filter)
  {
    hide StaysUnique;
    for n := 0 to |columns|
      invariant forall i ::
        0 <= i < n && MustBeUnique(columns[i]) && Assigns(assignments, columns[i].name) ==> StaysUnique(rows, assignments, filter, columns[i].name)
    {
      if MustBeUnique(columns[n]) && Assigns(assignments, columns[n].name) {
        var unique := ColumnStaysUnique(rows, assignments, filter, columns[n].name);
        if !unique {
          assert columns[n] in columns;
          return false;
        }
      }
    }
    ok := true;
  }

  // ---- foreign keys ----

  /** One entry of `referencing_columns`. */
  datatype Reference = Reference(table: string, column: string, parentColumn: string)

  ghost predicate RefersIn(columns: seq<Column>, column: string, parent: string, parentColumn: string) {
    exists child :: child in columns && child.name == column && References(parent, parentColumn) in child.constraints
  }

  lemma RefersInNext(columns: seq<Column>, n: nat, column: string, parent: string, parentColumn: string)
    requires n < |columns|
    ensures RefersIn(columns[..n + 1], column, parent, parentColumn) <==>
      RefersIn(columns[..n], column, parent, parentColumn)
      || (columns[n].name == column && References(parent, parentColumn) in columns[n].constraints)
  {
    assert columns[..n + 1] == columns[..n] + [columns[n]];
  }

  /** The references of one column to a parent table. */
  method ColumnReferences(table: string, c: Column, parent: string) returns (out: seq<Reference>)
    ensures forall x :: x in out <==> x.table == table && x.column == c.name && References(parent, x.parentColumn) in c.constraints
  {
    out := [];
    for k := 0 to |c.constraints|
      invariant forall x ::
        x in out <==> x.table == table && x.column == c.name && References(parent, x.parentColumn) in c.constraints[..k]
    {
      assert c.constraints[..k + 1] == c.constraints[..k] + [c.constraints[k]];
      match c.constraints[k] {
        case References(target, column) =>
          if target == parent {
            out := out + [Reference(table, c.name, column)];
          }
        case _ =>
      }
    }
    assert c.constraints[..|c.constraints|] == c.constraints;
  }

  /** The references of one table's columns to a parent table. */
  method TableReferences(table: string, columns: seq<Column>, parent: string) returns (out: seq<Reference>)
    ensures forall x :: x in out <==> x.table == table && RefersIn(columns, x.column, parent, x.parentColumn)
  {
    hide RefersIn;
    out := [];
    NoneRefer(parent);
    assert columns[..0] == [];
    for n := 0 to |columns|
      invariant forall x :: x in out <==> x.table == table && RefersIn(columns[..n], x.column, parent, x.parentColumn)
    {
      var found := ColumnReferences(table, columns[n], parent);
      forall x: Reference {
        RefersInNext(columns, n, x.column, parent, x.parentColumn);
      }
      out := out + found;
    }
    assert columns[..|columns|] == columns;
  }

  lemma NoneRefer(parent: string)
    ensures forall column, parentColumn :: !RefersIn([], column, parent, parentColumn)
  {
  }

  method AnyLosesValue(rows: seq<Row>, filter: Option<Filter>, parentColumn: string, next: Value, children: seq<Row>,
                       childColumn: string) returns (found: bool)
    ensures found <==> exists row :: row in rows && LosesValue(row, filter, parentColumn, next, children, childColumn)
  {
    hide LosesValue;
    for n := 0 to |rows|
      invariant forall i :: 0 <= i < n ==> !LosesValue(rows[i], filter, parentColumn, next, children, childColumn)
    {
      if LosesValue(rows[n], filter, parentColumn, next, children, childColumn) {
        assert rows[n] in rows;
        return true;
      }
    }
    found := false;
  }

  method AnyLastParent(rows: seq<Row>, filter: Option<Filter>, parentColumn: string, children: seq<Row>, childColumn: string)
    returns (found: bool)
    ensures found <==> exists row :: row in rows && LastParent(row, rows, filter, parentColumn, children, childColumn)
  {
    hide LastParent;
    for n := 0 to |rows|
      invariant forall i :: 0 <= i < n ==> !LastParent(rows[i], rows, filter, parentColumn, children, childColumn)
    {
      if LastParent(rows[n], rows, filter, parentColumn, children, childColumn) {
        assert rows[n] in rows;
        return true;
      }
    }
    found := false;
  }

  // ---- constraints of a new row ----

  predicate NullAllowed(c: Column, row: Row) {
    Get(row, c.name) == Null ==> !MustNotBeNull(c)
  }

  /** A column whose value in the row must not be stored already. */
  predicate NeedsLookup(c: Column, row: Row) {
    Get(row, c.name) != Null && MustBeUnique(c)
  }

  /** The first loop of `check_constraints_for_insert`: NULLs are checked, and the unique columns collected. */
  method CollectUnique(columns: seq<Column>, row: Row) returns (ok: bool, unique: seq<Column>)
    ensures ok <==> forall c :: c in columns ==> NullAllowed(c, row)
    ensures ok ==> forall c :: c in unique <==> c in columns && NeedsLookup(c, row)
  {
    hide MustBeUnique, MustNotBeNull;
    ok, unique := true, [];
    for n := 0 to |columns|
      invariant forall c :: c in columns[..n] ==> NullAllowed(c, row)
      invariant forall c :: c in unique <==> c in columns[..n] && NeedsLookup(c, row)
    {
      assert columns[..n + 1] == columns[..n] + [columns[n]];
      if Get(row, columns[n].name) == Null {
        if MustNotBeNull(columns[n]) {
          assert columns[n] in columns && !NullAllowed(columns[n], row);
          return false, [];
        }
      } else if MustBeUnique(columns[n]) {
        unique := unique + [columns[n]];
      }
    }
    assert columns[..|columns|] == columns;
  }

  // ---- CREATE TABLE ----

  predicate SameName(c: Column, d: Column) {
    c.name == d.name
  }

  /** The first n columns pass, and the set and the counter say what they hold. */
  ghost predicate PassedColumns(columns: seq<Column>, n: nat, seen: set<string>, keys: nat)
    requires n <= |columns|
  {
    && (forall name :: name in seen <==> exists i :: 0 <= i < n && columns[i].name == name)
    && (forall i, j :: 0 <= i < j < n ==> !SameName(columns[i], columns[j]))
    && (forall i, j :: 0 <= i < j < n ==> !BothPrimary(columns[i], columns[j]))
    && keys == (if exists i :: 0 <= i < n && PrimaryKey in columns[i].constraints then 1 else 0)
  }

  lemma PassedNext(columns: seq<Column>, n: nat, seen: set<string>, keys: nat)
    requires n < |columns| && PassedColumns(columns, n, seen, keys)
    requires columns[n].name !in seen
    requires PrimaryKey in columns[n].constraints ==> keys == 0
    ensures PassedColumns(columns, n + 1, seen + {columns[n].name}, if PrimaryKey in columns[n].constraints then 1 else keys)
  {
    var next := seen + {columns[n].name};
    forall name ensures name in next <==> exists i :: 0 <= i < n + 1 && columns[i].name == name {
      if name in seen {
        var i :| 0 <= i < n && columns[i].name == name;
      } else if name in next {
        assert columns[n].name == name;
      }
    }
  }

  lemma PassedFails(columns: seq<Column>, n: nat, seen: set<string>, keys: nat)
    requires n < |columns| && PassedColumns(columns, n, seen, keys)
    requires columns[n].name in seen || (PrimaryKey in columns[n].constraints && keys == 1)
    ensures !(D.DistinctColumns(columns) && OnePrimaryKey(columns))
  {
    if columns[n].name in seen {
      var i :| 0 <= i < n && columns[i].name == columns[n].name;
    } else {
      var i :| 0 <= i < n && PrimaryKey in columns[i].constraints;
      assert BothPrimary(columns[i], columns[n]);
    }
  }

  lemma PassedAll(columns: seq<Column>, seen: set<string>, keys: nat)
    requires PassedColumns(columns, |columns|, seen, keys)
    ensures D.DistinctColumns(columns) && OnePrimaryKey(columns)
  {
    forall i, j | 0 <= i < j < |columns| ensures columns[i].name != columns[j].name {
      assert !SameName(columns[i], columns[j]);
    }
  }

  /** The first loop of `create_table`: column names are distinct, and at most one is a primary key. */
  method CheckColumns(columns: seq<Column>) returns (ok: bool)
    ensures ok <==> columns != [] && D.DistinctColumns(columns) && OnePrimaryKey(columns)
  {
    if columns == [] {
      return false;
    }
    var seen: set<string>, keys: nat := {}, 0;
    assert PassedColumns(columns, 0, seen, keys);
    hide PassedColumns, OnePrimaryKey, D.DistinctColumns;
    for n := 0 to |columns|
      invariant PassedColumns(columns, n, seen, keys)
    {
      if columns[n].name in seen {
        PassedFails(columns, n, seen, keys);
        return false;
      }
      if PrimaryKey in columns[n].constraints {
        if keys > 0 {
          KeysAreOne(columns, n, seen, keys);
          PassedFails(columns, n, seen, keys);
          return false;
        }
      }
      PassedNext(columns, n, seen, keys);
      seen := seen + {columns[n].name};
      if PrimaryKey in columns[n].constraints {
        keys := keys + 1;
      }
    }
    PassedAll(columns, seen, keys);
    ok := true;
  }

  lemma KeysAreOne(columns: seq<Column>, n: nat, seen: set<string>, keys: nat)
    requires n <= |columns| && PassedColumns(columns, n, seen, keys)
    ensures keys <= 1
  {
  }
}

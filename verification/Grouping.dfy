/** GROUP BY: the grouping loop, and that it partitions the rows. */
module Grouping {
  import opened Types
  import opened ValueKeys
  import opened IndexMaps
  import opened Database
  import opened Filters
  import opened Aggregates
  import opened Ast

  type Key = seq<string>

  function GroupKey(row: Row, columns: seq<string>): (key: Key)
    ensures |key| == |columns| && forall i :: 0 <= i < |key| ==> key[i] == RowKey(row, columns[i])
  {
    seq(|columns|, i requires 0 <= i < |columns| => RowKey(row, columns[i]))
  }

  function HasKey(columns: seq<string>, key: Key): Row -> bool {
    (row: Row) => GroupKey(row, columns) == key
  }

  /** The rows of one group, in their original order. */
  function GroupOf(rows: seq<Row>, columns: seq<string>, key: Key): seq<Row> {
    Keep(rows, HasKey(columns, key))
  }

  /** The keys that occur, each at the place of its first occurrence. */
  function FirstKeys(rows: seq<Row>, columns: seq<string>): seq<Key> {
    if rows == [] then [] else
    var head := FirstKeys(rows[..|rows| - 1], columns);
    var key := GroupKey(rows[|rows| - 1], columns);
    if key in head then head else head + [key]
  }

  /** The grouping loop of `compute_group_by`. */
  method BuildGroups(rows: seq<Row>, columns: seq<string>) returns (order: seq<Key>, groups: map<Key, seq<Row>>)
    ensures order == FirstKeys(rows, columns)
    ensures forall key :: key in groups <==> key in order
    ensures forall key :: key in groups ==> groups[key] == GroupOf(rows, columns, key)
  {
    order, groups := [], map[];
    for n := 0 to |rows|
      invariant order == FirstKeys(rows[..n], columns)
      invariant forall key :: key in groups <==> key in order
      invariant forall key :: key in groups ==> groups[key] == GroupOf(rows[..n], columns, key)
    {
      var row := rows[n];
      var key := GroupKey(row, columns);
      assert rows[..n + 1] == rows[..n] + [row] && rows[..n + 1][..n] == rows[..n];
      forall k ensures GroupOf(rows[..n + 1], columns, k)
        == GroupOf(rows[..n], columns, k) + if k == key then [row] else []
      {
        KeepAppend(rows[..n], row, HasKey(columns, k));
      }
      if key !in groups {
        UnseenKey(rows[..n], columns, key);
        order := order + [key];
        groups := groups[key := [row]];
      } else {
        groups := groups[key := groups[key] + [row]];
      }
    }
    assert rows[..|rows|] == rows;
  }

  lemma {:induction false} KeysOccur(rows: seq<Row>, columns: seq<string>)
    ensures forall key :: key in FirstKeys(rows, columns) <==> exists row :: row in rows && GroupKey(row, columns) == key
  {
    if rows != [] {
      var n := |rows| - 1;
      KeysOccur(rows[..n], columns);
      assert rows == rows[..n] + [rows[n]];
      forall key | key in FirstKeys(rows, columns) ensures exists row :: row in rows && GroupKey(row, columns) == key {
        if key in FirstKeys(rows[..n], columns) {
          var row :| row in rows[..n] && GroupKey(row, columns) == key;
          assert row in rows;
        } else {
          assert rows[n] in rows;
        }
      }
    }
  }

  lemma {:induction false} UnseenKey(rows: seq<Row>, columns: seq<string>, key: Key)
    requires key !in FirstKeys(rows, columns)
    ensures GroupOf(rows, columns, key) == []
  {
    if rows != [] {
      UnseenKey(rows[..|rows| - 1], columns, key);
    }
  }

  lemma {:induction false} KeysDistinct(rows: seq<Row>, columns: seq<string>)
    ensures forall i, j :: 0 <= i < j < |FirstKeys(rows, columns)| ==>
      FirstKeys(rows, columns)[i] != FirstKeys(rows, columns)[j]
  {
    if rows != [] {
      KeysDistinct(rows[..|rows| - 1], columns);
    }
  }

  /** Rows share a group exactly when they agree on every grouping column (NULL agreeing with NULL). */
  lemma SameGroup(row: Row, other: Row, columns: seq<string>)
    ensures GroupKey(row, columns) == GroupKey(other, columns)
      <==> forall i :: 0 <= i < |columns| ==> Get(row, columns[i]) == Get(other, columns[i])
  {
    if GroupKey(row, columns) == GroupKey(other, columns) {
      forall i | 0 <= i < |columns| ensures Get(row, columns[i]) == Get(other, columns[i]) {
        assert GroupKey(row, columns)[i] == GroupKey(other, columns)[i];
        ValueKeyInjective(Get(row, columns[i]), Get(other, columns[i]));
      }
    }
  }

  /** `n` is the first row with its key. */
  predicate StartsGroup(rows: seq<Row>, columns: seq<string>, n: nat) {
    n < |rows| && forall m :: 0 <= m < n ==> GroupKey(rows[m], columns) != GroupKey(rows[n], columns)
  }

  lemma StartsInPrefix(rows: seq<Row>, columns: seq<string>, n: nat, m: nat)
    requires m < n <= |rows|
    ensures StartsGroup(rows[..n], columns, m) <==> StartsGroup(rows, columns, m)
  {
    hide GroupKey;
    assert forall i :: 0 <= i <= m ==> rows[..n][i] == rows[i];
  }

  lemma StartsWhenUnseen(rows: seq<Row>, columns: seq<string>, n: nat)
    requires n < |rows|
    ensures StartsGroup(rows, columns, n) <==> GroupKey(rows[n], columns) !in FirstKeys(rows[..n], columns)
  {
    hide GroupKey, FirstKeys;
    KeysOccur(rows[..n], columns);
    if row :| row in rows[..n] && GroupKey(row, columns) == GroupKey(rows[n], columns) {
      var m :| 0 <= m < n && rows[..n][m] == row;
      assert rows[m] == row;
    }
    if m :| 0 <= m < n && GroupKey(rows[m], columns) == GroupKey(rows[n], columns) {
      assert rows[..n][m] in rows[..n];
    }
  }

  /** The keys are those of the rows at these positions, in order, exactly the rows that are first with their key. */
  ghost predicate FirstAt(rows: seq<Row>, columns: seq<string>, keys: seq<Key>, at: seq<nat>) {
    && Increasing(at) && |at| == |keys|
    && (forall k :: 0 <= k < |at| ==> at[k] < |rows| && keys[k] == GroupKey(rows[at[k]], columns))
    && forall n :: 0 <= n < |rows| ==> (n in at <==> StartsGroup(rows, columns, n))
  }

  lemma FirstAtNext(rows: seq<Row>, columns: seq<string>, keys: seq<Key>, at: seq<nat>)
    requires rows != []
    requires var n := |rows| - 1; FirstAt(rows[..n], columns, keys, at)
    ensures var n := |rows| - 1;
      if StartsGroup(rows, columns, n) then FirstAt(rows, columns, keys + [GroupKey(rows[n], columns)], at + [n])
      else FirstAt(rows, columns, keys, at)
  {
    hide GroupKey, StartsGroup;
    var n := |rows| - 1;
    forall m: nat | m < n ensures StartsGroup(rows[..n], columns, m) <==> StartsGroup(rows, columns, m) {
      StartsInPrefix(rows, columns, n, m);
    }
    assert n !in at;
  }

  /** The keys are listed in the order in which their first rows occur. */
  lemma {:induction false} KeysInOrder(rows: seq<Row>, columns: seq<string>) returns (at: seq<nat>)
    ensures FirstAt(rows, columns, FirstKeys(rows, columns), at)
  {
    hide FirstAt, StartsGroup, GroupKey;
    if rows == [] {
      at := [];
      NoneFirst(columns);
    } else {
      var n := |rows| - 1;
      at := KeysInOrder(rows[..n], columns);
      FirstAtNext(rows, columns, FirstKeys(rows[..n], columns), at);
      StartsWhenUnseen(rows, columns, n);
      if StartsGroup(rows, columns, n) {
        at := at + [n];
      }
    }
  }

  lemma NoneFirst(columns: seq<string>)
    ensures FirstAt([], columns, [], [])
  {
  }

  /** Every row is in the group of exactly one key, and that key is listed. */
  lemma GroupsPartition(rows: seq<Row>, columns: seq<string>, row: Row)
    requires row in rows
    ensures GroupKey(row, columns) in FirstKeys(rows, columns)
    ensures forall key :: row in GroupOf(rows, columns, key) <==> key == GroupKey(row, columns)
  {
    KeysOccur(rows, columns);
    forall key ensures row in GroupOf(rows, columns, key) <==> key == GroupKey(row, columns) {
      KeepMembers(rows, HasKey(columns, key));
    }
  }

  /** Only keys of non-empty groups are listed. */
  lemma ListedGroupsHaveRows(rows: seq<Row>, columns: seq<string>, key: Key)
    ensures key in FirstKeys(rows, columns) <==> GroupOf(rows, columns, key) != []
  {
    KeysOccur(rows, columns);
    if key in FirstKeys(rows, columns) {
      var row :| row in rows && GroupKey(row, columns) == key;
      GroupsPartition(rows, columns, row);
    } else {
      UnseenKey(rows, columns, key);
    }
  }

  /** A group is the subsequence of the rows at one increasing sequence of positions, exactly those with its key. */
  lemma GroupKeepsOrder(rows: seq<Row>, columns: seq<string>, key: Key) returns (at: seq<nat>)
    ensures Positions(rows, HasKey(columns, key), at)
  {
    at := KeepPositions(rows, HasKey(columns, key));
  }

  // ---- additive aggregates over groups ----

  function Total(keys: seq<Key>, f: Key -> int): int {
    if keys == [] then 0 else Total(keys[..|keys| - 1], f) + f(keys[|keys| - 1])
  }

  lemma {:induction false} TotalSame(keys: seq<Key>, f: Key -> int, g: Key -> int)
    requires forall i :: 0 <= i < |keys| ==> f(keys[i]) == g(keys[i])
    ensures Total(keys, f) == Total(keys, g)
  {
    if keys != [] {
      TotalSame(keys[..|keys| - 1], f, g);
    }
  }

  lemma {:induction false} TotalBump(keys: seq<Key>, f: Key -> int, g: Key -> int, key: Key, v: int)
    requires forall i, j :: 0 <= i < j < |keys| ==> keys[i] != keys[j]
    requires key in keys && g(key) == f(key) + v
    requires forall k :: k != key ==> g(k) == f(k)
    ensures Total(keys, g) == Total(keys, f) + v
  {
    var n := |keys| - 1;
    if keys[n] == key {
      TotalSame(keys[..n], f, g);
    } else {
      assert key in keys[..n];
      TotalBump(keys[..n], f, g, key, v);
    }
  }

  function GroupSum(rows: seq<Row>, columns: seq<string>, column: string): Key -> int {
    (key: Key) => SumOf(GroupOf(rows, columns, key), column)
  }

  function GroupSize(rows: seq<Row>, columns: seq<string>): Key -> int {
    (key: Key) => |GroupOf(rows, columns, key)|
  }

  lemma GrownTotal(rows: seq<Row>, row: Row, columns: seq<string>, f: Key -> int, g: Key -> int, v: int)
    requires g(GroupKey(row, columns)) == f(GroupKey(row, columns)) + v
    requires forall k :: k != GroupKey(row, columns) ==> g(k) == f(k)
    requires GroupKey(row, columns) !in FirstKeys(rows, columns) ==> f(GroupKey(row, columns)) == 0
    ensures Total(FirstKeys(rows + [row], columns), g) == Total(FirstKeys(rows, columns), f) + v
  {
    var keys, key := FirstKeys(rows, columns), GroupKey(row, columns);
    assert (rows + [row])[..|rows|] == rows;
    KeysDistinct(rows, columns);
    if key in keys {
      TotalBump(keys, f, g, key, v);
    } else {
      TotalSame(keys, f, g);
      assert (keys + [key])[..|keys|] == keys;
    }
  }

  /** Per-group row counts add up to the number of rows, and per-group sums to the ungrouped sum. */
  lemma {:induction false} GroupTotals(rows: seq<Row>, columns: seq<string>, column: string)
    ensures Total(FirstKeys(rows, columns), GroupSize(rows, columns)) == |rows|
    ensures Total(FirstKeys(rows, columns), GroupSum(rows, columns, column)) == SumOf(rows, column)
  {
    if rows != [] {
      var n := |rows| - 1;
      var head, row := rows[..n], rows[n];
      var key := GroupKey(row, columns);
      GroupTotals(head, columns, column);
      assert rows == head + [row];
      forall k ensures GroupOf(rows, columns, k) == GroupOf(head, columns, k) + if k == key then [row] else [] {
        KeepAppend(head, row, HasKey(columns, k));
      }
      var before := GroupOf(head, columns, key);
      assert (before + [row])[..|before|] == before;
      if key !in FirstKeys(head, columns) {
        UnseenKey(head, columns, key);
      }
      forall k | k != key ensures GroupOf(rows, columns, k) == GroupOf(head, columns, k) {
        assert GroupOf(head, columns, k) + [] == GroupOf(head, columns, k);
      }
      GrownTotal(head, row, columns, GroupSize(head, columns), GroupSize(rows, columns), 1);
      GrownTotal(head, row, columns, GroupSum(head, columns, column), GroupSum(rows, columns, column), IntOf(row, column));
    }
  }

  /** SUM over groups is summable and, wrapping included, adds up to the ungrouped SUM. */
  lemma GroupedSumsAddUp(rows: seq<Row>, columns: seq<string>, column: string)
    requires Summable(rows, column)
    ensures forall key ::
      AggregateOf(Sum, OfColumn(column), GroupOf(rows, columns, key)) == Ok(Int(Wrap(GroupSum(rows, columns, column)(key))))
    ensures AggregateOf(Sum, OfColumn(column), rows)
      == Ok(Int(Wrap(Total(FirstKeys(rows, columns), GroupSum(rows, columns, column)))))
    ensures AggregateOf(Count, Star, rows)
      == Ok(Int(Wrap(Total(FirstKeys(rows, columns), GroupSize(rows, columns)))))
  {
    GroupTotals(rows, columns, column);
    forall key ensures Summable(GroupOf(rows, columns, key), column) {
      var group := GroupOf(rows, columns, key);
      KeepMembers(rows, HasKey(columns, key));
      forall i | 0 <= i < |group| ensures Get(group[i], column).Int? || Get(group[i], column).Null? {
        assert group[i] in group;
        var j :| 0 <= j < |rows| && rows[j] == group[i];
      }
    }
  }
}

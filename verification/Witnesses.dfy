/** Concrete databases and statements on which the code does not keep a constraint, or a join loses a column or reads the wrong one. */
module Witnesses {
  import opened Types
  import opened Ast
  import opened Filters
  import opened Joins
  import opened Queries
  import opened Statements
  import opened Conformance
  import opened KeyConstraints
  import opened ForeignKeys
  import D = Database

  // ---- a parent and a child ----

  const ID := Column("id", IntType, [PrimaryKey])
  const NOTE := Column("note", IntType, [])
  const OF := Column("of", IntType, [References("p", "id")])
  const PARENT: Row := map["id" := Int(1), "note" := Null]
  const CHILD: Row := map["of" := Int(1)]
  const PARENTS := D.Table([ID, NOTE], [PARENT])
  const CHILDREN := D.Table([OF], [CHILD])
  const FAMILY := D.Db(map["p" := PARENTS, "c" := CHILDREN], [], [])

  lemma ParentsConform()
    ensures TableConforms(PARENTS) && TableKeysHold(PARENTS)
  {
    assert PARENTS.columns[0] == ID && PARENTS.columns[1] == NOTE && PARENTS.rows[0] == PARENT;
    assert NameSet(PARENTS.columns) == {"id", "note"} by {
      assert ID in PARENTS.columns && NOTE in PARENTS.columns;
    }
    assert RowConforms(PARENTS.columns, PARENT);
  }

  lemma ChildrenConform()
    ensures TableConforms(CHILDREN) && TableKeysHold(CHILDREN)
  {
    assert CHILDREN.columns[0] == OF && CHILDREN.rows[0] == CHILD;
    assert NameSet(CHILDREN.columns) == {"of"} by {
      assert OF in CHILDREN.columns;
    }
    assert RowConforms(CHILDREN.columns, CHILD);
  }

  lemma FamilyIsConsistent()
    ensures Conforms(FAMILY) && KeysHold(FAMILY) && ForeignKeysHold(FAMILY)
    ensures Refers(FAMILY, "c", OF, "p", "id")
  {
    hide TableConforms, TableKeysHold;
    ParentsConform();
    ChildrenConform();
    assert PARENTS.rows[0] == PARENT && CHILDREN.rows[0] == CHILD;
    assert CHILDREN.columns[0] == OF && OF.constraints[0] == References("p", "id");
    forall t, child, p, q | Refers(FAMILY, t, child, p, q) ensures ReferenceHolds(FAMILY, FAMILY.tables[t].rows, child.name, p, q) {
      assert t == "c" && child == OF && p == "p" && q == "id";
      assert PARENT in PARENTS.rows && Get(PARENT, "id") == Int(1);
    }
  }

  /** ALTER TABLE p DROP COLUMN id goes through while a child holds 1. */
  lemma DropReferencedColumn()
    ensures ForeignKeysHold(FAMILY)
    ensures Change(FAMILY, DropColumn("p", "id")).Ok? && !ForeignKeysHold(Change(FAMILY, DropColumn("p", "id")).value)
  {
    hide Conforms, KeysHold, ForeignKeysHold;
    FamilyIsConsistent();
    assert PARENTS.columns[0].name == "id" && CHILDREN.rows[0] == CHILD;
    assert CHILD in CHILDREN.rows && !AllNull(CHILDREN.rows, "of");
    assert !Unreferenced(FAMILY, "p", "id", true);
    ChangeKeepsReferences(FAMILY, DropColumn("p", "id"));
  }

  /** ALTER TABLE p RENAME COLUMN id TO key leaves the child's reference pointing to the old name. */
  lemma RenameReferencedColumn()
    ensures ForeignKeysHold(FAMILY)
    ensures Change(FAMILY, RenameColumn("p", "id", "key")).Ok?
    ensures !ForeignKeysHold(Change(FAMILY, RenameColumn("p", "id", "key")).value)
  {
    hide Conforms, KeysHold, ForeignKeysHold;
    FamilyIsConsistent();
    assert PARENTS.columns[0].name == "id" && CHILDREN.rows[0] == CHILD;
    assert CHILD in CHILDREN.rows && !AllNull(CHILDREN.rows, "of");
    assert !Unreferenced(FAMILY, "p", "id", false);
    ChangeKeepsReferences(FAMILY, RenameColumn("p", "id", "key"));
  }

  const ADD_ORPHAN := AddColumn("c", Column("also", IntType, [References("p", "id")]), Some(Int(9)))

  /** ALTER TABLE c ADD COLUMN also INT REFERENCES p(id) DEFAULT 9 backfills a value without a parent. */
  lemma AddOrphanColumn()
    ensures ForeignKeysHold(FAMILY)
    ensures Change(FAMILY, ADD_ORPHAN).Ok? && !ForeignKeysHold(Change(FAMILY, ADD_ORPHAN).value)
  {
    hide Conforms, KeysHold, ForeignKeysHold;
    FamilyIsConsistent();
    assert CHILDREN.columns[0].name != "also" && !D.HasColumn(CHILDREN.columns, "also");
    assert !HasParent(FAMILY, "p", "id", Int(9));
    assert ADD_ORPHAN.newColumn.constraints[0] == References("p", "id");
    assert !BackfillHasParents(FAMILY, "c", ADD_ORPHAN.newColumn, Int(9));
    ChangeKeepsReferences(FAMILY, ADD_ORPHAN);
  }

  const ADD_NOT_NULL := AddColumn("c", Column("must", IntType, [NotNull]), None)

  /** ALTER TABLE c ADD COLUMN must INT NOT NULL backfills NULL. */
  lemma AddNullColumn()
    ensures KeysHold(FAMILY)
    ensures Change(FAMILY, ADD_NOT_NULL).Ok? && !KeysHold(Change(FAMILY, ADD_NOT_NULL).value)
  {
    hide Conforms, KeysHold, ForeignKeysHold;
    FamilyIsConsistent();
    assert CHILDREN.columns[0].name != "must" && !D.HasColumn(CHILDREN.columns, "must");
    assert NotNull in [NotNull];
    ChangeKeepsKeys(FAMILY, ADD_NOT_NULL);
  }

  // ---- a join that loses a column ----

  const ORDERS := D.Table([Column("id", IntType, []), Column("o_id", IntType, [])], [map["id" := Int(1), "o_id" := Int(7)]])
  const OTHERS := D.Table([Column("id", IntType, [])], [map["id" := Int(1)]])
  const SHOP := D.Db(map["l" := ORDERS, "o" := OTHERS], [], [])
  const JOINED_QUERY :=
    Query("l", [ColumnExpr("o_id")], [JoinClause("o", None, "id", "id")], None, [], None, None, None)

  lemma ShopConforms()
    ensures Conforms(SHOP)
  {
    var id, other := ORDERS.columns[0], ORDERS.columns[1];
    assert id == Column("id", IntType, []) && other == Column("o_id", IntType, []);
    assert OTHERS.columns[0] == id;
    assert NameSet(ORDERS.columns) == {"id", "o_id"} by {
      assert id in ORDERS.columns && other in ORDERS.columns;
    }
    assert NameSet(OTHERS.columns) == {"id"} by {
      assert id in OTHERS.columns;
    }
    assert RowConforms(ORDERS.columns, map["id" := Int(1), "o_id" := Int(7)]);
    assert RowConforms(OTHERS.columns, map["id" := Int(1)]);
    assert TableConforms(ORDERS) && TableConforms(OTHERS);
  }

  const MERGED: seq<Column> := ORDERS.columns + [Column("o_id", IntType, [])]
  const RENAMED: seq<Renaming> := [Renaming("id", "o_id")]

  lemma ShopColumns()
    ensures Renamings(ORDERS.columns, "o", OTHERS.columns) == RENAMED
    ensures MergeColumns(ORDERS.columns, "o", OTHERS.columns) == MERGED
  {
    assert ORDERS.columns[0].name == "id" && D.HasColumn(ORDERS.columns, "id");
    assert "o" + "_" + "id" == "o_id";
    assert OTHERS.columns[1..] == [];
  }

  lemma ShopRows()
    ensures NestedJoin(ORDERS.rows, "id", OTHERS.rows, "id", RENAMED) == [map["id" := Int(1), "o_id" := Int(1)]]
  {
    var left: Row := map["id" := Int(1), "o_id" := Int(7)];
    var right: Row := map["id" := Int(1)];
    assert RENAMED[..0] == [];
    assert MergeRow(left, right, RENAMED[..0]) == left;
    assert MergeRow(left, right, RENAMED) == map["id" := Int(1), "o_id" := Int(1)];
    assert OTHERS.rows[..0] == [] && ORDERS.rows[..0] == [];
    assert Pairs(left, "id", OTHERS.rows[..0], "id", RENAMED) == [];
    assert Pairs(left, "id", OTHERS.rows, "id", RENAMED) == [MergeRow(left, right, RENAMED)];
    assert NestedJoin(ORDERS.rows[..0], "id", OTHERS.rows, "id", RENAMED) == [];
  }

  lemma ShopSource()
    ensures Source(SHOP, JOINED_QUERY).Ok?
    ensures Source(SHOP, JOINED_QUERY).value.rows == [map["id" := Int(1), "o_id" := Int(1)]]
    ensures Source(SHOP, JOINED_QUERY).value.columns == MERGED
  {
    hide NestedJoin, Renamings, MergeColumns, MergeNames;
    ShopColumns();
    ShopRows();
    assert JOINED_QUERY.joins[1..] == [];
  }

  const JOINED_ROW: Row := map["id" := Int(1), "o_id" := Int(1)]

  lemma NamedIn(columns: seq<Column>, i: nat)
    requires i < |columns|
    ensures D.HasColumn(columns, columns[i].name)
  {
  }

  lemma ShopProjection()
    ensures Project(JOINED_QUERY, MERGED, [JOINED_ROW]) == Ok(RowSet(["o_id"], [[Int(1)]]))
  {
    hide Grouped, AggregateCells;
    var exprs := JOINED_QUERY.columns;
    assert MERGED[2] == Column("o_id", IntType, []);
    NamedIn(MERGED, 2);
    assert exprs[..0] == [];
    var none: seq<string> := [];
    assert none + ["o_id"] == ["o_id"];
    assert ColumnNames(exprs, MERGED, "l") == Ok(none + ["o_id"]);
    assert ValuesOf(JOINED_ROW, ["o_id"]) == [Int(1)];
    assert ProjectRows([JOINED_ROW], ["o_id"]) == [[Int(1)]];
  }

  /**
   SELECT o_id FROM l JOIN o ON id = o.id, on l(id, o_id) holding (1, 7) and o(id) holding 1, answers 1: the right id is
   named o_id as well, and replaces the 7.
   */
  lemma JoinLosesColumn()
    ensures Conforms(SHOP)
    ensures RunQuery(SHOP, JOINED_QUERY) == Ok(RowSet(["o_id"], [[Int(1)]]))
  {
    hide Source, Project, Conforms, D.Keep;
    ShopConforms();
    ShopSource();
    ShopProjection();
    D.KeepAll([JOINED_ROW], Matching(None));
    assert Window([[Int(1)]], None, None) == [[Int(1)]];
  }

  // ---- a join of a table with itself ----

  const FIRST_EMP: Row := map["id" := Int(1), "boss" := Null]
  const OTHER_EMP: Row := map["id" := Int(2), "boss" := Int(1)]
  const STAFF := D.Table([Column("id", IntType, []), Column("boss", IntType, [])], [FIRST_EMP, OTHER_EMP])
  const FIRM := D.Db(map["emp" := STAFF], [], [])

  /** What `emp JOIN emp ON emp.boss = emp.id` is parsed to: its left side names the joined table. */
  const SELF := JoinClause("emp", Some("emp"), "id", "boss")
  const SELF_QUERY := Query("emp", [ColumnExpr("id"), ColumnExpr("emp_id")], [SELF], None, [], None, None, None)

  lemma FirmConforms()
    ensures Conforms(FIRM)
  {
    var id, boss := STAFF.columns[0], STAFF.columns[1];
    assert id == Column("id", IntType, []) && boss == Column("boss", IntType, []);
    assert NameSet(STAFF.columns) == {"id", "boss"} by {
      assert id in STAFF.columns && boss in STAFF.columns;
    }
    assert RowConforms(STAFF.columns, FIRST_EMP) && RowConforms(STAFF.columns, OTHER_EMP);
    assert TableConforms(STAFF);
  }

  const EMP_ID := Column("emp_id", IntType, [])
  const EMP_BOSS := Column("emp_boss", IntType, [])
  const DOUBLED: seq<Column> := STAFF.columns + [EMP_ID] + [EMP_BOSS]
  const PREFIXED: seq<Renaming> := [Renaming("id", "emp_id"), Renaming("boss", "emp_boss")]

  lemma FirmColumns()
    ensures Renamings(STAFF.columns, "emp", STAFF.columns) == PREFIXED
    ensures MergeColumns(STAFF.columns, "emp", STAFF.columns) == DOUBLED
  {
    var columns, wider := STAFF.columns, STAFF.columns + [EMP_ID];
    assert "emp" + "_" + "id" == "emp_id" && "emp" + "_" + "boss" == "emp_boss";
    NamedIn(columns, 0);
    assert wider[1].name == "boss";
    NamedIn(wider, 1);
    assert columns[1..] == [columns[1]] && columns[1..][1..] == [];
    assert Renamings(wider, "emp", columns[1..]) == [Renaming("boss", "emp_boss")];
    assert MergeColumns(wider, "emp", columns[1..]) == wider + [EMP_BOSS];
  }

  /** The lookup has moved to the joined table's own name for the column. */
  lemma FirmLookup()
    ensures LeftLookup(StartNames("emp", STAFF.columns), SELF) == "id"
    ensures LeftLookup(MergeNames(StartNames("emp", STAFF.columns), "emp", PREFIXED), SELF) == "emp_id"
  {
    assert STAFF.columns[0].name == "id";
    assert ("emp", "id") in StartNames("emp", STAFF.columns);
    assert PREFIXED[1..] == [Renaming("boss", "emp_boss")];
    assert PREFIXED[1..][1..] == [];
  }

  const ALONE: Row := map["id" := Int(1), "boss" := Null, "emp_id" := Int(1), "emp_boss" := Null]
  const BOSSED: Row := map["id" := Int(2), "boss" := Int(1), "emp_id" := Int(1), "emp_boss" := Null]

  lemma FirmMerge(left: Row)
    ensures MergeRow(left, FIRST_EMP, PREFIXED) == left["emp_id" := Int(1)]["emp_boss" := Null]
  {
    assert PREFIXED[..1] == [Renaming("id", "emp_id")];
    assert PREFIXED[..1][..0] == [];
    assert MergeRow(left, FIRST_EMP, PREFIXED[..1]) == left["emp_id" := Int(1)];
  }

  /** No left row has the moved name, so each reads NULL there and pairs with the row that has no boss. */
  lemma FirmPairs(left: Row, lookup: string)
    requires Get(left, lookup) == Null
    ensures Pairs(left, lookup, STAFF.rows, "boss", PREFIXED) == [left["emp_id" := Int(1)]["emp_boss" := Null]]
  {
    hide MergeRow;
    FirmMerge(left);
    var rows := STAFF.rows;
    assert rows[..1] == [FIRST_EMP] && rows[..1][..0] == [];
    assert Pairs(left, lookup, rows[..1][..0], "boss", PREFIXED) == [];
    assert Pairs(left, lookup, rows[..1], "boss", PREFIXED) == [MergeRow(left, FIRST_EMP, PREFIXED)];
    assert Pairs(left, lookup, rows, "boss", PREFIXED) == Pairs(left, lookup, rows[..1], "boss", PREFIXED);
  }

  lemma FirmRows()
    ensures NestedJoin(STAFF.rows, "emp_id", STAFF.rows, "boss", PREFIXED) == [ALONE, BOSSED]
  {
    hide Pairs;
    var rows := STAFF.rows;
    FirmPairs(FIRST_EMP, "emp_id");
    FirmPairs(OTHER_EMP, "emp_id");
    assert rows[..1] == [FIRST_EMP] && rows[..1][..0] == [];
    assert NestedJoin(rows[..1][..0], "emp_id", rows, "boss", PREFIXED) == [];
    assert NestedJoin(rows[..1], "emp_id", rows, "boss", PREFIXED) == [ALONE];
  }

  lemma FirmSource()
    ensures Source(FIRM, SELF_QUERY).Ok?
    ensures Source(FIRM, SELF_QUERY).value.rows == [ALONE, BOSSED]
    ensures Source(FIRM, SELF_QUERY).value.columns == DOUBLED
  {
    hide NestedJoin, Renamings, MergeColumns, MergeNames, LeftLookup;
    FirmColumns();
    FirmLookup();
    FirmRows();
    var start := Joined(STAFF.rows, STAFF.columns, StartNames("emp", STAFF.columns));
    var names := MergeNames(start.names, "emp", PREFIXED);
    assert JoinOne(FIRM, start, SELF) == Ok(Joined([ALONE, BOSSED], DOUBLED, names));
    assert SELF_QUERY.joins[0] == SELF && SELF_QUERY.joins[1..] == [];
    assert JoinAll(FIRM, Joined([ALONE, BOSSED], DOUBLED, names), []) == Ok(Joined([ALONE, BOSSED], DOUBLED, names));
  }

  lemma FirmProjection()
    ensures Project(SELF_QUERY, DOUBLED, [ALONE, BOSSED]) == Ok(RowSet(["id", "emp_id"], [[Int(1), Int(1)], [Int(2), Int(1)]]))
  {
    hide Grouped, AggregateCells;
    var exprs := SELF_QUERY.columns;
    assert DOUBLED[0] == Column("id", IntType, []) && DOUBLED[2] == EMP_ID;
    NamedIn(DOUBLED, 0);
    NamedIn(DOUBLED, 2);
    assert exprs[..1] == [ColumnExpr("id")] && exprs[..1][..0] == [];
    var none: seq<string> := [];
    assert none + ["id"] == ["id"];
    assert ColumnNames(exprs[..1], DOUBLED, "emp") == Ok(none + ["id"]);
    assert exprs[1] == ColumnExpr("emp_id") && ["id"] + ["emp_id"] == ["id", "emp_id"];
    assert ColumnNames(exprs, DOUBLED, "emp") == Ok(["id", "emp_id"]);
    assert !HasAggregates(exprs);
    assert ValuesOf(ALONE, ["id", "emp_id"]) == [Int(1), Int(1)];
    assert ValuesOf(BOSSED, ["id", "emp_id"]) == [Int(2), Int(1)];
    assert ProjectRows([ALONE, BOSSED], ["id", "emp_id"]) == [[Int(1), Int(1)], [Int(2), Int(1)]];
  }

  /**
   SELECT id, emp_id FROM emp JOIN emp ON emp.boss = emp.id, on emp(id, boss) holding (1, NULL) and (2, 1), answers
   (1, 1) and (2, 1): the clause is looked up after the right names are merged, where no left row has a value. The only
   rows that agree on the named columns are 1 and its subordinate 2.
   */
  lemma SelfJoinReadsWrongSide()
    ensures Conforms(FIRM)
    ensures RunQuery(FIRM, SELF_QUERY) == Ok(RowSet(["id", "emp_id"], [[Int(1), Int(1)], [Int(2), Int(1)]]))
    ensures forall left, right :: left in STAFF.rows && right in STAFF.rows ==>
      (Get(left, "id") == Get(right, "boss") <==> left == FIRST_EMP && right == OTHER_EMP)
  {
    hide Source, Project, Conforms, D.Keep;
    FirmConforms();
    FirmSource();
    FirmProjection();
    D.KeepAll([ALONE, BOSSED], Matching(None));
    var out: seq<seq<Value>> := [[Int(1), Int(1)], [Int(2), Int(1)]];
    assert Window(out, None, None) == out;
  }
}

/** Whole runs: constraints in every reachable state, rejected statements, and what BEGIN … ROLLBACK leaves. */
module Runs {
  import opened Types
  import opened Ast
  import opened Statements
  import opened Conformance
  import opened KeyConstraints
  import opened ForeignKeys
  import D = Database

  // ---- what a session may keep ----

  /** UNIQUE, PRIMARY KEY and NOT NULL hold, and rows conform; also in the database a ROLLBACK may bring back. */
  ghost predicate SessionKeys(s: D.Session) {
    SessionConforms(s) && KeysHold(s.db) && (s.saved.Some? ==> KeysHold(s.saved.value))
  }

  /** Foreign keys hold, and rows conform. */
  ghost predicate SessionReferences(s: D.Session) {
    SessionConforms(s) && ForeignKeysHold(s.db) && (s.saved.Some? ==> ForeignKeysHold(s.saved.value))
  }

  /** All declared constraints hold. */
  ghost predicate SessionConsistent(s: D.Session) {
    SessionKeys(s) && SessionReferences(s)
  }

  // ---- the guards ----

  ghost predicate GoesThrough(s: D.Session, statement: Statement) {
    ChangesData(statement) && Change(s.db, statement).Ok?
  }

  ghost predicate SafeForKeys(s: D.Session, statement: Statement) {
    GoesThrough(s, statement) ==> KeysSafe(s.db, statement)
  }

  ghost predicate SafeForReferences(s: D.Session, statement: Statement) {
    GoesThrough(s, statement) ==> ReferencesSafe(s.db, statement)
  }

  ghost predicate Safe(s: D.Session, statement: Statement) {
    SafeForKeys(s, statement) && SafeForReferences(s, statement)
  }

  // ---- runs ----

  /** The property holds in every state of the run, the first and the last included. */
  ghost predicate Always(holds: D.Session -> bool, s: D.Session, statements: seq<Statement>)
    decreases |statements|
  {
    holds(s) && (statements == [] || Always(holds, After(s, statements[0]), statements[1..]))
  }

  /** Every statement of the run meets the guard in the state it finds. */
  ghost predicate EachMeets(guard: (D.Session, Statement) -> bool, s: D.Session, statements: seq<Statement>)
    decreases |statements|
  {
    statements == [] || (guard(s, statements[0]) && EachMeets(guard, After(s, statements[0]), statements[1..]))
  }

  /** What single steps keep exactly under a guard, runs keep exactly when each of their statements meets it. */
  lemma {:induction false} AlwaysIffEachMeets(holds: D.Session -> bool, guard: (D.Session, Statement) -> bool,
                                              s: D.Session, statements: seq<Statement>)
    requires holds(s)
    requires forall t, statement :: holds(t) ==> (holds(After(t, statement)) <==> guard(t, statement))
    ensures Always(holds, s, statements) <==> EachMeets(guard, s, statements)
    decreases |statements|
  {
    hide After;
    if statements != [] && holds(After(s, statements[0])) {
      AlwaysIffEachMeets(holds, guard, After(s, statements[0]), statements[1..]);
    }
  }

  /** The states of a run are exactly those its prefixes lead to. */
  lemma {:induction false} AlwaysMeansAfterPrefixes(holds: D.Session -> bool, s: D.Session, statements: seq<Statement>)
    ensures Always(holds, s, statements)
      <==> forall n :: 0 <= n <= |statements| ==> holds(AfterAll(s, statements[..n]))
    decreases |statements|
  {
    hide After;
    assert AfterAll(s, statements[..0]) == s;
    if statements != [] {
      var next, rest := After(s, statements[0]), statements[1..];
      AlwaysMeansAfterPrefixes(holds, next, rest);
      forall n | 0 < n <= |statements| ensures AfterAll(s, statements[..n]) == AfterAll(next, rest[..n - 1]) {
        assert statements[..n][1..] == rest[..n - 1];
      }
      forall n | 0 <= n <= |rest| ensures AfterAll(next, rest[..n]) == AfterAll(s, statements[..n + 1]) {
        assert statements[..n + 1][1..] == rest[..n];
      }
    }
  }

  lemma {:induction false} AllMeet(guard: (D.Session, Statement) -> bool, s: D.Session, statements: seq<Statement>)
    requires forall i, t :: 0 <= i < |statements| ==> guard(t, statements[i])
    ensures EachMeets(guard, s, statements)
    decreases |statements|
  {
    if statements != [] {
      hide After;
      assert forall i :: 0 <= i < |statements[1..]| ==> statements[1..][i] == statements[i + 1];
      AllMeet(guard, After(s, statements[0]), statements[1..]);
    }
  }

  // ---- keys ----

  lemma StepKeys(s: D.Session, statement: Statement)
    requires SessionKeys(s)
    ensures SessionKeys(After(s, statement)) <==> SafeForKeys(s, statement)
  {
    hide Conforms, KeysHold, Change, KeysSafe;
    AfterConforms(s, statement);
    if GoesThrough(s, statement) {
      ChangeKeepsKeys(s.db, statement);
    }
  }

  /**
   UNIQUE, PRIMARY KEY and NOT NULL hold in every state of a run exactly when each ADD COLUMN that goes through fits the
   rows it finds; foreign keys, broken or not, do not matter.
   */
  lemma KeysHoldIffSafe(s: D.Session, statements: seq<Statement>)
    requires SessionKeys(s)
    ensures Always(SessionKeys, s, statements) <==> EachMeets(SafeForKeys, s, statements)
  {
    hide SessionKeys, SafeForKeys, After;
    forall t, statement | SessionKeys(t) ensures SessionKeys(After(t, statement)) <==> SafeForKeys(t, statement) {
      StepKeys(t, statement);
    }
    AlwaysIffEachMeets(SessionKeys, SafeForKeys, s, statements);
  }

  /** Without ADD COLUMN nothing ever breaks a key constraint. */
  lemma KeysHoldWithoutAddColumn(s: D.Session, statements: seq<Statement>)
    requires SessionKeys(s) && forall i :: 0 <= i < |statements| ==> !statements[i].AddColumn?
    ensures Always(SessionKeys, s, statements)
  {
    hide SessionKeys, GoesThrough;
    KeysHoldIffSafe(s, statements);
    AllMeet(SafeForKeys, s, statements);
  }

  // ---- references ----

  lemma StepReferences(s: D.Session, statement: Statement)
    requires SessionReferences(s)
    ensures SessionReferences(After(s, statement)) <==> SafeForReferences(s, statement)
  {
    hide Conforms, ForeignKeysHold, Change, ReferencesSafe;
    AfterConforms(s, statement);
    if GoesThrough(s, statement) {
      ChangeKeepsReferences(s.db, statement);
    }
  }

  /** Foreign keys hold in every state of a run exactly when each statement that goes through meets its guard. */
  lemma ReferencesHoldIffSafe(s: D.Session, statements: seq<Statement>)
    requires SessionReferences(s)
    ensures Always(SessionReferences, s, statements) <==> EachMeets(SafeForReferences, s, statements)
  {
    hide SessionReferences, SafeForReferences, After;
    forall t, statement | SessionReferences(t)
      ensures SessionReferences(After(t, statement)) <==> SafeForReferences(t, statement)
    {
      StepReferences(t, statement);
    }
    AlwaysIffEachMeets(SessionReferences, SafeForReferences, s, statements);
  }

  /** No ALTER of columns, and no UPDATE of more than one column. */
  predicate LeavesReferencesAlone(statement: Statement) {
    && !statement.AddColumn? && !statement.DropColumn? && !statement.RenameColumn?
    && (statement.Update? ==> |statement.assignments| <= 1)
  }

  /** An UPDATE of a single column needs no guard, self-referencing or not. */
  lemma OneAssignmentIsSafe(db: D.Db, statement: Statement)
    requires LeavesReferencesAlone(statement)
    ensures ReferencesSafe(db, statement)
  {
    if statement.Update? && statement.table in db.tables {
      var t := db.tables[statement.table];
      if PrepareAssignments(t.columns, statement.table, statement.assignments).Ok? {
        CoercedAreDistinct(t.columns, statement.table, statement.assignments);
        var coerced := PrepareAssignments(t.columns, statement.table, statement.assignments).value;
        OneValue(coerced);
      }
    }
  }

  lemma OneValue(assignments: Assignments)
    requires |assignments| == 1
    ensures forall column :: FindAssignment(assignments, column) in {None, Some(assignments[0].1)}
  {
    assert assignments[1..] == [];
  }

  /** Runs of such statements never break a foreign key. */
  lemma ReferencesHoldWithoutAlters(s: D.Session, statements: seq<Statement>)
    requires SessionReferences(s) && forall i :: 0 <= i < |statements| ==> LeavesReferencesAlone(statements[i])
    ensures Always(SessionReferences, s, statements)
  {
    hide SessionReferences, GoesThrough, ReferencesSafe, LeavesReferencesAlone;
    ReferencesHoldIffSafe(s, statements);
    forall i, t | 0 <= i < |statements| ensures SafeForReferences(t, statements[i]) {
      OneAssignmentIsSafe(t.db, statements[i]);
    }
    AllMeet(SafeForReferences, s, statements);
  }

  // ---- both ----

  lemma StepConsistent(s: D.Session, statement: Statement)
    requires SessionConsistent(s)
    ensures SessionConsistent(After(s, statement)) <==> Safe(s, statement)
  {
    hide SessionKeys, SessionReferences, SafeForKeys, SafeForReferences, After;
    StepKeys(s, statement);
    StepReferences(s, statement);
  }

  /** All constraints hold in every state of a run exactly when each of its statements was safe where it ran. */
  lemma ConsistentIffSafe(s: D.Session, statements: seq<Statement>)
    requires SessionConsistent(s)
    ensures Always(SessionConsistent, s, statements) <==> EachMeets(Safe, s, statements)
  {
    hide SessionConsistent, Safe, After;
    forall t, statement | SessionConsistent(t) ensures SessionConsistent(After(t, statement)) <==> Safe(t, statement) {
      StepConsistent(t, statement);
    }
    AlwaysIffEachMeets(SessionConsistent, Safe, s, statements);
  }

  lemma EmptyConsistent()
    ensures SessionConsistent(D.Session(D.EMPTY_DB, None))
  {
  }

  // ---- rejected statements and transactions ----

  /** A rejected statement changes nothing. */
  lemma RejectedChangesNothing(s: D.Session, statement: Statement)
    requires Answer(s, statement).Err?
    ensures After(s, statement) == s
  {
    hide Change;
  }

  lemma {:induction false} AfterAppended(s: D.Session, statements: seq<Statement>, more: seq<Statement>)
    ensures AfterAll(s, statements + more) == AfterAll(AfterAll(s, statements), more)
    decreases |statements|
  {
    if statements == [] {
      assert [] + more == more;
    } else {
      hide After;
      AfterAppended(After(s, statements[0]), statements[1..], more);
      assert (statements + more)[1..] == statements[1..] + more;
    }
  }

  ghost predicate NoControl(statements: seq<Statement>) {
    forall i :: 0 <= i < |statements| ==> !ControlsTransaction(statements[i])
  }

  /** Within a transaction statements act on the database alone, as they would outside one. */
  lemma {:induction false} SavedStays(db: D.Db, saved: Option<D.Db>, statements: seq<Statement>)
    requires NoControl(statements)
    ensures AfterAll(D.Session(db, saved), statements) == AfterAll(D.Session(db, None), statements).(saved := saved)
    decreases |statements|
  {
    if statements != [] {
      hide Change;
      var next := After(D.Session(db, saved), statements[0]);
      assert !ControlsTransaction(statements[0]);
      assert NoControl(statements[1..]) by {
        assert forall i :: 0 <= i < |statements[1..]| ==> statements[1..][i] == statements[i + 1];
      }
      SavedStays(next.db, saved, statements[1..]);
    }
  }

  /** BEGIN, any statements other than transaction control, rejected ones and DDL included, ROLLBACK: nothing happened. */
  lemma RollbackRestores(s: D.Session, statements: seq<Statement>)
    requires s.saved.None? && NoControl(statements)
    ensures AfterAll(s, [Begin] + statements + [Rollback]) == s
    ensures AfterAll(s, [Begin] + statements + [Commit]) == AfterAll(s, statements)
  {
    hide AfterAll, Change;
    var inside := AfterAll(s, [Begin] + statements);
    AfterAppended(s, [Begin], statements);
    AfterOne(s, Begin);
    SavedStays(s.db, Some(s.db), statements);
    SavedStays(s.db, None, statements);
    AfterAppended(s, [Begin] + statements, [Rollback]);
    AfterAppended(s, [Begin] + statements, [Commit]);
    AfterOne(inside, Rollback);
    AfterOne(inside, Commit);
  }

  lemma AfterOne(s: D.Session, statement: Statement)
    ensures AfterAll(s, [statement]) == After(s, statement)
  {
    hide After;
    assert [statement][1..] == [];
  }
}

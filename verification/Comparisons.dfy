/** What the comparison operators of a filter mean on the values of each type. */
module Comparisons {
  import opened Types
  import opened Ast
  import opened Filters
  import opened Queries
  import Aggregates
  import Like

  // ---- the order of each type ----

  /** The texts agree up to a place where the first one ends or has the smaller character. */
  predicate DividesAt(a: string, b: string, k: nat) {
    k <= |a| && k < |b| && a[..k] == b[..k] && (k == |a| || a[k] < b[k])
  }

  /** Lexicographic order. */
  ghost predicate Precedes(a: string, b: string) {
    exists k :: DividesAt(a, b, k)
  }

  lemma DividesLater(a: string, b: string, k: nat)
    requires a != [] && b != []
    ensures DividesAt(a, b, k + 1) <==> a[0] == b[0] && DividesAt(a[1..], b[1..], k)
  {
    if k < |a| && k + 1 < |b| {
      assert a[..k + 1] == [a[0]] + a[1..][..k] && b[..k + 1] == [b[0]] + b[1..][..k];
      assert a[..k + 1] == b[..k + 1] ==> a[1..][..k] == a[..k + 1][1..] == b[..k + 1][1..] == b[1..][..k];
    }
  }

  lemma {:induction false} TextLessIsPrecedes(a: string, b: string)
    ensures TextLess(a, b) <==> Precedes(a, b)
  {
    if a == [] || b == [] {
      assert b != [] ==> DividesAt([], b, 0);
    } else {
      TextLessIsPrecedes(a[1..], b[1..]);
      if k: nat :| DividesAt(a[1..], b[1..], k) {
        DividesLater(a, b, k);
      }
      if k: nat :| DividesAt(a, b, k) && k > 0 {
        DividesLater(a, b, k - 1);
      }
      assert a[0] < b[0] <==> DividesAt(a, b, 0);
    }
  }

  /** Integers by size, texts lexicographically, false before true; NULL and values of two types are unordered. */
  ghost predicate Before(v: Value, w: Value) {
    match (v, w)
    case (Int(i), Int(j)) => i < j
    case (Text(a), Text(b)) => Precedes(a, b)
    case (Bool(a), Bool(b)) => !a && b
    case (_, _) => false
  }

  lemma OrderingIsBefore(v: Value, w: Value)
    ensures CompareOrdering(v, w) == Some(Less) <==> Before(v, w)
    ensures CompareOrdering(v, w) == Some(Greater) <==> Before(w, v)
    ensures CompareOrdering(v, w) == Some(Equal) <==> v == w && v != Null
  {
    if v.Text? && w.Text? {
      TextLessIsPrecedes(v.s, w.s);
      TextLessIsPrecedes(w.s, v.s);
      Aggregates.TextOrder(v.s, w.s, v.s);
      Aggregates.TextOrder(w.s, v.s, w.s);
    }
  }

  /** The order is strict, and total on the values of one type. */
  lemma OrderIsTotal(u: Value, v: Value, w: Value)
    ensures !Before(v, v)
    ensures Before(u, v) && Before(v, w) ==> Before(u, w)
    ensures SameType(v, w) ==> Before(v, w) || v == w || Before(w, v)
  {
    OrderingIsBefore(v, v);
    OrderingIsBefore(u, v);
    OrderingIsBefore(v, w);
    OrderingIsBefore(u, w);
    if u.Text? && v.Text? && w.Text? {
      Aggregates.TextOrder(u.s, v.s, w.s);
    }
  }

  predicate SameType(v: Value, w: Value) {
    (v.Int? && w.Int?) || (v.Text? && w.Text?) || (v.Bool? && w.Bool?)
  }

  // ---- the operators ----

  /** `left op right`, as a reader of SQL takes it, except that NULL equals itself. */
  ghost predicate HoldsBetween(left: Value, op: CompareOp, right: Value) {
    match op
    case Eq => left == right
    case NotEq => left != right
    case Lt => Before(left, right)
    case Gt => Before(right, left)
    case Lte => Before(left, right) || (left == right && left != Null)
    case Gte => Before(right, left) || (left == right && left != Null)
    case Like => left.Text? && right.Text? && exists cuts :: Like.Splits(right.s, left.s, cuts)
  }

  /** Evaluating a comparison decides it between the row's value and the constant, in this order. */
  lemma EvaluateCompares(row: Row, column: string, op: CompareOp, value: Value)
    ensures Evaluate(row, Compare(column, op, value)) <==> HoldsBetween(Get(row, column), op, value)
  {
    var left := Get(row, column);
    OrderingIsBefore(left, value);
    if left.Text? && value.Text? {
      Like.MatchesMeansSplit(value.s, left.s);
    }
  }

  /** On integers each operator is the operator of the integers. */
  lemma IntegersCompare(row: Row, column: string, i: I64, j: I64)
    requires Get(row, column) == Int(i)
    ensures Evaluate(row, Compare(column, Eq, Int(j))) <==> i == j
    ensures Evaluate(row, Compare(column, NotEq, Int(j))) <==> i != j
    ensures Evaluate(row, Compare(column, Gt, Int(j))) <==> i > j
    ensures Evaluate(row, Compare(column, Gte, Int(j))) <==> i >= j
    ensures Evaluate(row, Compare(column, Lt, Int(j))) <==> i < j
    ensures Evaluate(row, Compare(column, Lte, Int(j))) <==> i <= j
  {
    forall op ensures Evaluate(row, Compare(column, op, Int(j))) <==> HoldsBetween(Int(i), op, Int(j)) {
      EvaluateCompares(row, column, op, Int(j));
    }
  }

  predicate Orders(op: CompareOp) {
    op in {Gt, Gte, Lt, Lte}
  }

  /** An order test on NULL, or between two types, holds of no row. */
  lemma UnorderedIsFalse(row: Row, column: string, op: CompareOp, value: Value)
    requires Orders(op) && !SameType(Get(row, column), value)
    ensures !Evaluate(row, Compare(column, op, value))
  {
    EvaluateCompares(row, column, op, value);
  }
}

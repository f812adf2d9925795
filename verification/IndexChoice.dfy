/** Which index a query goes through, and why reading through it and re-filtering changes nothing. */
module IndexChoice {
  import opened Types
  import opened ValueKeys
  import opened TableFile
  import opened IndexMaps
  import opened Ast
  import opened Filters
  import D = Database

  /** The locators an index holds for an equality test. */
  function BucketOf(rows: seq<Located>, test: (string, Value)): seq<Locator> {
    Locators(Holding(rows, test.0, ValueKey(test.1)))
  }

  /** The bucket of one of the first n candidates, on an indexed column. */
  ghost predicate FromCandidate(locators: seq<Locator>, rows: seq<Located>, defs: seq<IndexDef>, table: string,
                                candidates: seq<(string, Value)>, n: nat)
    requires n <= |candidates|
  {
    exists i :: 0 <= i < n && D.HasIndexOn(defs, table, candidates[i].0) && locators == BucketOf(rows, candidates[i])
  }

  ghost predicate NoLonger(best: Option<seq<Locator>>, rows: seq<Located>, defs: seq<IndexDef>, table: string,
                           candidates: seq<(string, Value)>, n: nat)
    requires n <= |candidates|
  {
    forall i :: 0 <= i < n && D.HasIndexOn(defs, table, candidates[i].0) ==> AtMost(best, BucketOf(rows, candidates[i]))
  }

  predicate AtMost(best: Option<seq<Locator>>, bucket: seq<Locator>) {
    best.Some? && |best.value| <= |bucket|
  }

  /** The bucket of some indexed candidate, no longer than that of any other; None exactly when none is indexed. */
  ghost predicate IsBest(best: Option<seq<Locator>>, rows: seq<Located>, defs: seq<IndexDef>, table: string, filter: Option<Filter>) {
    match filter
    case None => best.None?
    case Some(f) =>
      && (best.Some? ==> FromCandidate(best.value, rows, defs, table, Candidates(f), |Candidates(f)|))
      && NoLonger(best, rows, defs, table, Candidates(f), |Candidates(f)|)
  }

  lemma BestOfNone(rows: seq<Located>, defs: seq<IndexDef>, table: string)
    ensures IsBest(None, rows, defs, table, None)
  {
  }

  lemma BestStart(rows: seq<Located>, defs: seq<IndexDef>, table: string, candidates: seq<(string, Value)>)
    ensures NoLonger(None, rows, defs, table, candidates, 0)
  {
  }

  lemma BestStep(best: Option<seq<Locator>>, locators: Option<seq<Locator>>, rows: seq<Located>, defs: seq<IndexDef>,
                 table: string, candidates: seq<(string, Value)>, n: nat)
    requires n < |candidates|
    requires best.Some? ==> FromCandidate(best.value, rows, defs, table, candidates, n)
    requires NoLonger(best, rows, defs, table, candidates, n)
    requires locators.Some? <==> D.HasIndexOn(defs, table, candidates[n].0)
    requires locators.Some? ==> locators.value == BucketOf(rows, candidates[n])
    ensures var next := if locators.Some? && (best.None? || |locators.value| < |best.value|) then locators else best;
      && (next.Some? ==> FromCandidate(next.value, rows, defs, table, candidates, n + 1))
      && NoLonger(next, rows, defs, table, candidates, n + 1)
  {
    hide BucketOf, D.HasIndexOn;
  }

  lemma BestEnd(best: Option<seq<Locator>>, rows: seq<Located>, defs: seq<IndexDef>, table: string, filter: Filter)
    requires best.Some? ==> FromCandidate(best.value, rows, defs, table, Candidates(filter), |Candidates(filter)|)
    requires NoLonger(best, rows, defs, table, Candidates(filter), |Candidates(filter)|)
    ensures IsBest(best, rows, defs, table, Some(filter))
  {
  }

  /** Reading the best bucket and filtering gives the same rows, in the same order, as filtering the whole table. */
  lemma BestBucketThenFilter(best: seq<Locator>, rows: seq<Located>, defs: seq<IndexDef>, table: string, filter: Filter)
    returns (column: string, key: string)
    requires IsBest(Some(best), rows, defs, table, Some(filter))
    ensures best == Locators(Holding(rows, column, key))
    ensures FilterRows(Datas(Holding(rows, column, key)), Some(filter)) == FilterRows(Datas(rows), Some(filter))
  {
    hide Holding, Locators, Datas, FilterRows, D.HasIndexOn;
    var candidates := Candidates(filter);
    var i :| 0 <= i < |candidates| && D.HasIndexOn(defs, table, candidates[i].0) && best == BucketOf(rows, candidates[i]);
    column, key := candidates[i].0, ValueKey(candidates[i].1);
    assert (column, candidates[i].1) in candidates;
    BucketThenFilter(rows, filter, column, candidates[i].1);
  }

  lemma BestNeedsFilter(best: Option<seq<Locator>>, rows: seq<Located>, defs: seq<IndexDef>, table: string, filter: Option<Filter>)
    requires IsBest(best, rows, defs, table, filter)
    ensures best.Some? ==> filter.Some?
  {
  }
}

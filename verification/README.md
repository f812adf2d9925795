# FluxDB, a model and its proofs

A small encrypted SQL database in Rust, modelled in Dafny: the storage engine with every redundant copy it keeps, the
relational executor above it, and the quote-aware part of the parser. The project is checked as a whole with
`dafny verify dfyconfig.toml`.

## What is modelled

The files form three layers, each proved against the one below it.

**Storage** (`TableFile`, `IndexMaps`, `StorageState`, `StorageSteps`, `SchemaSteps`, `TransactionSteps`, `Storage`).
A table file is a sequence of bytes, one encrypted line per row, so a locator's offset and length mean something.
`StorageEngine.Storage` is a class with the source's fields: catalog, migrations, index definitions and maps, row-id
cursors, append handles, unique-value caches, dirty set, clean marker, transaction flag, and the data directory
(catalog files, table files with the identity an open handle refers to, index files, temporary files, snapshot).
`Valid()` ties all copies together:

- catalogs in memory equal those on disk; every table has a file of whole lines, with strictly increasing row ids below
  the persisted bound; a live cursor lies between them;
- every index map is exactly what a rebuild from the file's bytes gives, and an index that is not dirty equals its file;
- the marker exists exactly when the indexes are clean, and then nothing is dirty;
- a cached set is exactly the set of keys of the non-NULL values of its column; an append handle refers to the file
  readers open by path; the snapshot is a directory that could be opened as it is.

`Contents()` is the logical database these bytes stand for (`Database`), with the one a ROLLBACK would restore. Each
method keeps `Valid()` and moves `Contents()` as a pure function of `Database` says.

**Executor** (`Text`, `ValueKeys`, `Like`, `Filters`, `Aggregates`, `Grouping`, `Joins`, `Queries`, `Statements`,
`Executor`, `IndexChoice`, `Engine`). `Queries` and `Statements` say naively what statements mean: scans, nested loops,
quantified constraint checks. `ExecutionEngine.Engine` runs them with indexes, hash tables, caches and loops, and
`Execute` is proved to leave exactly the session `After` and to answer exactly `Answer`. On top of that meaning,
`Conformance`, `KeyConstraints`, `ForeignKeys` and `Runs` prove what whole runs keep, and `Witnesses` where the code
keeps less. What the semantic functions themselves mean is proved without naming them: `Comparisons`, `Coercions` and
`AggregateMeaning` for values, `JoinMeaning`, `GroupedOutput` and `Answers` for queries, `Effects` for the session every
accepted statement leaves, `Acceptance` and `QueryAcceptance` for exactly which statements and queries go through, and
`Rejections` for the error of those that do not.

**Parser** (`Scanner`, `Words`, `Literals`, `Where`, `WhereRoundTrip`, `ParserMeaning`). The four scanners are methods proved equal to
recursive functions over one quote-and-parenthesis state machine, and literals, lists and filters are shown to be read
back from their printed form. `ParserMeaning` says by position and character what the searches find and what a token
denotes.

Encryption is a record of two functions about which one thing is assumed, `TableFile.Sound`: decryption undoes
encryption, and no proper prefix of a line decrypts (it is authenticated). `SoundCodec` shows that the assumption can be
met.

## What was found

Where the code does not keep a property, a lemma shows it on a concrete input, and another gives the exact condition
under which the property holds.

- UPDATE of a self-referencing table that assigns both the referencing column and its target can leave a child without
  a parent (`ForeignKeys.SelfReferencingUpdate`). So can ADD COLUMN with REFERENCES, DROP COLUMN and RENAME COLUMN of a
  referenced column (`Witnesses.AddOrphanColumn`, `DropReferencedColumn`, `RenameReferencedColumn`).
  `ForeignKeys.ReferencesSafe` is the exact condition.
- ADD COLUMN accepts constraints, although `README.md:101` of the repository says they are set at CREATE TABLE time, and
  does not check its backfill (`KeyConstraints.UncheckedBackfill`, `Witnesses.AddNullColumn`). `KeyConstraints.KeysSafe`
  is exact.
- A joined column named `<table>_<column>` can overwrite a left column (`Witnesses.JoinLosesColumn`).
  `Joins.LeftSurvivesIffKept` is exact for the pairs a clause merges: nothing is lost when no right column takes the
  name, nor when the name is the left join column and the right join column takes it, as in the usual
  `l JOIN o ON o_id = o.id`.
- The right names of a clause are merged before its left column is looked up, so a join of a table with itself reads
  the wrong side (`Witnesses.SelfJoinReadsWrongSide`). `JoinMeaning.LookupUnmoved` is exact.
- `strip_prefix_ci` slices the text of an IN list at its sixth byte and panics when that lies inside a character
  (`WhereRoundTrip.SlicedCharacter`). `find_comparison_operator` returns a character index that is used as a byte index,
  so a quoted name that is not ASCII is rejected before an operator, or panics (`WhereRoundTrip.WideNames`).
  `WhereRoundTrip.Sliceable` is exact for the round trip, and `Slip` says which of the two happens.

A line of 2^32 bytes or more gets a truncated locator length (`TableFile.LongLineIsCut`), so reading it through an index
always takes the fallback by row ids; the rows returned are the same.

## Model

| member | source | states |
|---|---|---|
| Decimal.IntRoundTrip | src/engine.rs:1655-1663 | every i64 is read back from its decimal form |
| ValueKeys.ValueKeyInjective | src/storage.rs:1046-1048 | two values with the same JSON key are the same value |
| TableFile.ReadLocated | src/storage.rs:747-785 | the reading loop computes the scan: rows in order, offsets as prefix sums, blank lines skipped, the first bad line an error |
| TableFile.ScanOfWritten | src/storage.rs:747-785 | scanning a file of encrypted lines gives every row back, in order, at the offsets of its line |
| TableFile.TidyAppend | src/storage.rs:643-658 | appending a line keeps the file well-formed and adds exactly its row, located at the old file size |
| TableFile.WriteRows | src/storage.rs:835-852 | the rewriting loop produces a well-formed file whose scan is the rows written |
| TableFile.ReadRowsAt | src/storage.rs:710-737 | seeking to each locator reads that line's row, or fails when a locator does not hit a line |
| TableFile.LocatorReadsItsRow | src/storage.rs:710-737 | the locator the scan produced for a line reads back that row and id exactly when the line is under 2^32 bytes, however long the file |
| TableFile.LocatorNeverMisreads | src/storage.rs:710-737 | a locator reads its own row or fails, it never reads another |
| TableFile.LongLineIsCut | src/storage.rs:755-776 | for a longer line the truncated length does not decrypt |
| IndexMaps.AppendRefinesRebuild | src/storage.rs:659-674 | pushing one locator onto the index of the old rows gives the index rebuilt from all rows |
| IndexMaps.Rebuild | src/storage.rs:890-914 | the rebuild loop maps each value key to the locators of its rows, in file order |
| IndexMaps.FallbackReadsBucket | src/storage.rs:697-707 | the read by row ids used when a locator fails returns the same rows in the same order, when ids increase |
| IndexMaps.BucketReadsItsRows | src/storage.rs:687-708 | reading a bucket of the index, by offset or by fallback, gives exactly the rows holding the value, in file order |
| IndexMaps.ReadThrough | src/storage.rs:687-708 | the read goes by offset and falls back to ids when a locator is stale |
| StorageState.EveryBoundaryIsDurable | src/storage.rs:31-83 | the directory left at any statement boundary can be opened, stands for the current database, and a marker vouches for clean indexes |
| StorageState.EmptyDirectoryIsDurable | src/storage.rs:31-72 | an empty directory can be opened and is the empty database |
| StorageEngine.Storage.constructor | src/storage.rs:31-72 | opening any such directory, with or without the marker, gives a valid engine on its database and discards a leftover snapshot |
| StorageEngine.Storage.RebuildAllIndexes | src/storage.rs:85-97 | afterwards every index equals a rebuild from its table |
| StorageEngine.Storage.FlushIndexes | src/storage.rs:74-83 | afterwards nothing is dirty, the marker exists and every index file equals its map, with nothing else changed |
| StorageEngine.Storage.BeginTransaction | src/storage.rs:167-198 | the snapshot holds catalogs, indexes and the bytes of every table as they are; a second BEGIN fails and changes nothing |
| StorageEngine.Storage.CommitTransaction | src/storage.rs:200-209 | the database stays, the saved one is gone; without a transaction it fails |
| StorageEngine.Storage.RollbackTransaction | src/storage.rs:211-263 | catalogs, index maps and table bytes are those of the snapshot, and the engine is valid again |
| StorageEngine.Storage.ReadStoredRowsLocated | src/storage.rs:747-785 | the rows of the file, or TableNotFound |
| StorageEngine.Storage.ReadRows | src/storage.rs:679-685 | the rows of the logical table |
| StorageEngine.Storage.GetSchema | src/storage.rs:599-605 | the columns of the logical table, which are distinct |
| StorageEngine.Storage.FindIndexedLocators | src/storage.rs:416-437 | Some exactly for an indexed column, with the locators of the rows holding the value |
| StorageEngine.Storage.ReadRowsFiltered | src/storage.rs:687-708 | without locators all rows; with those of a bucket exactly its rows in file order |
| StorageEngine.Storage.UniqueValueExists | src/storage.rs:103-132 | from the cache or by filling it, the answer is that of a full scan, and NULL never exists |
| StorageEngine.Storage.WriteIndexMap | src/storage.rs:932-947 | the map changes, is dirty, and the marker goes |
| StorageEngine.Storage.RebuildIndex | src/storage.rs:890-914 | the named index equals a rebuild and its key count is returned, nothing else waits or changes; an unknown name is InvalidSchema |
| StorageEngine.Storage.RebuildIndexesForTable | src/storage.rs:876-888 | every index of the table equals a rebuild |
| StorageEngine.Storage.RewriteRows | src/storage.rs:787-833 | rows mapped, dropped or the whole rewrite rejected; a rejection leaves catalogs, index maps and the bytes of every table as they were |
| StorageEngine.Storage.WriteStoredRows | src/storage.rs:835-852 | the table holds the given rows, with indexes rebuilt and caches dropped; a missing table is TableNotFound |
| StorageEngine.Storage.AllocateRowId | src/storage.rs:607-631 | the id is above every stored one and below the persisted bound, which grows by at most one batch |
| StorageEngine.Storage.ReserveBatch | src/storage.rs:615-631 | a batch is reserved in the saved catalog before an id of it is used |
| StorageEngine.Storage.AppendRow | src/storage.rs:633-677 | the table gains the row, and indexes, caches and ids stay coherent without a rebuild |
| StorageEngine.Storage.PushLocators | src/storage.rs:659-674 | after the loop every index of the table equals a rebuild over the longer file |
| StorageEngine.Storage.CreateTable | src/storage.rs:265-296 | an empty table and a migration record, or TableExists |
| StorageEngine.Storage.DropTable | src/storage.rs:298-335 | table, file, cursor, caches, indexes and their files go together, with a migration record |
| StorageEngine.Storage.CreateIndex | src/storage.rs:337-384 | a coherent index, or the error for a missing table or column, a taken name or an indexed column |
| StorageEngine.Storage.DropIndex | src/storage.rs:386-414 | definition, map and file go together |
| StorageEngine.Storage.AddColumn | src/storage.rs:439-479 | every row takes the default, indexes are rebuilt |
| StorageEngine.Storage.DropColumn | src/storage.rs:481-538 | every row loses the value, the column's index goes, the last column cannot go |
| StorageEngine.Storage.RenameColumn | src/storage.rs:540-589 | every row moves the value and the index follows the column |
| TransactionSteps.RolledBackInv | src/storage.rs:211-263 | restoring a snapshot and loading its indexes keeps the invariant and brings its checkpoint back |
| Like.MatchesMeansSplit | src/engine.rs:1580-1605 | the recursive matcher holds exactly when the input splits into one piece per pattern character: % any, _ one, others themselves |
| Like.LikeMatches | src/engine.rs:1580-1605 | each entry of the table says whether a pattern prefix matches an input prefix, and the last one decides |
| Filters.CoerceGivesType | src/engine.rs:1650-1683 | a coerced value has the column's type, is NULL only from NULL, and a value of the type stays itself |
| Filters.CoerceAll | src/engine.rs:1491-1494 | succeeds exactly when each value coerces, value by value |
| Coercions.CoerceReads | src/engine.rs:1650-1683 | coercion gives exactly the value the column reads, by positional value of numerals, canonical printing and words in any case, and TypeMismatch exactly when there is none |
| Coercions.BackFromText | src/engine.rs:1650-1683 | an integer or truth value read as text is read back from it |
| Comparisons.EvaluateCompares | src/engine.rs:1556-1578 | each operator holds exactly when the row's value stands in its relation to the constant, in this order; LIKE by a split of the value along the constant |
| Comparisons.IntegersCompare | src/engine.rs:1556-1578 | on integers each operator is that of the integers |
| Comparisons.UnorderedIsFalse | src/engine.rs:1571-1578 | an order test on NULL or between two types holds of no row |
| Comparisons.OrderIsTotal | src/engine.rs:1571-1578 | integers by size, texts by a common prefix, false before true: a strict order, total on each type |
| Filters.CandidateIsNecessary | src/engine.rs:1631-1648 | a row the filter accepts satisfies each equality test of its AND-spine, `= NULL` included |
| Filters.BucketThenFilter | src/engine.rs:571-592 | filtering an index bucket gives the same row sequence as filtering the table |
| IndexChoice.BestBucketThenFilter | src/engine.rs:1607-1629 | so does the smallest bucket of all indexed candidates |
| Aggregates.ComputeAggregate | src/engine.rs:1248-1341 | the accumulating loops compute count, wrapping sum, truncated average, and first extreme, with their errors |
| AggregateMeaning.CountMeans | src/engine.rs:1250-1259 | COUNT counts the rows, or the rows with a value in the column |
| AggregateMeaning.SumMeans | src/engine.rs:1260-1277 | SUM is the last running total, wrapped, and fails exactly on a text or truth value |
| AggregateMeaning.AvgMeans | src/engine.rs:1278-1303 | AVG is that total over the number of values, truncated toward zero, and NULL without values |
| AggregateMeaning.MinMaxMean | src/engine.rs:1304-1339 | on a typed column MIN is in the column and no value comes before it, MAX likewise after it, NULL exactly when there is no value |
| AggregateMeaning.IntegerBounds | src/engine.rs:1304-1339 | on integers MIN is at most and MAX at least every value |
| Aggregates.AverageTruncates | src/engine.rs:1278-1303 | AVG is the sum over the count truncated toward zero while both fit an i64 |
| Aggregates.ExtremeIsAttainedBound | src/engine.rs:1304-1339 | on a column of one type MIN and MAX are attained bounds, NULL exactly when all values are |
| Grouping.BuildGroups | src/engine.rs:1138-1150 | the hash loop lists keys in first-occurrence order and puts each row, in order, in its group |
| Grouping.GroupsPartition | src/engine.rs:1138-1150 | every row is in the group of exactly one listed key |
| Grouping.ListedGroupsHaveRows | src/engine.rs:1138-1150 | a key is listed exactly when its group has rows |
| Grouping.KeysInOrder | src/engine.rs:1138-1150 | the keys are listed in the order of the first rows that have them |
| Grouping.SameGroup | src/engine.rs:1142-1149 | rows share a group exactly when they agree on every grouping column |
| Grouping.GroupKeepsOrder | src/engine.rs:1138-1150 | a group is the rows at one increasing sequence of positions, exactly those with its key |
| Grouping.GroupedSumsAddUp | src/engine.rs:1260-1277 | SUM of every group is the wrapped group sum, and the group sums and sizes add up to the ungrouped SUM and COUNT |
| GroupedOutput.GroupedAnswers | src/engine.rs:1165-1193 | without HAVING the output is one row per key, in first-occurrence order, each cell the value of its group |
| GroupedOutput.HavingReads | src/engine.rs:1165-1224 | HAVING reads each aggregate it compares as that of the group, and every other name from the group's first row |
| GroupedOutput.HavingAnswers | src/engine.rs:1165-1193 | with HAVING the output is one row per key whose group satisfies it, and no other, in first-occurrence order |
| GroupedOutput.OutputCountsAddUp | src/engine.rs:1165-1193 | the COUNT(*) column of the output adds up to the number of rows |
| GroupedOutput.OutputSumsAddUp | src/engine.rs:1165-1193 | the SUM column of the output adds up to the ungrouped SUM while the magnitudes sum to an i64 |
| GroupedOutput.PartialSumsFit | src/engine.rs:1260-1303 | under that bound no partial sum, over all rows or within a group, leaves the i64 range |
| Joins.BuildBuckets | src/engine.rs:530-535 | each bucket holds the right rows with its key, in order |
| Joins.HashJoin | src/engine.rs:530-561 | the hash join yields the nested loops' rows in their order, NULL equal to NULL |
| Joins.JoinMembers | src/engine.rs:545-560 | a row is in the join exactly when it merges two rows that agree on the join columns |
| Joins.LeftSurvivesIffKept | src/engine.rs:545-560 | a left column survives every merge of a clause, whatever the rows, exactly when no right column takes its name or the join condition makes it bring the same value |
| Joins.OnlyPrefixedNamesCollide | src/engine.rs:510-528 | a collision needs a prefixed name |
| Joins.FirstTableSurvives | src/engine.rs:488-563 | every row of a chain of joins holds one first-table row under each name that every clause keeps |
| JoinMeaning.LookupUnmoved | src/engine.rs:519-543 | merging the right names first leaves the left lookup alone exactly when the left side does not name the joined table, or that table brings no other name for the column |
| JoinMeaning.MergedPairShows | src/engine.rs:545-560 | a merged pair shows the right row, and all rows before it, under the names the name map gives their columns |
| JoinMeaning.JoinsMeanTuples | src/engine.rs:488-563 | a faithful chain of joins yields, in order, the tuples of rows that agree on the columns the clauses name, each column under its merged name |
| JoinMeaning.DistinctChainIsFaithful | src/engine.rs:488-563 | a chain is faithful when each clause joins a new table on a known column and the merged columns stay distinct |
| JoinMeaning.QueryMeansTuples | src/engine.rs:488-563 | from one table, with columns that stay distinct, the joined rows are exactly those tuples |
| JoinMeaning.NamesChosen | src/engine.rs:510-528 | a right column keeps name, type and constraints, prefixed with its table exactly when a column before it has the name |
| Witnesses.SelfJoinReadsWrongSide | src/engine.rs:519-543 | a self-join on a conforming database answers pairs that do not agree on the columns it names |
| Witnesses.JoinLosesColumn | src/engine.rs:510-561 | a query on a conforming database answers the right value under a left column name |
| Queries.ResolvingPreservesMeaning | src/engine.rs:657-719 | resolving subqueries of any nesting and preparing leaves none, and accepts a row exactly when the original filter does |
| Answers.AcceptsCompares | src/engine.rs:1422-1513 | a comparison in a statement accepts a row whose value stands in the relation to the constant, as the first column of that name reads it |
| Answers.AcceptsSubquery | src/engine.rs:657-719 | IN (SELECT ..) accepts a row exactly when its value is not NULL, the subquery runs and gives one column, and some row of it reads as the value (or, negated, none) |
| Answers.QueryAnswers | src/engine.rs:571-655 | the projection sees exactly the selected rows of the FROM clause, in order; OFFSET and LIMIT cut what it gives |
| Answers.WindowSelects | src/engine.rs:644-649 | row i of the answer is row offset + i, as many as there are up to the limit |
| Answers.PlainAnswers | src/engine.rs:601-655 | without grouping and aggregates: one row per selected row, cell k its value in column k, the columns those the expressions stand for, * for all |
| Answers.StarAnswers | src/engine.rs:1352-1378 | SELECT * answers the table's columns in order |
| Answers.AggregateAnswers | src/engine.rs:721-772 | an ungrouped aggregate query answers one row, cell k the aggregate k of the selected rows or a column of the first |
| Answers.GroupAnswers | src/engine.rs:1093-1196 | a grouped query answers one row per group HAVING accepts, under the titles of its expressions |
| Answers.QueryIsWide | src/engine.rs:601-655 | every row has a cell for every title |
| Answers.TitleNames | src/engine.rs:1226-1246 | the title of an aggregate, used in HAVING, names that aggregate |
| QueryAcceptance.QueryAnsweredIff | src/engine.rs:477-655 | a query is answered exactly when its tables are known, its filter fits, and its select list, GROUP BY and HAVING fit the selected rows |
| Executor.ComputeGroupBy | src/engine.rs:1093-1196 | the hashed grouping with HAVING gives the rows of the group-by semantics |
| Executor.BuildNewRow | src/engine.rs:346-385 | the loops build the row of the semantics, or fail with the first error |
| Executor.CheckAssignments | src/engine.rs:1381-1420 | assignments are non-empty, distinct, known and coerced |
| Executor.NoRepetition | src/engine.rs:1058-1081 | the hash set of keys finds a repeated non-NULL value exactly when there is one |
| Executor.CheckUniqueForUpdate | src/engine.rs:1036-1083 | accepts exactly the updates after which every assigned unique column has distinct non-NULL values |
| Executor.CheckColumns | src/engine.rs:150-194 | accepts exactly non-empty, distinct columns with at most one primary key |
| ExecutionEngine.Engine.FindBestIndexCandidate | src/engine.rs:1607-1629 | the bucket of some indexed candidate, no longer than that of any other; None exactly when none is indexed |
| ExecutionEngine.Engine.CandidateRows | src/engine.rs:571-582 | the rows read through an index filter to the same sequence as the table |
| ExecutionEngine.Engine.JoinTables | src/engine.rs:489-570 | the chained hash joins are the fold of nested loops over the left column the code looks up |
| ExecutionEngine.Engine.Select | src/engine.rs:477-655 | a SELECT answers what scan, nested loops and filter answer |
| ExecutionEngine.Engine.ResolveSubqueries | src/engine.rs:657-719 | terminates on any nesting and gives the value lists of the semantics |
| ExecutionEngine.Engine.ReferencingColumns | src/engine.rs:931-950 | lists exactly the columns that reference the table |
| ExecutionEngine.Engine.CheckForeignKeysRow | src/engine.rs:903-929 | accepts exactly rows whose non-NULL references have parents |
| ExecutionEngine.Engine.CheckConstraintsForInsert | src/engine.rs:992-1034 | accepts exactly rows that break no NOT NULL, UNIQUE or PRIMARY KEY |
| ExecutionEngine.Engine.CheckReferencingChildrenOnUpdate | src/engine.rs:952-988 | rejects exactly updates that take a value some child holds from a matching row |
| ExecutionEngine.Engine.CheckReferencingChildrenOnDelete | src/engine.rs:785-817 | rejects exactly deletes of the last row with a value some child holds |
| ExecutionEngine.Engine.CreateTable | src/engine.rs:145-246 | the table is created exactly when the schema is sound |
| ExecutionEngine.Engine.DropTable | src/engine.rs:248-260 | refused exactly when another table references it |
| ExecutionEngine.Engine.AddColumn | src/engine.rs:279-315 | the coerced default is backfilled |
| ExecutionEngine.Engine.Insert | src/engine.rs:340-392 | the row is checked, then stored; a rejection leaves catalogs, index maps and table bytes as they were |
| ExecutionEngine.Engine.Update | src/engine.rs:394-474 | all checks, then the rewrite; any rejection, a NULL violation midway included, leaves catalogs, index maps and table bytes as they were |
| ExecutionEngine.Engine.Delete | src/engine.rs:774-829 | the matching rows go, and are counted, unless a child would be left; then catalogs, index maps and table bytes are as they were |
| ExecutionEngine.Engine.Execute | src/engine.rs:74-128 | every statement leaves the session and gives the answer of the semantics; a rejected one leaves catalogs, index maps and table bytes as they were |
| ExecutionEngine.Engine.ExecuteScript | src/engine.rs:42-47 | statements in order up to the first rejected one; from a session with its keys, its references or both, a run of statements safe for them keeps them |
| ExecutionEngine.Engine.BeginThenRollback | src/storage.rs:167-263 | BEGIN, any statements, ROLLBACK: catalogs, index maps and the bytes of every table are as before |
| ExecutionEngine.Engine.Reopen | src/storage.rs:31-72 | reopening between statements gives the same database |
| Effects.InsertStores | src/engine.rs:340-392 | INSERT adds one row at the end of its table, each named column holding the last value given for it as the column reads it, all others NULL; nothing else changes |
| Effects.UpdateReassigns | src/engine.rs:394-474 | UPDATE changes the assigned columns of the selected rows, in place, leaves all else, and answers how many it selected |
| Effects.DeleteRemoves | src/engine.rs:774-829 | DELETE keeps exactly the rows not selected, in order, leaves all else, and answers how many it removed |
| Effects.CreateTableMakes | src/engine.rs:145-246 | an empty table with these columns, one migration, nothing else |
| Effects.DropTableRemoves | src/storage.rs:298-335 | the table and exactly its indexes go |
| Effects.CreateIndexAdds | src/storage.rs:337-384 | one definition more, every table as it was |
| Effects.DropIndexRemoves | src/storage.rs:386-414 | exactly the definition of that name goes |
| Effects.AddColumnBackfills | src/engine.rs:279-315 | the column comes last and every row holds its default, as the column reads it |
| Effects.DropColumnRemoves | src/storage.rs:481-538 | the column, exactly its index, and its value in every row go |
| Effects.RenameColumnMoves | src/storage.rs:540-589 | the column and its index have the new name, and every value moves to it |
| Effects.TransactionControl | src/storage.rs:167-263 | BEGIN needs no open transaction, COMMIT and ROLLBACK need one and close it |
| Acceptance.FitsIff | src/engine.rs:1422-1513 | a filter is accepted exactly when its columns are known, its constants readable and its subqueries run and fit |
| Acceptance.AnsweredIff | src/engine.rs:74-128 | on a conforming database every statement that changes data goes through exactly when names, values and constraints allow it |
| Rejections.RejectedWith | src/engine.rs:145-474 | otherwise the first thing wrong with it, in the order of the checks, is the error |
| Conformance.BuiltRowHolds | src/engine.rs:346-385 | the new row holds each value, coerced, in the column it was given for (the last one for a repeated name), and NULL elsewhere |
| Conformance.BuiltRowConforms | src/engine.rs:346-385 | the new row has exactly the schema's columns, each typed |
| Database.KeptDefsSound | src/storage.rs:481-538 | index definitions stay sound when some go with their tables or columns |
| Database.RenamedDefsSound | src/storage.rs:540-589 | and when a column is renamed to a free name |
| Conformance.ChangeConforms | src/engine.rs:145-474 | every accepted statement keeps rows typed and keyed by their schema, and index definitions distinct and existing |
| Conformance.UpdateRewrites | src/engine.rs:447-471 | the rewrite fails exactly when a matching row would get a forbidden NULL |
| Conformance.DeleteRewrites | src/engine.rs:819-827 | the rewrite keeps exactly the other rows, in order |
| Conformance.RunsConform | src/engine.rs:74-128 | conformance holds after any run, ALTERs, transactions and rejections included |
| KeyConstraints.ChangeKeepsKeys | src/engine.rs:992-1083 | an accepted statement keeps PRIMARY KEY, UNIQUE and NOT NULL exactly when its guard holds; only ADD COLUMN has one |
| KeyConstraints.UpdatesGive | src/engine.rs:447-471 | after an update each column holds the value its checks looked at |
| KeyConstraints.UpdatedColumnHolds | src/engine.rs:1036-1083 | the update checks suffice, assigned or not, column by column |
| KeyConstraints.AddedKeys | src/storage.rs:439-479 | a backfill keeps the constraints exactly when its value fits the number of rows |
| KeyConstraints.UncheckedBackfill | src/engine.rs:279-315 | a backfill that breaks UNIQUE is accepted |
| Witnesses.AddNullColumn | src/engine.rs:279-315 | a NOT NULL column backfilled with NULL is accepted |
| ForeignKeys.ChangeKeepsReferences | src/engine.rs:774-988 | an accepted statement keeps every foreign key exactly when its guard holds |
| ForeignKeys.UpdateReferences | src/engine.rs:411-437 | for UPDATE, exactly when a self-reference assigned with its target keeps a parent |
| ForeignKeys.DeleteKeepsReferences | src/engine.rs:785-827 | DELETE always keeps foreign keys |
| ForeignKeys.InsertKeepsReferences | src/engine.rs:387-390 | INSERT always keeps foreign keys |
| ForeignKeys.DropColumnReferences | src/storage.rs:481-538 | DROP COLUMN keeps them exactly when no other reference to it has a value |
| ForeignKeys.RenameColumnReferences | src/storage.rs:540-589 | RENAME COLUMN keeps them exactly when no reference to it has a value |
| ForeignKeys.AddColumnReferences | src/engine.rs:279-315 | ADD COLUMN keeps them exactly when the backfilled value has its parents |
| ForeignKeys.SelfReferencingUpdate | src/engine.rs:411-437 | an accepted update that leaves a child without its parent |
| Witnesses.AddOrphanColumn | src/engine.rs:279-315 | a REFERENCES column backfilled with a value without parent is accepted |
| Witnesses.DropReferencedColumn | src/storage.rs:481-538 | dropping a column a child refers to is accepted |
| Witnesses.RenameReferencedColumn | src/storage.rs:540-589 | renaming a column a child refers to is accepted |
| ForeignKeys.RenamedValues | src/storage.rs:540-589 | a renamed column's values are under the new name only, all others untouched |
| Runs.StepConsistent | src/engine.rs:74-128 | from a consistent session a statement leads to a consistent one exactly when it is safe |
| Runs.KeysHoldIffSafe | src/engine.rs:992-1083 | UNIQUE, PRIMARY KEY and NOT NULL hold in every state of a run exactly when each accepted ADD COLUMN fits its rows, whatever foreign keys do |
| Runs.KeysHoldWithoutAddColumn | src/engine.rs:992-1083 | without ADD COLUMN no run ever breaks them |
| Runs.ReferencesHoldIffSafe | src/engine.rs:774-988 | foreign keys hold in every state of a run exactly when each accepted statement met its guard, whatever keys do |
| Runs.ReferencesHoldWithoutAlters | README.md:103 | runs without ALTER of columns and with UPDATEs of one column never break them |
| Runs.ConsistentIffSafe | src/engine.rs:74-128 | all constraints hold in every state of a run exactly when each statement was safe where it ran |
| Runs.AlwaysMeansAfterPrefixes | src/engine.rs:42-47 | a property holds in every state of a run exactly when it holds after each of its prefixes |
| Runs.EmptyConsistent | src/storage.rs:31-72 | the empty database is consistent |
| Runs.RejectedChangesNothing | src/engine.rs:49-72 | a rejected statement leaves the session as it was |
| Runs.RollbackRestores | src/storage.rs:167-263 | a rolled-back transaction is as if nothing happened, a committed one as if there had been no transaction |
| Scanner.FindKeyword | src/parser.rs:1136-1193 | skipping doubled quotes finds the same first keyword as toggling at every quote |
| Scanner.RestartIsContinuous | src/parser.rs:1071-1084 | searching again after a hit with a fresh state finds what one continuous pass finds |
| Scanner.SplitByKeyword | src/parser.rs:1071-1097 | the restarted splits are those of one continuous pass |
| Scanner.SplitAware | src/parser.rs:1002-1069 | pieces between free delimiters, trimmed, empty ones dropped, an open quote an error |
| Scanner.FindComparisonOperator | src/parser.rs:905-965 | the first operator outside quotes, two-character ones first |
| ParserMeaning.FindMeans | src/parser.rs:1136-1193 | the search finds the first place where the keyword stands, in any case, between separators, outside quotes and parentheses |
| ParserMeaning.OperatorMeans | src/parser.rs:905-965 | the operator found is the first one outside quotes, read as it is written |
| Words.FindAmongWords | src/parser.rs:1136-1193 | on texts made of words the character search finds the first word where the keywords stand |
| Words.SplitChunks | src/parser.rs:1071-1097 | splitting joined chunks of words at their separator gives the chunks back |
| Literals.LiteralRoundTrip | src/parser.rs:967-992 | every value is read back from its printed form |
| ParserMeaning.LiteralMeans | src/parser.rs:967-992 | a literal is accepted exactly with the value its token denotes |
| ParserMeaning.IdentifierMeans | src/parser.rs:1220-1238 | a token names a column as it is between double quotes, in small letters when bare |
| Literals.ListRoundTrip | src/parser.rs:396-404 | every list is, whatever quotes, commas, semicolons or parentheses its texts hold |
| Where.ParseAndExpr | src/parser.rs:792-806 | the loop nests AND to the left |
| Where.ParseOrExpr | src/parser.rs:776-790 | and OR around it |
| WhereRoundTrip.AndRoundTrip | src/parser.rs:792-806 | an AND chain is read back |
| WhereRoundTrip.FilterRoundTrip | src/parser.rs:766-903 | an OR of ANDs of leaves is read back as the same tree exactly when it is sliceable; otherwise its first slip decides between a panic and a rejection |
| WhereRoundTrip.SlicedCharacter | src/parser.rs:1208-1218 | `x IN ('ééé')` panics |
| WhereRoundTrip.WideNames | src/parser.rs:899-901 | `"é" = 1` is rejected and `"ééé" = 1` panics |
| SoundCodec.SoundCodecExists | src/security.rs:229-258 | some line format meets what is assumed of encryption |

## Left out

- ExecutionEngine.Engine.Select: no ORDER BY; its comparator treats NULL as equal to everything and is no order.
- ExecutionEngine.Engine.Execute: no SHOW, DESCRIBE, role checks or audit log, each settled by reading one match.
- JoinMeaning.QueryMeansTuples: a table joined twice has no name of its own for its second rows, and a left side that names no known column has no column to mean; for these only the nested loops over the code's own lookup are stated.
- Rejections.RejectedWith: does not say which error a filter with a subquery, or a query, is rejected with.
- AggregateMeaning.MinMaxMean: a joined column of mixed types, which only an overwritten name can have, is not covered.
- Users, command line and benchmarks.
- Cryptography, base64 and JSON files beyond `Sound` and the injectivity of value keys.
- I/O failures, fsync, and crashes inside a statement: file operations succeed, and reopening is stated between statements.
- StorageEngine.Storage.constructor: requires a directory a valid engine could have left; corrupt files, which `open` meets with errors or defaults, are not modelled.
- StorageEngine.Storage.CreateTable: takes distinct column names for granted, as the storage engine does; the executor checks them.
- SoundCodec.SoundCodecExists: its line format is not the cipher; that XChaCha20-Poly1305 meets the assumption is not proved.
- Error messages, migration texts and timestamps, and the key count in the answer of CREATE INDEX (its storage method states it).
- File-name collisions from quoted identifiers: files are keyed by table or index name, temporary files apart.
- Row ids and migration numbers are naturals; wrapping at 2^64 is not modelled.
- Overflow of SUM and AVG wraps as in a release build; a debug build panics.
- The order of `list_tables`: names come in any order, which can only change which of several equal errors is met first.
- StorageEngine.Storage.RewriteRows: the mapper is a pure function, and the file is read before it is mapped where the source streams, so the temporary file of a failed rewrite is written in one piece.
- StorageEngine.Storage.DropTable: the loops that remove the table's indexes are one set subtraction.
- StorageEngine.Storage.RemoveIndexOn: the loop over the at most one index of a dropped column is one set subtraction.
- ExecutionEngine.Engine.Update: the counter captured by the rewriting closure is the number of matching rows.
- The rest of the statement grammar: clause slicing of CREATE, ALTER, INSERT, UPDATE, SELECT and HAVING; a SELECT inside IN is a parameter of the filter parser.
- Text is characters, not UTF-8 bytes: byte offsets are modelled where the parser slices at an offset that is not a character position it found itself (the IN prefix and the comparison operator).
- WhereRoundTrip.FilterRoundTrip: names with a double quote have no printed form; subqueries are not printed.

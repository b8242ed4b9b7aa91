# dqex: a verified model

dqex is a database workbench. This project models its self-contained algorithms in Dafny and proves what they
promise. Each module models one component; the imperative parts are methods and classes proved against
specification functions, and the properties are lemmas about these functions or about whole runs.

| module | what it models |
|---|---|
| `ThinkTags` | removing `<think>` blocks from a stream of chunks and, by rescanning, from a whole answer |
| `SqlScan` | the quote- and bracket-aware scanner of SQL text, against a character-by-character automaton |
| `InList` | printing primary keys into an `IN` list |
| `ColumnDdl` | column definitions in CREATE TABLE text |
| `PgColumns`, `ByteOffsets`, `PgStatements` | the rollback of a PostgreSQL column change, cut at byte offsets of the upper-cased text, and what its statements do |
| `DataPackages` | loading a data package and merging entries into it |
| `Rollback`, `PackageEffect`, `RollbackTheorem` | applying a data package, what it leaves in the database, and when replaying the collected rollback restores it |
| `ComparePairs`, `BuildPairs` | pairing the tables of two databases by aliases and names |
| `RowDiff`, `KeyDiff`, `KeyedRows` | comparing two tables row by row, and by primary key |
| `Decimal` | the canonical form of numeric values |
| `AiTrim`, `AiTrimShape`, `Leaving` | trimming an AI session's history |
| `AiChat`, `AiChatRuns`, `AiChatCauses` | chat calls with idempotent retry, one by one and in whole runs |
| `TaskRunner`, `TaskRunnerRuns`, `TaskPublish` | progress of a task through bounded queues, with receives in between and without |
| `SnapshotIndex` | the one-time migration of the snapshot index by any number of instances |
| `AuthLimiters` | limiting failed logins by source address |
| `NameAllocators` | unique sheet names and defined names for the dictionary workbook |
| `GoStrings`, `Sequences` | the parts of Go's `strings`, `unicode` and `strconv`, and the facts on sequences, that the others use |

## Main results

- **Stripping is independent of chunking.** For every text and every cut into chunks, what the streaming state machine
  passes on is the one-pass strip of the whole text. The rescanning form never leaves an open tag, and the two agree
  exactly when the streamed text has no open tag; a text on which they differ is given.
- **Applying.** After a run that succeeds, a row stands under a key if and only if it is the last row of the package with
  this key and no later entry deletes it, or it stood there before and no entry deletes or writes the key. The tables are
  those from before and those that entries create. A run succeeds if and only if every upsert with rows finds its table.
- **Rollback.** Replaying the collected rollback restores every database the package applies to if and only if, for every
  key of every table, the first entry that touches the key claims it in its IN list and no later entry claims it; of
  databases whose rows stand under their own keys, only keys that some row has matter. Under the same condition the
  rollback also restores the database from whatever part of a run, complete or failed, was committed, and does no harm to
  one whose transaction was undone. A package built by `Add` rolls back if and only if every row to be upserted has its key
  columns: for a missing one a placeholder is printed, so that the row is written and never removed. This last result
  assumes (`Faithful`) that a row with its key columns has the key its printed tuple reads as, that equal program keys are
  equal database keys, and that the database gives a row without them a key that no tuple printed for the entry reads as.
- **Scanning undoes printing.** `IN` lists are read back exactly. So are CREATE TABLE column areas, if and only if no column
  has a name whose upper case is a table-level keyword; a quoted one, such as `"key"`, is dropped as well. So are PostgreSQL
  columns, if and only if the name holds no quote, the text behind it, be it the default, does not spell GENERATED or
  IDENTITY, and the type is as many bytes long in upper case (without a default this is asked only for NOT NULL, and one byte
  less does no harm). A name with a quote is taken for another column (`a"b` for `a`), and a type that is one byte shorter in
  upper case, as with a dotless i, gets `T` put in front of its default. Where the column is recovered, executing the
  statements that are read back from the built text makes any column of this name the one that was printed.
- **Comparison.** Two tables are paired if and only if an alias is for both, or they have one name up to case and no alias
  is for either; a table is alone if and only if it belongs to none, and there is no other pair. A configuration is refused
  if and only if two of its aliases are for one table. The pairs hold every table once if and only if no two tables of one side
  have names that differ in case only; of those that do, only the last is paired. The verdict of the row comparison on a table is
  right, whatever rows it is compared with, if and only if no row has the key of one of its rows without having its values.
  It is enough that in none of its rows a value holds the delimiter in front of it or behind it; over lists of arbitrary
  texts, rather than of values that rows are normalised to, this is also necessary, and rows that are mistaken are given.
  The comparison by key compares the first row of each normalised key, and its verdict is right, whatever table with
  distinct keys it is compared with, if and only if the table's own normalised keys are distinct; the text keys 01 and 1 are
  one.
- **Decimals.** The canonical form keeps the value, is idempotent, and is the same for two texts exactly when they denote
  one number. Text values are compared as equal exactly when they are equal or, trimmed, spell one time or one number, or
  one is the text that the other's time is printed as.
- **AI sessions.** A request that is asked is replied to if and only if the outcome is a valid answer, not blank. Every run
  from a fresh session keeps the history alternating with at most one dangling request, and every message in it is the
  system prompt, the request of a call, or the valid answer of a call to the message before it. At any later time a retry
  replays the answer if and only if trimming has left the turn in the history; otherwise nothing of the turn is left and the
  request is asked anew. Trimming terminates, keeps the system message and the current round, and meets both limits or leaves
  no old round. Its character stage leaves out rounds one by one, the oldest of those without SQL first, while the contents
  are too long; its count stage the oldest rounds, no more than it takes. A history is left alone if and only if it is within
  both limits or has no old round.
- **Progress queues.** In every interleaving the second send finds room, queues are contiguous suffixes, nothing is
  unaccounted for, and the terminal event is the last one.
- **Migration.** A set marker means that the index is complete; a deletion stays final exactly when the marker is set
  and no attempt in flight has the entry still before it.
- **Login limiting.** A source is always allowed exactly when it never fails ten times in one window without a pass.
- **Names.** Both allocators stop, with the first free candidate, which is legal and recorded.

## Model

| member | source | states |
|---|---|---|
| `ThinkTags.StripRender` | internal/llm/llm.go:130-210 | the one-pass strip of any tagged text is exactly its visible pieces |
| `ThinkTags.EveryTextIsADoc` | internal/llm/llm.go:130-210 | every text is such a tagged text, so the one-pass strip is fixed everywhere |
| `ThinkTags.TagPrefixLen` | internal/llm/llm.go:138-149 | the loop finds the kept length that `KeepIsLongest` describes |
| `ThinkTags.KeepIsLongest` | internal/llm/llm.go:134-149 | what is held back is the longest suffix that is a prefix of the tag |
| `ThinkTags.ThinkStripper.Feed` | internal/llm/llm.go:160-200 | one call yields the text, mode and buffer of `FeedStep`; the buffer stays a proper prefix of the awaited tag |
| `ThinkTags.ThinkStripper.HoldBack` | internal/llm/llm.go:164-190 | the branch of either state in which the tag is not found: only the undecided end is kept |
| `ThinkTags.ThinkStripper.Flush` | internal/llm/llm.go:203-210 | the rest at the end of the stream is what the one-pass strip shows of the buffer |
| `ThinkTags.FeedStepCorrect` | internal/llm/llm.go:160-200 | whatever text follows, a call loses and invents nothing, and leaves a proper prefix of the awaited tag |
| `ThinkTags.FeedAllCorrect` | internal/llm/llm.go:160-200 | the same for any sequence of chunks |
| `ThinkTags.ChunkingIsIrrelevant` | internal/llm/llm.go:160-210 | outputs plus flush are the one-pass strip of the concatenated chunks |
| `ThinkTags.StripThinkAll` | internal/llm/llm.go:116-128 | the loop removes the first block and starts over until none is left |
| `ThinkTags.RescanLeavesNoTag` | internal/llm/llm.go:111-128 | the rescanning form never returns text with an open tag |
| `ThinkTags.StreamAgreesWithRescan` | internal/llm/llm.go:116-210 | the two forms agree if and only if the streamed text holds no open tag |
| `ThinkTags.SplicedTagSeparatesThem` | internal/llm/llm.go:116-210 | removing a block can splice a new open tag: a text on which the forms differ |
| `ThinkTags.AgentStream` | internal/llm/agent.go:100-144 | the client is sent the one-pass strip whatever the chunks, the history stores the rescanned text, and they are equal exactly when no open tag was sent |
| `ThinkTags.ThinkTagsBracket` | internal/llm/llm.go:130-133 | the tags of the program have the shape that all results on tags rest on: both start with a character that neither holds again, and differ behind it |
| `ThinkTags.StripsThinking` | internal/llm/llm.go:130-210 | the tags of the program are cut out with what stands between them |
| `SqlScan.SkipQuoted` | internal/engine/datapackage.go:610-623 | the index behind the quoted segment, doubled quotes staying inside |
| `SqlScan.JumpIsQuiet` | internal/engine/datapackage.go:610-623 | the jump skips only positions the automaton ignores, and ends outside quotes |
| `SqlScan.MatchBracket` | internal/engine/datapackage.go:524-540 | the first position where the automaton closes the bracket, or -1 |
| `SqlScan.SplitTopLevel` | internal/engine/datapackage.go:543-562 | cuts exactly at the separators the automaton sees outside quotes and brackets |
| `SqlScan.JoinSplit` | internal/engine/datapackage.go:543-562 | splitting loses nothing: the pieces joined are the text |
| `SqlScan.SplitTopJoin` | internal/engine/datapackage.go:543-562 | pieces without a top-level separator survive joining and splitting |
| `SqlScan.BracketMatches` | internal/engine/datapackage.go:524-540 | a bracket opened in front of balanced text is closed right behind it |
| `InList.LiteralReadsBack` | internal/engine/datapackage.go:329-337 | un-doubling the body of a literal gives the value back, for every value and either dialect |
| `InList.SkipLandsBehindLiteral` | internal/engine/datapackage.go:332-337 | the scanner lands exactly behind a printed literal |
| `InList.LiteralSealed` | internal/engine/datapackage.go:332-337 | a literal is one piece to the scanner, whatever the value holds |
| `InList.QuotedSealed` | internal/engine/datapackage.go:610-623 | text in quotes of any of the three kinds, with those inside doubled, is one piece to the scanner |
| `InList.UnclosedRunsOn` | internal/engine/datapackage.go:610-623 | quoted text whose last quote is missing runs on to the end |
| `InList.QuoteInList` | internal/engine/datapackage.go:341-351 | the loops print one bracketed tuple per key, one literal per column |
| `InList.ListSplits` | internal/engine/datapackage.go:341-351 | splitting the list gives one part per key |
| `InList.TupleSplits` | internal/engine/datapackage.go:341-351 | splitting inside a part gives one literal per column |
| `InList.InListRoundTrip` | internal/engine/datapackage.go:332-351 | printing and reading an IN list give back all keys |
| `InList.InListInjective` | internal/engine/datapackage.go:332-351 | no two key lists print alike |
| `InList.EmptyListIsOnePart` | internal/engine/datapackage.go:196-198 | the empty list, which the program never prints, would read as one empty part |
| `ColumnDdl.FindKeyword` | internal/engine/datapackage.go:583-596 | the first place of the keyword in the upper-cased text, outside quotes and as a word, or -1 |
| `ColumnDdl.FoundStandsAlone` | internal/engine/datapackage.go:583-607 | a keyword is found only outside quotes, with no letter, digit, underscore or dollar sign on either side |
| `ColumnDdl.StandsAloneIsFound` | internal/engine/datapackage.go:583-607 | and where there is such a place, none behind the first is found |
| `ColumnDdl.SplitDDLColumnDefs` | internal/engine/datapackage.go:491-515 | the trimmed column definitions of the column area, table-level lines left out |
| `ColumnDdl.ColumnAreaRoundTrip` | internal/engine/datapackage.go:491-515 | for any head without bracket and any tail, the printed parts are what is scanned |
| `ColumnDdl.CreateTableRoundTrip` | internal/engine/datapackage.go:491-515 | a printed CREATE TABLE gives back exactly its column definitions, in order, if and only if none starts with a word whose upper case is a table-level keyword |
| `ColumnDdl.TableLevelExactlyWhen` | internal/engine/datapackage.go:517-521 | the twelve words that start a table-level line |
| `ColumnDdl.QuotedKeywordIsDropped` | internal/engine/datapackage.go:509-511 | every quoted column with the name of such a keyword is dropped as a table-level line |
| `ColumnDdl.QuotedKeyIsDropped` | internal/engine/datapackage.go:509-511 | for example the column `"key" text` |
| `ColumnDdl.DotlessIndexIsDropped` | internal/engine/datapackage.go:509-511 | so is a column whose name only becomes such a keyword in upper case |
| `ColumnDdl.ExtractColumnDef` | internal/engine/datapackage.go:468-487 | the first definition whose name matches, quoted or not |
| `ColumnDdl.FindsTheColumn` | internal/engine/datapackage.go:468-487 | the first definition for the column is found, and none only if there is none; names are compared without case, on Oracle after upper-casing both |
| `ColumnDdl.SplitQuotedName` | internal/engine/datapackage.go:570-575 | a name in either kind of quotes is split off without them, whatever else it holds |
| `ColumnDdl.SplitAtQuote` | internal/engine/datapackage.go:570-575 | the name ends at the next quote, whatever follows it |
| `ColumnDdl.SplitPlainName` | internal/engine/datapackage.go:576-580 | a plain name ends at the first blank |
| `ColumnDdl.SplitsNothing` | internal/engine/datapackage.go:564-581 | blank text and an unclosed quote yield nothing, and a word that no blank follows is the whole |
| `PgColumns.BuildPgColumnRollback` | internal/engine/datapackage.go:426-463 | prints the statements for the column read, which `PgStatements.StatementsReadBack` reads back, or nothing; what follows a cut inside a character is left open |
| `PgStatements.StatementsReadBack` | internal/engine/datapackage.go:447-463 | the printed text, split at semicolons outside quotes and brackets, reads as the three changes of this column |
| `PgStatements.RestoringRestores` | internal/engine/datapackage.go:447-463 | executed on a column of this name they make it the one they were printed from, and they leave any other alone |
| `PgStatements.ColumnIsRestored` | internal/engine/datapackage.go:426-463 | where a printed column is recovered, executing what is read from the built text restores its type, nullability and default |
| `PgColumns.PgColumnRoundTrip` | internal/engine/datapackage.go:426-463 | name, type, nullability and default of a printed column are recovered if and only if the name holds no quote, the rest does not spell GENERATED or IDENTITY, and upper-casing shifts no cut; otherwise nothing, or possibly another column |
| `PgColumns.PrintedForm` | internal/engine/datapackage.go:423-425 | the printed form that is read back |
| `PgColumns.RefusedExactlyWhen` | internal/engine/datapackage.go:430-432 | exactly the texts whose upper case holds GENERATED or, behind a blank, IDENTITY are refused |
| `PgColumns.NothingWithoutType` | internal/engine/datapackage.go:441-448 | nothing is built without a name or a type |
| `PgColumns.QuoteNamesAnotherColumn` | internal/engine/datapackage.go:570-575 | the statements for a column `a"b` are those for a column `a` |
| `PgColumns.ShorterTypeIsMiscut` | internal/engine/datapackage.go:436-440 | a type one byte shorter in upper case gets a letter of the keyword put in front of its default |
| `PgColumns.DotlessTypeIsMiscut` | internal/engine/datapackage.go:436-440 | for example a type named by a dotless i: its default 1 is restored as `T 1` |
| `ByteOffsets.WordCutOut` | internal/engine/datapackage.go:436-440 | cutting a word out at an offset gives both texts exactly without a shift; with one byte more or less a letter stays with either, with more the text behind is another |
| `ByteOffsets.HeadExactlyWhen` | internal/engine/datapackage.go:441-444 | cutting in front of a word gives the text before it if and only if the offset is on either side of the blank |
| `DataPackages.MergeKeyInjective` | internal/engine/datapackage.go:82-104 | the composite merge key tells tables and types apart, even with NUL in names |
| `DataPackages.DataPackage.Load` | internal/engine/datapackage.go:57-88 | null entries are dropped in place and the merge index names the first entry of each key |
| `DataPackages.LoadKeepsEntries` | internal/engine/datapackage.go:66-75 | loading keeps the entries that are not null, in order |
| `DataPackages.DataPackage.Add` | internal/engine/datapackage.go:96-114 | merges into the indexed entry or appends one, keeping both indexes |
| `DataPackages.DataPackage.GetTable` | internal/engine/datapackage.go:117-122 | the entry the public index names, nothing if it names none, and a panic on a negative index |
| `DataPackages.LoadedIsIndexed` | internal/engine/datapackage.go:76-86 | a loaded package is indexed |
| `DataPackages.AddedKeepsIndexes` | internal/engine/datapackage.go:90-114 | adding keeps the merge index, and the public index names each table's first entry |
| `DataPackages.AddedKeepsOnePerKey` | internal/engine/datapackage.go:90-114 | adding keeps one entry per table and type if and only if the merge index names an entry for them or there is none |
| `DataPackages.IndexedMeansOnePerKey` | internal/engine/datapackage.go:76-114 | with the index in order, as after loading, adding never makes a second entry |
| `DataPackages.AddedRows` | internal/engine/datapackage.go:104-114 | adding appends the rows of its key and leaves the others alone, where it merges, if at all, into the one entry of the key |
| `DataPackages.AddRun` | internal/engine/datapackage.go:90-114 | after any additions: one entry per table and type, holding all its rows in order |
| `DataPackages.EntriesAreAdded` | internal/engine/datapackage.go:90-114 | every entry of a package built by adding has the key columns and the text of the first addition for its table and type, and every addition has an entry |
| `DataPackages.UnindexedPackageSplits` | internal/engine/datapackage.go:95-110 | a package built without its index repeats the key instead of merging |
| `Rollback.CollectIds` | internal/engine/datapackage.go:185-198 | what the printed tuples of the first row per program key read as, a missing column being printed as the placeholder |
| `PackageEffect.IdsAreDeleted` | internal/engine/datapackage.go:185-198 | the IN list holds a key exactly if the printed tuple of a row that is first with its program key reads as it |
| `PackageEffect.PrintedKeysReadBack` | internal/engine/datapackage.go:310-351 | the printed list reads as the rows' own key values, with the word NULL for a column a row lacks |
| `PackageEffect.PkKeyIsRowKey` | internal/engine/datapackage.go:185-195 | the program key of a row is its key in the comparison, which tells rows apart as stated there |
| `Rollback.Connection.CreateEntry` | internal/engine/datapackage.go:155-177 | creates a missing table and marks it for dropping; leaves one that exists alone |
| `Rollback.Connection.ReadOldRows` | internal/engine/datapackage.go:211-224 | one statement per row held under the keys, putting it back |
| `Rollback.Connection.UpsertEntry` | internal/engine/datapackage.go:179-243 | old rows are collected before they are deleted and the new ones put in; on a missing table it fails with the deletion collected |
| `Rollback.Connection.ApplyDataPackage` | internal/engine/datapackage.go:137-301 | entries in order until one fails, with the collected rollback and the skipped tables; a failure leaves the tables as they were |
| `PackageEffect.HeldExactlyWhen` | internal/engine/datapackage.go:137-243 | after a run that succeeds a row stands under a key if and only if it is the last one with the key and no later entry deletes it, or it stood there and no entry touches the key |
| `PackageEffect.LastRowIsHeld` | internal/engine/datapackage.go:228-242 | the last row of the package with a key stands under it |
| `PackageEffect.DeletedIsGone` | internal/engine/datapackage.go:206-234 | a key that an IN list holds and no row of that or a later entry has is gone |
| `PackageEffect.OthersAreAsBefore` | internal/engine/datapackage.go:137-243 | a key that no entry deletes or writes is as before, and so is every table without an entry |
| `PackageEffect.EveryKeyIsDecided` | internal/engine/datapackage.go:137-243 | one of these three is the case of every key |
| `PackageEffect.TablesAfter` | internal/engine/datapackage.go:155-177 | the tables are those from before and those that entries create |
| `PackageEffect.SucceedsExactlyWhen` | internal/engine/datapackage.go:137-243 | the run succeeds if and only if every upsert with rows finds its table, there before or created by an earlier entry |
| `PackageEffect.SkippedExactly` | internal/engine/datapackage.go:180-184 | exactly the upserts without key columns are reported as skipped, in order |
| `RollbackTheorem.CoveredExactlyWhen` | internal/engine/datapackage.go:185-198 | under the assumption on the keys of the entry's rows and printed tuples, the IN list finds every row written if and only if every row has its key columns |
| `RollbackTheorem.RollbackRestores` | internal/engine/datapackage.go:124-129 | where every key some row has is claimed by the first entry to touch it and by no later one, replaying in collected order restores the database exactly |
| `RollbackTheorem.AnyPartIsUndone` | internal/engine/datapackage.go:296-299 | under the same condition, so it does from whatever part of a run, complete or failed, was committed |
| `RollbackTheorem.FailedRunIsHarmless` | internal/engine/datapackage.go:296-299 | and it changes nothing after a failed run whose transaction was undone |
| `RollbackTheorem.RollbackExactlyWhen` | internal/engine/datapackage.go:127-243 | for any package: all databases are restored if and only if of every key the first entry to touch it claims it and no later entry does |
| `RollbackTheorem.RollbackExactlyWhenKept` | internal/engine/datapackage.go:127-243 | for any package: all databases whose rows stand under their own keys are restored if and only if the same holds of every key that some row has |
| `RollbackTheorem.SpoiledBreaksRollback` | internal/engine/datapackage.go:206-243 | any other key makes the replay fail on empty tables or on a table with one row, which may be any row of this key |
| `RollbackTheorem.NeverDropsExisting` | internal/engine/datapackage.go:156-162 | a table that was there is neither removed nor marked for dropping, even where an entry fails |
| `RollbackTheorem.ClashBreaksRollback` | internal/engine/datapackage.go:206-243 | when two entries claim one key, some database is not restored; if a row has the key, one whose rows stand under their own keys |
| `RollbackTheorem.RollbackExactlyWhenDisjoint` | internal/engine/datapackage.go:127-243 | where the IN lists find all rows: if and only if no two entries of a table claim a common key |
| `RollbackTheorem.UncoveredRowStays` | internal/engine/datapackage.go:185-210 | in any package, a row that no IN list up to its own finds is written and, on some database whose rows stand under their own keys, not removed again |
| `RollbackTheorem.BuiltPackagesRollBack` | internal/engine/datapackage.go:90-301 | packages built by adding roll back on every database if every row to be upserted has its key columns, and otherwise fail on one whose rows stand under their own keys |
| `RollbackTheorem.MissingKeyColumnStays` | internal/engine/datapackage.go:310-318 | one row without its key column is enough to break the rollback |
| `ComparePairs.QualifiedNameSplits` | internal/engine/conn.go:381-388 | a qualified name is split at its first point |
| `ComparePairs.PairAliases` | internal/engine/compare.go:322-359 | stops at the first alias that repeats a table, else pairs the existing tables that aliases name |
| `ComparePairs.PairByName` | internal/engine/compare.go:361-373 | the other source tables are paired by name unless an alias claims the target |
| `ComparePairs.AddTargets` | internal/engine/compare.go:374-379 | the target tables that are left are added alone |
| `BuildPairs.BuildComparePairs` | internal/engine/compare.go:307-381 | fails exactly at the first alias that is for a table of an earlier one; otherwise the pairs are those of tables that belong together and of tables that belong to none, and no others |
| `BuildPairs.KeysExactlyWhen` | internal/engine/compare.go:324-337 | an alias is for a source table whose name is its trimmed text or stands in it behind this database and the first point, and for the trimmed target |
| `BuildPairs.PlainAndQualified` | internal/engine/compare.go:324-337 | so is `table` and, in this database, `db.table` |
| `BuildPairs.OthersMeanNothing` | internal/engine/compare.go:326-335 | an alias for another database, or with an empty side, is for no tables |
| `BuildPairs.OthersChangeNothing` | internal/engine/compare.go:326-335 | and leaving it out changes neither which tables belong together nor whether aliases repeat |
| `BuildPairs.StandsExactlyWhen` | internal/engine/compare.go:308-315 | the table known under a name is the last of the list with this name, up to case |
| `ComparePairs.EachTableOnce` | internal/engine/compare.go:307-381 | every table is in exactly one pair on its side if and only if no two tables of that side differ in case only |
| `ComparePairs.OnlyTheLastIsPaired` | internal/engine/compare.go:308-315 | of source tables that differ in case only the last is paired, once, and the others are in no pair |
| `ComparePairs.MatchingIsOneToOne` | internal/engine/compare.go:303-306 | no table is matched twice |
| `ComparePairs.AloneMeansUnmatched` | internal/engine/compare.go:343-372 | a source table is reported alone exactly if no target table matches it |
| `ComparePairs.TargetAloneMeansUnmatched` | internal/engine/compare.go:343-379 | a target table is reported alone exactly if no source table matches it |
| `RowDiff.RowKey` | internal/engine/compare.go:853-864 | the loop writes the key of the row's normalised values |
| `RowDiff.KeyDecodesExactlyWhen` | internal/engine/compare.go:853-864 | no other values have the key of these if and only if no value holds the delimiter in front of it or the one behind it; named and unnamed |
| `RowDiff.SharesKey` | internal/engine/compare.go:853-864 | any values that hold one share their key with others, which are given |
| `RowDiff.FreeIsApart` | internal/engine/compare.go:853-864 | values without the separator hold none |
| `RowDiff.SeparatorCollides` | internal/engine/compare.go:853-864 | for example, of two columns, a delimiter may belong to either value |
| `RowDiff.LoadRowMultiset` | internal/engine/compare.go:813-850 | counts how often each key occurs |
| `RowDiff.MultisetDiff` | internal/engine/compare.go:867-881 | what one side has more of than the other; source plus extra equals target plus missing for every key |
| `RowDiff.SumCounts` | internal/engine/compare.go:883-889 | the size of the bag with these counts |
| `RowDiff.Balance` | internal/engine/compare.go:590-599 | taking each side's surplus to the other makes them equal, and the surpluses differ as the sides do |
| `RowDiff.SameKeysSameRows` | internal/engine/compare.go:853-864 | where rows with the same key are the same, a table with the same bag of keys has the same bag of rows |
| `RowDiff.SameRowsSameKeys` | internal/engine/compare.go:853-864 | equal bags of rows have equal bags of keys, always |
| `RowDiff.VerdictExactlyWhen` | internal/engine/compare.go:581-599 | over all lists of texts, equal bags of keys mean equal bags of values if and only if no list of this table holds a delimiter as above |
| `RowDiff.RightExactlyWhen` | internal/engine/compare.go:581-599 | over all tables of rows, however normalised, the verdict on this one is right if and only if no row has the key of one of its rows without having its values |
| `RowDiff.ApartIsUnmistakable` | internal/engine/compare.go:853-864 | rows whose values hold no delimiter as above meet this |
| `RowDiff.CompareRows` | internal/engine/compare.go:581-599 | missing minus extra is source minus target rows; equal exactly for permutations of the normalised rows if one side meets this |
| `KeyDiff.SeparatorMistakesRows` | internal/engine/compare.go:853-864 | rows of two text columns that share a key with different values, whenever normalisation leaves the texts as they are |
| `KeyDiff.SeparatorMistakesTexts` | internal/engine/compare.go:853-864 | for example `x`, separator, `b=y` and `z` against `x` and `y`, separator, `b=z` |
| `KeyDiff.LoadRowsByPK` | internal/engine/compare.go:697-731 | the first row of each key, cut to the compared columns |
| `KeyDiff.DiffRowValues` | internal/engine/compare.go:746-754 | exactly the columns whose normalised values differ; none exactly for equal rows |
| `KeyDiff.CompareByKey` | internal/engine/compare.go:636-693 | missing, extra and changed keys; whatever the keys, they count the rows that the kept rows of both tables do not share, and equal means that these are permutations |
| `KeyedRows.LeftRowsDecide` | internal/engine/compare.go:636-693 | differing keys are as many as the kept rows that the other table's kept rows lack, for any keys |
| `KeyedRows.RepeatedKeyIsIgnored` | internal/engine/compare.go:712-719 | of rows with one key all but the first are passed over, and only these |
| `KeyDiff.AllKeptExactlyWhen` | internal/engine/compare.go:712-719 | all rows of a table are compared if and only if its normalised keys are distinct |
| `KeyDiff.KeptRowsDecide` | internal/engine/compare.go:636-693 | two tables are reported equal if and only if their kept rows are permutations |
| `KeyDiff.VerdictExactlyWhen` | internal/engine/compare.go:636-731 | the verdict is right against every table with distinct keys if and only if the table's own normalised keys are distinct |
| `KeyDiff.FoldedKeysAreMistaken` | internal/engine/compare.go:712-719 | the text keys 01 and 1 are one: two rows are reported to equal one |
| `Decimal.ValuePreserved` | internal/engine/compare.go:992-1021 | the output is a number and denotes the same one |
| `Decimal.Idempotent` | internal/engine/compare.go:992-1021 | canonical texts are their own canonical form |
| `Decimal.CanonicalDecides` | internal/engine/compare.go:992-1021 | two accepted texts have one canonical form if and only if they denote one number |
| `Decimal.AcceptsExactly` | internal/engine/compare.go:993-1010 | exactly the texts made of a sign, digits and a point with digits, with a digit somewhere, are numbers, and each denotes what it spells |
| `Decimal.NormalizedDecides` | internal/engine/compare.go:978-989 | texts are compared as equal exactly when they are equal or, trimmed, spell one time or one number, or one is the other's printed time and is not read as a time |
| `AiTrim.CountChars` | internal/service/ai.go:1068-1076 | the count that `AiTrimShape.CharsOfContents` describes |
| `AiTrimShape.CharsOfContents` | internal/service/ai.go:1068-1076 | the length of all contents one behind the other |
| `AiTrimShape.GroupIsRound` | internal/service/ai.go:1128-1143 | a round has SQL if and only if one of its messages holds a block of SQL or is a looked-up table structure |
| `AiTrim.CollectOldRounds` | internal/service/ai.go:1083-1107 | the old rounds as ranges, collected in one pass |
| `AiTrim.TrimTarget` | internal/service/ai.go:1082-1119 | the oldest old round without SQL, else the oldest, else none |
| `AiTrim.TrimOldestRound` | internal/service/ai.go:1145-1165 | where the oldest round ends |
| `AiTrim.TrimMessages` | internal/service/ai.go:1016-1034 | terminates with the result of the two stages |
| `AiTrimShape.OldRoundsFound` | internal/service/ai.go:1083-1107 | the ranges found are the rounds before the current one |
| `AiTrimShape.CharStageKeeps` | internal/service/ai.go:1017-1024 | old rounds go one by one, the oldest without SQL first and the oldest if all have some, as long as the contents are over the budget; head and current round stay whole |
| `Leaving.LeastGoFirst` | internal/service/ai.go:1082-1119 | so, however many go, those without SQL that go are the oldest, and of those with SQL the oldest go, and only when no other is left |
| `AiTrimShape.CountStageKeeps` | internal/service/ai.go:1025-1032 | old rounds go from the oldest on, down to the allowed count or the current round, and no more than it takes |
| `AiTrimShape.TrimmedIsSubsequence` | internal/service/ai.go:1016-1034 | trimming only leaves messages out |
| `AiTrimShape.TrimKeepsTheCurrentRound` | internal/service/ai.go:1008-1034 | system message and current round are kept, of the rest what each stage leaves; both limits are met, or no old round is left |
| `AiTrimShape.UnchangedExactlyWhen` | internal/service/ai.go:1016-1034 | a history of rounds comes back as it is if and only if it is within both limits or has no old round |
| `AiTrimShape.ShortIsUnchanged` | internal/service/ai.go:1016-1034 | any history of at most 40 messages and 24000 characters comes back as it is |
| `AiTrimShape.SplitsIntoRounds` | internal/service/ai.go:1013-1014 | every history with a user message is made of rounds |
| `AiTrimShape.NothingToTrim` | internal/service/ai.go:1108-1110 | a history without a user message is left alone |
| `AiChat.FindMsgIDUser` | internal/service/ai.go:523-536 | the first user message with the id, and whether an answer follows it |
| `AiChat.AISession.AgentChat` | internal/service/ai.go:634-672 | an accepted answer is appended and the history trimmed; a failure leaves it |
| `AiChat.AISession.ChatWithId` | internal/service/ai.go:568-598 | a request with an id is replayed, resumed, put in place of a dangling one, or appended |
| `AiChat.AISession.Chat` | internal/service/ai.go:538-630 | every branch, with and without an id, is the transition `ChatStep` |
| `AiChatCauses.RepliesExactlyWhen` | internal/service/ai.go:634-672 | a request that is asked is replied to if and only if the outcome is a valid answer that is not blank, with this answer, and fails otherwise; a blank task does nothing |
| `AiChatRuns.TruncatingRemovesNothing` | internal/service/ai.go:579-581 | truncating at a dangling request never removes an answered turn |
| `AiChatRuns.TrimmedGood` | internal/service/ai.go:1016-1034 | trimming keeps the alternating shape, the distinct ids and the last round |
| `AiChatRuns.ChatKeepsGood` | internal/service/ai.go:538-672 | every call keeps the shape: system, user and assistant in turn, at most one dangling user, distinct ids |
| `AiChatRuns.EveryRunIsGood` | internal/service/ai.go:538-672 | so does every run from a fresh session |
| `AiChatCauses.EveryMessageHasACause` | internal/service/ai.go:538-672 | in every run every user message is that of a call and every answer the valid outcome, not blank, of a call for the message before it |
| `AiChatCauses.AskedWith` | internal/service/ai.go:584-614 | which message a new request is asked with: one that dangles is resumed for the same text and replaced otherwise |
| `AiChatRuns.RetryReplays` | internal/service/ai.go:565-578 | retrying right after success replays the answer and leaves the history, whatever was trimmed |
| `AiChatRuns.ReplaysExactlyWhen` | internal/service/ai.go:565-578 | in a good history a request with an id is replayed if and only if its answered turn is there, and asked as a new one if nothing of it is |
| `AiChatRuns.RetryMuchLater` | internal/service/ai.go:565-598 | after any calls with other ids a retry replays the answer if the turn is still there; otherwise nothing of it is left and the request is asked anew |
| `AiChatRuns.AnswerComesLast` | internal/service/ai.go:657-659 | an answered request ends the history: its user message and the answer |
| `AiChatRuns.FailureIsTakenBack` | internal/service/ai.go:614-628 | after a failed call without an id a user message is left behind exactly if one was before it; its text is then the new task |
| `AiChatRuns.FailureIsResumed` | internal/service/ai.go:566-584 | a failed call with an id leaves it dangling, and a retry resumes it instead of adding another |
| `AiChatRuns.RetryAfterAnyRun` | internal/service/ai.go:565-578 | the same after any run |
| `TaskRunnerRuns.StepKeeps` | internal/service/service.go:715-798 | every sub-step of a publish, receive, subscription or end of task keeps the invariant |
| `TaskRunnerRuns.EveryRun` | internal/service/service.go:715-798 | so every interleaving satisfies it |
| `TaskRunnerRuns.LastSendSucceeds` | internal/service/service.go:758-768 | the second send of a publish always finds room |
| `TaskRunnerRuns.QueuesAreSuffixes` | internal/service/service.go:746-791 | a queue of at most 16 is a contiguous part of what was published up to the last send; received plus queued lie in order; all is accounted for |
| `TaskRunnerRuns.FastSubscribersMissNothing` | internal/service/service.go:755-770 | a subscriber from whose queue nothing was dropped gets every event once, in order |
| `TaskRunnerRuns.FirstEventsAreSafe` | internal/service/service.go:755-770 | nothing is dropped of the first events of a subscriber while fewer than sixteen were sent to it, however slow it is |
| `TaskRunnerRuns.TerminalEventComesLast` | internal/service/service.go:715-743 | the terminal event is the last one every subscriber gets, and it tells how the task ended |
| `TaskRunnerRuns.EndsWithOutcome` | internal/service/service.go:715-736 | in every run the terminal event tells an outcome, whatever the task reported last |
| `TaskRunnerRuns.NothingAfterRemoval` | internal/service/service.go:738-752 | nothing is published once the task is removed |
| `TaskRunnerRuns.FinalStates` | internal/service/service.go:719-735 | the terminal event is done without an error, cancelled if the context or the error says so, else error, with the percentage and the message of each case |
| `TaskRunnerRuns.ReturnDecides` | internal/service/service.go:715-736 | what the task returned with decides the terminal event, whatever happens later |
| `TaskRunnerRuns.CancelledExactlyWhen` | internal/service/service.go:719-812 | a task counts as cancelled if and only if it was cancelled while registered |
| `TaskRunnerRuns.GoneGetsNothing` | internal/service/service.go:785-797 | whoever has unsubscribed is sent nothing any more and keeps what was queued |
| `TaskRunnerRuns.UnsubscribingIsLeaving` | internal/service/service.go:791-797 | releasing a channel takes out this subscriber and no other |
| `TaskPublish.RunningTask.Publish` | internal/service/service.go:746-770 | without receives in between, every subscriber gets the event, a full queue losing its oldest |
| `TaskPublish.RunningTask.Offer` | internal/service/service.go:756-769 | send, or drop the oldest and send |
| `TaskPublish.RunningTask.Subscribe` | internal/service/service.go:779-798 | a new channel starts with the latest event, if any |
| `TaskPublish.PublishAlone` | internal/service/service.go:746-770 | the steps of a publish run without interruption, subscribers in any order, are what the object does |
| `SnapshotIndex.Instance.EnsureMigrated` | internal/service/snapshot.go:117-155 | writes rows up to the first failure, the marker behind the last, and learns of a finished migration |
| `SnapshotIndex.AttemptIsMigration` | internal/service/snapshot.go:117-155 | the accesses of an attempt run on their own are what the method does |
| `SnapshotIndex.EveryRun` | internal/service/snapshot.go:91-155 | in every interleaving a set marker means every legacy entry is in the index or was deleted; the index holds only genuine entries; no creation is lost |
| `SnapshotIndex.AttemptsTouchLegacyOnly` | internal/service/snapshot.go:110-114 | an attempt removes nothing and changes no entry outside legacy |
| `SnapshotIndex.MigratedIsComplete` | internal/service/snapshot.go:104-150 | without deletions a set marker means the index is exactly legacy plus created |
| `SnapshotIndex.RetryCompletes` | internal/service/snapshot.go:108-114 | whatever failed before, an attempt without faults completes the migration |
| `SnapshotIndex.CreationIsThere` | internal/service/snapshot.go:91-104 | a creation that takes effect adds its entry and no other; a lost one changes nothing |
| `SnapshotIndex.CreatedStays` | internal/service/snapshot.go:110-114 | what was created stays as it is until it is deleted, whatever attempts are made meanwhile |
| `SnapshotIndex.KnowsForGood` | internal/service/snapshot.go:117-121 | an instance that knows of the migration makes no attempt any more |
| `SnapshotIndex.WritesOneThing` | internal/service/snapshot.go:138-154 | each write of an attempt changes its row or the marker unless it is lost, and the attempt goes on only behind a reported success |
| `SnapshotIndex.DeletionIsFinalExactlyWhen` | internal/service/snapshot.go:117-207 | deleting a legacy snapshot is final if and only if the marker is set and no attempt in flight has the entry still before it |
| `SnapshotIndex.DeletionAfterMigrationIsFinal` | internal/service/snapshot.go:196-207 | with the marker set and no attempt past the marker check, every deletion is final |
| `AuthLimiters.AuthRecord.Fail` | internal/web/access.go:183-196 | filters the list within its own storage, appends, and locks at the limit |
| `AuthLimiters.AuthLimiter.Allow` | internal/web/access.go:166-171 | allowed if there is no record or its lock has ended |
| `AuthLimiters.AuthLimiter.Fail` | internal/web/access.go:174-197 | changes the record of this source only |
| `AuthLimiters.AuthLimiter.Pass` | internal/web/access.go:200-204 | forgets this source and no other |
| `AuthLimiters.PrunedIsInWindow` | internal/web/access.go:182-190 | the pruned list is exactly the failures since the last pass or lock inside the window, fewer than ten |
| `AuthLimiters.KeptAreLater` | internal/web/access.go:183-189 | pruning keeps exactly the failures later than the cutoff, in order |
| `AuthLimiters.LocksOnTheTenth` | internal/web/access.go:191-195 | a failure locks exactly if it is the tenth of these |
| `AuthLimiters.AllowedExactlyWhenNeverTen` | internal/web/access.go:166-204 | a source is always allowed if and only if it never has ten failures in one window without a pass |
| `AuthLimiters.LockLasts` | internal/web/access.go:166-193 | a lock ends strictly after the block time |
| `NameAllocators.CandidatesDiffer` | internal/engine/dictionary.go:691-699 | different counters give different candidates, even when the base is cut |
| `NameAllocators.SheetBaseFollows` | internal/engine/dictionary.go:681-690 | the base is the name without surrounding white space, forbidden characters replaced, cut to 31; `sheet` if blank |
| `NameAllocators.NumberedFollows` | internal/engine/dictionary.go:691-731 | a numbered name is as much of the base as fits, a mark and the number |
| `NameAllocators.CleanFollows` | internal/engine/dictionary.go:706-724 | each part is the text with other characters replaced by underscores, and one in front of a leading digit |
| `NameAllocators.UsedNames.Allocate` | internal/engine/dictionary.go:691-731 | the loop stops with the first free candidate, within as many tries as names in use plus two, and records it |
| `NameAllocators.UsedNames.SheetName` | internal/engine/dictionary.go:681-702 | an unused, recorded, non-empty name of at most 31 characters without forbidden characters |
| `NameAllocators.UsedNames.DefinedName` | internal/engine/dictionary.go:705-732 | an unused, recorded name of letters, digits, underscores and points, with no digit first |
| `NameAllocators.NameSheets` | internal/engine/dictionary.go:397-403 | the sheets of a workbook have legal names, different from each other and from the overview |

## Left out

- Characters are code points and strings sequences of them; bytes that are no valid UTF-8 are not modelled.
- PgColumns.BuildPgColumnRollback: where a byte offset of the upper-cased text falls inside a character of the original, or behind its end, the model does not say what follows (broken text, or a panic). The upper case of characters that are not ASCII, and `strings.EqualFold`, are parameters.
- ThinkTags.AgentStream: has a client callback and a stream that ends without error; a nil callback only skips the sending.
- Rollback.Connection.ApplyDataPackage: does not model packages with paired SQL entries (`DataEntryExecSQL`), whose statements and rollbacks are opaque SQL on any table, nor reading DDL from the database, cancellation and failing statements; nor when DDL commits what was done before it, though `RollbackTheorem.AnyPartIsUndone` holds whatever was committed. An upsert on a missing table is the failure that is modelled.
- PgStatements.ColumnIsRestored: column names are quoted as PostgreSQL does, which the dialects that are not part of this model decide; types and defaults close their quotes and brackets and hold no semicolon outside them. The rollback of a column change on MySQL and Oracle, which repeats the definition as it stands, is not modelled.
- Entries of a data package are values; that LoadDataPackage and Add share entries by pointer with their caller is not modelled.
- Rollback.Connection.ReadOldRows: the database returns every row of the keys and their printed form puts it back. What a printed key tuple reads as, and the key the database gives a row, are parameters, the latter a function of the row: that a database may give two equal rows without key columns different keys is not modelled. What is assumed of them is `Faithful`, stated where it is used, and only of the rows and tuples of the entry: normalisation folds values such as 01 and 1, and a text key may be the word NULL.
- Decimal.NormalizedDecides: reading a text in one of the time layouts is a parameter, of which it is assumed that no time is printed as a number. The normalisation of other values of a row is a parameter throughout: float formatting and binary values are not modelled.
- RowDiff.KeyDecodesExactlyWhen: the column names in a key are assumed not to hold the separator.
- KeyDiff.CompareByKey: the sample rows shown with a difference are not modelled. That the compared columns include the key columns, which its results on rows need, is ensured by its caller (internal/engine/compare.go:562-569).
- RowDiff.LoadRowMultiset: the sample rows shown with a difference, and progress counting, are not modelled, nor is comparison by row counts above the threshold.
- ComparePairs.SortedKeys: returns the keys in some order; that it is the sorted one, and so the order of the pairs, is not modelled. Letter case folding is a parameter with nothing assumed about it.
- AiChat.AISession.Chat: the agent, the validation of its answer and the prompt are parameters; the mutex of a session, persistence, usage counting, the replay callback and restored histories are not modelled. Messages are never nil.
- Trimming and replacing rebuild the message list; sharing of backing arrays between slices is not modelled.
- The module `TaskRunner` is a transition relation over values, because receives come between the operations of one publish; `TaskPublish` has the object for the case without receives. One task is modelled; hooks, panics and publishes from goroutines that outlive the task function are not.
- SnapshotIndex.Instance.EnsureMigrated: a write that fails has no effect here; in the interleavings it may have taken effect all the same. Data files, object storage and the JSON index of the mode without a database are not modelled. New snapshots have new ids.
- AuthLimiters.AuthRecord.Fail: the storage of a list holds ten times from the start, where a slice grows; the clock does not run backwards.
- NameAllocators.UsedNames.Allocate: fewer than 10^18 names are in use, so that counters do not overflow and a suffix always fits.
- Everything else of the workbench: connections, export and import, SQL script running, web handlers, configuration, prompts, task history. It is plumbing around libraries that are not part of this model, or would add easy members only.

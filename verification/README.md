# Continuo, modelled and proved

A Dafny model of how Continuo writes a node's rows to a warehouse and of how it decides that a node has changed,
with proofs. `dafny verify dfyconfig.toml` checks everything.

**The write plane.** An upsert checks key uniqueness once and hands the rows to one of three mechanisms: Postgres
pages `INSERT ... ON CONFLICT` inside a transaction, DuckDB runs one `MERGE` inside a snapshot transaction, and Trino,
which has no transactions, fills a stage table and runs one `MERGE` from it. `Rows` defines the one pure table update
they are all meant to perform (`Override`) and what it means; `Mechanisms` proves that each mechanism refines it and
that keys distinct as the engine stores them are exactly what they need; `StoredForms` says when the check before the
write, which compares cells as handed over, establishes that. `Trino`, `Transactions`, `Postgres` and `DuckLake` model
the adapters statement by statement: any statement may raise, with or without having taken effect, and every
intermediate catalog is kept in a history, so a promise about the history also covers a process that dies between two
statements. `Port` is the template method over all three, `Runs` the whole histories of a table, `EnsureTableRace` the
concurrent creation of a DuckDB table. `Contract`, `Keys`, `Conformance`, `Shape` and `Preconditions` show that the
checks before a write establish what it needs; `Harness` and `NodeRun` are one node's run from end to end.

**The change detector.** `Closure` computes the in-repository import closure with a worklist and equals it to
reachability. `Json`, `Utf8`, `Hashing` and `Fingerprint` prove the content hash exact up to its intended
equivalence; `Repository` concludes exactly which edits a hash sees, and `UnseenEdit` has one it does not;
`ImportPaths` ties the hashed files to the ones imported at run time; `ConfigGraph` guards the input.

**Text and names.** `SqlText`, `Statements` and `Rendering` read rendered SQL and connection strings back to what
they were rendered from, and carry the read `MERGE` out to the pure upsert; `IndexNames` covers Postgres index
lists; `CsvHeader` the header readers; `Order` sorting.

## Assumptions and findings

- SHA-256 is a function parameter with 64 hexadecimal digits, assumed not to collide on the finitely many byte
  strings at hand (no function into 64 digits is injective on all of them). Python's parser, `casefold` / `lower`, the
  Arrow cast and a cell's length are parameters too.
- A table's rows are a sequence standing for a bag; the proofs about keys do not depend on the order.
- The ranged header loops agree with the header line on every object that holds a newline. On an object of n bytes
  without one they agree exactly when n = 0 (S3 only), 0 < n <= 1,048,576 with n not a multiple of 65,536, or
  n >= 1,048,576 + 65,536. Otherwise a multiple of the probe size asks for a range past the end, and a short last
  probe past the maximum is returned instead of being refused.
- What an engine makes of a cell it stores is a parameter of the model (`Form`), and two cells are the same key to it
  when their stored forms are equal. A CHAR(n) key column on Postgres is where this matters: cells that differ in
  trailing blanks only are one key there, the loader accepts the column (it refuses only floating-point ones), and
  conform checks the length alone. Rows keyed `'a'` and `'a '` pass every check; Postgres refuses the page that holds
  both, or keeps the last across pages, while DuckDB, which drops CHAR's length
  (`adapters/duckdb/README.md:79-81`), stores both. The checks are enough exactly for keys without a CHAR column.
- Trino's `load` can leave the target's name missing: exactly when the rename that takes it away took effect, and
  that rename raised or neither the swap-in nor the rename back took effect. The rows are then under the private old
  name. A load that reports a failure has all the same replaced the table exactly when its swap-in took effect.
- In the DuckDB adapter only schema and table creation are retried on a conflict; `load`, `append` and `_upsert` run
  once (`adapters/duckdb/continuo_duckdb_adapter/application/warehouse.py:216-258`).
- `shape_diff` pairs greedily. An empty diff always means a pairing; the converse holds for every declaration exactly
  when live columns equal up to case are equally nullable.
- The shape check compares names up to `casefold` on every engine, and no engine resolves names that way. It is
  enough where the engine takes for equal every declared and live name the check does, as DuckDB and Trino do on
  ASCII names. Otherwise the check passes and the write is refused: on Postgres, which takes names as they are, a
  declared `Rate` on a table with `rate`; on DuckDB, which folds ASCII letters only, an upper-case accented letter on
  its lower case; on Trino, which lowers, `STRASSE` on the spelling with a sharp s.
- An edit of a closure member is invisible to the content hash when the bytes it and its dropped members had are
  those it and its gained members have. `UnseenEdit` has one; an edit of the script is always seen.
- An accepted index whose stored name is that of its table (cut to 63 bytes, as every identifier is), or that of the
  index of the table's PRIMARY KEY, is silently not created.

## Model

| member | source | states |
|---|---|---|
| `Rows.OverrideIsMapUpdate` | contract/continuo_engine_contract/port.py:239-261 | the pure upsert, read as a lookup table by key, is exactly `old + new`: every data row is stored under its key, every other row is as it was, and the table keeps its shape |
| `Rows.OverrideStaysKeyed` | contract/continuo_engine_contract/port.py:239-261 | an upsert of unique, non-NULL keys into a table with such keys leaves such keys |
| `Rows.UnmatchedUntouched` | contract/continuo_engine_contract/port.py:231-261 | a row whose key is not in the data is not changed in any column |
| `Rows.DataRowPresent` | contract/continuo_engine_contract/port.py:254-261 | every data row is in the table afterwards, cell for cell |
| `Rows.KeptRow` | contract/continuo_engine_contract/port.py:254-261 | an existing row becomes the data's row for its key if there is one and is otherwise unchanged |
| `Mechanisms.OverrideIsFold` | adapters/postgres/continuo_postgres_adapter/adapter.py:396-411 | upserting row by row, left to right, equals the whole-table upsert |
| `Mechanisms.StatementRefines` | adapters/postgres/continuo_postgres_adapter/adapter.py:396-411 | one `ON CONFLICT` statement over unique keys never meets a row it has itself touched (which Postgres refuses), and carries out exactly its rows |
| `Mechanisms.PagesRefine` | adapters/postgres/continuo_postgres_adapter/adapter.py:366-393 | for every page size, the `ON CONFLICT` statements run left to right succeed and end in the same table as one row-by-row pass |
| `Mechanisms.TrinoMergeRefines` | adapters/trino/continuo_trino_adapter/adapter.py:272-291 | Trino's MERGE of unique keys is not refused as ambiguous and leaves the pure upsert, the key-only form without an UPDATE branch included |
| `Mechanisms.DuckMergeRefines` | adapters/duckdb/continuo_duckdb_adapter/infrastructure/ddl.py:223-253 | DuckDB's MERGE of unique keys leaves the pure upsert, the key-only form included |
| `Rows.KeysStayApartIffFaithful` | contract/continuo_engine_contract/keys.py:64-87 | for an engine's stored form of its cells: every set of rows without a repeated or NULL key, as the check compares cells, has no repeated key as stored, if and only if the form keeps the values of each key column apart |
| `Mechanisms.EnginesAgreeIffKeysUnique` | contract/continuo_engine_contract/port.py:239-251 | for rows in any stored form and at any one page size: with something to overwrite, the three mechanisms all leave the pure upsert if and only if the rows repeat no key as stored; with every column in the key, if and only if those whose key is new repeat none; the key check supplies that where the form keeps the values of the key columns apart |
| `Postgres.EnginesAgreeAtPageSize` | adapters/postgres/continuo_postgres_adapter/adapter.py:363-393 | so at the adapter's 1000 rows per page the engines agree exactly when the keys are distinct as stored |
| `Postgres.PagedIsOverride` | adapters/postgres/continuo_postgres_adapter/adapter.py:363-411 | what the pages leave of a keyed table is the pure upsert where the keys are distinct as stored |
| `DuckLake.MergedIsOverride` | adapters/duckdb/continuo_duckdb_adapter/infrastructure/ddl.py:223-253 | so is what the MERGE leaves |
| `Trino.MergeIsOverride` | adapters/trino/continuo_trino_adapter/adapter.py:272-291 | Trino's MERGE leaves the pure upsert of any rows whatever, unless it refuses them as ambiguous |
| `Mechanisms.PagesAre` | adapters/postgres/continuo_postgres_adapter/adapter.py:363-411 | the paged upsert of any rows, repeats included, succeeds exactly when no page repeats a key within itself, and then has upserted them one by one |
| `Mechanisms.FoldStaysKeyed` | adapters/postgres/continuo_postgres_adapter/adapter.py:396-411 | Postgres never stores a key twice, whatever the data repeats |
| `Mechanisms.RepeatedPageFails` | adapters/postgres/continuo_postgres_adapter/adapter.py:366-411 | a page repeating a key fails, wherever the repeat is and whatever the table holds |
| `Mechanisms.DuckStoresRepeats` | adapters/duckdb/continuo_duckdb_adapter/infrastructure/ddl.py:223-253 | a repeated key absent from the table is stored twice by DuckDB: the divergence the check prevents |
| `Mechanisms.PostgresKeepsLastAcrossPages` | adapters/postgres/continuo_postgres_adapter/adapter.py:363-393 | at every page size, a key repeated on different pages ends in one row, carrying the cells of its last occurrence |
| `Mechanisms.KeyOnlyFold` | adapters/postgres/continuo_postgres_adapter/adapter.py:396-411 | a key-only upsert inserts distinct new rows once each, even when rows already in the table repeat |
| `Keys.EnsureUniqueKey` | contract/continuo_engine_contract/keys.py:42-87 | DuplicateKeyError exactly when two rows agree on every key column, naming every such key with its number of rows; ValueError exactly for an empty, missing or floating-point key |
| `Keys.GroupCountDecides` | contract/continuo_engine_contract/keys.py:71-87 | there are as many groups as rows exactly when no key repeats |
| `Keys.GroupsCountOccurrences` | contract/continuo_engine_contract/keys.py:71-87 | the group-by counts each key's rows |
| `Port.NextIsOverride` | contract/continuo_engine_contract/port.py:239-261 | on any engine, what its own upsert makes of a keyed table is the pure upsert where the keys are distinct as stored |
| `Port.CheckedRowsAreReady` | contract/continuo_engine_contract/port.py:239-251 | rows the key check passes are such rows where the engine keeps the values of the key columns apart |
| `Port.Upsert` | contract/continuo_engine_contract/port.py:239-261 | on any engine: a refused key writes nothing; every catalog visible since the call began has the old target or the engine's upsert of it, and no other table differs at the end; a normal return leaves that upsert; a failure is reported only when an engine call raised; with keys distinct as stored it is the pure upsert, in the sense of Runs one call, applied if it returned |
| `Trino.FlattenRoundTrip` | adapters/trino/continuo_trino_adapter/adapter.py:729-741 | the row-major parameters of a batch, cut at the column count, are exactly the rows that were flattened |
| `Trino.Catalog.Execute` | adapters/trino/continuo_trino_adapter/adapter.py:466-480 | one statement: it may raise with or without its effect, and returns only with it |
| `Trino.Catalog.CreateStage` | adapters/trino/continuo_trino_adapter/adapter.py:695-714 | an empty stage with the target's columns, or a failure that touches no other name; created exactly when both statements returned |
| `Trino.Catalog.DropStage` | adapters/trino/continuo_trino_adapter/adapter.py:716-727 | best effort: the stage is gone or the statement raised, and nothing is reported |
| `Trino.Catalog.InsertBatches` | adapters/trino/continuo_trino_adapter/adapter.py:729-741 | batches of 500 reconstruct the data exactly and in order, in the form Trino stores; the first failure ends them |
| `Trino.Catalog.Stage` | adapters/trino/continuo_trino_adapter/adapter.py:695-741 | staging reads the target and never writes it, and a full stage holds every row |
| `Trino.Catalog.Swap` | adapters/trino/continuo_trino_adapter/adapter.py:761-782 | two renames and a drop, each only after the one before it returned: at every instant the prior table is under one of its two names or the new one is complete under the target's; the effects of its renames say exactly where the target is |
| `Trino.Catalog.SwapIn` | adapters/trino/continuo_trino_adapter/adapter.py:763-782 | swap in, then drop the old table, or if the swap-in raised one rename back: exactly which of the two tables the target is, by the effect of the swap-in |
| `Trino.Catalog.TryLoad` | adapters/trino/continuo_trino_adapter/adapter.py:758-782 | the body of the `try`, its statements in order, and what `finally` still has to drop |
| `Trino.Catalog.Load` | adapters/trino/continuo_trino_adapter/adapter.py:743-786 | whichever statements raise with or without effect: no data is lost in any catalog passed through, and no other name is touched; the statements come in the order of `LoadSteps`; the target's name is missing afterwards if and only if the rename that takes it away took effect and it raised, or neither the swap-in nor the rename back took effect; where it is there it is the new table if the swap-in took effect and else the prior one; it returns normally exactly when every statement did, leaving target = data (exactly as many rows, each cell its own in stored form, none of the old rows), no stage, no old table; a row the table would refuse leaves the target untouched throughout |
| `Trino.LeftIff` | adapters/trino/continuo_trino_adapter/adapter.py:761-786 | the exact condition, read off the events: each rename stands at one place of the run |
| `Trino.CleanupIsSafe` | adapters/trino/continuo_trino_adapter/adapter.py:783-786 | dropping the stage, or failing to, keeps every promise of the load |
| `Trino.Catalog.WriteViaStage` | adapters/trino/continuo_trino_adapter/adapter.py:788-806 | the target is at every instant the prior table or the finished one |
| `Trino.Catalog.Append` | adapters/trino/continuo_trino_adapter/adapter.py:808-822 | append is all-or-nothing, the old rows followed by the data's cell for cell, at every failure point; it reports failure exactly when a statement other than a stage drop raised; no rows, no statement |
| `Trino.Catalog.Upsert` | adapters/trino/continuo_trino_adapter/adapter.py:824-847 | the same for the MERGE upsert, whose finished table is the pure upsert of the rows as stored |
| `Trino.DropIsSafe` | adapters/trino/continuo_trino_adapter/adapter.py:788-806 | a failed stage drop never turns a committed write into a reported failure |
| `Trino.NameCanGoMissing` | adapters/trino/continuo_trino_adapter/adapter.py:761-786 | a run of a load, its statements in the order the load issues them, whose first rename takes effect and raises: the load fails and the target's name is gone, its rows intact under the private old name |
| `Trino.FailedLoadCanHaveSwapped` | adapters/trino/continuo_trino_adapter/adapter.py:780-786 | another whose last drop raises without effect: the load fails and the target is the new table |
| `Trino.StagedFinal` | adapters/trino/continuo_trino_adapter/adapter.py:266-291 | INSERT ... SELECT or MERGE from the full stage writes what the original data would have |
| `Trino.StagedOverrideAlike` | adapters/trino/continuo_trino_adapter/adapter.py:272-291 | merging from the stage equals merging from the data it was filled with, and staging keeps keys unique |
| `Transactions.Session.Commit` | adapters/postgres/continuo_postgres_adapter/adapter.py:815-833 | a COMMIT may be lost after it took effect; a return means it did |
| `Transactions.Session.Run` | adapters/postgres/continuo_postgres_adapter/adapter.py:815-833 | a statement never changes what other sessions see |
| `Rows.StoredHold` | contract/continuo_engine_contract/port.py:181-229 | the rows an INSERT stores are the data's, one for one and in order: each named column holds the stored form of its cell, any other is NULL |
| `Postgres.Finish` | adapters/postgres/continuo_postgres_adapter/adapter.py:815-833 | commit a finished body, else roll back (after a failed COMMIT too); the transaction stays open only if BEGIN or ROLLBACK itself raised |
| `Postgres.InsertPages` | adapters/postgres/continuo_postgres_adapter/adapter.py:366-393 | the pages insert every row once, inside the open transaction |
| `Postgres.UpsertPages` | adapters/postgres/continuo_postgres_adapter/adapter.py:366-411 | the `ON CONFLICT` pages, run one by one, turn the working table into what `Pages` says, for any rows and any table; they return only if no page is refused |
| `Postgres.Load` | adapters/postgres/continuo_postgres_adapter/adapter.py:835-853 | a statement another session starts sees the old table or the fully reloaded one at every instant, and a normal return (exactly when no call raised) means the latter: exactly the data's rows, cell for cell in stored form, and none of the old ones |
| `Postgres.Append` | adapters/postgres/continuo_postgres_adapter/adapter.py:855-867 | all rows or none at every instant, the old rows followed by the data's cell for cell on a normal return; no rows, no transaction |
| `Postgres.Upsert` | adapters/postgres/continuo_postgres_adapter/adapter.py:869-893 | all the pages or nothing at every instant, repeated keys included; the pure upsert where keys are distinct as stored (PagedIsOverride) |
| `DuckLake.Leave` | adapters/duckdb/continuo_duckdb_adapter/infrastructure/session.py:238-250 | a failed body is rolled back; a failed COMMIT is not, having ended the transaction |
| `DuckLake.WriteArrow` | adapters/duckdb/continuo_duckdb_adapter/infrastructure/session.py:325-343 | the registered data is read by one statement; nothing is committed by it |
| `DuckLake.Load` | adapters/duckdb/continuo_duckdb_adapter/application/warehouse.py:216-223 | other sessions see the old table or the fully reloaded one at every instant; a normal return leaves exactly the data's rows, cell for cell in stored form, and none of the old ones |
| `DuckLake.Append` | adapters/duckdb/continuo_duckdb_adapter/application/warehouse.py:225-237 | all rows or none at every instant, the old rows followed by the data's cell for cell on a normal return; no rows, no transaction |
| `DuckLake.Upsert` | adapters/duckdb/continuo_duckdb_adapter/application/warehouse.py:239-258 | the whole MERGE or nothing at every instant; the pure upsert where keys are distinct as stored (MergedIsOverride) |
| `EnsureTableRace.StepKeepsInv` | adapters/duckdb/continuo_duckdb_adapter/application/warehouse.py:178-214 | every step of every caller keeps the invariant, and a committed table never changes |
| `EnsureTableRace.RaceIsSafe` | adapters/duckdb/continuo_duckdb_adapter/application/warehouse.py:59-68 | in every state of every interleaving of any number of callers, commits that take effect and then raise included: at most one commit created the table, with its creator's own layout; every caller that returned finds it; nobody conflicts twice, so the five attempts are never exhausted |
| `EnsureTableRace.RetryFindsTheTable` | adapters/duckdb/continuo_duckdb_adapter/application/warehouse.py:178-214 | a caller retrying after a conflict sees the table in its snapshot and cannot create again |
| `EnsureTableRace.OnlyAccidentsRaise` | adapters/duckdb/continuo_duckdb_adapter/application/warehouse.py:59-68 | in every state of every schedule a caller has raised only if one of its own statements failed or its own COMMIT was lost: the race alone makes nobody fail |
| `EnsureTableRace.UnfinishedCanMove` | adapters/duckdb/continuo_duckdb_adapter/application/warehouse.py:203-214 | in every state a caller can take a step that is no such accident exactly when it has not ended: none waits for another |
| `EnsureTableRace.EverybodyReturns` | adapters/duckdb/continuo_duckdb_adapter/application/warehouse.py:178-214 | a schedule without accidents that cannot go on has every caller returned and the table there, with some caller's layout |
| `EnsureTableRace.StepsMakeProgress` | adapters/duckdb/continuo_duckdb_adapter/application/warehouse.py:59-68 | every step brings its caller strictly closer to the end: no schedule retries for ever |
| `EnsureTableRace.RunsAreShort` | adapters/duckdb/continuo_duckdb_adapter/application/warehouse.py:59-68 | no schedule is longer than eight moves a caller |
| `Runs.EveryVisibleState` | contract/continuo_engine_contract/port.py:231-261 | over every chain of calls, those that raised or whose process died included, every state of the table any session can read at any instant has unique non-NULL keys and is what some attempts of the calls so far add up to |
| `Runs.ACallMayDie` | contract/continuo_engine_contract/port.py:231-261 | a call cut short at any instant is still a call of such a chain |
| `Runs.EveryStateIsLastWritten` | contract/continuo_engine_contract/port.py:231-261 | what a sequence of applied and unapplied attempts adds up to has unique non-NULL keys and holds, key by key, the row last written |
| `Runs.CreatedEmpty` | continuo_python_runtime/harness.py:364-384 | a table created empty and written only by upserts never shows a repeated or NULL key, at any instant |
| `Runs.KeyHistory` | contract/continuo_engine_contract/port.py:231-261 | a key no applied write names keeps its row; any other has the row of its last writer |
| `Runs.UpsertTwiceIsOnce` | contract/continuo_engine_contract/port.py:231-261 | repeating an upsert changes nothing at all |
| `Runs.RetryIsSafe` | contract/continuo_engine_contract/port.py:231-261 | retrying a write that raised gives the same table whether or not the first try took effect |
| `Contract.ValidatePrimaryKey` | continuo_python_runtime/contract/loader.py:152-210 | accepts exactly the non-empty lists of non-blank, declared, non-nullable, non-floating columns distinct up to case on upsert nodes, and exactly the absent key elsewhere |
| `Conformance.ConformsIff` | continuo_python_runtime/conform.py:128-220 | conform accepts exactly when no column name repeats, none is undeclared (unless those are dropped), every declared one is there in a type it comes from without loss, and every cell casts, to no NULL where none is allowed and no text longer than declared |
| `Conformance.ConformedTable` | continuo_python_runtime/conform.py:128-220 | a conformed table has the declared columns, order and types, one row per input row, each cell the cast of the input's, no NULL where none is allowed and no text longer than its VARCHAR or CHAR |
| `Conformance.LoaderAndConformSupplyTheKey` | contract/continuo_engine_contract/keys.py:42-62 | for a loader-accepted key and a conformed table the key check's ValueErrors are unreachable, no key is NULL, and Unique means keyed |
| `Shape.ShapeDiff` | continuo_python_runtime/shape.py:65-95 | the loop computes the comparison the lemmas below are about |
| `Shape.ColumnsAreConserved` | continuo_python_runtime/shape.py:65-95 | per class of names equal up to case, the number missing is max(0, declared - live) and the number unexpected max(0, live - declared), in any order |
| `Shape.DifferencesAreReal` | continuo_python_runtime/shape.py:65-95 | every reported difference is there: a declared column, a live one, or two equal up to case with the two nullabilities reported |
| `Shape.EmptyDiffIsBijection` | continuo_python_runtime/shape.py:65-95 | an empty diff pairs each declared column with a live one of its own, same folded name and nullability, none left over |
| `Shape.EmptyDiffIffBijection` | continuo_python_runtime/shape.py:65-95 | on a table whose columns equal up to case are equally nullable, the diff is empty if and only if declared and live columns can be paired off, whatever is declared |
| `Shape.GateIsPairingIffUniform` | continuo_python_runtime/shape.py:65-95 | that uniformity of the live table is the exact condition: the diff is a pairing test for every declaration if and only if it holds |
| `Shape.CrossedIsReported` | continuo_python_runtime/shape.py:65-95 | on any other table, declaring its columns with two nullabilities exchanged is reported although a pairing exists |
| `Shape.EmptyDiffIffExact` | continuo_python_runtime/shape.py:65-95 | when every declared name occurs exactly, the diff is empty if and only if the live columns are the declared ones, names and nullability, in some order |
| `Shape.GreedyCanSteal` | continuo_python_runtime/shape.py:78-93 | a concrete such table where greedy folding takes a column that another name matches exactly |
| `Preconditions.TakesEveryRowIff` | continuo_python_runtime/harness.py:298-313 | an engine, resolving names through its own folding, takes everything conform can let through if and only if every declared name resolves and every NOT NULL column is resolved to by a non-nullable declared one |
| `Preconditions.CellOf` | continuo_python_runtime/harness.py:298-313 | a live column's cell comes from the declared column that resolves to it |
| `Preconditions.GateSuffices` | continuo_python_runtime/harness.py:298-313 | on an engine that takes for equal every declared and live name the check does, whatever else it tells apart, an empty diff establishes that, names differing in case included |
| `Preconditions.GateSufficesForAsciiNames` | continuo_python_runtime/harness.py:298-313 | so on ASCII names it does on DuckDB and Trino |
| `Preconditions.OpenGateRefused` | continuo_python_runtime/shape.py:78-85 | any two names the check takes for equal and the engine does not: the diff is empty and the engine refuses every write |
| `Preconditions.DuckDBKeepsAccentsApart` | adapters/duckdb/continuo_duckdb_adapter/infrastructure/ddl.py:31-42 | a pair of such names for DuckDB, which folds ASCII letters only |
| `Preconditions.GateSufficesForExactNames` | continuo_python_runtime/harness.py:298-313 | when the declared names occur letter for letter, an empty diff establishes it on every engine |
| `Preconditions.GateOnAFinerEngine` | continuo_python_runtime/harness.py:298-313 | on an engine folding less than the check, and a uniform table, an empty diff leaves exactly that every declared name resolves |
| `Preconditions.ConformedRowsAreAcceptedIff` | continuo_python_runtime/harness.py:298-313 | given conformed rows and an empty diff, Postgres takes the rows if and only if every declared name occurs letter for letter |
| `Preconditions.OpenGateCanBeRefused` | continuo_python_runtime/shape.py:78-85 | a declared `Rate` on a table with `rate` passes the shape check, and Postgres has no such column |
| `Preconditions.ChecksMakeTheWriteSafe` | continuo_python_runtime/harness.py:362-384 | where the names resolve no tighter than declared, loader, conform and key check leave the engine only rows it takes; all three mechanisms, at any page size, perform the same pure upsert of the resolved rows as stored whenever their keys are distinct as stored, with something to overwrite only then, and so whenever the engine keeps the values of the key columns apart |
| `Preconditions.ChecksSuffice` | continuo_python_runtime/harness.py:353-384 | so on an engine that takes for equal what the check does and keeps key values apart the harness's own checks are enough for every row to be taken and all three mechanisms to perform the same upsert |
| `Preconditions.ChecksSufficeOnPostgres` | continuo_python_runtime/harness.py:353-384 | on Postgres too, for names that occur letter for letter, and then of the rows as they are |
| `StoredForms.StoredAlikeIff` | adapters/postgres/continuo_postgres_adapter/adapter.py:396-411 | Postgres takes two cells for equal exactly when they are, or differ at most in the trailing blanks of a CHAR column |
| `StoredForms.TrimmedIs` | adapters/postgres/continuo_postgres_adapter/adapter.py:396-411 | what is left out of a CHAR value are its trailing blanks, all of them and nothing else |
| `StoredForms.CheckSpeaksForPostgresIff` | continuo_python_runtime/contract/loader.py:194-209 | the key check speaks for Postgres, whatever the rows, if and only if no key column is CHAR; the loader accepts such a key |
| `StoredForms.PostgresAgreesIff` | adapters/postgres/continuo_postgres_adapter/adapter.py:363-411 | with Postgres's stored rows the engines leave the pure upsert if and only if no two rows have the same key up to a CHAR column's trailing blanks |
| `StoredForms.ChecksSufficeUnlessChar` | continuo_python_runtime/harness.py:353-384 | the whole chain on Postgres: without a CHAR column in the key the harness's checks are enough |
| `StoredForms.BlankKeysPass` | continuo_python_runtime/conform.py:198-210 | a CHAR(2) key column with cells `a` and `a` blank passes the loader, conform and the key check |
| `StoredForms.BlankKeysOnPostgres` | adapters/postgres/continuo_postgres_adapter/adapter.py:363-411 | Postgres refuses the page that holds both rows, and with one row a page keeps only the second |
| `StoredForms.BlankKeysOnDuckDB` | adapters/duckdb/continuo_duckdb_adapter/infrastructure/ddl.py:223-253 | DuckDB, which has no CHAR of its own, stores both |
| `Harness.RunNode` | continuo_python_runtime/harness.py:316-425 | for every outcome of every call, `close` included: the calls made are the steps up to the first that raises, exactly one block is printed, the exit code is 0 exactly when it is a success, and `close` is called once exactly when an adapter was obtained; the block of the first call that raises names a HarnessError's own class, LoadError for anything else from the adapter, its config check and the write block, a repeated key there a ConformError, and ScriptError from every other call |
| `Harness.WriteBlock` | continuo_python_runtime/harness.py:370-391 | what leaves the write block is a HarnessError's own class, a ConformError for a repeated key and a LoadError for anything else, told from the last call |
| `Harness.CallsAreInOrder` | continuo_python_runtime/harness.py:316-391 | a call is made only after exactly the earlier steps, all of which returned |
| `Harness.WriteComesLast` | continuo_python_runtime/harness.py:353-384 | no write unless every other step returned, among them the capability check, conform, ensure_table and, for append and upsert, the shape check |
| `Harness.CalledOnlyAfter` | continuo_python_runtime/harness.py:345-384 | no config check before the adapter, no script run before config and capability check, no table touched before the output conformed, no shape compared before the table is there |
| `Harness.SuccessMeansAllReturned` | continuo_python_runtime/harness.py:392-393 | the success block is printed exactly when every call returned, the write included |
| `Harness.WriteDecides` | continuo_python_runtime/harness.py:370-391 | when every other call returned, how the write ended decides the printed block |
| `Harness.DuplicateKeyIsConformError` | continuo_python_runtime/harness.py:385-389 | a repeated key becomes a ConformError block |
| `NodeRun.RunUpsert` | continuo_python_runtime/harness.py:316-425 | an upsert node's run on any engine: exit 0 means every call returned and the target is the engine's upsert; a repeated key is a printed ConformError and an untouched catalog; a run that stops before its write leaves the catalog alone; any other failure of the write is a printed LoadError and leaves the table as it was or upserted |
| `NodeRun.SuccessIsThePureUpsert` | continuo_python_runtime/harness.py:353-384 | for an accepted key, conformed rows and a table through the shape check, names letter for letter and key values kept apart, that upsert is the pure one |
| `ConfigGraph.FitStep` | continuo_python_runtime/contract/loader.py:121-147 | a container is fit exactly when it is not being descended into, its keys are text, no leaf is foreign to JSON, and its children are fit one level further down |
| `ConfigGraph.Validator.Check` | continuo_python_runtime/contract/loader.py:121-147 | terminates on every finite heap graph, accepts exactly the fit values, and leaves `active` as it found it |
| `ConfigGraph.Validator.CheckItems` | continuo_python_runtime/contract/loader.py:121-147 | the items of one container in order, each key before its value |
| `ConfigGraph.ValidateConfig` | continuo_python_runtime/contract/loader.py:92-149 | accepts a mapping if and only if the graph reachable from it is acyclic and plain throughout; shared containers are accepted |
| `Closure.ResolveClosure` | continuo_python_runtime/closure.py:207-268 | terminates on every finite tree, import cycles included; returns, sorted and without repeats, exactly the files reachable from the script except the script; raises exactly when some reachable file does not parse or imports dynamically |
| `Closure.ImportsIff` | continuo_python_runtime/closure.py:134-230 | a file imports another exactly when it can be analysed and one of its statements binds a name (a module, a from-base with or without each alias, a relative base as many packages up as its dots say) that brings the other in: as the first package-then-module match over the repository's root and then the script's directory, or as the package file of a proper prefix of it |
| `Closure.Enqueue` | continuo_python_runtime/closure.py:243-266 | a new file inside the repository joins both the seen set and the queue; nothing else does |
| `Closure.ReachableIsLeast` | continuo_python_runtime/closure.py:207-268 | a reachable set that holds the script and is closed under imports is all that is reachable |
| `ImportPaths.Interpreter.EnsureImportPaths` | continuo_python_runtime/harness.py:88-122 | the in-place edit of `sys.path` is two moves to the front |
| `ImportPaths.RootsLead` | continuo_python_runtime/harness.py:88-122 | for every prior path the closure's search roots become its prefix, in order; every other entry keeps its relative order; a second call changes nothing |
| `ImportPaths.WithoutIs` | continuo_python_runtime/harness.py:88-122 | what RootsLead compares: left to right, the entries other than the two roots, all of them |
| `ImportPaths.RuntimeFindsTheHashedFile` | continuo_python_runtime/closure.py:184-204 | a package-then-module lookup over that path finds the very file the closure resolved the name to |
| `Json.ParsesBack` | continuo_python_runtime/hashing.py:54-56 | a JSON parser (sections 4 and 7 of RFC 8259) recovers every value from its canonical text, whatever follows |
| `Json.PrintInjective` | continuo_python_runtime/hashing.py:54-56 | distinct values print differently; key order plays no part |
| `Json.TwoMembers` | continuo_python_runtime/hashing.py:54-56 | members are printed in the order of their keys, with a colon and a comma and nothing else |
| `Json.ExampleText` | continuo_python_runtime/hashing.py:54-56 | one text byte for byte: sorted keys, no space, escapes and ASCII only |
| `Hashing.CanonicalizeEntry` | continuo_python_runtime/hashing.py:30-51 | popping the fields and rewriting the reads one by one computes the canonical entry |
| `Hashing.CanonicalEntryIsExact` | continuo_python_runtime/hashing.py:30-51 | two entries have one canonical form exactly when all keys but the four hashes and the timeout are in both or neither, with equal values, texts among the reads equal up to whitespace |
| `Hashing.BlanksSeparate` | continuo_python_runtime/hashing.py:45-50 | splitting at any run of blanks concatenates the tokens of what stands before and after it |
| `Hashing.SplittingIsTokens` | continuo_python_runtime/hashing.py:45-50 | whatever gives a blank text no tokens, a text without blanks itself, and splits at runs of blanks is the splitting modelled |
| `Hashing.CollapsedIsTidy` | continuo_python_runtime/hashing.py:45-50 | a collapsed text has the tokens it had, single spaces between them and no other blank |
| `Hashing.CollapseIsCanonical` | continuo_python_runtime/hashing.py:45-50 | collapsing whitespace identifies two reads exactly when their tokens agree, and is idempotent |
| `Hashing.CanonicalIdempotent` | continuo_python_runtime/hashing.py:30-51 | canonicalising twice is canonicalising once |
| `Hashing.CanonicalJsonIsExact` | continuo_python_runtime/hashing.py:54-56 | two entries share a canonical text exactly when their canonical entries are equal, and the entry can be read back from it |
| `Hashing.SharedCodeHashIsExact` | continuo_python_runtime/hashing.py:64-69 | equal exactly when the closures hold the same bytes, counted with multiplicity, order irrelevant |
| `Hashing.SharedCodeHashIs` | continuo_python_runtime/hashing.py:64-69 | nothing for an empty closure, else the digest of the concatenated member digests in ascending order |
| `Hashing.ConfigHashIsExact` | continuo_python_runtime/hashing.py:72-74 | equal exactly when the canonical entries are |
| `Hashing.FoldDecodes` | continuo_python_runtime/hashing.py:77-79 | the three parts can be read back from the folded text |
| `Hashing.ContentHashIsExact` | continuo_python_runtime/hashing.py:77-94 | equal exactly when source bytes, closure bytes (as a multiset) and canonical entries are |
| `Fingerprint.NodeEntryIs` | continuo_python_runtime/contract/merge.py:30-50 | which of the node's fields stands under which key |
| `Fingerprint.OptionalKeysAre` | continuo_python_runtime/contract/merge.py:51-58 | the last three keys are there exactly when they say something; the timeout and a declared hash have none |
| `Fingerprint.EntryIsExact` | continuo_python_runtime/contract/merge.py:17-59 | for loader-valid nodes the canonical entries agree exactly when the definitions do, up to the timeout, a declared hash and whitespace in reads |
| `Repository.ClosureIsUnique` | continuo_python_runtime/closure.py:207-268 | the closure is a function of the tree: two lists describing it are one list |
| `Repository.UnreachableEditIsInvisible` | continuo_python_runtime/contract/merge.py:128-136 | editing a file the script does not reach changes neither the closure nor anything the node is hashed from |
| `Repository.ScriptEditIsSeen` | continuo_python_runtime/contract/merge.py:128-136 | editing the script always changes the content hash, whatever it does to the closure |
| `Repository.ReachedEditIsSeen` | continuo_python_runtime/contract/merge.py:128-136 | editing a reached file changes the content hash if and only if it is the script, or its old bytes and those of the members it drops are not, counted, its new bytes and those of the members it gains |
| `Repository.SameMembersShow` | continuo_python_runtime/contract/merge.py:128-136 | an edit that keeps the member set is such an edit |
| `Repository.NewBytesShow` | continuo_python_runtime/contract/merge.py:128-136 | so is an edit to bytes no file of the tree had |
| `UnseenEdit.ReachedEditCanBeUnseen` | continuo_python_runtime/contract/merge.py:128-136 | a concrete reached edit that swaps one member for another and leaves every content hash as it was |
| `Repository.ScriptHashIsExact` | continuo_python_runtime/contract/merge.py:128-136 | two script nodes in any two trees share a hash exactly when script bytes, closure bytes and definitions agree |
| `Repository.CsvHashIsExact` | continuo_python_runtime/contract/merge.py:139-142 | a csv node's hash is decided by its uri and definition alone |
| `CsvHeader.ReadBounded` | continuo_python_runtime/csv_readers/https.py:50-65 | for every chunking, reads a prefix that is everything, holds a newline, or exceeds the limit |
| `CsvHeader.HeaderLineIs` | continuo_python_runtime/csv_source.py:48-67 | the header line is what stands before the first newline, or all of the object, without the carriage returns it ends in and nothing else taken; too long exactly beyond 1,048,576 bytes |
| `CsvHeader.BoundedReadSuffices` | continuo_python_runtime/csv_source.py:48-67 | a bounded read loses nothing the header line depends on |
| `CsvHeader.ProbeLoop` | continuo_python_runtime/csv_readers/s3.py:21-48 | the ranged loop (sections 14.2 and 15.5.17 of RFC 9110) returns the header line on exactly the objects `ProbesAgree` names, an unsatisfiable-range error or an over-long line on the others |
| `CsvHeader.AgreementIsExact` | continuo_python_runtime/csv_readers/s3.py:21-48 | outside that set the answer always differs from the header line |
| `CsvHeader.ExactProbeIsRefused` | continuo_python_runtime/csv_readers/s3.py:21-48 | 65,536 bytes without a newline are a header line elsewhere and a refused range here |
| `CsvHeader.LongLineIsReturned` | continuo_python_runtime/csv_readers/https.py:77-107 | 1,048,577 bytes without a newline are too long elsewhere and returned here |
| `CsvHeader.FetchHttps` | continuo_python_runtime/csv_readers/https.py:77-107 | with ranges ignored the header line of every object; with ranges honoured the probe loop's answer |
| `CsvHeader.FetchS3` | continuo_python_runtime/csv_readers/s3.py:21-48 | the probe loop, an empty object being an empty line |
| `SqlText.UndoubleDoubled` | adapters/duckdb/continuo_duckdb_adapter/infrastructure/ddl.py:27-28 | doubling a quote character is undone by reading up to a lone one, for every text and whatever follows |
| `SqlText.LexText` | adapters/duckdb/continuo_duckdb_adapter/infrastructure/ddl.py:27-46 | a statement put together from words, symbols, quoted identifiers and literals tokenizes (sections 5.2 and 5.3 of ISO/IEC 9075-2) to exactly those, whatever characters the names hold |
| `Statements.MergeFromUpserts` | adapters/duckdb/continuo_duckdb_adapter/infrastructure/ddl.py:223-253 | DuckDB's MERGE text, refused exactly for an empty key, is SQL exactly when there are columns to insert and no name is empty; read, it names exactly the given target and source and, carried out, is DuckDB's MERGE and the upsert |
| `Statements.MergeStatementUpserts` | adapters/trino/continuo_trino_adapter/adapter.py:272-291 | Trino's text, refused exactly for an empty identifier, is SQL exactly when there are a key and columns, and then, carried out as Trino does, is Trino's MERGE with its refusals and the upsert |
| `Statements.RenderedInsertAppends` | adapters/duckdb/continuo_duckdb_adapter/infrastructure/ddl.py:219-221 | the INSERT ... SELECT text of either adapter, SQL exactly when there are columns and no name is empty, adds every source row and changes nothing else |
| `Statements.MergePiecesReadBack` | adapters/duckdb/continuo_duckdb_adapter/infrastructure/ddl.py:223-253 | the statement's parts are recovered (target, source, ON pairs, assignments, columns, values), or nothing is read if a list or a name is empty |
| `Rendering.ReadsValue` | adapters/duckdb/continuo_duckdb_adapter/infrastructure/ddl.py:73-78 | a libpq value, quoted only when needed, reads back whatever it holds |
| `Rendering.ConninfoReadsBack` | adapters/duckdb/continuo_duckdb_adapter/infrastructure/ddl.py:104-113 | the connection string un-escapes to the original keyword/value list |
| `Rendering.AttachReadsBack` | adapters/duckdb/continuo_duckdb_adapter/infrastructure/ddl.py:97-122 | ATTACH reads back to the five connection settings under their keywords, a passfile in the password's place, catalog, data path and inlining limit it was rendered from |
| `Rendering.TemplateSplitsOnce` | adapters/postgres/continuo_postgres_adapter/adapter.py:383-393 | the percent-doubled template splits around exactly one placeholder into the original prefix and suffix |
| `IndexNames.DecodeOfCut` | adapters/postgres/continuo_postgres_adapter/adapter.py:121-144 | cutting UTF-8 bytes and decoding leniently keeps exactly the characters that fit whole (section 3 of RFC 3629) |
| `IndexNames.TruncatedIsLongestPrefix` | adapters/postgres/continuo_postgres_adapter/adapter.py:121-144 | the stored name is the longest prefix of whole characters within 63 bytes; a name that fits is itself |
| `IndexNames.DerivedNameIs` | adapters/postgres/continuo_postgres_adapter/adapter.py:147-180 | a derived name is `ix_`, the table and the columns joined by underscores, or the longest whole-character prefix of that within 54 bytes and eight digits of its digest |
| `IndexNames.DerivedNameFits` | adapters/postgres/continuo_postgres_adapter/adapter.py:147-180 | a derived name always fits 63 bytes |
| `IndexNames.OverlongNamesStayApart` | adapters/postgres/continuo_postgres_adapter/adapter.py:147-180 | over-long derived names whose digests differ in their first eight digits stay apart |
| `IndexNames.ValidatedIndexes` | adapters/postgres/continuo_postgres_adapter/adapter.py:183-305 | accepts a list exactly when every entry is acceptable and no two resolve to one stored name, and normalizes each entry |
| `IndexNames.NamesDistinct` | adapters/postgres/continuo_postgres_adapter/adapter.py:292-304 | the second loop finds a repeated stored name exactly when there is one |
| `IndexNames.AcceptedNamesFit` | adapters/postgres/continuo_postgres_adapter/adapter.py:183-305 | every accepted entry's stored name fits and its columns are declared and in the order given; unique exactly when so asked, and then btree; a hash index has one column |
| `IndexNames.CreatedNames` | adapters/postgres/continuo_postgres_adapter/adapter.py:797-807 | the relations that exist after the list are those before it and the listed names |
| `IndexNames.CreatedIffFree` | adapters/postgres/continuo_postgres_adapter/adapter.py:797-807 | CREATE INDEX IF NOT EXISTS creates an entry of an accepted list if and only if its name was free: no entry is lost to another |
| `IndexNames.LostOnAFreshTable` | adapters/postgres/continuo_postgres_adapter/adapter.py:771-807 | on a fresh table exactly the entries whose stored name is the table's stored name, or its PRIMARY KEY's index's, are silently skipped |
| `IndexNames.AnEntryCanBeLost` | adapters/postgres/continuo_postgres_adapter/adapter.py:183-305 | any explicit name cut to the table's stored name makes an accepted list whose entry is lost |
| `IndexNames.AnOverlongTableTakesItsPrefix` | adapters/postgres/continuo_postgres_adapter/adapter.py:183-305 | so does the 63-character prefix of an over-long ASCII table name |
| `Utf8.EncodeInjective` | continuo_python_runtime/hashing.py:59-79 | different texts are encoded to different bytes |
| `Utf8.ExampleBytes` | continuo_python_runtime/hashing.py:59-79 | a character of each length, byte for byte |
| `Order.StringLeqIs` | continuo_python_runtime/hashing.py:64-69 | the order digests and keys are sorted in is by the first character that differs, a prefix first |
| `Order.PathLeqIs` | continuo_python_runtime/closure.py:268 | paths are sorted component by component |

## Left out

- Trino.Catalog.Load: the source reports the exception of the failed statement; the model keeps only whether one was raised.
- Port.Upsert: takes the names of the rows as already resolved to the target's columns (Preconditions), and the target as existing; concurrent writers to the same table are not modelled.
- NodeRun.RunUpsert: `ensure_table` and the shape check happen in the world's steps, before the table the method starts from.
- StoredForms.PostgresForm: only blank padding is spelled out; what Trino makes of CHAR, and any other coercion, stays the parameter `Form`.
- ConfigGraph.ValidateConfig: a chain of aliases deeper than the interpreter's recursion limit makes the recursion raise RecursionError; the model's recursion has no limit.
- Postgres.Load: TRUNCATE is not MVCC-safe, so a session that took its snapshot before the load committed can see the table empty; only statements started afterwards or before are covered.
- Harness.RunNode: BaseException paths (a script raising SystemExit) are not caught by the code and are outside the one-block claim; log output is not modelled.
- Closure.ResolveClosure: namespace packages are not modelled, and what a file's bytes import, and whether they import dynamically, is given by a parameter.
- CsvHeader.ProbeLoop: a response shorter than the range it answers is only produced at the end of the object; decoding the line as UTF-8 with a byte-order mark is not modelled.
- CsvHeader.FetchHttps: one server answers every request of one object the same way; redirects and status codes other than 200, 206 and 416 are left out.
- Json.ParsesBack: floats are not part of the value type, and strings are sequences of Unicode scalar values, so lone surrogates are left out.
- IndexNames.DecodeOfCut: lenient decoding is modelled exactly for a cut of well-formed text, the only input it receives.
- EnsureTableRace.RaceIsSafe: conflicts arise only from concurrent creation; drops and layout statements of the creating transaction are inside its one commit.
- Conformance.ConformedTable: `to_arrow`, time zones and the Arrow cast itself are a parameter of the model.
- Rows.OverrideIsMapUpdate: column names are compared exactly; an engine's own folding enters where the checks hand the rows over, in Preconditions.
- Real connections, drivers, environment settings, reconnection, retry sleeps and error-text matching: string heuristics over driver messages.
- DDL other than index creation (schemas, clones, partitioning, sort orders), the type compiler and bind checks: no state beyond one statement.
- YAML parsing, sqlglot's single-read gate, lint rules, `build_wire_contract`'s document, the validation runner, the command line, `RunContext` and release scripts: plumbing or best-effort rules without a clean specification.
- S3 secret rendering, redaction of secrets and the passfile: only the round-trip statements about rendered text are modelled.

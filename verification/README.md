# MySQL-to-Snowflake copy job, modelled in Dafny

This project models the copy job in `scripts/snowflake_connector.py`. The job
lists the tables of a MySQL database and copies each of them into the `RAW`
schema of a Snowflake warehouse. It runs three phases, and each phase walks
the `SHOW TABLES` list in order:

1. **Provisioning** (`crear_tablas_snowflake`). For each table, the job reads
   the `DESCRIBE` lines. It translates every raw column type with a
   first-match-wins, case-sensitive substring test: `int`, then `float` or
   `double`, then `datetime`, and STRING otherwise. It then issues
   `CREATE TABLE IF NOT EXISTS RAW.<table> (<name> <TYPE>, ...)`.
2. **Loading** (`insertar_datos_snowflake`). For each table, the job builds
   one parameterised `INSERT` from the scan's column names. It streams the
   rows into a buffer. The buffer is written with `executemany` and
   committed whenever its length reaches `batch_size`, and once more for a
   non-empty remainder.
3. **Verification** (`verificar_integridad`). For each table, the job
   reports the source row count and the destination row count, and whether
   the two agree. It never changes anything.

The modules follow these phases:

| module | role |
|---|---|
| `Model` | The entities: column descriptors, source tables, destination types, destination tables, the warehouse, and the `MissingTable` error. |
| `Text` | Python's `sub in s`, and `', '.join` with its inverse reading `SplitList`. |
| `SchemaTranslator` | The type translator, plus a rule-table reference definition. |
| `Provisioner` | Column definitions, the CREATE text, and create-if-absent against the warehouse. |
| `BatchLoader` | The INSERT text, the batching loop as a method, its reference definition `Chunks`, and loading into the warehouse. |
| `IntegrityVerifier` | The per-table count reports. |
| `Migration` | The three phases in sequence, what a first or second run does, and the `orders` example. |

The model runs no SQL, so every warehouse interaction is abstract:

- The warehouse is a map from table name to columns and rows.
- A CREATE statement adds a key.
- An `executemany` appends rows.
- The loader returns its flushes as a log of `ExecuteMany` and `Commit` events.

Loading a table the warehouse lacks raises in the job. The model returns
`Failure(MissingTable(name))` instead. A table with no rows sends no INSERT,
so it never fails this way. Every batch is committed as soon as it is
written, so the error does not undo earlier tables: a run of loads returns
the warehouse the earlier commits left together with the error.

The type translator follows the code as written: it looks for the keywords
anywhere in the text and in lower case only. So `point`, `pointless` and
`bigint` are all INTEGER. `INT`, `timestamp` and `date` contain none of the
keywords and become STRING. The code has no anchored or word-boundary match,
so the model has none either.

Python's `len(batch) >= batch_size` is true for any buffered row when
`batch_size <= 0`. Such a size therefore behaves as 1, which
`EffectiveBatchSize` captures.

## Model

| member | source | states |
|---|---|---|
| SchemaTranslator.TranslateClassification | scripts/snowflake_connector.py:55-62 | Each of the four results holds exactly when its condition on the text holds. INTEGER holds iff the text contains `int`. FLOAT holds iff there is no `int` and there is `float` or `double`. TIMESTAMP holds iff none of those three is present and `datetime` is. STRING holds iff none of the four keywords is present. |
| SchemaTranslator.TranslateIsFirstMatch | scripts/snowflake_connector.py:55-62 | The translator equals the ordered rule table (`int`; `float`/`double`; `datetime`) read first-match-wins, with STRING as the fallback. |
| SchemaTranslator.FirstMatch | scripts/snowflake_connector.py:55-62 | Totality: a rule table always yields either the fallback or the target of one of its rules. |
| SchemaTranslator.IntegerWhateverSurrounds | scripts/snowflake_connector.py:55-56 | A text containing `int` is INTEGER whatever text surrounds it. |
| SchemaTranslator.TranslateDependsOnlyOnKeywords | scripts/snowflake_connector.py:55-62 | Two texts that agree on which of the four keywords they contain translate alike. |
| SchemaTranslator.IntegerByOccurrence | scripts/snowflake_connector.py:55-56 | An occurrence of `int` at any position gives INTEGER. |
| SchemaTranslator.FloatByOccurrence | scripts/snowflake_connector.py:55-58 | An occurrence of `float` or `double` in a text where `int` starts at no position gives FLOAT. |
| SchemaTranslator.TimestampByOccurrence | scripts/snowflake_connector.py:55-60 | An occurrence of `datetime` in a text where none of `int`, `float` and `double` starts at any position gives TIMESTAMP. |
| SchemaTranslator.StringByAbsence | scripts/snowflake_connector.py:55-62 | A text where none of the four keywords starts at any position gives STRING. |
| SchemaTranslator.SampleIntegerTypes | scripts/snowflake_connector.py:55-56 | `bigint`, `tinyint(1)`, `int(11) unsigned` and `point` are INTEGER. |
| SchemaTranslator.SampleFloatTypes | scripts/snowflake_connector.py:57-58 | `double` and `float(7,4)` are FLOAT. |
| SchemaTranslator.SampleDatetime | scripts/snowflake_connector.py:59-60 | `datetime` is TIMESTAMP. |
| SchemaTranslator.SampleVarchar | scripts/snowflake_connector.py:61-62 | `varchar(255)` is STRING. |
| SchemaTranslator.SampleCaseSensitive | scripts/snowflake_connector.py:55-62 | The match is case-sensitive: `int` is INTEGER and `INT` is STRING. |
| SchemaTranslator.SampleOtherTimeTypes | scripts/snowflake_connector.py:59-62 | Of the time types, `timestamp` and `date` fall through to STRING. |
| SchemaTranslator.SampleScatteredLetters | scripts/snowflake_connector.py:55-62 | `tinytext` holds the letters of `int` but not the word, and is STRING. |
| SchemaTranslator.SampleUnsignedFloat | scripts/snowflake_connector.py:55-58 | `float unsigned` is FLOAT. The text holds the letters `i`, `n` and `t` (the `t` from `float`), so no missing letter rules out `int`; the proof rules it out by position. |
| SchemaTranslator.SampleDatetimeWithSuffix | scripts/snowflake_connector.py:55-60 | `datetime fold` is TIMESTAMP, although it holds the letters of `float`. |
| Text.ContainsIffOccurs | scripts/snowflake_connector.py:55 | The left-to-right scan that models `sub in s` succeeds exactly when `sub` occurs at some position of `s`. |
| Text.ContainsInContext | scripts/snowflake_connector.py:55 | A contained substring stays contained after any prefix and suffix are added. |
| Text.SplitJoinRoundTrip | scripts/snowflake_connector.py:66 | `', '.join` of a non-empty list of comma-free items, read back, gives the same items in order. |
| Provisioner.ColumnDefs | scripts/snowflake_connector.py:53-64 | The column list has the length of the `DESCRIBE` result. Entry i carries name i and the translation of type i. |
| Provisioner.ColumnTexts | scripts/snowflake_connector.py:53-64 | One `<name> <TYPE>` text per column definition, in the same order. |
| Provisioner.CreateTextColumnList | scripts/snowflake_connector.py:64-66 | The CREATE text starts with its `CREATE TABLE IF NOT EXISTS RAW.<table> (` head. Its column list, read back, has one `<name> <TYPE>` entry per `DESCRIBE` line, in order, with the translated type. |
| Provisioner.CreateIfAbsent | scripts/snowflake_connector.py:66-67 | `IF NOT EXISTS` leaves an existing table untouched. Otherwise it adds an empty table with the given columns. No other table changes. |
| Provisioner.Provision | scripts/snowflake_connector.py:46-67 | Afterwards the warehouse holds the old tables plus every listed table, and every old table is unchanged. |
| Provisioner.ProvisionCreatesNewTables | scripts/snowflake_connector.py:49-67 | A listed table new to the warehouse is created empty, with its translated columns. |
| Provisioner.ProvisionIdempotent | scripts/snowflake_connector.py:66-67 | Provisioning twice is the same as provisioning once. |
| Provisioner.ProvisionNoOpWhenPresent | scripts/snowflake_connector.py:66-67 | Provisioning a warehouse that already holds every listed table changes nothing. |
| BatchLoader.InsertColumnsInScanOrder | scripts/snowflake_connector.py:80-83 | The INSERT text's column list, read back, is exactly the statement's column list, in order. `BuildInsert` takes that list from the scan, in scan order. |
| BatchLoader.InsertPlaceholderPerColumn | scripts/snowflake_connector.py:83 | `) VALUES (` follows the column list. The list after it, read back, is one `%s` per column. |
| BatchLoader.Placeholders | scripts/snowflake_connector.py:83 | `['%s'] * n` is n items, each `%s`. |
| BatchLoader.PlaceholdersRoundTrip | scripts/snowflake_connector.py:83 | The rendered `['%s'] * n` list reads back as n placeholders. |
| BatchLoader.EffectiveBatchSize | scripts/snowflake_connector.py:88 | The flush threshold is at least 1, and equals `batch_size` when that is positive. |
| BatchLoader.FlushTest | scripts/snowflake_connector.py:88 | For a non-empty buffer, `len(batch) >= batch_size` holds exactly when the buffer has reached the effective size. So `batch_size <= 0` flushes after every row. |
| BatchLoader.LoadTable | scripts/snowflake_connector.py:84-95 | The batching loop flushes exactly the reference batches `Chunks` of the rows, at the effective batch size. Its log is one `executemany` followed by one `commit` per batch, in order. The destination ends up as its old rows followed by the scanned rows. The `Chunks` lemmas below give the partition, size and count properties of those batches. |
| BatchLoader.Push | scripts/snowflake_connector.py:86-91 | One loop step buffers the row and flushes exactly when the buffer reaches the size. The flushed batches followed by the batching of the remaining rows stay the batching of the whole table. |
| BatchLoader.Flush | scripts/snowflake_connector.py:89-91 | A flush adds the buffer as the next batch, logs `executemany` then `commit`, and appends the buffer's rows to the destination. |
| BatchLoader.ChunksPartition | scripts/snowflake_connector.py:84-95 | No row is lost, duplicated or reordered: the batches concatenate to the input. |
| BatchLoader.ChunksWellSized | scripts/snowflake_connector.py:84-95 | Every batch has between 1 and `size` rows, and every batch but the last has exactly `size`. |
| BatchLoader.ChunksCount | scripts/snowflake_connector.py:84-95 | One batch per started group of `size` rows. |
| BatchLoader.ChunksCountIsCeiling | scripts/snowflake_connector.py:84-95 | The number of batches is (n + size - 1) / size. |
| BatchLoader.ChunksUnique | scripts/snowflake_connector.py:84-95 | The batching is the only partition of the rows into non-empty batches of at most `size` rows whose batches, except the last, are full. |
| BatchLoader.FlushLogCommits | scripts/snowflake_connector.py:89-95 | The flush log holds exactly one commit per batch. |
| BatchLoader.FlushLog | scripts/snowflake_connector.py:89-95 | The log has two events per batch: batch k is written at position 2k and committed at position 2k+1. |
| BatchLoader.InterruptedLoadKeepsWholeBatches | scripts/snowflake_connector.py:86-95 | If flush k raises, exactly the first k full batches (k * size rows) stay committed, which is fewer than the source rows. |
| BatchLoader.LoadTableInto | scripts/snowflake_connector.py:79-95 | The load fails exactly when the table has rows and the warehouse lacks it. Otherwise the table's rows become the old rows followed by the source rows, and nothing else changes. |
| BatchLoader.LoadAll | scripts/snowflake_connector.py:76-95 | A run of loads fails exactly when some listed table has rows and is missing from the warehouse. Every run keeps the set of tables. The result carries a warehouse on failure too; `LoadAllStopsAtFirstBlocked` states which. |
| BatchLoader.LoadAllStopsAtFirstBlocked | scripts/snowflake_connector.py:79-95 | A run names the first listed table that has rows and is missing. On failure the result still carries the warehouse the earlier commits left: the one the tables before that table produce when they load without error. |
| BatchLoader.LoadAllAppends | scripts/snowflake_connector.py:79-95 | Each listed table gets its source rows appended after its old rows, with no truncation or de-duplication. Tables that are not listed are unchanged. |
| IntegrityVerifier.Compare | scripts/snowflake_connector.py:109-119 | A report carries the table and both counts, and is matched exactly when the counts are equal. |
| IntegrityVerifier.Verify | scripts/snowflake_connector.py:105-119 | Verification succeeds exactly when every listed table is present, and otherwise names a missing one. On success it gives one report per listed table, in order, with the right counts and flag. |
| IntegrityVerifier.VerifyStopsAtFirstMissing | scripts/snowflake_connector.py:108-113 | Verification fails on the first listed table the warehouse lacks, and the error names that table. |
| Migration.Migrate | scripts/snowflake_connector.py:127-131 | A run always succeeds. Afterwards the warehouse holds the old tables plus every listed table, and there is one report per table. |
| Migration.MigratePhases | scripts/snowflake_connector.py:127-131 | A run's warehouse is the loaded warehouse after provisioning, and its reports are verification's reports on that warehouse. |
| Migration.MigrateAppends | scripts/snowflake_connector.py:127-131 | After a run, each table has its prior columns, or its translated columns if it is new. Its rows are its prior rows followed by the source rows. The report is matched exactly when the table held no rows before. |
| Migration.FreshMigrationMatches | scripts/snowflake_connector.py:127-131 | Into a warehouse without the listed tables, every table is copied exactly and every report matches. |
| Migration.RerunDoublesRows | scripts/snowflake_connector.py:127-131 | A second run duplicates every row. The destination count is twice the source count, and only empty tables still match. |
| Migration.InterruptedLoadMismatch | scripts/snowflake_connector.py:86-119 | After a load interrupted before its last flush, the destination count is the table's prior rows plus the whole batches committed. The report matches exactly when the prior rows make up the lost rows. Into a table that was empty, the report is short and not matched. |
| Migration.OrdersMigration | scripts/snowflake_connector.py:123-131 | Copying `orders` (int, double, datetime, varchar(255); 3 rows) into an empty warehouse gives INTEGER, FLOAT, TIMESTAMP and STRING columns, copies 3 rows, and reports 3 = 3, matched. |
| Migration.OrdersColumns | scripts/snowflake_connector.py:53-64 | The four `orders` columns translate to INTEGER, FLOAT, TIMESTAMP and STRING. |
| Migration.SampleLoads | scripts/snowflake_connector.py:84-95 | Five rows at batch size 2 give batches of 2, 2 and 1 and three commits. An empty table gives no batch. |

## Left out

- Connections and credentials (lines 5-28): these come from foreign client libraries and environment variables.
- `configurar_snowflake` (lines 32-38): its fixed CREATE/USE statements contain no logic. The model starts with the `RAW` schema present.
- Executing SQL: the model takes the query results as inputs. Table lists, `DESCRIBE` lines, scan column names and rows are given sequences. Statements become warehouse updates and logged events.
- Identifier quoting and SQL injection: names are spliced into the text unquoted. The read-back lemmas assume column names without commas, as unquoted identifiers are.
- Value conversion by the warehouse: rows are stored as given. A value the destination column type would reject is not modelled.
- Warehouse failures other than those on a missing table. Two of those are modelled as `MissingTable`: writing into it with `executemany` during loading (`LoadTableInto`, `LoadAll`), and counting it with `SELECT COUNT(*)` during verification (`Verify`). An interrupted load is modelled as "flush k raises" (`CommittedBeforeFailure`). No other statement failure is modelled.
- A source database that changes during the run. The job queries MySQL afresh in every phase: `SHOW TABLES` at lines 46, 76 and 105, `DESCRIBE` at line 50, the scan at line 80 and `SELECT COUNT(*)` at line 109. The model reads every source table (name, `DESCRIBE` lines, rows) once and gives that one copy to all three phases. So the source count of line 109 is the number of rows the loader scanned, and a write to MySQL between the scan and the count, or between the `DESCRIBE` and the scan, is not modelled.
- Migration.MigrateAppends: its report clause holds only for a source that no one writes to during the run, since the model's source count is the scanned row count.
- Migration.FreshMigrationMatches: "every report matches" holds only for a source that no one writes to during the run.
- Migration.RerunDoublesRows: the doubled counts hold only for a source that no one writes to during either run.
- `print` progress messages and emoji output: these are console output only.
- The `__main__` try/finally that closes both connections (lines 123-135): this is I/O lifecycle with nothing to state beyond "close always runs".
- BatchLoader.LoadAllAppends: stated only for distinct table names, which `SHOW TABLES` guarantees. With a repeated name, the job would append that table's rows twice.
- Table names are compared exactly, case included. Snowflake folds unquoted identifiers to upper case, so two MySQL tables whose names differ only in letter case (`Orders` and `orders`) would share one destination table. There the `CREATE ... IF NOT EXISTS` of the second is a no-op and its rows are appended to the first's. The model keys the warehouse by the exact name. Migration.FreshMigrationMatches and BatchLoader.LoadAllAppends therefore hold only for names that stay distinct after case folding.
- Migration.Migrate: its `Success` relies on provisioning creating every listed table first. A warehouse whose CREATE could fail is not modelled.

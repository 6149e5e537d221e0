/** The job's entry point: provision every table, load every table, then
    verify every table, against one source database and one warehouse. */
module Migration {
  import opened Model
  import opened SchemaTranslator
  import opened Provisioner
  import opened BatchLoader
  import opened IntegrityVerifier

  /** The batch size the entry point uses. */
  const DefaultBatchSize: int := 1000

  /** The warehouse after the run and the integrity reports it printed. */
  datatype Outcome = Outcome(warehouse: Warehouse, reports: seq<Report>)

  /** Provisioning, loading and verification, in that order; a failure of
      any phase ends the run. */
  function Migrate(db: Database, w: Warehouse, batchSize: int): (r: Result<Outcome>)
    ensures r.Success?
    ensures r.value.warehouse.Keys == w.Keys + set t | t in db :: t.name
    ensures |r.value.reports| == |db|
  {
    var provisioned := Provision(db, w);
    var run := LoadAll(db, provisioned, batchSize);
    match run.failure
    case Some(e) => Failure(e)
    case None =>
      var loaded := run.warehouse;
      match Verify(db, loaded)
      case Failure(e) => Failure(e)
      case Success(reports) => Success(Outcome(loaded, reports))
  }

  /** The rows a destination table held before the run (none if absent). */
  function PriorRows(w: Warehouse, table: string): seq<Row>
  {
    if table in w then w[table].rows else []
  }

  /** What a run does to each listed table: a table that existed keeps its
      columns, a new one gets the translated source columns; either way the
      source rows are appended after the rows it already held, and the report
      compares the source count with that sum, matching exactly when the
      table held no rows before. */
  lemma MigrateAppends(db: Database, w: Warehouse, batchSize: int, i: int)
    requires UniqueNames(db)
    requires 0 <= i < |db|
    ensures var out := Migrate(db, w, batchSize).value;
      var name := db[i].name;
      && out.warehouse[name].columns == (if name in w then w[name].columns else ColumnDefs(db[i].columns))
      && out.warehouse[name].rows == PriorRows(w, name) + db[i].rows
      && out.reports[i] == Report(name, |db[i].rows|, |PriorRows(w, name)| + |db[i].rows|, |PriorRows(w, name)| == 0)
  {
    var name := db[i].name;
    LoadedTable(db, w, batchSize, i);
    var loaded := LoadAll(db, Provision(db, w), batchSize).warehouse;
    MigratePhases(db, w, batchSize);
    var reports := Verify(db, loaded).value;
    assert reports[i] == Report(name, |db[i].rows|, |PriorRows(w, name)| + |db[i].rows|, |PriorRows(w, name)| == 0);
  }

  /** The table a listed source table finds after provisioning and loading. */
  lemma LoadedTable(db: Database, w: Warehouse, batchSize: int, i: int)
    requires UniqueNames(db)
    requires 0 <= i < |db|
    ensures var name := db[i].name;
      var loaded := LoadAll(db, Provision(db, w), batchSize);
      && loaded.failure.None?
      && loaded.warehouse[name] == DestTable(
           if name in w then w[name].columns else ColumnDefs(db[i].columns),
           PriorRows(w, name) + db[i].rows)
  {
    var provisioned := Provision(db, w);
    ProvisionedTable(db, w, i);
    assert forall t :: t in db ==> t.name in provisioned;
    LoadAllAppends(db, provisioned, batchSize);
  }

  /** The table a listed source table finds after provisioning. */
  lemma ProvisionedTable(db: Database, w: Warehouse, i: int)
    requires UniqueNames(db)
    requires 0 <= i < |db|
    ensures var name := db[i].name;
      Provision(db, w)[name]
        == if name in w then w[name] else DestTable(ColumnDefs(db[i].columns), [])
  {
    assert db[i] in db;
    if db[i].name !in w {
      ProvisionCreatesNewTables(db, w, i);
    }
  }

  /** A run's outcome is the loaded warehouse and the reports on it. */
  lemma MigratePhases(db: Database, w: Warehouse, batchSize: int)
    ensures var loaded := LoadAll(db, Provision(db, w), batchSize);
      && loaded.failure.None?
      && Verify(db, loaded.warehouse).Success?
      && Migrate(db, w, batchSize).value == Outcome(loaded.warehouse, Verify(db, loaded.warehouse).value)
  {
  }

  /** Into a warehouse that holds none of the listed tables, a run copies
      every table exactly: translated columns, the source rows in scan order,
      and a matching report for every table. */
  lemma FreshMigrationMatches(db: Database, w: Warehouse, batchSize: int)
    requires UniqueNames(db)
    requires forall t :: t in db ==> t.name !in w
    ensures var out := Migrate(db, w, batchSize).value;
      forall i :: 0 <= i < |db| ==>
        && out.warehouse[db[i].name] == DestTable(ColumnDefs(db[i].columns), db[i].rows)
        && out.reports[i].matched
  {
    forall i | 0 <= i < |db|
      ensures var out := Migrate(db, w, batchSize).value;
        && out.warehouse[db[i].name] == DestTable(ColumnDefs(db[i].columns), db[i].rows)
        && out.reports[i].matched
    {
      assert db[i] in db;
      MigrateAppends(db, w, batchSize, i);
      assert [] + db[i].rows == db[i].rows;
    }
  }

  /** Running the job a second time duplicates every row: loading neither
      truncates nor de-duplicates, so each destination count becomes twice
      the source count and only empty tables still match. */
  lemma RerunDoublesRows(db: Database, w: Warehouse, batchSize: int, i: int)
    requires UniqueNames(db)
    requires forall t :: t in db ==> t.name !in w
    requires 0 <= i < |db|
    ensures var first := Migrate(db, w, batchSize).value;
      var second := Migrate(db, first.warehouse, batchSize).value;
      && second.warehouse[db[i].name].rows == db[i].rows + db[i].rows
      && second.reports[i].destCount == 2 * second.reports[i].sourceCount
      && (second.reports[i].matched <==> |db[i].rows| == 0)
  {
    var first := Migrate(db, w, batchSize).value;
    assert db[i] in db;
    MigrateAppends(db, w, batchSize, i);
    assert PriorRows(w, db[i].name) == [];
    assert [] + db[i].rows == db[i].rows;
    MigrateAppends(db, first.warehouse, batchSize, i);
  }

  /** A load interrupted at flush number `failing`, before the last flush,
      into a table that already held `prior` rows: the destination count is
      the prior rows plus the whole batches committed, so the report matches
      exactly when the prior rows make up for the lost batches; into a table
      that was empty, the table is reported short and not matched. */
  lemma InterruptedLoadMismatch(t: SourceTable, prior: seq<Row>, batchSize: int, failing: nat)
    requires failing < |Chunks(t.rows, EffectiveBatchSize(batchSize))|
    ensures var committed := CommittedBeforeFailure(t.rows, batchSize, failing);
      var r := Compare(t.name, |t.rows|, |prior + committed|);
      && r.destCount == |prior| + failing * EffectiveBatchSize(batchSize)
      && (r.matched <==> |prior| == |t.rows| - failing * EffectiveBatchSize(batchSize))
      && (prior == [] ==> r.destCount < r.sourceCount && !r.matched)
  {
    InterruptedLoadKeepsWholeBatches(t.rows, batchSize, failing);
  }

  /** The sample `orders` table: four columns of four kinds and three rows. */
  const Orders: SourceTable := SourceTable(
    "orders",
    [ ColumnDescriptor("id", "int"),
      ColumnDescriptor("total", "double"),
      ColumnDescriptor("created_at", "datetime"),
      ColumnDescriptor("note", "varchar(255)") ],
    [ [IntValue(1), TextValue("12.50"), TextValue("2024-01-01 10:00:00"), TextValue("first")],
      [IntValue(2), TextValue("3.99"), TextValue("2024-01-02 11:30:00"), Null],
      [IntValue(3), TextValue("7.00"), TextValue("2024-01-03 09:15:00"), TextValue("gift")] ])

  /** Copying `orders` into an empty warehouse creates `RAW.orders` with
      INTEGER, FLOAT, TIMESTAMP and STRING columns, copies the three rows and
      reports 3 = 3, matched. */
  lemma OrdersMigration()
    ensures var out := Migrate([Orders], map[], DefaultBatchSize).value;
      && out.warehouse["orders"].columns == [
           ColumnDef("id", Integer), ColumnDef("total", Float),
           ColumnDef("created_at", Timestamp), ColumnDef("note", String) ]
      && |out.warehouse["orders"].rows| == 3
      && out.reports == [Report("orders", 3, 3, true)]
  {
    var db := [Orders];
    MigrateAppends(db, map[], DefaultBatchSize, 0);
    OrdersColumns();
  }

  /** The translated columns of `orders`. */
  lemma OrdersColumns()
    ensures ColumnDefs(Orders.columns) == [
      ColumnDef("id", Integer), ColumnDef("total", Float),
      ColumnDef("created_at", Timestamp), ColumnDef("note", String) ]
  {
    var cols := Orders.columns;
    ColumnDefsOfFour(cols[0], cols[1], cols[2], cols[3]);
    assert cols == [cols[0], cols[1], cols[2], cols[3]];
    IntegerByOccurrence("int", 0);
    SampleFloatTypes();
    SampleDatetime();
    SampleVarchar();
  }

  /** A four-column list translates column by column. */
  lemma ColumnDefsOfFour(a: ColumnDescriptor, b: ColumnDescriptor, c: ColumnDescriptor, d: ColumnDescriptor)
    ensures ColumnDefs([a, b, c, d]) == [Define(a), Define(b), Define(c), Define(d)]
  {
    assert [a, b, c, d][..3] == [a, b, c];
    assert [a, b, c][..2] == [a, b];
    assert [a, b][..1] == [a];
    assert [a][..0] == [];
  }

  /** The sample loads of the batch loader: five rows with batch size 2 are
      written as batches of 2, 2 and 1 with three commits; an empty table is
      written with no batch at all. */
  method SampleLoads()
    returns (fiveRowBatches: seq<seq<Row>>, fiveRowCommits: nat, emptyBatches: seq<seq<Row>>)
    ensures |fiveRowBatches| == 3 && fiveRowCommits == 3
    ensures |fiveRowBatches[0]| == 2 && |fiveRowBatches[1]| == 2 && |fiveRowBatches[2]| == 1
    ensures emptyBatches == []
  {
    var rows: seq<Row> := [[IntValue(1)], [IntValue(2)], [IntValue(3)], [IntValue(4)], [IntValue(5)]];
    var log, destRows;
    fiveRowBatches, log, destRows := LoadTable("t", ["id"], rows, 2, []);
    fiveRowCommits := CommitCount(log);
    FlushLogCommits(BuildInsert("t", ["id"]), fiveRowBatches);
    emptyBatches, log, destRows := LoadTable("t", ["id"], [], DefaultBatchSize, []);
  }
}

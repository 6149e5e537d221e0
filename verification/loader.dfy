/** The batch loader `insertar_datos_snowflake`: per table, one parameterised
    INSERT text built from the scan's column list, then the scanned rows
    streamed into a buffer that is written with `executemany` and committed
    whenever it reaches `batch_size`, and once more for a non-empty remainder. */
module BatchLoader {
  import opened Model
  import opened Text

  /** `INSERT INTO <schema>.<table> (<columns>) VALUES (%s, ...)`, one
      placeholder per column. */
  datatype Insert = Insert(schema: string, table: string, columns: seq<string>)

  /** The statement for a table whose full scan reported `scanColumns`. */
  function BuildInsert(table: string, scanColumns: seq<string>): Insert
  {
    Insert(DestSchema, table, scanColumns)
  }

  /** `['%s'] * n`. */
  function Placeholders(n: nat): (p: seq<string>)
    ensures |p| == n
    ensures forall i :: 0 <= i < n ==> p[i] == "%s"
  {
    if n == 0 then [] else Placeholders(n - 1) + ["%s"]
  }

  function InsertHead(ins: Insert): string
  {
    "INSERT INTO " + ins.schema + "." + ins.table + " ("
  }

  const ValuesKeyword: string := ") VALUES ("

  /** The statement text as the job sends it. */
  function InsertText(ins: Insert): string
  {
    InsertHead(ins) + Join(ins.columns, ListSep) + ValuesKeyword
      + Join(Placeholders(|ins.columns|), ListSep) + ")"
  }

  /** The INSERT text names its columns in order: read back, the column list
      between the head and the VALUES keyword is exactly the statement's
      column list, which `BuildInsert` takes from the scan in scan order. */
  lemma InsertColumnsInScanOrder(ins: Insert)
    requires |ins.columns| > 0
    requires forall i :: 0 <= i < |ins.columns| ==> ',' !in ins.columns[i]
    ensures var text := InsertText(ins);
      var a := |InsertHead(ins)|;
      var b := a + |Join(ins.columns, ListSep)|;
      SplitList(text[a..b]) == ins.columns
  {
    var head, columns := InsertHead(ins), Join(ins.columns, ListSep);
    var rest := ValuesKeyword + Join(Placeholders(|ins.columns|), ListSep) + ")";
    assert InsertText(ins) == (head + columns) + rest;
    SliceOfPrefix(head + columns, rest, |head|, |head| + |columns|);
    ReadBackEnclosed(head, ins.columns, "");
    assert head + columns + "" == head + columns;
  }

  /** The INSERT text carries exactly one `%s` per column: `) VALUES (`
      follows the column list, and the list after it, read back, holds as
      many placeholders as there are columns. */
  lemma InsertPlaceholderPerColumn(ins: Insert)
    requires |ins.columns| > 0
    ensures var text := InsertText(ins);
      var c := |InsertHead(ins)| + |Join(ins.columns, ListSep)| + |ValuesKeyword|;
      && text[c - |ValuesKeyword|..c] == ValuesKeyword
      && SplitList(text[c..|text| - 1]) == Placeholders(|ins.columns|)
  {
    var head, columns := InsertHead(ins), Join(ins.columns, ListSep);
    var marks := Placeholders(|ins.columns|);
    ThirdOfFive(head, columns, ValuesKeyword, Join(marks, ListSep), ")");
    PlaceholdersCommaFree(|ins.columns|);
    ReadBackEnclosed(head + columns + ValuesKeyword, marks, ")");
  }

  /** No placeholder holds a comma. */
  lemma PlaceholdersCommaFree(n: nat)
    ensures forall k :: 0 <= k < n ==> ',' !in Placeholders(n)[k]
  {
    forall k | 0 <= k < n
      ensures ',' !in Placeholders(n)[k]
    {
      assert Placeholders(n)[k] == "%s";
    }
  }

  /** The rendered placeholder list reads back as `n` placeholders. */
  lemma PlaceholdersRoundTrip(n: nat)
    requires n > 0
    ensures SplitList(Join(Placeholders(n), ListSep)) == Placeholders(n)
  {
    PlaceholdersCommaFree(n);
    SplitJoinRoundTrip(Placeholders(n));
  }

  /** What the loader sends to the warehouse connection. */
  datatype Event = ExecuteMany(statement: Insert, rows: seq<Row>) | Commit

  /** The rows a sequence of batches carries, in flush order. */
  function Flatten(batches: seq<seq<Row>>): seq<Row>
  {
    if batches == [] then [] else batches[0] + Flatten(batches[1..])
  }

  lemma {:induction false} FlattenAppend(batches: seq<seq<Row>>, b: seq<Row>)
    ensures Flatten(batches + [b]) == Flatten(batches) + b
    decreases |batches|
  {
    if batches == [] {
      assert [] + [b] == [b];
    } else {
      assert (batches + [b])[1..] == batches[1..] + [b];
      FlattenAppend(batches[1..], b);
    }
  }

  /** The number of rows the buffer must reach before it is flushed: Python's
      `len(batch) >= batch_size` with a non-positive `batch_size` holds as
      soon as one row is buffered, so such a size behaves as 1. */
  function EffectiveBatchSize(batchSize: int): (e: nat)
    ensures e >= 1
    ensures batchSize >= 1 ==> e == batchSize
  {
    if batchSize >= 1 then batchSize else 1
  }

  /** A non-empty buffer reaches `batchSize` exactly when it reaches the
      effective batch size. */
  lemma FlushTest(bufferLength: nat, batchSize: int)
    requires bufferLength >= 1
    ensures bufferLength >= batchSize <==> bufferLength >= EffectiveBatchSize(batchSize)
  {
  }

  /** Reference definition of the batching: consecutive slices of `size` rows,
      the last one holding what is left. */
  function Chunks(rows: seq<Row>, size: nat): seq<seq<Row>>
    requires size >= 1
    decreases |rows|
  {
    if |rows| == 0 then []
    else if |rows| <= size then [rows]
    else [rows[..size]] + Chunks(rows[size..], size)
  }

  /** A full buffer followed by more rows is cut off as one batch. */
  lemma ChunksFullFirst(b: seq<Row>, rest: seq<Row>, size: nat)
    requires size >= 1 && |b| == size
    ensures Chunks(b + rest, size) == [b] + Chunks(rest, size)
  {
    var s := b + rest;
    if |rest| == 0 {
      assert s == b;
    } else {
      assert s[..size] == b && s[size..] == rest;
    }
  }

  /** No row is lost, duplicated or reordered by the batching. */
  lemma {:induction false} ChunksPartition(rows: seq<Row>, size: nat)
    requires size >= 1
    ensures Flatten(Chunks(rows, size)) == rows
    decreases |rows|
  {
    if |rows| > size {
      ChunksPartition(rows[size..], size);
      assert rows[..size] + rows[size..] == rows;
    }
  }

  /** Every batch is non-empty and at most `size` long, and every batch but
      the last is exactly `size` long. */
  predicate WellSized(batches: seq<seq<Row>>, size: nat)
  {
    && (forall k :: 0 <= k < |batches| ==> 0 < |batches[k]| <= size)
    && (forall k :: 0 <= k < |batches| - 1 ==> |batches[k]| == size)
  }

  lemma {:induction false} ChunksWellSized(rows: seq<Row>, size: nat)
    requires size >= 1
    ensures WellSized(Chunks(rows, size), size)
    decreases |rows|
  {
    if |rows| > size {
      ChunksWellSized(rows[size..], size);
      var tail := Chunks(rows[size..], size);
      assert Chunks(rows, size) == [rows[..size]] + tail;
      assert forall k :: 1 <= k < |tail| + 1 ==> ([rows[..size]] + tail)[k] == tail[k - 1];
    }
  }

  /** ceil(n / d), counted by repeated subtraction. */
  function CeilDiv(n: nat, d: nat): nat
    requires d >= 1
    decreases n
  {
    if n == 0 then 0 else if n <= d then 1 else 1 + CeilDiv(n - d, d)
  }

  /** The counting definition is the ceiling of the quotient. */
  lemma {:induction false} CeilDivIsCeiling(n: nat, d: nat)
    requires d >= 1
    ensures CeilDiv(n, d) == (n + d - 1) / d
    decreases n
  {
    if n == 0 {
      DivBetween(d - 1, d, 0);
    } else if n <= d {
      DivBetween(n + d - 1, d, 1);
    } else {
      CeilDivIsCeiling(n - d, d);
      assert n - d + d - 1 == n - 1;
      DivShift(n - 1, d);
    }
  }

  /** Adding the divisor adds one to the quotient. */
  lemma DivShift(x: nat, d: nat)
    requires d >= 1
    ensures (x + d) / d == x / d + 1
  {
    DivBounds(x, d);
    DivBetween(x + d, d, x / d + 1);
  }

  /** One batch per started `size` rows. */
  lemma {:induction false} ChunksCount(rows: seq<Row>, size: nat)
    requires size >= 1
    ensures |Chunks(rows, size)| == CeilDiv(|rows|, size)
    decreases |rows|
  {
    if |rows| > size {
      ChunksCount(rows[size..], size);
    }
  }

  /** The number of batches is ceil(n / size). */
  lemma ChunksCountIsCeiling(rows: seq<Row>, size: nat)
    requires size >= 1
    ensures |Chunks(rows, size)| == (|rows| + size - 1) / size
  {
    ChunksCount(rows, size);
    CeilDivIsCeiling(|rows|, size);
  }

  lemma DivBounds(x: nat, d: nat)
    requires d >= 1
    ensures (x / d) * d <= x < (x / d) * d + d
  {
  }

  lemma MulMonotone(a: int, b: int, d: nat)
    requires a <= b
    ensures a * d <= b * d
  {
  }

  /** Euclidean division is determined by its bounds. */
  lemma DivBetween(x: nat, d: nat, q: nat)
    requires d >= 1 && q * d <= x < q * d + d
    ensures x / d == q
  {
    DivBounds(x, d);
    var r := x / d;
    if r < q {
      MulMonotone(r + 1, q, d);
    } else if r > q {
      MulMonotone(q + 1, r, d);
    }
  }

  /** The batching is the only well-sized partition of the rows: any batches
      that concatenate to the rows, are non-empty, hold at most `size` rows
      and are all full but the last coincide with `Chunks`. */
  lemma {:induction false} ChunksUnique(batches: seq<seq<Row>>, rows: seq<Row>, size: nat)
    requires size >= 1
    requires Flatten(batches) == rows && WellSized(batches, size)
    ensures batches == Chunks(rows, size)
    decreases |batches|
  {
    if batches != [] {
      var tail := batches[1..];
      assert WellSized(tail, size) by {
        assert forall k :: 0 <= k < |tail| ==> tail[k] == batches[k + 1];
      }
      if |batches| == 1 {
        assert rows == batches[0];
      } else {
        assert |batches[0]| == size;
        assert Flatten(tail) != [] by {
          assert |tail[0]| > 0;
        }
        assert rows == batches[0] + Flatten(tail);
        assert rows[..size] == batches[0] && rows[size..] == Flatten(tail);
        ChunksUnique(tail, Flatten(tail), size);
      }
    }
  }

  /** The event log of flushing `batches`: each batch written with one
      `executemany` and committed immediately after. */
  function FlushLog(ins: Insert, batches: seq<seq<Row>>): (log: seq<Event>)
    ensures |log| == 2 * |batches|
    ensures forall k :: 0 <= k < |batches| ==>
      log[2 * k] == ExecuteMany(ins, batches[k]) && log[2 * k + 1] == Commit
  {
    if batches == [] then []
    else FlushLog(ins, batches[..|batches| - 1]) + [ExecuteMany(ins, batches[|batches| - 1]), Commit]
  }

  function CommitCount(log: seq<Event>): nat
  {
    if log == [] then 0 else (if log[0] == Commit then 1 else 0) + CommitCount(log[1..])
  }

  lemma {:induction false} CommitCountAppend(log: seq<Event>, more: seq<Event>)
    ensures CommitCount(log + more) == CommitCount(log) + CommitCount(more)
    decreases |log|
  {
    if log == [] {
      assert log + more == more;
    } else {
      assert (log + more)[1..] == log[1..] + more;
      CommitCountAppend(log[1..], more);
    }
  }

  /** One commit per flushed batch. */
  lemma {:induction false} FlushLogCommits(ins: Insert, batches: seq<seq<Row>>)
    ensures CommitCount(FlushLog(ins, batches)) == |batches|
    decreases |batches|
  {
    if batches != [] {
      var front := batches[..|batches| - 1];
      var pair := [ExecuteMany(ins, batches[|batches| - 1]), Commit];
      FlushLogCommits(ins, front);
      CommitCountAppend(FlushLog(ins, front), pair);
      assert CommitCount(pair) == 1 by {
        assert pair[1..] == [Commit] && [Commit][1..] == [];
      }
    }
  }

  /** Loads one table. `rows` are the scanned rows in cursor order,
      `scanColumns` the scan's column names, `dest` the destination rows
      before the load. Returns the batches in flush order, the events sent,
      and the destination rows after the load. */
  method LoadTable(table: string, scanColumns: seq<string>, rows: seq<Row>, batchSize: int, dest: seq<Row>)
    returns (batches: seq<seq<Row>>, log: seq<Event>, destRows: seq<Row>)
    ensures batches == Chunks(rows, EffectiveBatchSize(batchSize))
    ensures log == FlushLog(BuildInsert(table, scanColumns), batches)
    ensures destRows == dest + rows
  {
    var size := EffectiveBatchSize(batchSize);
    var ins := BuildInsert(table, scanColumns);
    batches, log, destRows := [], [], dest;
    var batch: seq<Row> := [];
    var i := 0;
    assert batch + rows[i..] == rows;
    while i < |rows|
      invariant 0 <= i <= |rows|
      invariant |batch| < size
      invariant Chunks(rows, size) == batches + Chunks(batch + rows[i..], size)
      invariant log == FlushLog(ins, batches)
      invariant destRows == dest + Flatten(batches)
    {
      BufferRow(batch, rows, i);
      batch, batches, log, destRows := Push(ins, batchSize, rows[i], rows[i + 1..], Chunks(rows, size),
                                            batch, batches, log, destRows, dest);
      i := i + 1;
    }
    assert batch + rows[i..] == batch;
    if |batch| > 0 {
      batches, log, destRows := Flush(ins, batch, batches, log, destRows, dest);
    }
    ChunksPartition(rows, size);
  }

  /** One iteration of the scan loop: the row joins the buffer, and a buffer
      that has reached `batchSize` is flushed and emptied. The flushed
      batches followed by the batching of the buffered and pending rows stay
      the batching of the whole table. The step is a method of its own, with
      the loop invariant as its contract, so that the proof of one iteration
      is checked apart from the proof of the loop; the ghost parameters carry
      the invariant's terms and play no part in what is written. */
  method Push(ins: Insert, batchSize: int, row: Row, ghost pending: seq<Row>, ghost total: seq<seq<Row>>,
              batch: seq<Row>, batches: seq<seq<Row>>, log: seq<Event>, destRows: seq<Row>, ghost dest: seq<Row>)
    returns (batch': seq<Row>, batches': seq<seq<Row>>, log': seq<Event>, destRows': seq<Row>)
    requires |batch| < EffectiveBatchSize(batchSize)
    requires total == batches + Chunks(batch + [row] + pending, EffectiveBatchSize(batchSize))
    requires log == FlushLog(ins, batches)
    requires destRows == dest + Flatten(batches)
    ensures |batch'| < EffectiveBatchSize(batchSize)
    ensures batch' == [] <==> |batch| + 1 >= EffectiveBatchSize(batchSize)
    ensures total == batches' + Chunks(batch' + pending, EffectiveBatchSize(batchSize))
    ensures log' == FlushLog(ins, batches')
    ensures destRows' == dest + Flatten(batches')
  {
    batch', batches', log', destRows' := batch + [row], batches, log, destRows;
    FlushTest(|batch'|, batchSize);
    if |batch'| >= batchSize {
      FlushKeepsChunks(total, batches, batch', pending, EffectiveBatchSize(batchSize));
      batches', log', destRows' := Flush(ins, batch', batches, log, destRows, dest);
      batch' := [];
    }
  }

  /** One flush, `executemany` of the buffer followed by `commit`: the
      buffer joins the flushed batches, its two events join the log and its
      rows are appended to the destination. */
  method Flush(ins: Insert, batch: seq<Row>, batches: seq<seq<Row>>, log: seq<Event>,
               destRows: seq<Row>, ghost dest: seq<Row>)
    returns (batches': seq<seq<Row>>, log': seq<Event>, destRows': seq<Row>)
    requires log == FlushLog(ins, batches)
    requires destRows == dest + Flatten(batches)
    ensures batches' == batches + [batch]
    ensures log' == log + [ExecuteMany(ins, batch), Commit]
    ensures log' == FlushLog(ins, batches')
    ensures destRows' == destRows + batch
    ensures destRows' == dest + Flatten(batches')
  {
    FlattenAppend(batches, batch);
    log' := log + [ExecuteMany(ins, batch), Commit];
    destRows' := destRows + batch;
    batches' := batches + [batch];
    assert batches'[..|batches'| - 1] == batches;
  }

  /** Moving the next row into the buffer leaves the buffered-plus-pending
      rows unchanged. */
  lemma BufferRow(batch: seq<Row>, rows: seq<Row>, i: nat)
    requires i < |rows|
    ensures batch + [rows[i]] + rows[i + 1..] == batch + rows[i..]
  {
  }

  /** Flushing a full buffer moves it from the pending batching to the
      flushed batches. */
  lemma FlushKeepsChunks(total: seq<seq<Row>>, batches: seq<seq<Row>>, batch: seq<Row>, rest: seq<Row>, size: nat)
    requires size >= 1 && |batch| == size
    requires total == batches + Chunks(batch + rest, size)
    ensures total == (batches + [batch]) + Chunks([] + rest, size)
  {
    ChunksFullFirst(batch, rest, size);
    assert [] + rest == rest;
  }

  /** The destination rows left by a load whose flush number `failing`
      (counting from 0) raises: the earlier batches stay committed, the
      failing one and everything after it are not written. */
  function CommittedBeforeFailure(rows: seq<Row>, batchSize: int, failing: nat): seq<Row>
  {
    var batches := Chunks(rows, EffectiveBatchSize(batchSize));
    Flatten(batches[..if failing < |batches| then failing else |batches|])
  }

  /** An interrupted load leaves whole batches: exactly the first
      `failing * size` rows, strictly fewer than the source holds. */
  lemma InterruptedLoadKeepsWholeBatches(rows: seq<Row>, batchSize: int, failing: nat)
    requires failing < |Chunks(rows, EffectiveBatchSize(batchSize))|
    ensures failing * EffectiveBatchSize(batchSize) < |rows|
    ensures CommittedBeforeFailure(rows, batchSize, failing) == rows[..failing * EffectiveBatchSize(batchSize)]
  {
    ChunksPrefix(rows, EffectiveBatchSize(batchSize), failing);
  }

  lemma {:induction false} ChunksPrefix(rows: seq<Row>, size: nat, k: nat)
    requires size >= 1 && k < |Chunks(rows, size)|
    ensures k * size < |rows|
    ensures Flatten(Chunks(rows, size)[..k]) == rows[..k * size]
    decreases k
  {
    var batches := Chunks(rows, size);
    if k == 0 {
      assert batches[..0] == [];
    } else {
      assert |rows| > size;
      var tail := Chunks(rows[size..], size);
      assert batches == [rows[..size]] + tail;
      ChunksPrefix(rows[size..], size, k - 1);
      assert batches[..k] == [rows[..size]] + tail[..k - 1];
      assert (k - 1) * size + size == k * size;
      assert rows[..size] + rows[size..][..(k - 1) * size] == rows[..k * size];
    }
  }

  /** Loads one source table into the warehouse. No statement reaches the
      warehouse when the table has no rows; otherwise writing into a table
      the warehouse lacks raises. */
  function LoadTableInto(w: Warehouse, t: SourceTable, batchSize: int): (r: Result<Warehouse>)
    ensures r.Failure? <==> |t.rows| > 0 && t.name !in w
    ensures r.Success? ==> r.value.Keys == w.Keys
    ensures r.Success? ==> forall n :: n in w && n != t.name ==> r.value[n] == w[n]
    ensures r.Success? && t.name in w ==>
      r.value[t.name] == DestTable(w[t.name].columns, w[t.name].rows + t.rows)
  {
    var size := EffectiveBatchSize(batchSize);
    var batches := Chunks(t.rows, size);
    ChunksPartition(t.rows, size);
    if batches == [] then Success(w)
    else if t.name !in w then Failure(MissingTable(t.name))
    else Success(w[t.name := w[t.name].(rows := w[t.name].rows + Flatten(batches))])
  }

  /** Loading `t` raises: it has rows to write and the warehouse lacks it. */
  predicate Blocked(w: Warehouse, t: SourceTable)
  {
    |t.rows| > 0 && t.name !in w
  }

  /** Where a run of loads stopped: the warehouse as the committed batches
      left it, and the error that ended the run, if one did. */
  datatype LoadRun = LoadRun(warehouse: Warehouse, failure: Option<Error>)

  /** Loads every source table, in listing order; the first failure aborts
      the run, and what earlier tables committed stays in the warehouse. */
  function LoadAll(db: Database, w: Warehouse, batchSize: int): (r: LoadRun)
    ensures r.failure.Some? <==> exists t :: t in db && Blocked(w, t)
    ensures (forall t :: t in db ==> t.name in w) ==> r.failure.None?
    ensures r.warehouse.Keys == w.Keys
  {
    if db == [] then LoadRun(w, None)
    else
      assert db[0] in db;
      match LoadTableInto(w, db[0], batchSize)
      case Failure(e) => LoadRun(w, Some(e))
      case Success(w1) =>
        assert forall t :: t in db[1..] ==> t in db;
        assert forall t :: Blocked(w1, t) <==> Blocked(w, t);
        assert forall t :: t in db ==> t == db[0] || t in db[1..];
        LoadAll(db[1..], w1, batchSize)
  }

  /** A run stops at the first blocked table: it reports that table, and the
      warehouse it leaves is the one the tables before it produce, every one
      of them loaded in full. */
  lemma {:induction false} LoadAllStopsAtFirstBlocked(db: Database, w: Warehouse, batchSize: int, k: int)
    requires 0 <= k < |db| && Blocked(w, db[k])
    requires forall j :: 0 <= j < k ==> !Blocked(w, db[j])
    ensures LoadAll(db, w, batchSize).failure == Some(MissingTable(db[k].name))
    ensures LoadAll(db[..k], w, batchSize).failure == None
    ensures LoadAll(db, w, batchSize).warehouse == LoadAll(db[..k], w, batchSize).warehouse
    decreases k
  {
    if k == 0 {
      assert db[..0] == [];
    } else {
      var w1 := LoadTableInto(w, db[0], batchSize).value;
      assert forall t :: Blocked(w1, t) <==> Blocked(w, t);
      var rest := db[1..];
      assert forall j :: 0 <= j < k - 1 ==> rest[j] == db[j + 1];
      LoadAllStopsAtFirstBlocked(rest, w1, batchSize, k - 1);
      assert db[..k][0] == db[0];
      assert db[..k][1..] == rest[..k - 1];
    }
  }

  /** With distinct table names and every table present, loading appends each
      source table's rows to its destination table and touches nothing else:
      nothing is truncated or de-duplicated. */
  lemma {:induction false} LoadAllAppends(db: Database, w: Warehouse, batchSize: int)
    requires UniqueNames(db)
    requires forall t :: t in db ==> t.name in w
    ensures LoadAll(db, w, batchSize).failure.None?
    ensures forall i :: 0 <= i < |db| ==>
      LoadAll(db, w, batchSize).warehouse[db[i].name]
        == DestTable(w[db[i].name].columns, w[db[i].name].rows + db[i].rows)
    ensures forall n :: n in w && (forall t :: t in db ==> t.name != n) ==>
      LoadAll(db, w, batchSize).warehouse[n] == w[n]
    decreases |db|
  {
    if db != [] {
      assert db[0] in db;
      var w1 := LoadTableInto(w, db[0], batchSize).value;
      var rest := db[1..];
      assert forall t :: t in rest ==> t in db;
      UniqueNamesTail(db);
      LoadAllAppends(rest, w1, batchSize);
      var r := LoadAll(db, w, batchSize).warehouse;
      assert r == LoadAll(rest, w1, batchSize).warehouse;
      forall i | 0 <= i < |db|
        ensures r[db[i].name] == DestTable(w[db[i].name].columns, w[db[i].name].rows + db[i].rows)
      {
        if i > 0 {
          assert rest[i - 1] == db[i];
        }
      }
      forall n | n in w && (forall t :: t in db ==> t.name != n)
        ensures r[n] == w[n]
      {
        assert forall t :: t in rest ==> t.name != n;
      }
    }
  }
}

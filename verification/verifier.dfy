/** The integrity check `verificar_integridad`: per listed table, the source
    row count, the destination row count and whether the two agree. It only
    reports; it neither raises on a mismatch nor changes any table. */
module IntegrityVerifier {
  import opened Model

  datatype Report = Report(table: string, sourceCount: nat, destCount: nat, matched: bool)

  /** The report line of one table. */
  function Compare(table: string, sourceCount: nat, destCount: nat): (r: Report)
    ensures r.table == table && r.sourceCount == sourceCount && r.destCount == destCount
    ensures r.matched <==> sourceCount == destCount
  {
    Report(table, sourceCount, destCount, sourceCount == destCount)
  }

  /** Counts every listed table on both sides, in listing order. Counting a
      table the warehouse lacks raises. */
  function Verify(db: Database, w: Warehouse): (r: Result<seq<Report>>)
    ensures r.Success? <==> forall t :: t in db ==> t.name in w
    ensures r.Failure? ==> exists t :: t in db && t.name !in w && r.error == MissingTable(t.name)
    ensures r.Success? ==> |r.value| == |db|
    ensures r.Success? ==> forall i :: 0 <= i < |db| ==>
      && r.value[i].table == db[i].name
      && r.value[i].sourceCount == |db[i].rows|
      && r.value[i].destCount == |w[db[i].name].rows|
      && (r.value[i].matched <==> |db[i].rows| == |w[db[i].name].rows|)
  {
    if db == [] then Success([])
    else if db[0].name !in w then Failure(MissingTable(db[0].name))
    else
      var head := Compare(db[0].name, |db[0].rows|, |w[db[0].name].rows|);
      assert forall t :: t in db[1..] ==> t in db;
      match Verify(db[1..], w)
      case Failure(e) => Failure(e)
      case Success(rest) => Success([head] + rest)
  }

  /** Counting stops at the first listed table the warehouse lacks, and that
      is the table the error names. */
  lemma {:induction false} VerifyStopsAtFirstMissing(db: Database, w: Warehouse, k: int)
    requires 0 <= k < |db| && db[k].name !in w
    requires forall j :: 0 <= j < k ==> db[j].name in w
    ensures Verify(db, w) == Failure(MissingTable(db[k].name))
    decreases k
  {
    if k > 0 {
      var rest := db[1..];
      assert forall j :: 0 <= j < k - 1 ==> rest[j] == db[j + 1];
      VerifyStopsAtFirstMissing(rest, w, k - 1);
    }
  }
}

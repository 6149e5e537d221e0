/** Entities of the MySQL-to-Snowflake copy job: what is read from the source
    catalog, what the warehouse holds, and the closed set of destination types. */
module Model {

  /** A scalar cell value as returned by the source cursor. The copy job never
      inspects values, so only their identity matters. */
  datatype Value = Null | IntValue(i: int) | TextValue(s: string)

  /** A fetched row: values positionally aligned with the scan's column list. */
  type Row = seq<Value>

  /** One line of the source `DESCRIBE <table>` result: the column name and the
      raw source type text (qualifiers such as `(11)` or `unsigned` included). */
  datatype ColumnDescriptor = ColumnDescriptor(name: string, sourceType: string)

  /** A source table: its name as listed by `SHOW TABLES`, its column
      descriptors in catalog order, and its rows in scan order. */
  datatype SourceTable = SourceTable(name: string, columns: seq<ColumnDescriptor>, rows: seq<Row>)

  /** The source database, in `SHOW TABLES` order. */
  type Database = seq<SourceTable>

  /** The only four types the translator ever produces. */
  datatype DestType = Integer | Float | Timestamp | String

  /** A destination column definition `<name> <TYPE>`. */
  datatype ColumnDef = ColumnDef(name: string, destType: DestType)

  /** A destination table inside the fixed schema: its column definitions and
      its rows in insertion order. */
  datatype DestTable = DestTable(columns: seq<ColumnDef>, rows: seq<Row>)

  /** The destination schema `RAW`, keyed by table name. */
  type Warehouse = map<string, DestTable>

  /** The fixed destination namespace every table is created under. */
  const DestSchema: string := "RAW"

  /** Failures the warehouse raises that the job does not catch. */
  datatype Error = MissingTable(table: string)

  datatype Result<T> = Success(value: T) | Failure(error: Error)

  datatype Option<T> = None | Some(value: T)

  /** The SQL keyword of a destination type. */
  function TypeName(d: DestType): string
  {
    match d
    case Integer => "INTEGER"
    case Float => "FLOAT"
    case Timestamp => "TIMESTAMP"
    case String => "STRING"
  }

  /** `SHOW TABLES` never lists a name twice. */
  predicate UniqueNames(db: Database)
  {
    forall i, j :: 0 <= i < j < |db| ==> db[i].name != db[j].name
  }

  /** Dropping the first table keeps the names distinct, and no later table
      shares the first one's name. */
  lemma UniqueNamesTail(db: Database)
    requires UniqueNames(db) && |db| > 0
    ensures UniqueNames(db[1..])
    ensures forall t :: t in db[1..] ==> t.name != db[0].name
  {
    var rest := db[1..];
    forall a, b | 0 <= a < b < |rest|
      ensures rest[a].name != rest[b].name
    {
      assert rest[a] == db[a + 1] && rest[b] == db[b + 1];
    }
    forall t | t in rest
      ensures t.name != db[0].name
    {
      var j :| 0 <= j < |rest| && rest[j] == t;
      assert db[j + 1] == t;
    }
  }
}

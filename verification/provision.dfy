/** The table provisioner `crear_tablas_snowflake`: for every listed source
    table, translate its column descriptors and issue
    `CREATE TABLE IF NOT EXISTS RAW.<table> (<name> <TYPE>, ...)`. */
module Provisioner {
  import opened Model
  import opened Text
  import opened SchemaTranslator

  /** The destination definition of one source column. */
  function Define(col: ColumnDescriptor): ColumnDef
  {
    ColumnDef(col.name, Translate(col.sourceType))
  }

  /** The column list, built by appending one definition per descriptor in
      `DESCRIBE` order. */
  function ColumnDefs(cols: seq<ColumnDescriptor>): (defs: seq<ColumnDef>)
    ensures |defs| == |cols|
    ensures forall i :: 0 <= i < |cols| ==>
      defs[i].name == cols[i].name && defs[i].destType == Translate(cols[i].sourceType)
  {
    if cols == [] then [] else ColumnDefs(cols[..|cols| - 1]) + [Define(cols[|cols| - 1])]
  }

  /** A `CREATE TABLE IF NOT EXISTS <schema>.<table> (<columns>)` statement. */
  datatype CreateTable = CreateTable(schema: string, table: string, columns: seq<ColumnDef>)

  function CreateStatement(t: SourceTable): CreateTable
  {
    CreateTable(DestSchema, t.name, ColumnDefs(t.columns))
  }

  /** One rendered column definition, `f"{col_name} {col_type_sf}"`. */
  function ColumnText(c: ColumnDef): string
  {
    c.name + " " + TypeName(c.destType)
  }

  function ColumnTexts(defs: seq<ColumnDef>): (texts: seq<string>)
    ensures |texts| == |defs|
    ensures forall i :: 0 <= i < |defs| ==> texts[i] == ColumnText(defs[i])
  {
    if defs == [] then [] else [ColumnText(defs[0])] + ColumnTexts(defs[1..])
  }

  /** Everything of the statement text before its column list. */
  function CreateHead(c: CreateTable): string
  {
    "CREATE TABLE IF NOT EXISTS " + c.schema + "." + c.table + " ("
  }

  /** The statement as the job sends it. */
  function CreateText(c: CreateTable): string
  {
    CreateHead(c) + Join(ColumnTexts(c.columns), ListSep) + ")"
  }

  /** The column definition list of the CREATE text of a source table, read
      back, has one entry per `DESCRIBE` line, in order, each `<name> <TYPE>`
      with the translated type (column names without commas, as unquoted
      identifiers are). */
  lemma CreateTextColumnList(t: SourceTable)
    requires |t.columns| > 0
    requires forall i :: 0 <= i < |t.columns| ==> ',' !in t.columns[i].name
    ensures var text := CreateText(CreateStatement(t));
      var head := CreateHead(CreateStatement(t));
      var defs := SplitList(text[|head|..|text| - 1]);
      && IsPrefix(head, text)
      && |defs| == |t.columns|
      && forall i :: 0 <= i < |t.columns| ==>
           defs[i] == t.columns[i].name + " " + TypeName(Translate(t.columns[i].sourceType))
  {
    var c := CreateStatement(t);
    var texts := ColumnTexts(c.columns);
    forall k | 0 <= k < |texts|
      ensures ',' !in texts[k]
    {
      NoCommaInColumnText(c.columns[k]);
    }
    SplitJoinRoundTrip(texts);
    Enclosed(CreateHead(c), Join(texts, ListSep), ")");
  }

  lemma NoCommaInColumnText(c: ColumnDef)
    requires ',' !in c.name
    ensures ',' !in ColumnText(c)
  {
    assert ',' !in TypeName(c.destType);
  }

  /** Executes one statement against the warehouse: `IF NOT EXISTS` leaves an
      existing table untouched, otherwise an empty table with the given
      columns appears. */
  function CreateIfAbsent(w: Warehouse, c: CreateTable): (w': Warehouse)
    ensures w'.Keys == w.Keys + {c.table}
    ensures c.table in w ==> w' == w
    ensures c.table !in w ==> w'[c.table] == DestTable(c.columns, [])
    ensures forall n :: n in w ==> w'[n] == w[n]
  {
    if c.table in w then w else w[c.table := DestTable(c.columns, [])]
  }

  /** Provisioning: one create-if-absent statement per table, in listing order. */
  function Provision(db: Database, w: Warehouse): (w': Warehouse)
    ensures w'.Keys == w.Keys + set t | t in db :: t.name
    ensures forall n :: n in w ==> w'[n] == w[n]
  {
    if db == [] then w else Provision(db[1..], CreateIfAbsent(w, CreateStatement(db[0])))
  }

  /** A table that is new to the warehouse is created empty, with the
      translated columns of its source table. */
  lemma {:induction false} ProvisionCreatesNewTables(db: Database, w: Warehouse, i: int)
    requires UniqueNames(db)
    requires 0 <= i < |db| && db[i].name !in w
    ensures Provision(db, w)[db[i].name] == DestTable(ColumnDefs(db[i].columns), [])
    decreases |db|
  {
    var w1 := CreateIfAbsent(w, CreateStatement(db[0]));
    if i == 0 {
      assert db[0].name in w1;
    } else {
      assert db[1..][i - 1] == db[i];
      assert db[i].name != db[0].name;
      UniqueNamesTail(db);
      ProvisionCreatesNewTables(db[1..], w1, i - 1);
    }
  }

  /** Re-running provisioning is harmless: the second run finds every table
      present and changes nothing. */
  lemma ProvisionIdempotent(db: Database, w: Warehouse)
    ensures Provision(db, Provision(db, w)) == Provision(db, w)
  {
    var w1 := Provision(db, w);
    ProvisionNoOpWhenPresent(db, w1);
  }

  /** Provisioning a warehouse that already holds every listed table is a
      no-op: no key is added and every existing table is kept. */
  lemma ProvisionNoOpWhenPresent(db: Database, w: Warehouse)
    requires forall t :: t in db ==> t.name in w
    ensures Provision(db, w) == w
  {
  }
}

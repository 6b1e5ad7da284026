/** Rows of one table: one page per row, found through the record list in the header. */
module Table {
  import opened Values
  import opened BTreeNodes
  import opened Catalog
  import opened Storage

  // ---------------------------------------------------------------- abstract content of a table

  function PointerOf(table: string, r: Record): Pointer {
    Pointer(table, r.pageId, r.slot)
  }

  function LivePointers(records: seq<Record>, table: string): set<Pointer> {
    set r | r in records && !r.deleted :: PointerOf(table, r)
  }

  function RowAt(pages: seq<Page>, pageId: nat): Row {
    if pageId < |pages| && pages[pageId].RowPage? then pages[pageId].row else map[]
  }

  /** The live rows of a table by pointer. */
  function Rows(pages: seq<Page>, records: seq<Record>, table: string): map<Pointer, Row> {
    map p | p in LivePointers(records, table) :: RowAt(pages, p.pageId)
  }

  /** The live rows in record order, as a scan returns them. */
  function Scanned(pages: seq<Page>, records: seq<Record>, table: string): seq<(Pointer, Row)> {
    if records == [] then []
    else ScannedOne(pages, records[0], table) + Scanned(pages, records[1..], table)
  }

  function ScannedOne(pages: seq<Page>, r: Record, table: string): seq<(Pointer, Row)> {
    if r.deleted then [] else [(PointerOf(table, r), RowAt(pages, r.pageId))]
  }

  function ColumnNames(columns: seq<ColumnSchema>): set<string> {
    set c | c in columns :: c.name
  }

  /** A stored row: exactly the columns, typed, with no NULL where none may be. */
  ghost predicate RowOk(schema: TableSchema, row: Row) {
    && row.Keys == ColumnNames(schema.columns)
    && forall c :: c in schema.columns ==> Typed(c.ty, row[c.name]) && (c.notNull ==> row[c.name] != Null)
  }

  /** A clash in one column. */
  predicate ClashAt(c: ColumnSchema, a: Row, b: Row) {
    Indexed(c) && c.name in a && c.name in b && a[c.name] != Null && Same(a[c.name], b[c.name])
  }

  /** Two rows agree on a non-NULL value of an indexed column. */
  ghost predicate Clash(schema: TableSchema, a: Row, b: Row) {
    exists c :: c in schema.columns && ClashAt(c, a, b)
  }

  /** `row` clashes with no row but the excluded one. */
  ghost predicate NoClash(schema: TableSchema, row: Row, rows: map<Pointer, Row>, excluding: Option<Pointer>) {
    forall p :: p in rows && Some(p) != excluding ==> !Clash(schema, row, rows[p])
  }

  /** Non-NULL values of indexed columns are pairwise distinct. */
  ghost predicate UniqueRows(schema: TableSchema, rows: map<Pointer, Row>) {
    forall p, q {:trigger Clash(schema, rows[p], rows[q])} ::
      p in rows && q in rows && p != q ==> !Clash(schema, rows[p], rows[q])
  }

  ghost predicate RecordOk(pages: seq<Page>, r: Record, table: string) {
    && r.slot == 0 && r.pageId < |pages|
    && pages[r.pageId].RowPage? && pages[r.pageId].table == table && pages[r.pageId].deleted == r.deleted
  }

  ghost predicate RecordsOk(pages: seq<Page>, records: seq<Record>, table: string) {
    && (forall i :: 0 <= i < |records| ==> RecordOk(pages, records[i], table))
    && (forall i, j :: 0 <= i < j < |records| ==> records[i].pageId != records[j].pageId)
  }

  ghost predicate RowsOk(schema: TableSchema, rows: map<Pointer, Row>) {
    && (forall p {:trigger RowOk(schema, rows[p])} :: p in rows ==> RowOk(schema, rows[p]))
    && UniqueRows(schema, rows)
  }

  lemma RowsTyped(schema: TableSchema, rows: map<Pointer, Row>, c: ColumnSchema)
    requires RowsOk(schema, rows) && c in schema.columns
    ensures forall p :: p in rows ==> Typed(c.ty, ValueOf(rows[p], c.name))
  {
    forall p | p in rows ensures Typed(c.ty, ValueOf(rows[p], c.name)) {
      assert RowOk(schema, rows[p]);
    }
  }

  ghost predicate TableOk(pages: seq<Page>, records: seq<Record>, schema: TableSchema) {
    && WellFormed(schema)
    && RecordsOk(pages, records, schema.name)
    && RowsOk(schema, Rows(pages, records, schema.name))
  }

  // ---------------------------------------------------------------- effect of page writes on the content

  /** `now` has all pages of `before`. */
  ghost predicate Extends(before: seq<Page>, now: seq<Page>) {
    |before| <= |now| && now[..|before|] == before
  }

  lemma ExtendsTransitive(a: seq<Page>, b: seq<Page>, c: seq<Page>)
    requires Extends(a, b) && Extends(b, c)
    ensures Extends(a, c)
  {
    assert c[..|a|] == c[..|b|][..|a|];
  }

  /** New pages leave every table as it was. */
  lemma ExtendsKeepsTable(before: seq<Page>, now: seq<Page>, records: seq<Record>, schema: TableSchema)
    requires Extends(before, now) && RecordsOk(before, records, schema.name)
    ensures RecordsOk(now, records, schema.name)
    ensures Rows(now, records, schema.name) == Rows(before, records, schema.name)
  {
    assert forall i :: 0 <= i < |before| ==> now[i] == before[i];
  }

  /** A scan lists the live rows, each once. */
  ghost predicate ListsRows(s: seq<(Pointer, Row)>, rows: map<Pointer, Row>) {
    && (forall i :: 0 <= i < |s| ==> s[i].0 in rows && rows[s[i].0] == s[i].1)
    && (forall p :: p in rows ==> (p, rows[p]) in s)
    && (forall i, j :: 0 <= i < j < |s| ==> s[i].0 != s[j].0)
  }

  lemma ListsRowsCons(s: seq<(Pointer, Row)>, rows: map<Pointer, Row>, p: Pointer, row: Row)
    requires ListsRows(s, rows) && p !in rows
    ensures ListsRows([(p, row)] + s, rows[p := row])
  {
    var t, all := [(p, row)] + s, rows[p := row];
    assert t[0] == (p, row);
    forall q | q in all ensures (q, all[q]) in t {
      if q != p {
        assert (q, rows[q]) in s;
      }
    }
  }

  lemma LivePointersCons(records: seq<Record>, table: string)
    requires records != []
    ensures LivePointers(records, table)
         == LivePointers(records[1..], table) + (if records[0].deleted then {} else {PointerOf(table, records[0])})
  {
    var rest, p := records[1..], PointerOf(table, records[0]);
    assert records == [records[0]] + rest;
    forall q | q in LivePointers(records, table)
      ensures q in LivePointers(rest, table) || (!records[0].deleted && q == p)
    {
      var k :| k in records && !k.deleted && PointerOf(table, k) == q;
      assert k in rest || k == records[0];
    }
  }

  lemma RowsCons(pages: seq<Page>, records: seq<Record>, table: string)
    requires RecordsOk(pages, records, table) && records != []
    ensures RecordsOk(pages, records[1..], table)
    ensures var p, rest := PointerOf(table, records[0]), Rows(pages, records[1..], table);
      && p !in rest
      && Rows(pages, records, table) == if records[0].deleted then rest else rest[p := RowAt(pages, records[0].pageId)]
  {
    var rest, p := records[1..], PointerOf(table, records[0]);
    assert forall i :: 0 <= i < |rest| ==> rest[i] == records[i + 1];
    LivePointersCons(records, table);
    forall k | k in rest ensures PointerOf(table, k) != p {
      var i :| 0 <= i < |rest| && rest[i] == k;
      assert records[i + 1].pageId != records[0].pageId;
    }
  }

  lemma {:induction false} ScanIsRows(pages: seq<Page>, records: seq<Record>, table: string)
    requires RecordsOk(pages, records, table)
    ensures ListsRows(Scanned(pages, records, table), Rows(pages, records, table))
  {
    if records != [] {
      RowsCons(pages, records, table);
      ScanIsRows(pages, records[1..], table);
      if !records[0].deleted {
        ListsRowsCons(Scanned(pages, records[1..], table), Rows(pages, records[1..], table),
                      PointerOf(table, records[0]), RowAt(pages, records[0].pageId));
      }
    }
  }

  lemma {:induction false} ScannedConcat(pages: seq<Page>, a: seq<Record>, b: seq<Record>, table: string)
    ensures Scanned(pages, a + b, table) == Scanned(pages, a, table) + Scanned(pages, b, table)
  {
    if a == [] {
      assert a + b == b;
    } else {
      assert (a + b)[1..] == a[1..] + b;
      ScannedConcat(pages, a[1..], b, table);
    }
  }

  lemma {:induction false} ScannedSnoc(pages: seq<Page>, records: seq<Record>, i: nat, table: string)
    requires i < |records|
    ensures Scanned(pages, records[..i + 1], table)
         == Scanned(pages, records[..i], table) + ScannedOne(pages, records[i], table)
  {
    assert records[..i + 1] == records[..i] + [records[i]];
    ScannedConcat(pages, records[..i], [records[i]], table);
    assert [records[i]][1..] == [];
  }

  lemma NamesSnoc(columns: seq<ColumnSchema>, i: nat)
    requires i < |columns|
    ensures ColumnNames(columns[..i + 1]) == ColumnNames(columns[..i]) + {columns[i].name}
  {
    assert columns[..i + 1] == columns[..i] + [columns[i]];
    forall n | n in ColumnNames(columns[..i]) ensures n in ColumnNames(columns[..i + 1]) {
      var c :| c in columns[..i] && c.name == n;
      assert c in columns[..i + 1];
    }
    assert columns[i] in columns[..i + 1];
  }

  // ---------------------------------------------------------------- rows before they are stored

  function ColumnValue(c: ColumnSchema, row: Row): Outcome<Value> {
    if ValueOf(row, c.name) == Null && c.notNull then Raised(ConstraintFault) else Validate(c.ty, ValueOf(row, c.name))
  }

  /** No unknown column, every value of its type, and one wherever NULL may not be. */
  ghost predicate Acceptable(schema: TableSchema, row: Row) {
    row.Keys <= ColumnNames(schema.columns) && forall c :: c in schema.columns ==> ColumnValue(c, row).Ok?
  }

  /** The row as it is stored: every column, with its validated value. */
  ghost function NormalRow(schema: TableSchema, row: Row): Row
    requires WellFormed(schema) && Acceptable(schema, row)
  {
    map c | c in schema.columns :: c.name := ColumnValue(c, row).value
  }

  /** The table takes the row, beside its other rows. A clash is one up to `Same`, so the stored form
      of the row clashes with the same rows (`NormalClash`). */
  ghost predicate Fitting(schema: TableSchema, row: Row, rows: map<Pointer, Row>, excluding: Option<Pointer>) {
    Acceptable(schema, row) && NoClash(schema, row, rows, excluding)
  }

  /** What a table takes, in its own terms: no unknown column, in every column a value of its type (an
      integer also in a FLOAT column) or NULL where that may be, and in a key or UNIQUE column no value
      that is the same as another row's. */
  lemma FittingMeans(schema: TableSchema, row: Row, rows: map<Pointer, Row>, excluding: Option<Pointer>)
    ensures Fitting(schema, row, rows, excluding) <==>
      && (forall n :: n in row ==> exists c :: c in schema.columns && c.name == n)
      && (forall c :: c in schema.columns ==> Takable(c, ValueOf(row, c.name)))
      && (forall p, c :: p in rows && Some(p) != excluding && c in schema.columns && (c.primaryKey || c.unique) ==>
           !SharesValue(row, rows[p], c.name))
  {
    if Fitting(schema, row, rows, excluding) {
      forall p, c | p in rows && Some(p) != excluding && c in schema.columns && (c.primaryKey || c.unique)
        ensures !SharesValue(row, rows[p], c.name)
      {
        assert !Clash(schema, row, rows[p]);
        assert !ClashAt(c, row, rows[p]);
      }
    }
  }

  predicate Takable(c: ColumnSchema, v: Value) {
    match v
    case Null => !c.notNull
    case Bool(_) => c.ty.BOOL?
    case Int(_) => c.ty.INT? || c.ty.FLOAT?
    case Float(_) => c.ty.FLOAT?
    case Text(_) => c.ty.TEXT?
  }

  predicate SharesValue(a: Row, b: Row, n: string) {
    n in a && n in b && a[n] != Null && Same(a[n], b[n])
  }

  /** `stored` has the stored values of the first `n` columns. */
  ghost predicate Normalized(columns: seq<ColumnSchema>, row: Row, stored: Row, n: nat)
    requires n <= |columns|
  {
    && stored.Keys == ColumnNames(columns[..n])
    && forall j :: 0 <= j < n ==> NormalCell(columns[j], row, stored)
  }

  predicate NormalCell(c: ColumnSchema, row: Row, stored: Row) {
    c.name in stored && ColumnValue(c, row) == Ok(stored[c.name])
  }

  lemma NormalizedNext(columns: seq<ColumnSchema>, row: Row, stored: Row, n: nat, v: Value)
    requires DistinctColumns(columns) && n < |columns| && Normalized(columns, row, stored, n)
    requires ColumnValue(columns[n], row) == Ok(v)
    ensures Normalized(columns, row, stored[columns[n].name := v], n + 1)
  {
    NamesSnoc(columns, n);
    var now := stored[columns[n].name := v];
    forall j | 0 <= j < n + 1 ensures NormalCell(columns[j], row, now) {
      if j < n {
        assert NormalCell(columns[j], row, stored) && columns[j].name != columns[n].name;
      }
    }
  }

  lemma NormalizedIs(schema: TableSchema, row: Row, stored: Row)
    requires WellFormed(schema) && row.Keys <= ColumnNames(schema.columns)
    requires Normalized(schema.columns, row, stored, |schema.columns|)
    ensures Acceptable(schema, row) && stored == NormalRow(schema, row)
  {
    assert schema.columns[..|schema.columns|] == schema.columns;
    forall c | c in schema.columns ensures NormalCell(c, row, stored) {
    }
    NormalRowKeys(schema, row);
    forall n | n in stored ensures stored[n] == NormalRow(schema, row)[n] {
      NormalRowNamed(schema, row, stored, n);
    }
    SameMaps(stored, NormalRow(schema, row));
  }

  lemma NormalRowNamed(schema: TableSchema, row: Row, stored: Row, n: string)
    requires WellFormed(schema) && Acceptable(schema, row) && n in stored && n in ColumnNames(schema.columns)
    requires forall c :: c in schema.columns ==> NormalCell(c, row, stored)
    ensures n in NormalRow(schema, row) && stored[n] == NormalRow(schema, row)[n]
  {
    var c :| c in schema.columns && c.name == n;
    NormalRowAt(schema, row, c);
    assert NormalCell(c, row, stored);
  }

  lemma NormalRowKeys(schema: TableSchema, row: Row)
    requires WellFormed(schema) && Acceptable(schema, row)
    ensures NormalRow(schema, row).Keys == ColumnNames(schema.columns)
  {
  }

  lemma SameMaps<K, V>(a: map<K, V>, b: map<K, V>)
    requires a.Keys == b.Keys && forall k :: k in a ==> a[k] == b[k]
    ensures a == b
  {
  }

  lemma OneColumnPerName(columns: seq<ColumnSchema>, a: ColumnSchema, b: ColumnSchema)
    requires DistinctColumns(columns) && a in columns && b in columns && a.name == b.name
    ensures a == b
  {
  }

  lemma NormalRowAt(schema: TableSchema, row: Row, c: ColumnSchema)
    requires WellFormed(schema) && Acceptable(schema, row) && c in schema.columns
    ensures c.name in NormalRow(schema, row) && NormalCell(c, row, NormalRow(schema, row))
  {
    var stored := NormalRow(schema, row);
    assert c.name in stored;
    var other :| other in schema.columns && other.name == c.name && stored[c.name] == ColumnValue(other, row).value;
    OneColumnPerName(schema.columns, c, other);
  }

  lemma StoredValueOk(c: ColumnSchema, row: Row, v: Value)
    requires ColumnValue(c, row) == Ok(v)
    ensures Typed(c.ty, v) && (c.notNull ==> v != Null) && Same(v, ValueOf(row, c.name))
  {
  }

  /** What is stored is a proper row with the values given, as the engine compares them. */
  lemma NormalRowOk(schema: TableSchema, row: Row)
    requires WellFormed(schema) && Acceptable(schema, row)
    ensures RowOk(schema, NormalRow(schema, row))
    ensures forall c :: c in schema.columns ==> Same(NormalRow(schema, row)[c.name], ValueOf(row, c.name))
  {
    var stored := NormalRow(schema, row);
    forall c | c in schema.columns
      ensures Typed(c.ty, stored[c.name]) && (c.notNull ==> stored[c.name] != Null)
      ensures Same(stored[c.name], ValueOf(row, c.name))
    {
      NormalRowAt(schema, row, c);
      StoredValueOk(c, row, stored[c.name]);
    }
  }

  lemma NormalClashAt(schema: TableSchema, row: Row, other: Row, c: ColumnSchema)
    requires WellFormed(schema) && Acceptable(schema, row) && c in schema.columns
    ensures ClashAt(c, row, other) <==> ClashAt(c, NormalRow(schema, row), other)
  {
    assert ColumnValue(c, row).Ok?;
    if c.name in row && c.name in other {
      SameSubstitutes(NormalRow(schema, row)[c.name], row[c.name], other[c.name]);
    }
  }

  lemma NormalClash(schema: TableSchema, row: Row, other: Row)
    requires WellFormed(schema) && Acceptable(schema, row)
    ensures Clash(schema, row, other) <==> Clash(schema, NormalRow(schema, row), other)
  {
    forall c | c in schema.columns ensures ClashAt(c, row, other) <==> ClashAt(c, NormalRow(schema, row), other) {
      NormalClashAt(schema, row, other, c);
    }
  }

  lemma NormalNoClash(schema: TableSchema, row: Row, rows: map<Pointer, Row>, excluding: Option<Pointer>)
    requires WellFormed(schema) && Acceptable(schema, row)
    ensures NoClash(schema, row, rows, excluding) <==> NoClash(schema, NormalRow(schema, row), rows, excluding)
  {
    forall p | p in rows ensures Clash(schema, row, rows[p]) <==> Clash(schema, NormalRow(schema, row), rows[p]) {
      NormalClash(schema, row, rows[p]);
    }
  }

  // ---------------------------------------------------------------- the store

  /** None of the first `n` scanned rows clashes with `row`, the excluded one aside. */
  ghost predicate NoneClash(schema: TableSchema, row: Row, scan: seq<(Pointer, Row)>, excluding: Option<Pointer>,
                            n: nat)
    requires n <= |scan|
  {
    forall j :: 0 <= j < n && Some(scan[j].0) != excluding ==> !Clash(schema, row, scan[j].1)
  }

  lemma NoneClashNext(schema: TableSchema, row: Row, scan: seq<(Pointer, Row)>, excluding: Option<Pointer>, n: nat)
    requires n < |scan|
    ensures NoneClash(schema, row, scan, excluding, n + 1) <==>
      NoneClash(schema, row, scan, excluding, n) &&
      (Some(scan[n].0) == excluding || !Clash(schema, row, scan[n].1))
  {
  }

  lemma ScannedRowsOk(schema: TableSchema, scan: seq<(Pointer, Row)>, rows: map<Pointer, Row>)
    requires ListsRows(scan, rows) && RowsOk(schema, rows)
    ensures forall j :: 0 <= j < |scan| ==> RowOk(schema, scan[j].1)
  {
  }

  /** A check against the rows of a scan is a check against the rows of the table. */
  lemma NoClashScanned(schema: TableSchema, row: Row, scan: seq<(Pointer, Row)>, rows: map<Pointer, Row>,
                       excluding: Option<Pointer>)
    requires ListsRows(scan, rows)
    ensures NoClash(schema, row, rows, excluding) <==> NoneClash(schema, row, scan, excluding, |scan|)
  {
    if NoneClash(schema, row, scan, excluding, |scan|) {
      forall p | p in rows && Some(p) != excluding ensures !Clash(schema, row, rows[p]) {
        assert (p, rows[p]) in scan;
      }
    }
  }

  class TableStore {
    const storage: StorageManager
    const schema: TableSchema

    /** The table is sound in memory. */
    ghost predicate Valid()
      reads this, storage
    {
      TableOk(storage.pages, RecordsOf(storage.state, schema.name), schema)
    }

    function Content(): map<Pointer, Row>
      reads this, storage
    {
      Rows(storage.pages, RecordsOf(storage.state, schema.name), schema.name)
    }

    constructor (storage: StorageManager, schema: TableSchema)
      ensures this.storage == storage && this.schema == schema
    {
      this.storage, this.schema := storage, schema;
    }

    /** Opening a table without records writes an empty record list. */
    static method Open(storage: StorageManager, schema: TableSchema) returns (r: Outcome<TableStore>)
      requires storage.Clean()
      modifies storage`state, storage`header, storage`log
      ensures r.Ok? ==> r.value.storage == storage && r.value.schema == schema && fresh(r.value)
      ensures var records := RecordsOf(old(storage.state), schema.name);
        && storage.state == old(storage.state).(records := old(storage.state).records[schema.name := records])
        && (r.Ok? <==> records != [] || storage.limits.headerFits(storage.state))
        && storage.header == if records == [] && r.Ok? then storage.state else old(storage.header)
      ensures r.Raised? ==> r.error == StorageFault
      ensures storage.Traced() && (r.Ok? ==> storage.Clean())
      ensures r == Raised(StorageFault) ==> !storage.Unrefused()
    {
      var store := new TableStore(storage, schema);
      var records := storage.ReadTableRecords(schema.name);
      if records == [] {
        var written := storage.WriteTableRecords(schema.name, []);
        if written.Raised? {
          return Raised(StorageFault);
        }
      }
      r := Ok(store);
    }

    // -------------------------------------------------------------- reading

    method FindRecord(pointer: Pointer) returns (r: Option<Record>)
      requires RecordsOk(storage.pages, RecordsOf(storage.state, schema.name), schema.name)
      ensures r.Some? ==>
        && r.value in RecordsOf(storage.state, schema.name)
        && r.value.pageId == pointer.pageId && r.value.slot == pointer.slot
      ensures r.None? ==> forall k :: k in RecordsOf(storage.state, schema.name) ==>
        k.pageId != pointer.pageId || k.slot != pointer.slot
    {
      var records := RecordsOf(storage.state, schema.name);
      for i := 0 to |records|
        invariant forall j :: 0 <= j < i ==> records[j].pageId != pointer.pageId || records[j].slot != pointer.slot
      {
        if records[i].pageId == pointer.pageId && records[i].slot == pointer.slot {
          return Some(records[i]);
        }
      }
      r := None;
    }

    /** A pointer reads exactly when it points to a live row of this table. */
    method Read(pointer: Pointer) returns (r: Outcome<Row>)
      requires Valid()
      ensures r == if pointer in Content() then Ok(Content()[pointer]) else Raised(StorageFault)
    {
      if pointer.table != schema.name || pointer.slot != 0 {
        return Raised(StorageFault);
      }
      var record := FindRecord(pointer);
      LiveIffRecord(storage.pages, RecordsOf(storage.state, schema.name), schema.name, pointer, record);
      if record.None? || record.value.deleted {
        return Raised(StorageFault);
      }
      var page := storage.pages[pointer.pageId];
      if !page.RowPage? || page.table != schema.name || page.deleted {
        return Raised(StorageFault);
      }
      r := Ok(page.row);
    }

    method Scan() returns (rows: seq<(Pointer, Row)>)
      requires Valid()
      ensures rows == Scanned(storage.pages, RecordsOf(storage.state, schema.name), schema.name)
    {
      var records := RecordsOf(storage.state, schema.name);
      rows := [];
      for i := 0 to |records|
        invariant rows == Scanned(storage.pages, records[..i], schema.name)
      {
        ScannedSnoc(storage.pages, records, i, schema.name);
        if !records[i].deleted {
          var row := ReadRecord(records[i]);
          rows := rows + [(Pointer(schema.name, records[i].pageId, records[i].slot), row)];
        }
      }
      assert records[..|records|] == records;
    }

    method ReadRecord(record: Record) returns (row: Row)
      requires Valid()
      requires record in RecordsOf(storage.state, schema.name) && !record.deleted
      ensures row == RowAt(storage.pages, record.pageId)
    {
      var pointer := Pointer(schema.name, record.pageId, record.slot);
      LiveIffRecord(storage.pages, RecordsOf(storage.state, schema.name), schema.name, pointer, Some(record));
      var read := Read(pointer);
      row := read.value;
    }

    // -------------------------------------------------------------- checking a row

    method NormalizeRow(row: Row) returns (r: Outcome<Row>)
      requires WellFormed(schema)
      ensures r.Ok? <==> Acceptable(schema, row)
      ensures r.Ok? ==> r.value == NormalRow(schema, row)
      ensures r.Raised? ==> r.error == ConstraintFault
    {
      if !(row.Keys <= ColumnNames(schema.columns)) {
        return Raised(ConstraintFault);
      }
      var normalized: Row := map[];
      for i := 0 to |schema.columns|
        invariant Normalized(schema.columns, row, normalized, i)
      {
        var column := schema.columns[i];
        var v := ColumnValue(column, row);
        if v.Raised? {
          return Raised(ConstraintFault);
        }
        NormalizedNext(schema.columns, row, normalized, i, v.value);
        normalized := normalized[column.name := v.value];
      }
      NormalizedIs(schema, row, normalized);
      r := Ok(normalized);
    }

    method CheckUnique(row: Row, excluding: Option<Pointer>) returns (r: Outcome<()>)
      requires Valid() && RowOk(schema, row)
      ensures r.Ok? <==> NoClash(schema, row, Content(), excluding)
      ensures r.Raised? ==> r.error == ConstraintFault
    {
      var existing := Scan();
      ScanIsRows(storage.pages, RecordsOf(storage.state, schema.name), schema.name);
      NoClashScanned(schema, row, existing, Content(), excluding);
      ScannedRowsOk(schema, existing, Content());
      r := CheckUniqueAmong(row, existing, excluding);
    }

    method CheckUniqueAmong(row: Row, existing: seq<(Pointer, Row)>, excluding: Option<Pointer>)
      returns (r: Outcome<()>)
      requires RowOk(schema, row) && forall j :: 0 <= j < |existing| ==> RowOk(schema, existing[j].1)
      ensures r.Ok? <==> NoneClash(schema, row, existing, excluding, |existing|)
      ensures r.Raised? ==> r.error == ConstraintFault
    {
      for i := 0 to |existing|
        invariant NoneClash(schema, row, existing, excluding, i)
      {
        NoneClashNext(schema, row, existing, excluding, i);
        if Some(existing[i].0) != excluding {
          var clash := Clashes(row, existing[i].1);
          if clash {
            return Raised(ConstraintFault);
          }
        }
      }
      r := Ok(());
    }

    /** The row as it will be stored, or the constraint it violates. */
    method CheckedRow(row: Row, excluding: Option<Pointer>) returns (r: Outcome<Row>)
      requires Valid()
      ensures r.Ok? <==> Fitting(schema, row, Content(), excluding)
      ensures r.Ok? ==> r.value == NormalRow(schema, row) && RowOk(schema, r.value)
      ensures r.Ok? ==> NoClash(schema, r.value, Content(), excluding)
      ensures r.Raised? ==> r.error == ConstraintFault
    {
      r := NormalizeRow(row);
      if r.Raised? {
        return;
      }
      NormalRowOk(schema, row);
      NormalNoClash(schema, row, Content(), excluding);
      var unique := CheckUnique(r.value, excluding);
      if unique.Raised? {
        return Raised(unique.error);
      }
    }

    method Clashes(row: Row, other: Row) returns (clash: bool)
      requires RowOk(schema, row) && RowOk(schema, other)
      ensures clash <==> Clash(schema, row, other)
    {
      for i := 0 to |schema.columns|
        invariant forall j :: 0 <= j < i ==> !ClashAt(schema.columns[j], row, other)
      {
        var c := schema.columns[i];
        if Indexed(c) && row[c.name] != Null && Same(row[c.name], other[c.name]) {
          assert ClashAt(c, row, other);
          return true;
        }
      }
      clash := false;
    }

    // -------------------------------------------------------------- changing

    method Insert(row: Row) returns (r: Outcome<Pointer>)
      requires Valid() && storage.Clean()
      modifies storage`pages, storage`state, storage`header, storage`log
      ensures r == Raised(ConstraintFault) <==> !Fitting(schema, row, old(Content()), None)
      ensures storage.Unrefused() && Fitting(schema, row, old(Content()), None) ==> r.Ok?
      ensures r.Ok? ==> Valid() && storage.header == storage.state && storage.limits.headerFits(storage.state)
      ensures r.Ok? ==> r.value == Pointer(schema.name, |old(storage.pages)|, 0) && r.value !in old(Content())
      ensures r.Ok? ==> Content() == old(Content())[r.value := NormalRow(schema, row)]
      ensures r.Ok? ==> storage.pages == old(storage.pages) + [RowPage(schema.name, false, NormalRow(schema, row))]
      ensures r.Ok? ==> OnlyRecordsChanged(old(storage.state), storage.state, schema.name)
      ensures storage.Traced() && (r.Ok? ==> storage.Clean())
    {
      var normalized := CheckedRow(row, None);
      if normalized.Raised? {
        return Raised(normalized.error);
      }
      r := AppendRow(normalized.value);
      AppendedRow(old(storage.pages), RecordsOf(old(storage.state), schema.name), schema, normalized.value);
    }

    /** Writes a checked row to a page of its own and lists its record. */
    method AppendRow(row: Row) returns (r: Outcome<Pointer>)
      requires storage.Clean()
      modifies storage`pages, storage`state, storage`header, storage`log
      ensures r ==
        if storage.Unrefused() then Ok(Pointer(schema.name, |old(storage.pages)|, 0)) else Raised(StorageFault)
      ensures r.Ok? ==> storage.header == storage.state && storage.limits.headerFits(storage.state)
      ensures r.Ok? ==> storage.pages == old(storage.pages) + [RowPage(schema.name, false, row)]
      ensures r.Ok? ==>
        && OnlyRecordsChanged(old(storage.state), storage.state, schema.name)
        && RecordsOf(storage.state, schema.name) ==
          RecordsOf(old(storage.state), schema.name) + [Record(|old(storage.pages)|, 0, false)]
      ensures storage.Traced() && (r.Ok? ==> storage.Clean())
    {
      var added := storage.AllocatePage(RowPage(schema.name, false, row));
      if added.Raised? {
        return Raised(added.error);
      }
      var records := RecordsOf(storage.state, schema.name);
      ListedAreRecorded(storage.state, schema.name);
      var written := storage.WriteTableRecords(schema.name, records + [Record(added.value, 0, false)]);
      if written.Raised? {
        return Raised(written.error);
      }
      r := Ok(Pointer(schema.name, added.value, 0));
    }

    method Update(pointer: Pointer, row: Row) returns (r: Outcome<()>)
      requires Valid() && storage.Clean()
      modifies storage`pages, storage`log
      ensures r == Raised(ConstraintFault) <==>
        pointer in old(Content()) && !Fitting(schema, row, old(Content()), Some(pointer))
      ensures r.Ok? ==> pointer in old(Content()) && Fitting(schema, row, old(Content()), Some(pointer))
      ensures var fits := Fitting(schema, row, old(Content()), Some(pointer));
        storage.Unrefused() && pointer in old(Content()) && fits ==> r.Ok?
      ensures r.Ok? ==> Valid() && Content() == old(Content())[pointer := NormalRow(schema, row)]
      ensures r.Ok? ==> OverwroteRow(old(storage.pages), storage.pages, pointer.pageId, schema.name)
      ensures r.Raised? ==> storage.pages == old(storage.pages)
      ensures storage.Traced() && (r.Ok? ==> storage.Clean())
    {
      if pointer.table != schema.name || pointer.slot != 0 {
        return Raised(StorageFault);
      }
      var record := FindRecord(pointer);
      LiveIffRecord(storage.pages, RecordsOf(storage.state, schema.name), schema.name, pointer, record);
      if record.None? || record.value.deleted {
        return Raised(StorageFault);
      }
      var normalized := CheckedRow(row, Some(pointer));
      if normalized.Raised? {
        return Raised(normalized.error);
      }
      var page := RowPage(schema.name, false, normalized.value);
      ListedAreRecorded(storage.state, schema.name);
      var written := storage.WritePage(pointer.pageId, page);
      if written.Raised? {
        return Raised(written.error);
      }
      RewrittenRow(old(storage.pages), RecordsOf(storage.state, schema.name), schema, normalized.value, record.value);
      r := Ok(());
    }

    method Delete(pointer: Pointer) returns (r: Outcome<()>)
      requires Valid() && storage.Clean()
      modifies storage`pages, storage`state, storage`header, storage`log
      ensures r.Ok? ==> pointer in old(Content()) && Content() == old(Content()) - {pointer}
      ensures storage.Unrefused() && pointer in old(Content()) ==> r.Ok?
      ensures r.Raised? ==> r.error == StorageFault
      ensures r.Ok? ==> Valid() && storage.header == storage.state && storage.limits.headerFits(storage.state)
      ensures r.Ok? ==> OverwroteRow(old(storage.pages), storage.pages, pointer.pageId, schema.name)
      ensures r.Ok? ==> OnlyRecordsChanged(old(storage.state), storage.state, schema.name)
      ensures storage.Traced() && (r.Ok? ==> storage.Clean())
    {
      if pointer.table != schema.name || pointer.slot != 0 {
        return Raised(StorageFault);
      }
      var i := RecordIndex(pointer);
      if i.Some? {
        r := DeleteRecord(i.value);
      } else {
        LiveIffRecord(storage.pages, RecordsOf(storage.state, schema.name), schema.name, pointer, None);
        r := Raised(StorageFault);
      }
    }

    /** The place of the first record of a pointer in the record list. */
    method RecordIndex(pointer: Pointer) returns (r: Option<nat>)
      requires pointer.table == schema.name
      ensures var records := RecordsOf(storage.state, schema.name);
        match r
        case Some(i) => i < |records| && PointerOf(schema.name, records[i]) == pointer
        case None => forall k :: k in records ==> k.pageId != pointer.pageId || k.slot != pointer.slot
    {
      var records := RecordsOf(storage.state, schema.name);
      for i := 0 to |records|
        invariant forall j :: 0 <= j < i ==> records[j].pageId != pointer.pageId || records[j].slot != pointer.slot
      {
        if records[i].pageId == pointer.pageId && records[i].slot == pointer.slot {
          return Some(i);
        }
      }
      r := None;
    }

    /** Marks the page of one record deleted, then the record. */
    method DeleteRecord(i: nat) returns (r: Outcome<()>)
      requires Valid() && storage.Clean() && i < |RecordsOf(storage.state, schema.name)|
      modifies storage`pages, storage`state, storage`header, storage`log
      ensures var p := PointerOf(schema.name, RecordsOf(old(storage.state), schema.name)[i]);
        && (r.Ok? ==> p in old(Content()) && Content() == old(Content()) - {p})
        && (storage.Unrefused() && p in old(Content()) ==> r.Ok?)
        && (r.Ok? ==> OverwroteRow(old(storage.pages), storage.pages, p.pageId, schema.name))
      ensures r.Raised? ==> r.error == StorageFault
      ensures r.Ok? ==> Valid() && storage.header == storage.state && storage.limits.headerFits(storage.state)
      ensures r.Ok? ==> OnlyRecordsChanged(old(storage.state), storage.state, schema.name)
      ensures storage.Traced() && (r.Ok? ==> storage.Clean())
    {
      var records := RecordsOf(storage.state, schema.name);
      var record := records[i];
      LiveIffRecord(storage.pages, records, schema.name, PointerOf(schema.name, record), Some(record));
      if record.deleted {
        return Raised(StorageFault);
      }
      r := MarkDeleted(i, storage.pages[record.pageId].row);
      DeletedRow(old(storage.pages), records, schema, old(storage.pages)[record.pageId].row, i);
    }

    method MarkDeleted(i: nat, row: Row) returns (r: Outcome<()>)
      requires storage.Clean() && i < |RecordsOf(storage.state, schema.name)|
      requires RecordsOf(storage.state, schema.name)[i].pageId < |storage.pages|
      modifies storage`pages, storage`state, storage`header, storage`log
      ensures r == if storage.Unrefused() then Ok(()) else Raised(StorageFault)
      ensures r.Ok? ==> storage.header == storage.state && storage.limits.headerFits(storage.state)
      ensures var was := RecordsOf(old(storage.state), schema.name);
        r.Ok? ==>
          && storage.pages == old(storage.pages)[was[i].pageId := RowPage(schema.name, true, row)]
          && OnlyRecordsChanged(old(storage.state), storage.state, schema.name)
          && RecordsOf(storage.state, schema.name) == was[i := was[i].(deleted := true)]
      ensures storage.Traced() && (r.Ok? ==> storage.Clean())
    {
      var records := RecordsOf(storage.state, schema.name);
      ListedAreRecorded(storage.state, schema.name);
      var marked := storage.WritePage(records[i].pageId, RowPage(schema.name, true, row));
      if marked.Raised? {
        return Raised(marked.error);
      }
      var written := storage.WriteTableRecords(schema.name, records[i := records[i].(deleted := true)]);
      if written.Raised? {
        return Raised(written.error);
      }
      r := Ok(());
    }
  }

  /** At most the record list of one table is new. */
  ghost predicate OnlyRecordsChanged(was: State, state: State, table: string) {
    table in state.records && state == was.(records := was.records[table := state.records[table]])
  }

  lemma ListedAreRecorded(s: State, table: string)
    ensures forall i :: 0 <= i < |RecordsOf(s, table)| ==> Recorded(s, RecordsOf(s, table)[i].pageId)
    ensures forall k :: k in RecordsOf(s, table) ==> Recorded(s, k.pageId)
  {
  }

  // ---------------------------------------------------------------- lemmas about one change

  /** One row page of the table was replaced by another. */
  ghost predicate OverwroteRow(before: seq<Page>, now: seq<Page>, pageId: nat, table: string) {
    && pageId < |before| && |now| == |before|
    && before[pageId].RowPage? && before[pageId].table == table
    && now[pageId].RowPage? && now[pageId].table == table
    && now == before[pageId := now[pageId]]
  }

  lemma LiveIffRecord(pages: seq<Page>, records: seq<Record>, table: string, pointer: Pointer, record: Option<Record>)
    requires RecordsOk(pages, records, table) && pointer.table == table && pointer.slot == 0
    requires record.Some? ==>
      record.value in records && record.value.pageId == pointer.pageId && record.value.slot == pointer.slot
    requires record.None? ==> forall k :: k in records ==> k.pageId != pointer.pageId || k.slot != pointer.slot
    ensures pointer in LivePointers(records, table) <==> record.Some? && !record.value.deleted
  {
    if record.Some? {
      assert PointerOf(table, record.value) == pointer;
    }
    if pointer in LivePointers(records, table) {
      var k :| k in records && !k.deleted && PointerOf(table, k) == pointer;
      assert record.Some?;
      var i, j :| 0 <= i < |records| && 0 <= j < |records| && records[i] == k && records[j] == record.value;
      assert i == j;
    }
  }

  lemma RowsOkInsert(schema: TableSchema, rows: map<Pointer, Row>, p: Pointer, row: Row)
    requires RowsOk(schema, rows) && RowOk(schema, row)
    requires NoClash(schema, row, rows, Some(p))
    ensures RowsOk(schema, rows[p := row])
  {
    var all := rows[p := row];
    forall q, s | q in all && s in all && q != s ensures !Clash(schema, all[q], all[s]) {
      if s == p {
        ClashSymmetric(schema, row, rows[q]);
      }
    }
  }

  lemma ClashSymmetric(schema: TableSchema, a: Row, b: Row)
    requires RowOk(schema, a) && RowOk(schema, b)
    ensures Clash(schema, a, b) <==> Clash(schema, b, a)
  {
  }

  lemma AppendedRow(pages: seq<Page>, records: seq<Record>, schema: TableSchema, row: Row)
    requires TableOk(pages, records, schema) && RowOk(schema, row)
    requires NoClash(schema, row, Rows(pages, records, schema.name), None)
    ensures var page, record := RowPage(schema.name, false, row), Record(|pages|, 0, false);
      var p := Pointer(schema.name, |pages|, 0);
      && TableOk(pages + [page], records + [record], schema)
      && p !in Rows(pages, records, schema.name)
      && Rows(pages + [page], records + [record], schema.name) == Rows(pages, records, schema.name)[p := row]
  {
    RowsAppended(pages, records, schema.name, row);
    RowsOkInsert(schema, Rows(pages, records, schema.name), Pointer(schema.name, |pages|, 0), row);
  }

  lemma RowsAppended(pages: seq<Page>, records: seq<Record>, table: string, row: Row)
    requires RecordsOk(pages, records, table)
    ensures var page, record, p := RowPage(table, false, row), Record(|pages|, 0, false), Pointer(table, |pages|, 0);
      && RecordsOk(pages + [page], records + [record], table)
      && p !in Rows(pages, records, table)
      && Rows(pages + [page], records + [record], table) == Rows(pages, records, table)[p := row]
  {
    var page, record, p := RowPage(table, false, row), Record(|pages|, 0, false), Pointer(table, |pages|, 0);
    LivePointersSnoc(records, record, table);
    forall q | q in LivePointers(records, table) ensures q.pageId < |pages| {
      var k :| k in records && !k.deleted && PointerOf(table, k) == q;
    }
  }

  lemma LivePointersSnoc(records: seq<Record>, record: Record, table: string)
    requires !record.deleted
    ensures LivePointers(records + [record], table) == LivePointers(records, table) + {PointerOf(table, record)}
  {
    forall q | q in LivePointers(records, table) ensures q in LivePointers(records + [record], table) {
      var k :| k in records && !k.deleted && PointerOf(table, k) == q;
      assert k in records + [record];
    }
    assert record in records + [record];
  }

  lemma RewrittenRow(pages: seq<Page>, records: seq<Record>, schema: TableSchema, row: Row, record: Record)
    requires TableOk(pages, records, schema) && record in records && !record.deleted && RowOk(schema, row)
    requires NoClash(schema, row, Rows(pages, records, schema.name), Some(PointerOf(schema.name, record)))
    ensures var now := pages[record.pageId := RowPage(schema.name, false, row)];
      && TableOk(now, records, schema)
      && Rows(now, records, schema.name) == Rows(pages, records, schema.name)[PointerOf(schema.name, record) := row]
      && OverwroteRow(pages, now, record.pageId, schema.name)
  {
    RowsRewritten(pages, records, schema.name, row, record);
    RowsOkInsert(schema, Rows(pages, records, schema.name), PointerOf(schema.name, record), row);
  }

  lemma RowsRewritten(pages: seq<Page>, records: seq<Record>, table: string, row: Row, record: Record)
    requires RecordsOk(pages, records, table) && record in records && !record.deleted
    ensures var now := pages[record.pageId := RowPage(table, false, row)];
      && RecordsOk(now, records, table)
      && Rows(now, records, table) == Rows(pages, records, table)[PointerOf(table, record) := row]
      && OverwroteRow(pages, now, record.pageId, table)
  {
    var now, p := pages[record.pageId := RowPage(table, false, row)], PointerOf(table, record);
    OneRecordPerPage(pages, records, table, record);
    assert RecordsOk(now, records, table);
    assert p in LivePointers(records, table);
    forall q | q in LivePointers(records, table) && q.pageId == record.pageId ensures q == p {
      var k :| k in records && !k.deleted && PointerOf(table, k) == q;
      var i :| 0 <= i < |records| && records[i] == k;
    }
  }

  lemma OneRecordPerPage(pages: seq<Page>, records: seq<Record>, table: string, record: Record)
    requires RecordsOk(pages, records, table) && record in records
    ensures forall i :: 0 <= i < |records| && records[i].pageId == record.pageId ==> records[i] == record
  {
  }

  lemma DeletedRow(pages: seq<Page>, records: seq<Record>, schema: TableSchema, row: Row, i: nat)
    requires TableOk(pages, records, schema) && i < |records| && !records[i].deleted
    ensures var pageId, marked := records[i].pageId, records[i := records[i].(deleted := true)];
      var p := PointerOf(schema.name, records[i]);
      var now := pages[pageId := RowPage(schema.name, true, row)];
      && TableOk(now, marked, schema)
      && p in Rows(pages, records, schema.name)
      && Rows(now, marked, schema.name) == Rows(pages, records, schema.name) - {p}
      && OverwroteRow(pages, now, pageId, schema.name)
  {
    var pageId, p := records[i].pageId, PointerOf(schema.name, records[i]);
    var marked := records[i := records[i].(deleted := true)];
    var now := pages[pageId := RowPage(schema.name, true, row)];
    DeletedPointers(pages, records, schema.name, i);
    DeletedRecords(pages, records, schema.name, row, i);
    assert Rows(now, marked, schema.name) == Rows(pages, records, schema.name) - {p};
  }

  lemma DeletedRecords(pages: seq<Page>, records: seq<Record>, table: string, row: Row, i: nat)
    requires RecordsOk(pages, records, table) && i < |records|
    ensures RecordsOk(pages[records[i].pageId := RowPage(table, true, row)],
                      records[i := records[i].(deleted := true)], table)
  {
    var marked := records[i := records[i].(deleted := true)];
    assert forall j :: 0 <= j < |marked| ==> marked[j] == if j == i then records[i].(deleted := true) else records[j];
  }

  lemma DeletedPointers(pages: seq<Page>, records: seq<Record>, table: string, i: nat)
    requires RecordsOk(pages, records, table) && i < |records| && !records[i].deleted
    ensures var marked, p := records[i := records[i].(deleted := true)], PointerOf(table, records[i]);
      && p in LivePointers(records, table)
      && LivePointers(marked, table) == LivePointers(records, table) - {p}
      && forall q :: q in LivePointers(marked, table) ==> q.pageId != records[i].pageId
  {
    var marked, p := records[i := records[i].(deleted := true)], PointerOf(table, records[i]);
    forall q | q in LivePointers(records, table) && q != p ensures q in LivePointers(marked, table) {
      var k :| k in records && !k.deleted && PointerOf(table, k) == q;
      var j :| 0 <= j < |records| && records[j] == k;
      assert marked[j] == k;
    }
    forall q | q in LivePointers(marked, table)
      ensures q in LivePointers(records, table) && q != p && q.pageId != records[i].pageId
    {
      var k :| k in marked && !k.deleted && PointerOf(table, k) == q;
      var j :| 0 <= j < |marked| && marked[j] == k;
      assert records[j] == k && j != i;
    }
  }
}

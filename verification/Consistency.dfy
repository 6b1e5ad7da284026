/** The invariant of the whole database: sound tables, and every constraint index mirroring its
    table. `exact` says that no index has lost an entry: creating a table whose index takes another's
    name can make it do so, and nothing else can. */
module Consistency {
  import opened Values
  import opened BTreeNodes
  import opened Catalog
  import opened Storage
  import opened BTreeIndex
  import opened Planner
  import opened Table
  import opened Agreement

  function IndexName(schema: TableSchema, c: ColumnSchema): string {
    ConstraintIndexName(schema.name, c.name)
  }

  function IndexNames(schema: TableSchema): set<string> {
    set c | c in schema.columns && Indexed(c) :: IndexName(schema, c)
  }

  function TableRows(pages: seq<Page>, state: State, table: string): map<Pointer, Row> {
    Rows(pages, RecordsOf(state, table), table)
  }

  ghost predicate ColumnMirrored(pages: seq<Page>, rows: map<Pointer, Row>, schema: TableSchema, c: ColumnSchema,
                                 exact: bool) {
    Mirrors(Stored(pages, IndexName(schema, c)), schema.name, rows, c.name, exact)
  }

  ghost predicate IndexesMirror(pages: seq<Page>, rows: map<Pointer, Row>, schema: TableSchema, exact: bool) {
    forall c {:trigger ColumnMirrored(pages, rows, schema, c, exact)} ::
      c in schema.columns && Indexed(c) ==> ColumnMirrored(pages, rows, schema, c, exact)
  }

  ghost predicate TableSound(pages: seq<Page>, state: State, schema: TableSchema, exact: bool) {
    && TableOk(pages, RecordsOf(state, schema.name), schema)
    && IndexesMirror(pages, TableRows(pages, state, schema.name), schema, exact)
  }

  ghost predicate Consistent(pages: seq<Page>, state: State, exact: bool) {
    && ValidImages(pages)
    && (forall t {:trigger TableSound(pages, state, state.catalog[t], exact)} :: t in state.catalog ==>
         state.catalog[t].name == t && TableSound(pages, state, state.catalog[t], exact))
    && (forall t :: t !in state.catalog ==> RecordsOf(state, t) == [])
  }

  lemma SoundAt(pages: seq<Page>, state: State, t: string, exact: bool)
    requires Consistent(pages, state, exact) && t in state.catalog
    ensures state.catalog[t].name == t && TableSound(pages, state, state.catalog[t], exact)
  {
    assert TableSound(pages, state, state.catalog[t], exact);
  }

  /** An exact mirror is a mirror. */
  lemma ExactIsConsistent(pages: seq<Page>, state: State, exact: bool)
    requires Consistent(pages, state, true)
    ensures Consistent(pages, state, exact)
  {
    forall t | t in state.catalog
      ensures state.catalog[t].name == t && TableSound(pages, state, state.catalog[t], exact)
    {
      var schema := state.catalog[t];
      SoundAt(pages, state, t, true);
      forall c | c in schema.columns && Indexed(c)
        ensures ColumnMirrored(pages, TableRows(pages, state, t), schema, c, exact)
      {
        assert ColumnMirrored(pages, TableRows(pages, state, t), schema, c, true);
      }
    }
  }

  lemma TableRowsOfTable(pages: seq<Page>, state: State, table: string)
    ensures RowsOf(TableRows(pages, state, table), table)
  {
  }

  /** Within one table index names differ because column names do. */
  lemma NamesDifferByColumn(schema: TableSchema, c: ColumnSchema, d: ColumnSchema)
    ensures IndexName(schema, c) == IndexName(schema, d) <==> c.name == d.name
  {
    var prefix := schema.name + "_";
    assert (prefix + c.name)[|prefix|..] == c.name && (prefix + d.name)[|prefix|..] == d.name;
  }

  // ---------------------------------------------------------------- what a change leaves alone

  ghost predicate ForeignPagesKept(before: seq<Page>, now: seq<Page>, table: string) {
    forall i :: 0 <= i < |before| && before[i].RowPage? && before[i].table != table ==> i < |now| && now[i] == before[i]
  }

  ghost predicate IndexesKept(before: seq<Page>, now: seq<Page>, names: set<string>) {
    forall n :: n !in names ==> Latest(now, n) == Latest(before, n)
  }

  /** In every index, the entries of the other tables are as they were. */
  ghost predicate ForeignEntriesKept(before: seq<Page>, now: seq<Page>, table: string) {
    forall n, t :: t != table ==> Own(Stored(now, n), t) == Own(Stored(before, n), t)
  }

  /** The change concerns the rows of one table and their entries in its own indexes. */
  ghost predicate Within(before: seq<Page>, now: seq<Page>, schema: TableSchema) {
    && ForeignPagesKept(before, now, schema.name)
    && IndexesKept(before, now, IndexNames(schema))
    && ForeignEntriesKept(before, now, schema.name)
  }

  lemma SameIndexes(before: seq<Page>, now: seq<Page>, table: string)
    requires IndexesKept(before, now, {})
    ensures ForeignEntriesKept(before, now, table)
  {
  }

  lemma WithinTransitive(a: seq<Page>, b: seq<Page>, c: seq<Page>, schema: TableSchema)
    requires Within(a, b, schema) && Within(b, c, schema)
    ensures Within(a, c, schema)
  {
    forall n, t | t != schema.name ensures Own(Stored(c, n), t) == Own(Stored(a, n), t) {
      assert Own(Stored(b, n), t) == Own(Stored(a, n), t);
    }
  }

  lemma ExtendsForeign(before: seq<Page>, now: seq<Page>, table: string)
    requires Extends(before, now)
    ensures ForeignPagesKept(before, now, table)
  {
    assert forall i :: 0 <= i < |before| ==> now[..|before|][i] == now[i];
  }

  lemma AppendedRowPage(before: seq<Page>, now: seq<Page>, schema: TableSchema)
    requires Extends(before, now) && |now| == |before| + 1 && !now[|before|].IndexPage?
    ensures IndexesKept(before, now, {}) && Within(before, now, schema)
    ensures ValidImages(before) ==> ValidImages(now)
  {
    assert now == before + [now[|before|]];
    forall n {
      LatestAppend(before, now[|before|], n);
    }
    SameIndexes(before, now, schema.name);
    ExtendsForeign(before, now, schema.name);
    assert forall i :: 0 <= i < |before| ==> now[i] == before[i];
  }

  lemma OverwrittenRowPage(before: seq<Page>, now: seq<Page>, pageId: nat, schema: TableSchema)
    requires OverwroteRow(before, now, pageId, schema.name)
    ensures IndexesKept(before, now, {}) && Within(before, now, schema)
    ensures ValidImages(before) ==> ValidImages(now)
  {
    forall n {
      LatestOverwrite(before, pageId, now[pageId], n);
    }
    SameIndexes(before, now, schema.name);
    assert forall i :: 0 <= i < |before| && i != pageId ==> now[i] == before[i];
  }

  /** The same stored entries mirror the same rows. */
  lemma MirrorsKept(before: seq<Page>, now: seq<Page>, rows: map<Pointer, Row>, schema: TableSchema, exact: bool)
    requires IndexesMirror(before, rows, schema, exact) && IndexesKept(before, now, {})
    ensures IndexesMirror(now, rows, schema, exact)
  {
    forall c | c in schema.columns && Indexed(c) ensures ColumnMirrored(now, rows, schema, c, exact) {
      assert ColumnMirrored(before, rows, schema, c, exact);
    }
  }

  lemma RowsKept(before: seq<Page>, now: seq<Page>, records: seq<Record>, table: string, changed: string)
    requires RecordsOk(before, records, table) && table != changed && ForeignPagesKept(before, now, changed)
    ensures RecordsOk(now, records, table) && Rows(now, records, table) == Rows(before, records, table)
  {
    forall p | p in LivePointers(records, table) ensures RowAt(now, p.pageId) == RowAt(before, p.pageId) {
      var k :| k in records && !k.deleted && PointerOf(table, k) == p;
    }
  }

  /** A change to one table leaves the rows of every other, and its indexes mirroring it, shared
      index names or not. */
  lemma OtherKept(before: seq<Page>, was: State, now: seq<Page>, state: State, changed: string, schema: TableSchema,
                  exact: bool)
    requires TableSound(before, was, schema, exact) && schema.name != changed
    requires ForeignPagesKept(before, now, changed) && ForeignEntriesKept(before, now, changed)
    requires RecordsOf(state, schema.name) == RecordsOf(was, schema.name)
    ensures TableSound(now, state, schema, exact)
    ensures TableRows(now, state, schema.name) == TableRows(before, was, schema.name)
  {
    var rows := TableRows(before, was, schema.name);
    RowsKept(before, now, RecordsOf(was, schema.name), schema.name, changed);
    forall c | c in schema.columns && Indexed(c) ensures ColumnMirrored(now, rows, schema, c, exact) {
      assert ColumnMirrored(before, rows, schema, c, exact);
    }
  }

  ghost predicate OtherRowsKept(before: seq<Page>, was: State, now: seq<Page>, state: State, changed: string) {
    forall t :: t != changed && t in was.catalog ==> TableRows(now, state, t) == TableRows(before, was, t)
  }

  /** ... so the database is consistent again once the changed table is. */
  lemma OneTableChanged(before: seq<Page>, was: State, now: seq<Page>, state: State, schema: TableSchema, exact: bool)
    requires Consistent(before, was, exact) && ValidImages(now)
    requires schema.name in was.catalog && was.catalog[schema.name] == schema && state.catalog == was.catalog
    requires forall t :: t != schema.name ==> RecordsOf(state, t) == RecordsOf(was, t)
    requires Within(before, now, schema) && TableSound(now, state, schema, exact)
    ensures Consistent(now, state, exact) && OtherRowsKept(before, was, now, state, schema.name)
  {
    SoundAt(before, was, schema.name, exact);
    forall t | t != schema.name && t in was.catalog
      ensures was.catalog[t].name == t && TableSound(now, state, was.catalog[t], exact)
      ensures TableRows(now, state, t) == TableRows(before, was, t)
    {
      SoundAt(before, was, t, exact);
      OtherKept(before, was, now, state, schema.name, was.catalog[t], exact);
    }
  }

  /** Snapshot and other foreign pages may be appended at any time. */
  lemma ConsistentUnderForeignPage(pages: seq<Page>, state: State, page: Page, exact: bool)
    requires Consistent(pages, state, exact) && page.OtherPage?
    ensures Consistent(pages + [page], state, exact)
    ensures forall t :: t in state.catalog ==> TableRows(pages + [page], state, t) == TableRows(pages, state, t)
    ensures IndexesKept(pages, pages + [page], {})
  {
    var now := pages + [page];
    forall t | t in state.catalog
      ensures state.catalog[t].name == t && TableSound(now, state, state.catalog[t], exact)
      ensures TableRows(now, state, t) == TableRows(pages, state, t)
    {
      SoundAt(pages, state, t, exact);
      AppendedRowPage(pages, now, state.catalog[t]);
      ExtendsKeepsTable(pages, now, RecordsOf(state, t), state.catalog[t]);
      MirrorsKept(pages, now, TableRows(pages, state, t), state.catalog[t], exact);
    }
    AppendedRowPage(pages, now, TableSchema([], []));
  }

  // ---------------------------------------------------------------- indexes with names of their own

  /** No two indexed columns of different tables share an index name. */
  ghost predicate DistinctIndexNames(catalog: Tables) {
    forall t, u :: t in catalog && u in catalog && t != u ==> IndexNames(catalog[t]) !! IndexNames(catalog[u])
  }

  ghost predicate PureIndexes(pages: seq<Page>, schema: TableSchema) {
    forall c :: c in schema.columns && Indexed(c) ==> Pure(Stored(pages, IndexName(schema, c)), schema.name)
  }

  /** Index names are distinct, and no index holds entries left over from another table. */
  ghost predicate Separate(pages: seq<Page>, catalog: Tables) {
    DistinctIndexNames(catalog) && forall t :: t in catalog ==> catalog[t].name == t && PureIndexes(pages, catalog[t])
  }

  lemma StaysSeparate(before: seq<Page>, now: seq<Page>, catalog: Tables, schema: TableSchema)
    requires Separate(before, catalog) && Within(before, now, schema)
    requires schema.name in catalog && catalog[schema.name] == schema
    ensures Separate(now, catalog)
  {
    forall t, c | t in catalog && c in catalog[t].columns && Indexed(c)
      ensures Pure(Stored(now, IndexName(catalog[t], c)), t)
    {
      var n := IndexName(catalog[t], c);
      assert Pure(Stored(before, n), t);
      if t == schema.name {
        StaysPure(Stored(before, n), Stored(now, n), t);
      } else {
        assert n in IndexNames(catalog[t]);
        assert n !in IndexNames(schema);
      }
    }
  }

  /** Then each index holds exactly the (value, pointer) pairs of the live rows whose value is not
      NULL. */
  lemma SeparateIsExact(pages: seq<Page>, state: State, t: string, c: ColumnSchema)
    requires Consistent(pages, state, true) && Separate(pages, state.catalog)
    requires t in state.catalog && c in state.catalog[t].columns && Indexed(c)
    ensures Pairs(Stored(pages, IndexName(state.catalog[t], c))) == Expected(TableRows(pages, state, t), c.name)
  {
    var s := Stored(pages, IndexName(state.catalog[t], c));
    SoundAt(pages, state, t, true);
    assert ColumnMirrored(pages, TableRows(pages, state, t), state.catalog[t], c, true);
    assert Pure(s, t);
    PureIsOwn(s, t);
  }

  /** A value each index of the table can be searched for. */
  ghost predicate AllTake(pages: seq<Page>, schema: TableSchema, row: Row) {
    forall c :: c in schema.columns && Indexed(c) ==>
      ValueOf(row, c.name) == Null || Takes(Stored(pages, IndexName(schema, c)), ValueOf(row, c.name))
  }

  lemma SeparateTakes(pages: seq<Page>, schema: TableSchema, rows: map<Pointer, Row>, row: Row, exact: bool)
    requires IndexesMirror(pages, rows, schema, exact) && RowsOk(schema, rows)
    requires PureIndexes(pages, schema) && RowOk(schema, row)
    ensures AllTake(pages, schema, row)
  {
    forall c | c in schema.columns && Indexed(c)
      ensures ValueOf(row, c.name) == Null || Takes(Stored(pages, IndexName(schema, c)), ValueOf(row, c.name))
    {
      assert ColumnMirrored(pages, rows, schema, c, exact);
      RowsTyped(schema, rows, c);
      PureTakes(Stored(pages, IndexName(schema, c)), schema.name, rows, c.name, c.ty, ValueOf(row, c.name));
    }
  }

  // ---------------------------------------------------------------- colliding names

  /** Different (table, column) pairs can have one index name. */
  lemma NamesCanCollide()
    ensures ConstraintIndexName("a", "b_c") == ConstraintIndexName("a_b", "c")
  {
    assert "a" + "_" + "b_c" == ("a_b" + "_") + "c";
  }

  /** Two tables that share an index cannot both have an index holding exactly their own pairs,
      unless neither has a value in its column. */
  lemma SharedIndexIsExactOnlyIfEmpty(s: seq<Entry>, rows: map<Pointer, Row>, column: string, table: string,
                                      others: map<Pointer, Row>, otherColumn: string, other: string)
    requires table != other && RowsOf(rows, table) && RowsOf(others, other)
    requires Pairs(s) == Expected(rows, column) && Pairs(s) == Expected(others, otherColumn)
    ensures forall p :: p in rows ==> ValueOf(rows[p], column) == Null
    ensures forall p :: p in others ==> ValueOf(others[p], otherColumn) == Null
  {
    forall p | p in rows ensures ValueOf(rows[p], column) == Null {
      var x := (ValueOf(rows[p], column), p);
      assert x in ExpectedSet(rows, column) ==> x in Expected(others, otherColumn);
    }
    forall p | p in others ensures ValueOf(others[p], otherColumn) == Null {
      var x := (ValueOf(others[p], otherColumn), p);
      assert x in ExpectedSet(others, otherColumn) ==> x in Expected(rows, column);
    }
  }
}

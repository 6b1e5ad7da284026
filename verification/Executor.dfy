/** The executor: rows changed one by one, each change mirrored in the constraint indexes, the whole
    statement undone if anything raises. */
module Executor {
  import opened Values
  import opened BTreeNodes
  import opened BTreeInsert
  import opened BTreeDelete
  import opened Catalog
  import opened Storage
  import opened BTreeIndex
  import opened Expressions
  import opened Planner
  import opened Table
  import opened Agreement
  import opened Consistency
  import opened Plans
  import opened Statements

  class Executor {
    const storage: StorageManager

    constructor (storage: StorageManager)
      ensures this.storage == storage
    {
      this.storage := storage;
    }

    // -------------------------------------------------------------- one column's index

    /** Adds the row's value, if it has one, to the index of a column. */
    method PutValue(schema: TableSchema, c: ColumnSchema, pointer: Pointer, row: Row, ghost rows: map<Pointer, Row>,
                    ghost exact: bool)
      returns (r: Outcome<()>)
      requires ValidImages(storage.pages) && storage.Clean() && pointer !in rows && pointer.table == schema.name
      requires ColumnMirrored(storage.pages, rows, schema, c, exact)
      modifies storage`pages, storage`log
      ensures ValidImages(storage.pages) && OneIndexChanged(old(storage.pages), storage.pages, schema, c)
      ensures r.Ok? ==> ColumnMirrored(storage.pages, rows[pointer := row], schema, c, exact)
      ensures r.Raised? ==> storage.pages == old(storage.pages)
      ensures var s := Stored(old(storage.pages), IndexName(schema, c));
        storage.Unrefused() ==> (r.Ok? <==> TakesValue(s, ValueOf(row, c.name)))
      ensures storage.Traced() && (r.Ok? ==> storage.Clean())
    {
      var name, v := IndexName(schema, c), ValueOf(row, c.name);
      ghost var s := Stored(storage.pages, name);
      if v == Null {
        InsertMirrors(s, rows, pointer, row, c.name, Entry(Int(0), pointer, 0), exact);
        return Ok(());
      }
      var index := new Index(storage, name);
      ghost var entry := Entry(v, pointer, index.nextSequence);
      InsertMirrors(s, rows, pointer, row, c.name, entry, exact);
      r := index.Insert(v, pointer);
      FreshAfter(old(storage.pages), storage.pages, name);
      if r.Ok? {
        InsertedForeign(old(storage.pages), storage.pages, name, entry);
      }
    }

    /** Removes the row's value, if it has one, from the index of a column. */
    method RemoveValue(schema: TableSchema, c: ColumnSchema, pointer: Pointer, row: Row, ghost rows: map<Pointer, Row>,
                       ghost exact: bool)
      returns (r: Outcome<()>)
      requires ValidImages(storage.pages) && storage.Clean() && pointer.table == schema.name
      requires pointer in rows && rows[pointer] == row
      requires ColumnMirrored(storage.pages, rows, schema, c, exact)
      modifies storage`pages, storage`log
      ensures ValidImages(storage.pages) && OneIndexChanged(old(storage.pages), storage.pages, schema, c)
      ensures r.Ok? ==> ColumnMirrored(storage.pages, rows - {pointer}, schema, c, exact)
      ensures r.Ok? ==>
        Stored(storage.pages, IndexName(schema, c))
        == Taken(Stored(old(storage.pages), IndexName(schema, c)), ValueOf(row, c.name), pointer)
      ensures r.Raised? ==> storage.pages == old(storage.pages)
      ensures var s := Stored(old(storage.pages), IndexName(schema, c));
        storage.Unrefused() ==> (r.Ok? <==> TakesValue(s, ValueOf(row, c.name)))
      ensures storage.Traced() && (r.Ok? ==> storage.Clean())
    {
      var name, v := IndexName(schema, c), ValueOf(row, c.name);
      DeleteMirrors(Stored(storage.pages, name), rows, pointer, c.name, exact);
      if v == Null {
        return Ok(());
      }
      var index := new Index(storage, name);
      r := index.Delete(v, Some(pointer));
      FreshAfter(old(storage.pages), storage.pages, name);
      if r.Ok? {
        KeptForeign(old(storage.pages), storage.pages, name, v, pointer);
      }
    }

    /** Moves the row's pair from the old value to the new one, if they differ. */
    method ReplaceValue(schema: TableSchema, c: ColumnSchema, pointer: Pointer, oldRow: Row, newRow: Row,
                        ghost rows: map<Pointer, Row>, ghost exact: bool)
      returns (r: Outcome<()>)
      requires ValidImages(storage.pages) && storage.Clean() && pointer.table == schema.name
      requires pointer in rows && rows[pointer] == oldRow
      requires Typed(c.ty, ValueOf(oldRow, c.name)) && Typed(c.ty, ValueOf(newRow, c.name))
      requires ColumnMirrored(storage.pages, rows, schema, c, exact)
      modifies storage`pages, storage`log
      ensures ValidImages(storage.pages) && OneIndexChanged(old(storage.pages), storage.pages, schema, c)
      ensures r.Ok? ==> ColumnMirrored(storage.pages, rows[pointer := newRow], schema, c, exact)
      ensures var s := Stored(old(storage.pages), IndexName(schema, c));
        storage.Unrefused() ==>
          TakesValue(s, ValueOf(oldRow, c.name)) && TakesValue(s, ValueOf(newRow, c.name)) ==> r.Ok?
      ensures storage.Traced() && (r.Ok? ==> storage.Clean())
    {
      var oldValue, newValue := ValueOf(oldRow, c.name), ValueOf(newRow, c.name);
      ghost var s := Stored(storage.pages, IndexName(schema, c));
      if Same(oldValue, newValue) {
        TypedSame(c.ty, oldValue, newValue);
        SameMirrors(s, rows, pointer, newRow, c.name, exact);
        return Ok(());
      }
      r := MoveValue(schema, c, pointer, oldRow, newRow, rows, exact);
    }

    method MoveValue(schema: TableSchema, c: ColumnSchema, pointer: Pointer, oldRow: Row, newRow: Row,
                     ghost rows: map<Pointer, Row>, ghost exact: bool)
      returns (r: Outcome<()>)
      requires ValidImages(storage.pages) && storage.Clean() && pointer.table == schema.name
      requires pointer in rows && rows[pointer] == oldRow
      requires ColumnMirrored(storage.pages, rows, schema, c, exact)
      modifies storage`pages, storage`log
      ensures ValidImages(storage.pages) && OneIndexChanged(old(storage.pages), storage.pages, schema, c)
      ensures r.Ok? ==> ColumnMirrored(storage.pages, rows[pointer := newRow], schema, c, exact)
      ensures var s := Stored(old(storage.pages), IndexName(schema, c));
        storage.Unrefused() ==>
          TakesValue(s, ValueOf(oldRow, c.name)) && TakesValue(s, ValueOf(newRow, c.name)) ==> r.Ok?
      ensures storage.Traced() && (r.Ok? ==> storage.Clean())
    {
      RemoveThenPut(rows, pointer, newRow);
      r := RemoveValue(schema, c, pointer, oldRow, rows, exact);
      if r.Raised? {
        return;
      }
      ghost var middle := storage.pages;
      StoredTakes(old(storage.pages), IndexName(schema, c), ValueOf(oldRow, c.name), pointer, ValueOf(newRow, c.name));
      r := PutValue(schema, c, pointer, newRow, rows - {pointer}, exact);
      OneIndexTransitive(old(storage.pages), middle, storage.pages, schema, c);
    }

    // -------------------------------------------------------------- all indexes of a table

    method InsertIndexEntries(schema: TableSchema, pointer: Pointer, row: Row, ghost rows: map<Pointer, Row>,
                              ghost exact: bool)
      returns (r: Outcome<()>)
      requires ValidImages(storage.pages) && storage.Clean() && WellFormed(schema) && pointer.table == schema.name
      requires pointer !in rows
      requires IndexesMirror(storage.pages, rows, schema, exact)
      modifies storage`pages, storage`log
      ensures ValidImages(storage.pages) && Extends(old(storage.pages), storage.pages)
      ensures Within(old(storage.pages), storage.pages, schema)
      ensures r.Ok? ==> IndexesMirror(storage.pages, rows[pointer := row], schema, exact)
      ensures storage.Unrefused() && AllTake(old(storage.pages), schema, row) ==> r.Ok?
      ensures storage.Traced() && (r.Ok? ==> storage.Clean())
    {
      ghost var start, now := storage.pages, rows[pointer := row];
      HalfIsNone(start, rows, now, schema, exact);
      NothingChanged(start, schema);
      for i := 0 to |schema.columns|
        invariant ValidImages(storage.pages) && storage.Clean()
        invariant Half(start, storage.pages, rows, now, schema, i, exact)
      {
        var c := schema.columns[i];
        if Indexed(c) {
          ghost var before := storage.pages;
          TakesAt(start, before, schema, i, row);
          r := PutValue(schema, c, pointer, row, rows, exact);
          IndexStep(start, before, storage.pages, rows, now, schema, i, exact);
          if r.Raised? {
            return;
          }
        } else {
          NotIndexedDone(storage.pages, rows, now, schema, i, exact);
        }
      }
      HalfIsAll(storage.pages, rows, now, schema, exact);
      return Ok(());
    }

    method DeleteIndexEntries(schema: TableSchema, pointer: Pointer, row: Row, ghost rows: map<Pointer, Row>,
                              ghost exact: bool)
      returns (r: Outcome<()>)
      requires ValidImages(storage.pages) && storage.Clean() && WellFormed(schema) && pointer.table == schema.name
      requires pointer in rows && rows[pointer] == row
      requires IndexesMirror(storage.pages, rows, schema, exact)
      modifies storage`pages, storage`log
      ensures ValidImages(storage.pages) && Extends(old(storage.pages), storage.pages)
      ensures Within(old(storage.pages), storage.pages, schema)
      ensures r.Ok? ==> IndexesMirror(storage.pages, rows - {pointer}, schema, exact)
      ensures storage.Unrefused() && AllTake(old(storage.pages), schema, row) ==> r.Ok?
      ensures storage.Traced() && (r.Ok? ==> storage.Clean())
    {
      ghost var start, now := storage.pages, rows - {pointer};
      HalfIsNone(start, rows, now, schema, exact);
      NothingChanged(start, schema);
      for i := 0 to |schema.columns|
        invariant ValidImages(storage.pages) && storage.Clean()
        invariant Half(start, storage.pages, rows, now, schema, i, exact)
      {
        var c := schema.columns[i];
        if Indexed(c) {
          ghost var before := storage.pages;
          TakesAt(start, before, schema, i, row);
          r := RemoveValue(schema, c, pointer, row, rows, exact);
          IndexStep(start, before, storage.pages, rows, now, schema, i, exact);
          if r.Raised? {
            return;
          }
        } else {
          NotIndexedDone(storage.pages, rows, now, schema, i, exact);
        }
      }
      HalfIsAll(storage.pages, rows, now, schema, exact);
      return Ok(());
    }

    method UpdateIndexEntries(schema: TableSchema, pointer: Pointer, oldRow: Row, newRow: Row,
                              ghost rows: map<Pointer, Row>, ghost exact: bool)
      returns (r: Outcome<()>)
      requires ValidImages(storage.pages) && storage.Clean() && WellFormed(schema) && pointer.table == schema.name
      requires pointer in rows && rows[pointer] == oldRow && RowOk(schema, oldRow) && RowOk(schema, newRow)
      requires IndexesMirror(storage.pages, rows, schema, exact)
      modifies storage`pages, storage`log
      ensures ValidImages(storage.pages) && Extends(old(storage.pages), storage.pages)
      ensures Within(old(storage.pages), storage.pages, schema)
      ensures r.Ok? ==> IndexesMirror(storage.pages, rows[pointer := newRow], schema, exact)
      ensures storage.Unrefused() && AllTakeBoth(old(storage.pages), schema, oldRow, newRow) ==> r.Ok?
      ensures storage.Traced() && (r.Ok? ==> storage.Clean())
    {
      ghost var start, now := storage.pages, rows[pointer := newRow];
      HalfIsNone(start, rows, now, schema, exact);
      NothingChanged(start, schema);
      for i := 0 to |schema.columns|
        invariant ValidImages(storage.pages) && storage.Clean()
        invariant Half(start, storage.pages, rows, now, schema, i, exact)
      {
        if Indexed(schema.columns[i]) {
          r := UpdateIndexEntry(schema, i, pointer, oldRow, newRow, start, rows, exact);
          if r.Raised? {
            return;
          }
        } else {
          NotIndexedDone(storage.pages, rows, now, schema, i, exact);
        }
      }
      HalfIsAll(storage.pages, rows, now, schema, exact);
      return Ok(());
    }

    method UpdateIndexEntry(schema: TableSchema, i: nat, pointer: Pointer, oldRow: Row, newRow: Row,
                            ghost start: seq<Page>, ghost rows: map<Pointer, Row>, ghost exact: bool)
      returns (r: Outcome<()>)
      requires ValidImages(storage.pages) && storage.Clean() && WellFormed(schema) && pointer.table == schema.name
      requires pointer in rows && rows[pointer] == oldRow && RowOk(schema, oldRow) && RowOk(schema, newRow)
      requires i < |schema.columns| && Indexed(schema.columns[i])
      requires Half(start, storage.pages, rows, rows[pointer := newRow], schema, i, exact)
      modifies storage`pages, storage`log
      ensures ValidImages(storage.pages) && Extends(start, storage.pages) && Within(start, storage.pages, schema)
      ensures r.Ok? ==> Half(start, storage.pages, rows, rows[pointer := newRow], schema, i + 1, exact)
      ensures storage.Unrefused() && AllTakeBoth(start, schema, oldRow, newRow) ==> r.Ok?
      ensures storage.Traced() && (r.Ok? ==> storage.Clean())
    {
      var c := schema.columns[i];
      ghost var before := storage.pages;
      TakesAt(start, before, schema, i, oldRow);
      TakesAt(start, before, schema, i, newRow);
      TypedAt(schema, i, oldRow);
      TypedAt(schema, i, newRow);
      r := ReplaceValue(schema, c, pointer, oldRow, newRow, rows, exact);
      IndexStep(start, before, storage.pages, rows, rows[pointer := newRow], schema, i, exact);
    }

    // -------------------------------------------------------------- finding rows

    method ReadPointers(table: TableStore, pointers: seq<Pointer>) returns (rows: seq<(Pointer, Row)>)
      requires table.Valid()
      ensures rows == ReadAll(pointers, table.Content())
    {
      rows := [];
      for i := 0 to |pointers|
        invariant rows == ReadAll(pointers[..i], table.Content())
      {
        ReadAllSnoc(pointers, i, table.Content());
        var row := table.Read(pointers[i]);
        if row.Ok? {
          rows := rows + [(pointers[i], row.value)];
        }
      }
      assert pointers[..|pointers|] == pointers;
    }

    method FilterRows(rows: seq<(Pointer, Row)>, where: Option<Expr>) returns (r: Outcome<seq<(Pointer, Row)>>)
      ensures r.Ok? <==> Finishes(rows, where)
      ensures r.Ok? ==> r.value == Filtered(rows, where)
    {
      var accepted: seq<(Pointer, Row)> := [];
      for i := 0 to |rows|
        invariant Finishes(rows[..i], where) && accepted == Filtered(rows[..i], where)
      {
        var verdict := EvaluatePredicate(where, rows[i].1);
        if verdict.Raised? {
          return Raised(verdict.error);
        }
        FilteredSnoc(rows, i, where);
        if verdict.value {
          accepted := accepted + [rows[i]];
        }
      }
      assert rows[..|rows|] == rows;
      r := Ok(accepted);
    }

    /** The file holds the state in memory, and every table has a record list. */
    ghost predicate Settled()
      reads this, storage
    {
      && storage.header == storage.state && storage.limits.headerFits(storage.state)
      && forall t :: t in storage.state.catalog ==> t in storage.state.records
    }

    ghost predicate Valid(exact: bool)
      reads this, storage
    {
      Consistent(storage.pages, storage.state, exact) && Settled() && storage.Clean()
    }

    ghost predicate IsTable(schema: TableSchema)
      reads this, storage
    {
      schema.name in storage.state.catalog && storage.state.catalog[schema.name] == schema
    }

    function TableNow(table: string): map<Pointer, Row>
      reads this, storage
    {
      TableRows(storage.pages, storage.state, table)
    }

    function Now(): Moment
      reads this, storage
    {
      Moment(storage.pages, storage.state)
    }

    /** The named table, opened: between statements that changes nothing. */
    method OpenTable(name: string, ghost exact: bool) returns (r: Outcome<TableStore>)
      requires Valid(exact)
      modifies storage`state, storage`header, storage`log
      ensures storage.state == old(storage.state) && Valid(exact)
      ensures r.Ok? <==> name in storage.state.catalog
      ensures r.Ok? ==> fresh(r.value) && r.value.storage == storage
      ensures r.Ok? ==> r.value.schema == storage.state.catalog[name] && r.value.Valid()
      ensures r.Raised? ==> r.error == ConstraintFault
    {
      if name !in storage.state.catalog {
        return Raised(ConstraintFault);
      }
      assert TableSound(storage.pages, storage.state, storage.state.catalog[name], exact);
      r := TableStore.Open(storage, storage.state.catalog[name]);
      assert storage.state.records == old(storage.state).records;
    }

    /** Candidate rows by the chosen plan: an index lookup, or all rows in record order. */
    method ExecutePlan(schema: TableSchema, where: Option<Expr>, ghost exact: bool)
      returns (r: Outcome<seq<(Pointer, Row)>>)
      requires Valid(exact) && IsTable(schema)
      modifies storage`state, storage`header, storage`log
      ensures storage.state == old(storage.state) && Valid(exact)
      ensures r.Ok? <==> PlanRuns(storage.pages, schema, where)
      ensures r.Ok? ==> r.value == PlannedRows(storage.pages, storage.state, schema, where)
      ensures r.Raised? ==> r.error == ExecutionFault
    {
      var store := OpenTable(schema.name, exact);
      var table := store.value;
      var plan := PlanFor(schema, where);
      if plan.None? {
        var rows := table.Scan();
        return Ok(rows);
      }
      CandidateIsIndexed(schema, where.value);
      var index := new Index(storage, ConstraintIndexName(schema.name, plan.value.column));
      var pointers := index.Matches(plan.value.lookup);
      if pointers.Raised? {
        return Raised(ExecutionFault);
      }
      var rows := ReadPointers(table, pointers.value);
      r := Ok(rows);
    }

    /** The rows that a WHERE accepts among those of the plan. With exact indexes these are the accepted
        rows of a scan, in another order, and the type error of a literal that does not fit its column
        is the only one a scan would not raise. */
    method MatchingRows(schema: TableSchema, where: Option<Expr>, ghost exact: bool)
      returns (r: Outcome<seq<(Pointer, Row)>>)
      requires Valid(exact) && IsTable(schema)
      modifies storage`state, storage`header, storage`log
      ensures storage.state == old(storage.state) && Valid(exact)
      ensures r.Ok? <==> Matchable(storage.pages, storage.state, schema, where)
      ensures r.Ok? ==> r.value == Matched(storage.pages, storage.state, schema, where)
      ensures r.Ok? ==> ListsAccepted(r.value, TableNow(schema.name), where, exact)
      ensures exact && PureIndexes(storage.pages, schema) ==>
        var scan := Scanned(storage.pages, RecordsOf(storage.state, schema.name), schema.name);
        && (r.Ok? ==> multiset(r.value) == multiset(Filtered(scan, where)))
        && (!LiteralFits(schema, where) && !NothingStored(schema, where, TableNow(schema.name)) ==> r.Raised?)
        && (LiteralFits(schema, where) || NothingStored(schema, where, TableNow(schema.name)) ==>
             Finishes(scan, where) ==> r.Ok?)
    {
      var planned := ExecutePlan(schema, where, exact);
      assert TableSound(storage.pages, storage.state, schema, exact);
      LooselySound(storage.pages, storage.state, schema, exact);
      MatchedAreAccepted(storage.pages, storage.state, schema, where, exact);
      if exact && PureIndexes(storage.pages, schema) {
        PlanKeepsMeaning(storage.pages, storage.state, schema, where);
        PlanRunsIff(storage.pages, storage.state, schema, where);
      }
      if planned.Raised? {
        return Raised(planned.error);
      }
      r := FilterRows(planned.value, where);
    }

    // -------------------------------------------------------------- changing one row

    method InsertOne(table: TableStore, row: Row, ghost exact: bool) returns (r: Outcome<Pointer>)
      requires table.storage == storage && Valid(exact) && IsTable(table.schema)
      modifies storage`pages, storage`state, storage`header, storage`log
      ensures r.Ok? ==> Valid(exact) && OneChanged(old(Now()), Now(), table.schema)
      ensures r.Ok? ==> Fitting(table.schema, row, old(TableNow(table.schema.name)), None)
      ensures r.Ok? ==> r.value !in old(TableNow(table.schema.name))
      ensures r.Ok? ==> WellFormed(table.schema)
      ensures r.Ok? ==>
        TableNow(table.schema.name) == old(TableNow(table.schema.name))[r.value := NormalRow(table.schema, row)]
      ensures var fits := Fitting(table.schema, row, old(TableNow(table.schema.name)), None);
        SeparateAt(old(Now())) && storage.Unrefused() && fits ==> r.Ok?
      ensures storage.Traced()
    {
      var schema := table.schema;
      ghost var before, was, rows := storage.pages, storage.state, TableNow(schema.name);
      assert TableSound(before, was, schema, exact);
      r := table.Insert(row);
      if r.Raised? {
        return;
      }
      ghost var middle := storage.pages;
      AppendedRowPage(before, middle, schema);
      InsertTakes(before, middle, was.catalog, schema, rows, row, exact);
      var stored := table.Read(r.value);
      var indexed := InsertIndexEntries(schema, r.value, stored.value, rows, exact);
      if indexed.Raised? {
        return Raised(indexed.error);
      }
      RowThenIndexes(Moment(before, was), middle, Now(), schema, exact);
    }

    method UpdateOne(table: TableStore, pointer: Pointer, oldRow: Row, assignments: seq<(string, Expr)>,
                     ghost exact: bool)
      returns (r: Outcome<()>)
      requires table.storage == storage && Valid(exact) && IsTable(table.schema) && WellFormed(table.schema)
      requires pointer in TableNow(table.schema.name) && TableNow(table.schema.name)[pointer] == oldRow
      modifies storage`pages, storage`log
      ensures r.Ok? ==> Valid(exact) && OneChanged(old(Now()), Now(), table.schema)
      ensures var one := ReassignOne(table.schema, old(TableNow(table.schema.name)), pointer, oldRow, assignments);
        && (r.Ok? ==> one == Some(TableNow(table.schema.name)))
        && (SeparateAt(old(Now())) && storage.Unrefused() && one.Some? ==> r.Ok?)
      ensures storage.Traced()
    {
      var newRow := AssignedRow(oldRow, assignments);
      if newRow.Raised? {
        return Raised(newRow.error);
      }
      r := RewriteOne(table, pointer, oldRow, newRow.value, exact);
    }

    /** Rewrites one row, then its entries in the indexes. */
    method RewriteOne(table: TableStore, pointer: Pointer, oldRow: Row, newRow: Row, ghost exact: bool)
      returns (r: Outcome<()>)
      requires table.storage == storage && Valid(exact) && IsTable(table.schema) && WellFormed(table.schema)
      requires pointer in TableNow(table.schema.name) && TableNow(table.schema.name)[pointer] == oldRow
      modifies storage`pages, storage`log
      ensures r.Ok? ==> Valid(exact) && OneChanged(old(Now()), Now(), table.schema)
      ensures var rows := old(TableNow(table.schema.name));
        var fits := Fitting(table.schema, newRow, rows, Some(pointer));
        && (r.Ok? ==> fits && TableNow(table.schema.name) == rows[pointer := NormalRow(table.schema, newRow)])
        && (SeparateAt(old(Now())) && storage.Unrefused() && fits ==> r.Ok?)
      ensures storage.Traced()
    {
      var schema := table.schema;
      ghost var before, rows := storage.pages, TableNow(schema.name);
      SoundAt(before, storage.state, schema.name, exact);
      var stored := RewriteRow(table, pointer, newRow, exact);
      if stored.Raised? {
        return Raised(stored.error);
      }
      ghost var middle := storage.pages;
      r := UpdateIndexEntries(schema, pointer, oldRow, stored.value, rows, exact);
      if r.Raised? {
        return;
      }
      RowThenIndexes(Moment(before, storage.state), middle, Now(), schema, exact);
    }

    /** Rewrites the row alone; its indexes still mirror the rows from before. */
    method RewriteRow(table: TableStore, pointer: Pointer, newRow: Row, ghost exact: bool) returns (r: Outcome<Row>)
      requires table.storage == storage && table.Valid() && ValidImages(storage.pages) && storage.Clean()
      requires IsTable(table.schema) && pointer in table.Content()
      requires IndexesMirror(storage.pages, table.Content(), table.schema, exact)
      modifies storage`pages, storage`log
      ensures var schema, rows := table.schema, old(table.Content());
        && (r.Ok? ==> Fitting(schema, newRow, rows, Some(pointer)) && r.value == NormalRow(schema, newRow))
        && (storage.Unrefused() && Fitting(schema, newRow, rows, Some(pointer)) ==> r.Ok?)
        && (r.Ok? ==> RowOk(schema, r.value) && table.Valid() && table.Content() == rows[pointer := r.value])
        && (r.Ok? ==> IndexesMirror(storage.pages, rows, schema, exact))
        && (r.Ok? && SeparateAt(old(Now())) ==> AllTakeBoth(storage.pages, schema, rows[pointer], r.value))
      ensures r.Ok? ==> ValidImages(storage.pages) && Within(old(storage.pages), storage.pages, table.schema)
      ensures storage.Traced() && (r.Ok? ==> storage.Clean())
    {
      ghost var before, rows := storage.pages, table.Content();
      var updated := table.Update(pointer, newRow);
      if updated.Raised? {
        return Raised(updated.error);
      }
      OverwrittenRowPage(before, storage.pages, pointer.pageId, table.schema);
      UpdateTakes(before, storage.pages, storage.state.catalog, table.schema, rows, pointer, newRow, exact);
      r := table.Read(pointer);
    }

    method DeleteOne(table: TableStore, pointer: Pointer, row: Row, ghost exact: bool) returns (r: Outcome<()>)
      requires table.storage == storage && Valid(exact) && IsTable(table.schema)
      requires pointer in TableNow(table.schema.name) && TableNow(table.schema.name)[pointer] == row
      modifies storage`pages, storage`state, storage`header, storage`log
      ensures r.Ok? ==> Valid(exact) && OneChanged(old(Now()), Now(), table.schema)
      ensures r.Ok? ==> TableNow(table.schema.name) == old(TableNow(table.schema.name)) - {pointer}
      ensures SeparateAt(old(Now())) && storage.Unrefused() ==> r.Ok?
      ensures storage.Traced()
    {
      var schema := table.schema;
      ghost var before, was, rows := storage.pages, storage.state, TableNow(schema.name);
      assert TableSound(before, was, schema, exact);
      DeleteTakes(before, was.catalog, schema, rows, row, exact);
      r := DeleteIndexEntries(schema, pointer, row, rows, exact);
      if r.Raised? {
        return;
      }
      ghost var middle := storage.pages;
      ExtendsKeepsTable(before, middle, RecordsOf(storage.state, schema.name), schema);
      r := table.Delete(pointer);
      if r.Raised? {
        return;
      }
      OverwrittenRowPage(middle, storage.pages, pointer.pageId, schema);
      MirrorsKept(middle, storage.pages, rows - {pointer}, schema, exact);
      OneDone(Moment(before, was), middle, Now(), schema, exact);
    }

    method AssignedRow(oldRow: Row, assignments: seq<(string, Expr)>) returns (r: Outcome<Row>)
      ensures r == Assigned(oldRow, oldRow, assignments)
      ensures r.Ok? <==> AllEvaluate(assignments, oldRow)
      ensures r.Ok? ==> AssignedFrom(oldRow, assignments, r.value)
      ensures r.Raised? ==> FirstRaises(assignments, oldRow, r.error)
    {
      AssignedMeans(oldRow, assignments);
      var newRow := oldRow;
      for i := 0 to |assignments|
        invariant Assigned(oldRow, oldRow, assignments) == Assigned(oldRow, newRow, assignments[i..])
      {
        assert assignments[i..][0] == assignments[i] && assignments[i..][1..] == assignments[i + 1..];
        var v := Evaluate(assignments[i].1, oldRow);
        if v.Raised? {
          return Raised(v.error);
        }
        newRow := newRow[assignments[i].0 := v.value];
      }
      r := Ok(newRow);
    }

    // -------------------------------------------------------------- statements

    method RowFromInsert(schema: TableSchema, columns: seq<string>, values: seq<Expr>) returns (r: Outcome<Row>)
      ensures r.Ok? <==> Insertable(schema, columns, values)
      ensures r.Ok? ==> GivenRow(schema, columns, values, r.value)
    {
      if |columns| != |values| {
        return Raised(ConstraintFault);
      }
      if !(forall i :: 0 <= i < |columns| ==> KnownColumn(schema, columns[i])) {
        return Raised(ConstraintFault);
      }
      var row: Row := map n | n in ColumnNames(schema.columns) :: Null;
      var seen: set<string> := {};
      for i := 0 to |columns|
        invariant row.Keys == ColumnNames(schema.columns)
        invariant FilledTo(columns, values, row, seen, i)
      {
        if columns[i] in seen {
          SeenTwice(schema, columns, values, row, seen, i);
          return Raised(ConstraintFault);
        }
        var v := Evaluate(values[i], map[]);
        if v.Raised? {
          return Raised(v.error);
        }
        FillStep(columns, values, row, seen, i);
        seen := seen + {columns[i]};
        row := row[columns[i] := v.value];
      }
      FilledAll(schema, columns, values, row, seen);
      r := Ok(row);
    }

    method ExecuteInsert(name: string, columns: seq<string>, values: seq<Expr>, ghost exact: bool)
      returns (r: Outcome<nat>)
      requires Valid(exact)
      modifies storage`pages, storage`state, storage`header, storage`log
      ensures r.Ok? ==> Valid(exact) && r.value == 1 && Effect(Insert(name, columns, values), old(Now()), Now())
      ensures r.Ok? && SeparateAt(old(Now())) ==> SeparateAt(Now())
      ensures MustSucceed(Insert(name, columns, values), old(Now())) && storage.Unrefused() ==> r.Ok?
      ensures storage.Traced()
    {
      ghost var was := Now();
      var store := OpenTable(name, exact);
      if store.Raised? {
        return Raised(store.error);
      }
      var schema := store.value.schema;
      var given := RowFromInsert(schema, columns, values);
      if given.Raised? {
        return Raised(given.error);
      }
      SoundAt(storage.pages, storage.state, name, exact);
      OnlyGivenRow(schema, RowsAt(was, name), columns, values, given.value);
      var pointer := InsertOne(store.value, given.value, exact);
      if pointer.Raised? {
        return Raised(pointer.error);
      }
      InsertEffect(was, Now(), name, columns, values, pointer.value, given.value);
      r := Ok(1);
    }

    /** Reassigns the matched rows in turn; every step leaves a consistent database. */
    method UpdateMatched(table: TableStore, matched: seq<(Pointer, Row)>, assignments: seq<(string, Expr)>,
                         ghost exact: bool)
      returns (r: Outcome<nat>, ghost steps: seq<Moment>)
      requires table.storage == storage && Valid(exact) && IsTable(table.schema) && WellFormed(table.schema)
      requires StillThere(TableNow(table.schema.name), matched, 0)
      modifies storage`pages, storage`log
      ensures r.Ok? ==> Valid(exact) && OneChanged(old(Now()), Now(), table.schema) && r.value == |matched|
      ensures var all := Reassign(table.schema, old(TableNow(table.schema.name)), matched, assignments);
        && (r.Ok? ==> all == Some(TableNow(table.schema.name)))
        && (SeparateAt(old(Now())) && storage.Unrefused() && all.Some? ==> r.Ok?)
      ensures |steps| >= 1 && steps[0] == old(Now())
      ensures r.Ok? ==> |steps| == |matched| + 1 && steps[|matched|] == Now()
      ensures AllConsistent(steps, exact)
      ensures storage.Traced()
    {
      ghost var was := Now();
      steps := [was];
      for i := 0 to |matched|
        invariant Valid(exact) && UpdatedTo(was, Now(), table.schema, matched, assignments, i)
        invariant |steps| == i + 1 && steps[0] == was && steps[i] == Now()
        invariant AllConsistent(steps, exact)
      {
        ghost var before := Now();
        var updated := UpdateOne(table, matched[i].0, matched[i].1, assignments, exact);
        UpdateStep(was, before, Now(), table.schema, matched, assignments, i);
        if updated.Raised? {
          return Raised(updated.error), steps;
        }
        MoreConsistent(steps, Now(), exact);
        steps := steps + [Now()];
      }
      r := Ok(|matched|);
    }

    method ExecuteUpdate(name: string, assignments: seq<(string, Expr)>, where: Option<Expr>, ghost exact: bool)
      returns (r: Outcome<nat>)
      requires Valid(exact)
      modifies storage`pages, storage`state, storage`header, storage`log
      ensures r.Ok? ==> Valid(exact) && Effect(Update(name, assignments, where), old(Now()), Now())
      ensures r.Ok? && SeparateAt(old(Now())) ==> SeparateAt(Now())
      ensures MustSucceed(Update(name, assignments, where), old(Now())) && storage.Unrefused() ==> r.Ok?
      ensures storage.Traced()
    {
      ghost var was := Now();
      var store := OpenTable(name, exact);
      if store.Raised? {
        return Raised(store.error);
      }
      var schema := store.value.schema;
      if !(forall i :: 0 <= i < |assignments| ==> KnownColumn(schema, assignments[i].0)) || !ValidWhere(schema, where) {
        return Raised(ConstraintFault);
      }
      SoundAt(storage.pages, storage.state, name, exact);
      var matched := MatchingRows(schema, where, exact);
      if matched.Raised? {
        return Raised(matched.error);
      }
      ghost var steps;
      r, steps := UpdateMatched(store.value, matched.value, assignments, exact);
      if r.Ok? {
        UpdateEffect(was, Now(), name, assignments, where);
      }
    }

    /** Deletes the matched rows in turn, each first from the indexes. */
    method DeleteMatched(table: TableStore, matched: seq<(Pointer, Row)>, ghost exact: bool)
      returns (r: Outcome<nat>)
      requires table.storage == storage && Valid(exact) && IsTable(table.schema)
      requires StillThere(TableNow(table.schema.name), matched, 0)
      modifies storage`pages, storage`state, storage`header, storage`log
      ensures r.Ok? ==> Valid(exact) && DeletedTo(old(Now()), Now(), table.schema, matched, |matched|)
      ensures SeparateAt(old(Now())) && storage.Unrefused() ==> r.Ok?
      ensures storage.Traced()
    {
      ghost var was := Now();
      DeletedNone(was, table.schema, matched);
      for i := 0 to |matched|
        invariant Valid(exact) && DeletedTo(was, Now(), table.schema, matched, i)
      {
        ghost var before := Now();
        var deleted := DeleteOne(table, matched[i].0, matched[i].1, exact);
        if deleted.Raised? {
          return Raised(deleted.error);
        }
        DeleteStep(was, before, Now(), table.schema, matched, i);
      }
      r := Ok(|matched|);
    }

    method ExecuteDelete(name: string, where: Option<Expr>, ghost exact: bool) returns (r: Outcome<nat>)
      requires Valid(exact)
      modifies storage`pages, storage`state, storage`header, storage`log
      ensures r.Ok? ==> Valid(exact) && Effect(Delete(name, where), old(Now()), Now())
      ensures r.Ok? && SeparateAt(old(Now())) ==> SeparateAt(Now())
      ensures MustSucceed(Delete(name, where), old(Now())) && storage.Unrefused() ==> r.Ok?
      ensures storage.Traced()
    {
      ghost var was := Now();
      var store := OpenTable(name, exact);
      if store.Raised? {
        return Raised(store.error);
      }
      var schema := store.value.schema;
      if !ValidWhere(schema, where) {
        return Raised(ConstraintFault);
      }
      SoundAt(storage.pages, storage.state, name, exact);
      var matched := MatchingRows(schema, where, exact);
      if matched.Raised? {
        return Raised(matched.error);
      }
      r := DeleteMatched(store.value, matched.value, exact);
      if r.Ok? {
        DeleteEffect(was, Now(), name, where);
      }
    }

    /** Reads the rows of a SELECT; they are as many as `r` says. */
    method ExecuteQuery(name: string, where: Option<Expr>, ghost exact: bool) returns (r: Outcome<nat>)
      requires Valid(exact)
      modifies storage`state, storage`header, storage`log
      ensures Valid(exact) && Now() == old(Now())
      ensures r.Ok? <==> Succeeds(Query(name, where), Now())
      ensures r.Ok? ==> r.value == |MatchedAt(Now(), name, where)|
    {
      if name !in storage.state.catalog {
        return Raised(ConstraintFault);
      }
      var schema := storage.state.catalog[name];
      assert TableSound(storage.pages, storage.state, schema, exact);
      if !ValidWhere(schema, where) {
        return Raised(ConstraintFault);
      }
      var matched := MatchingRows(schema, where, exact);
      if matched.Raised? {
        return Raised(matched.error);
      }
      r := Ok(|matched.value|);
    }

    /** Makes every constraint index of a new table empty, whatever an older index of that name held. */
    method BuildEmptyIndexes(schema: TableSchema) returns (r: Outcome<()>)
      requires ValidImages(storage.pages) && storage.Clean() && WellFormed(schema)
      modifies storage`pages, storage`log
      ensures ValidImages(storage.pages) && Extends(old(storage.pages), storage.pages)
      ensures IndexesKept(old(storage.pages), storage.pages, IndexNames(schema))
      ensures r.Ok? ==> FirstEmpty(storage.pages, schema, |schema.columns|)
      ensures storage.Unrefused() ==> r.Ok?
      ensures storage.Traced() && (r.Ok? ==> storage.Clean())
    {
      ghost var start := storage.pages;
      for i := 0 to |schema.columns|
        invariant ValidImages(storage.pages) && Extends(start, storage.pages) && storage.Clean()
        invariant IndexesKept(start, storage.pages, IndexNames(schema))
        invariant FirstEmpty(storage.pages, schema, i)
      {
        var c := schema.columns[i];
        if Indexed(c) {
          ghost var before := storage.pages;
          r := BuildEmptyIndex(IndexName(schema, c));
          ExtendsTransitive(start, before, storage.pages);
          if r.Raised? {
            return;
          }
          OneMoreEmpty(before, storage.pages, schema, i);
        }
      }
      return Ok(());
    }

    method BuildEmptyIndex(name: string) returns (r: Outcome<()>)
      requires ValidImages(storage.pages) && storage.Clean() && name != []
      modifies storage`pages, storage`log
      ensures ValidImages(storage.pages) && Extends(old(storage.pages), storage.pages)
      ensures IndexesKept(old(storage.pages), storage.pages, {name})
      ensures r.Ok? ==> Stored(storage.pages, name) == []
      ensures storage.Unrefused() ==> r.Ok?
      ensures storage.Traced() && (r.Ok? ==> storage.Clean())
    {
      var index := new Index(storage, name);
      r := index.Build([]);
      FreshAfter(old(storage.pages), storage.pages, name);
      if r.Ok? {
        EmptyMultiset(Stored(storage.pages, name));
      }
    }

    /** CREATE succeeds whenever the definition is one that can be created. It makes another index
        lose entries exactly if it takes the name of one that has some. */
    method ExecuteCreateTable(definition: CreateTable, ghost exact: bool) returns (r: Outcome<nat>)
      requires Valid(exact)
      modifies storage`pages, storage`state, storage`header, storage`log
      ensures r.Ok? ==> Valid(false) && Effect(Create(definition), old(Now()), Now())
      ensures r.Ok? && exact ==> (Valid(true) <==> Unharmed(old(Now()), definition))
      ensures r.Ok? && SeparateAt(old(Now())) && StaysDistinct(old(storage.state.catalog), definition) ==>
        SeparateAt(Now())
      ensures storage.Unrefused() && Creatable(old(storage.state.catalog), definition) ==> r.Ok?
      ensures storage.Traced()
    {
      ghost var was := Now();
      var schema, catalog := ApplyCreateTable(storage.state.catalog, definition);
      if schema.Raised? {
        return Raised(schema.error);
      }
      var written := storage.WriteCatalog(catalog);
      if written.Raised? {
        return Raised(written.error);
      }
      assert RecordsOf(was.state, definition.name) == [] && RecordsOf(storage.state, definition.name) == [];
      var store := TableStore.Open(storage, schema.value);
      if store.Raised? {
        return Raised(store.error);
      }
      var built := BuildEmptyIndexes(schema.value);
      if built.Raised? {
        return Raised(built.error);
      }
      CreateEffect(was, Now(), definition, exact);
      r := Ok(0);
    }

    method ExecuteDropTable(name: string, ghost exact: bool) returns (r: Outcome<nat>)
      requires Valid(exact)
      modifies storage`state, storage`header, storage`log
      ensures r.Ok? ==> Valid(exact) && Effect(Drop(name), old(Now()), Now())
      ensures r.Ok? && SeparateAt(old(Now())) ==> SeparateAt(Now())
      ensures r.Raised? && r.error == ConstraintFault <==> name !in old(storage.state.catalog)
      ensures storage.Unrefused() && name in old(storage.state.catalog) ==> r.Ok?
      ensures storage.Traced()
    {
      if name !in storage.state.catalog {
        return Raised(ConstraintFault);
      }
      ghost var was := storage.state;
      var catalog := storage.state.catalog - {name};
      var written := storage.WriteCatalog(catalog);
      if written.Raised? {
        return Raised(written.error);
      }
      var cleared := storage.WriteTableRecords(name, []);
      if cleared.Raised? {
        return Raised(cleared.error);
      }
      TableDropped(storage.pages, was, storage.state, name, exact);
      r := Ok(0);
    }

    // -------------------------------------------------------------- whole statements

    method Dispatch(statement: Statement, ghost exact: bool) returns (r: Outcome<nat>)
      requires Valid(exact)
      modifies storage`pages, storage`state, storage`header, storage`log
      ensures r.Ok? ==> Valid(false) && Effect(statement, old(Now()), Now())
      ensures statement.Query? ==> Valid(false) && Now() == old(Now())
      ensures r.Ok? && exact ==> (Valid(true) <==> !Harms(statement, old(Now())))
      ensures r.Ok? && SeparateAt(old(Now())) && Harmless(old(storage.state.catalog), statement) ==> SeparateAt(Now())
      ensures MustSucceed(statement, old(Now())) && storage.Unrefused() ==> r.Ok?
      ensures storage.Traced()
    {
      match statement {
        case Create(definition) => r := ExecuteCreateTable(definition, exact);
        case Drop(name) => r := ExecuteDropTable(name, exact);
        case Insert(table, columns, values) => r := ExecuteInsert(table, columns, values, exact);
        case Update(table, assignments, where) => r := ExecuteUpdate(table, assignments, where, exact);
        case Delete(table, where) => r := ExecuteDelete(table, where, exact);
        case Query(table, where) => r := ExecuteQuery(table, where, exact);
      }
      if (r.Ok? && !statement.Create?) || statement.Query? {
        LooselyConsistent(storage.pages, storage.state, exact);
      }
    }

    /** One statement: a change under its savepoint, a query without one. Whatever the names of the
        indexes, it has its whole effect or none. */
    method Execute(statement: Statement) returns (r: Outcome<nat>, ghost log: seq<Write>)
      requires Valid(false)
      modifies storage`pages, storage`state, storage`header, storage`log, storage`start
      ensures Valid(false) && Took(storage.limits, Step(statement, r, log, old(Now()), Now()))
    {
      ghost var was := Now();
      storage.StartLog();
      var savedPages, savedHeader := storage.pages, storage.header;
      r := Dispatch(statement, IsExact(was));
      log := storage.log;
      TookOutcome(storage.limits, statement, r, log, was, Now());
      if r.Raised? && !statement.Query? {
        storage.RestoreSnapshot(savedPages, savedHeader);
        storage.StartLog();
        assert Now() == was;
      }
    }

    /** Any run of statements, succeeding or failing. */
    method Run(statements: seq<Statement>) returns (results: seq<Outcome<nat>>, ghost steps: seq<Step>)
      requires Valid(false)
      modifies storage`pages, storage`state, storage`header, storage`log, storage`start
      ensures Valid(false) && Ran(storage.limits, old(Now()), steps) && StepsOf(steps, statements, results)
      ensures Now() == Before(old(Now()), steps, |steps|)
    {
      results, steps := [], [];
      ghost var start := Now();
      for i := 0 to |statements|
        invariant Valid(false) && Ran(storage.limits, start, steps) && StepsOf(steps, statements[..i], results)
        invariant Now() == Before(start, steps, i)
      {
        ghost var was := Now();
        var r;
        ghost var log;
        r, log := Execute(statements[i]);
        ghost var step := Step(statements[i], r, log, was, Now());
        RanStep(storage.limits, start, steps, step);
        StepsSnoc(steps, statements, results, i, step);
        results, steps := results + [r], steps + [step];
      }
      assert statements[..|statements|] == statements;
    }
  }

  // ---------------------------------------------------------------- one index

  lemma TypedSame(ty: TinyType, a: Value, b: Value)
    requires Typed(ty, a) && Typed(ty, b) && Same(a, b)
    ensures a == b
  {
  }

  lemma RemoveThenPut<K, V>(m: map<K, V>, k: K, v: V)
    ensures (m - {k})[k := v] == m[k := v]
  {
  }

  lemma TypedAt(schema: TableSchema, i: nat, row: Row)
    requires i < |schema.columns| && RowOk(schema, row)
    ensures var c := schema.columns[i]; Typed(c.ty, ValueOf(row, c.name))
  {
    assert schema.columns[i] in schema.columns;
  }

  predicate TakesValue(s: seq<Entry>, v: Value) {
    v == Null || Takes(s, v)
  }

  lemma InsertedForeign(before: seq<Page>, now: seq<Page>, name: string, e: Entry)
    requires IndexesKept(before, now, {name}) && Stored(now, name) == Inserted(Stored(before, name), e)
    ensures ForeignEntriesKept(before, now, e.pointer.table)
  {
    forall n, t | t != e.pointer.table ensures Own(Stored(now, n), t) == Own(Stored(before, n), t) {
      OwnInserted(Stored(before, name), e, t);
    }
  }

  lemma KeptForeign(before: seq<Page>, now: seq<Page>, name: string, key: Key, p: Pointer)
    requires IndexesKept(before, now, {name}) && Stored(now, name) == Kept(Stored(before, name), key, Some(p))
    ensures ForeignEntriesKept(before, now, p.table)
  {
    forall n, t | t != p.table ensures Own(Stored(now, n), t) == Own(Stored(before, n), t) {
      OwnKept(Stored(before, name), key, p, t);
    }
  }

  lemma OneIndexTransitive(a: seq<Page>, b: seq<Page>, c: seq<Page>, schema: TableSchema, column: ColumnSchema)
    requires OneIndexChanged(a, b, schema, column) && OneIndexChanged(b, c, schema, column)
    ensures OneIndexChanged(a, c, schema, column)
  {
    ExtendsTransitive(a, b, c);
    forall n, t | t != schema.name ensures Own(Stored(c, n), t) == Own(Stored(a, n), t) {
      assert Own(Stored(b, n), t) == Own(Stored(a, n), t);
    }
  }

  lemma StoredHomogeneous(pages: seq<Page>, name: string)
    requires ValidImages(pages)
    ensures Homogeneous(Stored(pages, name))
  {
    LatestIsStored(pages, name);
    var image := Latest(pages, name);
    assert image.Some? ==> ValidImage(image.value);
  }

  /** An index without some entries still takes what it took. */
  lemma StoredTakes(pages: seq<Page>, name: string, v: Value, p: Pointer, other: Value)
    requires ValidImages(pages)
    ensures var s := Stored(pages, name); TakesValue(s, other) ==> TakesValue(Taken(s, v, p), other)
  {
    StoredHomogeneous(pages, name);
    TakenTakes(Stored(pages, name), v, p, other);
  }

  lemma TakenTakes(s: seq<Entry>, v: Value, p: Pointer, other: Value)
    requires Homogeneous(s)
    ensures TakesValue(s, other) ==> TakesValue(Taken(s, v, p), other)
  {
    var t := Taken(s, v, p);
    if v != Null && t != [] {
      KeptCounts(s, v, Some(p), t[0]);
      assert t[0] in multiset(t);
      assert t[0] in multiset(s);
      assert t[0] in s;
      var i :| 0 <= i < |s| && s[i] == t[0];
      assert Comparable(s[0].key, s[i].key);
    }
  }

  lemma EmptyMultiset(s: seq<Entry>)
    requires multiset(s) == multiset{}
    ensures s == []
  {
    assert |multiset(s)| == |s|;
  }

  ghost predicate AllTakeBoth(pages: seq<Page>, schema: TableSchema, a: Row, b: Row) {
    AllTake(pages, schema, a) && AllTake(pages, schema, b)
  }

  lemma TakesAt(start: seq<Page>, now: seq<Page>, schema: TableSchema, i: nat, row: Row)
    requires i < |schema.columns| && Indexed(schema.columns[i]) && Untouched(start, now, schema, i)
    ensures var c := schema.columns[i];
      AllTake(start, schema, row) ==> TakesValue(Stored(now, IndexName(schema, c)), ValueOf(row, c.name))
  {
  }

  /** The first indexes of a table have been brought up to a change of one row. */
  ghost predicate Half(start: seq<Page>, pages: seq<Page>, was: map<Pointer, Row>, rows: map<Pointer, Row>,
                       schema: TableSchema, done: nat, exact: bool)
  {
    && Extends(start, pages) && Within(start, pages, schema) && Untouched(start, pages, schema, done)
    && HalfMirrors(pages, was, rows, schema, done, exact)
  }

  lemma IndexStep(start: seq<Page>, before: seq<Page>, now: seq<Page>, was: map<Pointer, Row>, rows: map<Pointer, Row>,
                  schema: TableSchema, i: nat, exact: bool)
    requires WellFormed(schema) && i < |schema.columns| && Indexed(schema.columns[i])
    requires Half(start, before, was, rows, schema, i, exact)
    requires OneIndexChanged(before, now, schema, schema.columns[i])
    ensures Extends(start, now) && Within(start, now, schema)
    ensures ColumnMirrored(now, rows, schema, schema.columns[i], exact) ==>
      Half(start, now, was, rows, schema, i + 1, exact)
  {
    ExtendsTransitive(start, before, now);
    OneIndexWithin(before, now, schema, schema.columns[i]);
    WithinTransitive(start, before, now, schema);
    RestUntouched(start, before, now, schema, i);
    if ColumnMirrored(now, rows, schema, schema.columns[i], exact) {
      OneColumnDone(before, now, was, rows, schema, i, exact);
    }
  }

  // ---------------------------------------------------------------- one row

  ghost predicate SeparateAt(m: Moment) {
    Separate(m.pages, m.state.catalog)
  }

  /** Every index is its table's own, and rows and schema allow the statement. */
  ghost predicate MustSucceed(statement: Statement, m: Moment) {
    SeparateAt(m) && Succeeds(statement, m)
  }

  ghost predicate AllConsistent(steps: seq<Moment>, exact: bool) {
    forall i :: 0 <= i < |steps| ==> Consistent(steps[i].pages, steps[i].state, exact)
  }

  lemma MoreConsistent(steps: seq<Moment>, now: Moment, exact: bool)
    requires AllConsistent(steps, exact) && Consistent(now.pages, now.state, exact)
    ensures AllConsistent(steps + [now], exact)
  {
  }

  /** Only the rows of one table changed, and an index that was the table's own still is. */
  ghost predicate OneChanged(was: Moment, now: Moment, schema: TableSchema) {
    && now.state.catalog == was.state.catalog
    && OtherRowsKept(was.pages, was.state, now.pages, now.state, schema.name)
    && (SeparateAt(was) ==> SeparateAt(now))
  }

  lemma OneChangedTransitive(a: Moment, b: Moment, c: Moment, schema: TableSchema)
    requires OneChanged(a, b, schema) && OneChanged(b, c, schema)
    ensures OneChanged(a, c, schema)
  {
  }

  /** The same table, with at most new records of its own. */
  ghost predicate SameOthers(was: State, state: State, schema: TableSchema) {
    && schema.name in was.catalog && was.catalog[schema.name] == schema && state.catalog == was.catalog
    && forall t :: t != schema.name ==> RecordsOf(state, t) == RecordsOf(was, t)
  }

  lemma OneDone(was: Moment, middle: seq<Page>, now: Moment, schema: TableSchema, exact: bool)
    requires Consistent(was.pages, was.state, exact) && SameOthers(was.state, now.state, schema)
    requires Within(was.pages, middle, schema) && Within(middle, now.pages, schema) && ValidImages(now.pages)
    requires TableSound(now.pages, now.state, schema, exact)
    ensures Consistent(now.pages, now.state, exact) && OneChanged(was, now, schema)
  {
    WithinTransitive(was.pages, middle, now.pages, schema);
    OneTableChanged(was.pages, was.state, now.pages, now.state, schema, exact);
    SeparateIfWas(was.pages, now.pages, was.state.catalog, schema);
  }

  /** The row is written first, then the indexes follow on new pages. */
  lemma RowThenIndexes(was: Moment, middle: seq<Page>, now: Moment, schema: TableSchema, exact: bool)
    requires Consistent(was.pages, was.state, exact) && SameOthers(was.state, now.state, schema)
    requires Within(was.pages, middle, schema) && Within(middle, now.pages, schema) && ValidImages(now.pages)
    requires Extends(middle, now.pages) && TableOk(middle, RecordsOf(now.state, schema.name), schema)
    requires IndexesMirror(now.pages, TableRows(middle, now.state, schema.name), schema, exact)
    ensures Consistent(now.pages, now.state, exact) && OneChanged(was, now, schema)
    ensures TableRows(now.pages, now.state, schema.name) == TableRows(middle, now.state, schema.name)
  {
    ExtendsKeepsTable(middle, now.pages, RecordsOf(now.state, schema.name), schema);
    OneDone(was, middle, now, schema, exact);
  }

  lemma SeparateIfWas(before: seq<Page>, now: seq<Page>, catalog: Tables, schema: TableSchema)
    requires Within(before, now, schema) && schema.name in catalog && catalog[schema.name] == schema
    ensures Separate(before, catalog) ==> Separate(now, catalog)
  {
    if Separate(before, catalog) {
      StaysSeparate(before, now, catalog, schema);
    }
  }

  lemma LooselySound(pages: seq<Page>, state: State, schema: TableSchema, exact: bool)
    requires TableSound(pages, state, schema, exact)
    ensures TableSound(pages, state, schema, false)
  {
    forall c | c in schema.columns && Indexed(c)
      ensures ColumnMirrored(pages, TableRows(pages, state, schema.name), schema, c, false)
    {
      assert ColumnMirrored(pages, TableRows(pages, state, schema.name), schema, c, exact);
    }
  }

  lemma LooselyConsistent(pages: seq<Page>, state: State, exact: bool)
    requires Consistent(pages, state, exact)
    ensures Consistent(pages, state, false)
  {
    if exact {
      ExactIsConsistent(pages, state, false);
    }
  }

  /** In indexes of its own the stored form of a row raises no type error. */
  lemma InsertTakes(before: seq<Page>, now: seq<Page>, catalog: Tables, schema: TableSchema, rows: map<Pointer, Row>,
                    row: Row, exact: bool)
    requires IndexesMirror(before, rows, schema, exact) && RowsOk(schema, rows) && IndexesKept(before, now, {})
    requires WellFormed(schema) && Acceptable(schema, row) && schema.name in catalog && catalog[schema.name] == schema
    ensures Separate(before, catalog) ==> AllTake(now, schema, NormalRow(schema, row))
    ensures IndexesMirror(now, rows, schema, exact)
  {
    MirrorsKept(before, now, rows, schema, exact);
    if Separate(before, catalog) {
      NormalRowOk(schema, row);
      SeparateTakes(before, schema, rows, NormalRow(schema, row), exact);
    }
  }

  lemma UpdateTakes(before: seq<Page>, now: seq<Page>, catalog: Tables, schema: TableSchema, rows: map<Pointer, Row>,
                    p: Pointer, row: Row, exact: bool)
    requires IndexesMirror(before, rows, schema, exact) && RowsOk(schema, rows) && IndexesKept(before, now, {})
    requires WellFormed(schema) && Acceptable(schema, row) && schema.name in catalog && catalog[schema.name] == schema
    requires p in rows
    ensures Separate(before, catalog) ==>
      AllTake(now, schema, rows[p]) && AllTake(now, schema, NormalRow(schema, row))
    ensures IndexesMirror(now, rows, schema, exact) && RowOk(schema, NormalRow(schema, row))
  {
    NormalRowOk(schema, row);
    InsertTakes(before, now, catalog, schema, rows, row, exact);
    if Separate(before, catalog) {
      SeparateTakes(before, schema, rows, rows[p], exact);
    }
  }

  lemma DeleteTakes(before: seq<Page>, catalog: Tables, schema: TableSchema, rows: map<Pointer, Row>, row: Row,
                    exact: bool)
    requires IndexesMirror(before, rows, schema, exact) && RowsOk(schema, rows) && RowOk(schema, row)
    requires schema.name in catalog && catalog[schema.name] == schema
    ensures Separate(before, catalog) ==> AllTake(before, schema, row)
  {
    if Separate(before, catalog) {
      SeparateTakes(before, schema, rows, row, exact);
    }
  }

  /** One step of `Reassign`. */
  ghost function ReassignOne(schema: TableSchema, rows: map<Pointer, Row>, p: Pointer, row: Row,
                             assignments: seq<(string, Expr)>): Option<map<Pointer, Row>>
    requires WellFormed(schema)
  {
    var result := Assigned(row, row, assignments);
    if result.Ok? && Fitting(schema, result.value, rows, Some(p)) then Some(rows[p := NormalRow(schema, result.value)])
    else None
  }

  lemma ReassignOneKeeps(schema: TableSchema, rows: map<Pointer, Row>, p: Pointer, row: Row,
                         assignments: seq<(string, Expr)>)
    requires WellFormed(schema)
    ensures var one := ReassignOne(schema, rows, p, row, assignments);
      one.Some? ==> forall q :: q in rows && q != p ==> q in one.value && one.value[q] == rows[q]
  {
  }

  lemma ReassignStep(schema: TableSchema, rows: map<Pointer, Row>, matched: seq<(Pointer, Row)>, i: nat,
                     assignments: seq<(string, Expr)>)
    requires WellFormed(schema) && i < |matched|
    ensures var one := ReassignOne(schema, rows, matched[i].0, matched[i].1, assignments);
      Reassign(schema, rows, matched[i..], assignments) ==
        if one.Some? then Reassign(schema, one.value, matched[i + 1..], assignments) else None
  {
    assert matched[i..][0] == matched[i] && matched[i..][1..] == matched[i + 1..];
  }

  /** The rows still to be changed are as they were matched. */
  ghost predicate StillThere(rows: map<Pointer, Row>, matched: seq<(Pointer, Row)>, done: nat) {
    && (forall i :: done <= i < |matched| ==> matched[i].0 in rows && rows[matched[i].0] == matched[i].1)
    && (forall i, j :: 0 <= i < j < |matched| ==> matched[i].0 != matched[j].0)
  }

  /** After the first matched rows have been updated. */
  ghost predicate UpdatedTo(was: Moment, now: Moment, schema: TableSchema, matched: seq<(Pointer, Row)>,
                            assignments: seq<(string, Expr)>, done: nat)
    requires WellFormed(schema) && done <= |matched|
  {
    && OneChanged(was, now, schema) && StillThere(RowsAt(now, schema.name), matched, done)
    && Reassign(schema, RowsAt(was, schema.name), matched, assignments)
    == Reassign(schema, RowsAt(now, schema.name), matched[done..], assignments)
  }

  lemma UpdateStep(was: Moment, before: Moment, now: Moment, schema: TableSchema, matched: seq<(Pointer, Row)>,
                   assignments: seq<(string, Expr)>, i: nat)
    requires WellFormed(schema) && i < |matched| && UpdatedTo(was, before, schema, matched, assignments, i)
    ensures var one := ReassignOne(schema, RowsAt(before, schema.name), matched[i].0, matched[i].1, assignments);
      && (Reassign(schema, RowsAt(was, schema.name), matched, assignments).Some? ==> one.Some?)
      && (one == Some(RowsAt(now, schema.name)) && OneChanged(before, now, schema) ==>
           UpdatedTo(was, now, schema, matched, assignments, i + 1))
  {
    var one := ReassignOne(schema, RowsAt(before, schema.name), matched[i].0, matched[i].1, assignments);
    ReassignStep(schema, RowsAt(before, schema.name), matched, i, assignments);
    if one == Some(RowsAt(now, schema.name)) && OneChanged(before, now, schema) {
      OneChangedTransitive(was, before, now, schema);
      ReassignOneKeeps(schema, RowsAt(before, schema.name), matched[i].0, matched[i].1, assignments);
      StillThereAfter(RowsAt(before, schema.name), matched, i, RowsAt(now, schema.name));
    }
  }

  /** After the first matched rows have been deleted. */
  ghost predicate DeletedTo(was: Moment, now: Moment, schema: TableSchema, matched: seq<(Pointer, Row)>, done: nat)
    requires done <= |matched|
  {
    && OneChanged(was, now, schema) && StillThere(RowsAt(now, schema.name), matched, done)
    && RowsAt(now, schema.name) == RowsAt(was, schema.name) - PointersOf(matched[..done])
  }

  lemma DeletedNone(was: Moment, schema: TableSchema, matched: seq<(Pointer, Row)>)
    requires StillThere(RowsAt(was, schema.name), matched, 0)
    ensures DeletedTo(was, was, schema, matched, 0)
  {
    assert PointersOf(matched[..0]) == {};
  }

  lemma DeleteStep(was: Moment, before: Moment, now: Moment, schema: TableSchema, matched: seq<(Pointer, Row)>, i: nat)
    requires i < |matched| && DeletedTo(was, before, schema, matched, i) && OneChanged(before, now, schema)
    requires RowsAt(now, schema.name) == RowsAt(before, schema.name) - {matched[i].0}
    ensures DeletedTo(was, now, schema, matched, i + 1)
  {
    OneChangedTransitive(was, before, now, schema);
    PointersSnoc(matched, i);
    StillThereAfter(RowsAt(before, schema.name), matched, i, RowsAt(now, schema.name));
  }

  lemma StillThereAfter(rows: map<Pointer, Row>, matched: seq<(Pointer, Row)>, i: nat, now: map<Pointer, Row>)
    requires StillThere(rows, matched, i) && i < |matched|
    requires forall p :: p in rows && p != matched[i].0 ==> p in now && now[p] == rows[p]
    ensures StillThere(now, matched, i + 1)
  {
    forall j | i + 1 <= j < |matched| ensures matched[j].0 in now && now[matched[j].0] == matched[j].1 {
      assert matched[i].0 != matched[j].0;
    }
  }

  lemma PointersSnoc(matched: seq<(Pointer, Row)>, i: nat)
    requires i < |matched|
    ensures PointersOf(matched[..i + 1]) == PointersOf(matched[..i]) + {matched[i].0}
  {
    assert matched[..i + 1] == matched[..i] + [matched[i]];
    forall p | p in PointersOf(matched[..i]) ensures p in PointersOf(matched[..i + 1]) {
      var x :| x in matched[..i] && x.0 == p;
      assert x in matched[..i + 1];
    }
    assert matched[i] in matched[..i + 1];
  }

  lemma OnlyGivenRow(schema: TableSchema, rows: map<Pointer, Row>, columns: seq<string>, values: seq<Expr>, row: Row)
    requires GivenRow(schema, columns, values, row)
    ensures Storable(schema, rows, columns, values) <==> Fitting(schema, row, rows, None)
  {
    if Storable(schema, rows, columns, values) {
      var other :| GivenRow(schema, columns, values, other) && Fitting(schema, other, rows, None);
      GivenRowUnique(schema, columns, values, other, row);
    }
  }

  lemma CreateEffect(was: Moment, now: Moment, definition: CreateTable, exact: bool)
    requires Consistent(was.pages, was.state, exact) && Creatable(was.state.catalog, definition)
    requires Emptied(was, now, SchemaOf(definition))
    ensures Consistent(now.pages, now.state, false) && Effect(Create(definition), was, now)
    ensures exact ==> (Consistent(now.pages, now.state, true) <==> Unharmed(was, definition))
    ensures SeparateAt(was) && StaysDistinct(was.state.catalog, definition) ==> SeparateAt(now)
  {
    LooselyConsistent(was.pages, was.state, exact);
    TableCreated(was, now, definition, false);
    if exact {
      TableCreated(was, now, definition, true);
    }
    if SeparateAt(was) && StaysDistinct(was.state.catalog, definition) {
      CreatedSeparate(was, now, definition);
    }
  }

  lemma InsertEffect(was: Moment, now: Moment, name: string, columns: seq<string>, values: seq<Expr>, p: Pointer,
                     row: Row)
    requires name in was.state.catalog && was.state.catalog[name].name == name && WellFormed(was.state.catalog[name])
    requires GivenRow(was.state.catalog[name], columns, values, row)
    requires Fitting(was.state.catalog[name], row, RowsAt(was, name), None)
    requires OneChanged(was, now, was.state.catalog[name]) && p !in RowsAt(was, name)
    requires RowsAt(now, name) == RowsAt(was, name)[p := NormalRow(was.state.catalog[name], row)]
    ensures Effect(Insert(name, columns, values), was, now)
  {
    assert IsNewRow(was.state.catalog[name], RowsAt(was, name), RowsAt(now, name), columns, values, p, row);
  }

  lemma UpdateEffect(was: Moment, now: Moment, name: string, assignments: seq<(string, Expr)>, where: Option<Expr>)
    requires name in was.state.catalog && was.state.catalog[name].name == name && WellFormed(was.state.catalog[name])
    requires ValidAssignments(was.state.catalog[name], assignments) && Selectable(was, name, where)
    requires OneChanged(was, now, was.state.catalog[name])
    requires Reassign(was.state.catalog[name], RowsAt(was, name), MatchedAt(was, name, where), assignments)
          == Some(RowsAt(now, name))
    ensures Effect(Update(name, assignments, where), was, now)
  {
  }

  lemma DeleteEffect(was: Moment, now: Moment, name: string, where: Option<Expr>)
    requires name in was.state.catalog && was.state.catalog[name].name == name && Selectable(was, name, where)
    requires var matched := MatchedAt(was, name, where);
      DeletedTo(was, now, was.state.catalog[name], matched, |matched|)
    ensures Effect(Delete(name, where), was, now)
  {
    var matched := MatchedAt(was, name, where);
    assert matched[..|matched|] == matched;
  }

  // ---------------------------------------------------------------- runs

  function DiskAt(m: Moment): Disk {
    Disk(m.pages, m.state, m.state)
  }

  /** One statement of a run: its result, its writes, and the database before and after. */
  datatype Step = Step(statement: Statement, result: Outcome<nat>, log: seq<Write>, was: Moment, now: Moment)

  /** The statement has its whole effect or none; where the indexes are the tables' own, it succeeds
      exactly when rows and schema allow it and none of the writes it makes is refused for its size; it
      keeps the indexes exact unless it is a CREATE that takes the name of an index with entries. */
  ghost predicate Took(limits: Limits, step: Step) {
    && (if step.result.Ok? then Effect(step.statement, step.was, step.now) else step.now == step.was)
    && (SeparateAt(step.was) ==>
         (step.result.Ok? <==> Succeeds(step.statement, step.was) && AllOk(limits, DiskAt(step.was), step.log)))
    && (IsExact(step.was) ==> (IsExact(step.now) <==> !(step.result.Ok? && Harms(step.statement, step.was))))
    && (SeparateAt(step.was) && Harmless(step.was.state.catalog, step.statement) ==> SeparateAt(step.now))
    && Logged(limits, step)
  }

  /** The writes are allowed ones and, unless the statement raised, lead to its result. */
  ghost predicate Logged(limits: Limits, step: Step) {
    && Legal(limits, DiskAt(step.was), step.log)
    && (step.result.Ok? || step.statement.Query? ==>
         && AllOk(limits, DiskAt(step.was), step.log)
         && Replay(limits, DiskAt(step.was), step.log) == DiskAt(step.now))
  }

  ghost predicate IsExact(m: Moment) {
    Consistent(m.pages, m.state, true)
  }

  ghost predicate IsSound(m: Moment) {
    Consistent(m.pages, m.state, false)
  }

  lemma TookEffect(limits: Limits, step: Step)
    requires if step.result.Ok? then Effect(step.statement, step.was, step.now) else step.now == step.was
    requires MustSucceed(step.statement, step.was) && AllOk(limits, DiskAt(step.was), step.log) ==> step.result.Ok?
    requires step.result.Ok? && IsExact(step.was) ==> (IsExact(step.now) <==> !Harms(step.statement, step.was))
    requires SeparateAt(step.was) && Harmless(step.was.state.catalog, step.statement) ==> SeparateAt(step.now)
    requires Logged(limits, step)
    ensures Took(limits, step)
  {
  }

  lemma TookNothing(limits: Limits, step: Step)
    requires step.result.Raised? && !step.statement.Query?
    requires !(MustSucceed(step.statement, step.was) && AllOk(limits, DiskAt(step.was), step.log))
    requires step.now == step.was && Legal(limits, DiskAt(step.was), step.log)
    ensures Took(limits, step)
  {
  }
  /** What a dispatched statement took when it keeps `now` or is undone. */
  lemma TookOutcome(limits: Limits, statement: Statement, r: Outcome<nat>, log: seq<Write>, was: Moment, now: Moment)
    requires r.Ok? ==> Effect(statement, was, now)
    requires statement.Query? ==> now == was
    requires r.Ok? && IsExact(was) ==> (IsExact(now) <==> !Harms(statement, was))
    requires r.Ok? && SeparateAt(was) && Harmless(was.state.catalog, statement) ==> SeparateAt(now)
    requires MustSucceed(statement, was) && AllOk(limits, DiskAt(was), log) ==> r.Ok?
    requires Legal(limits, DiskAt(was), log)
    requires r.Ok? || statement.Query? ==> Logged(limits, Step(statement, r, log, was, now))
    ensures Took(limits, Step(statement, r, log, was, if r.Ok? || statement.Query? then now else was))
  {
    if r.Ok? || statement.Query? {
      TookEffect(limits, Step(statement, r, log, was, now));
    } else {
      TookNothing(limits, Step(statement, r, log, was, was));
    }
  }

  function Before(start: Moment, steps: seq<Step>, i: nat): Moment
    requires i <= |steps|
  {
    if i == 0 then start else steps[i - 1].now
  }

  /** Every moment of a script is sound and comes from the one before by its statement. */
  ghost predicate Ran(limits: Limits, start: Moment, steps: seq<Step>) {
    IsSound(start) && forall i :: 0 <= i < |steps| ==> StepAt(limits, start, steps, i)
  }

  ghost predicate StepAt(limits: Limits, start: Moment, steps: seq<Step>, i: nat)
    requires i < |steps|
  {
    steps[i].was == Before(start, steps, i) && IsSound(steps[i].now) && Took(limits, steps[i])
  }

  ghost predicate StepsOf(steps: seq<Step>, statements: seq<Statement>, results: seq<Outcome<nat>>) {
    |steps| == |statements| == |results|
    && forall i :: 0 <= i < |steps| ==> steps[i].statement == statements[i] && steps[i].result == results[i]
  }

  lemma StepsSnoc(steps: seq<Step>, statements: seq<Statement>, results: seq<Outcome<nat>>, i: nat, step: Step)
    requires i < |statements| && StepsOf(steps, statements[..i], results) && step.statement == statements[i]
    ensures StepsOf(steps + [step], statements[..i + 1], results + [step.result])
  {
  }

  lemma SameStep(limits: Limits, start: Moment, a: seq<Step>, b: seq<Step>, i: nat)
    requires i < |a| && i < |b| && a[i] == b[i] && (i > 0 ==> a[i - 1] == b[i - 1])
    requires StepAt(limits, start, a, i)
    ensures StepAt(limits, start, b, i)
  {
  }

  lemma NewStep(limits: Limits, start: Moment, steps: seq<Step>, i: nat, step: Step)
    requires i < |steps| && steps[i] == step && step.was == Before(start, steps, i)
    requires IsSound(step.now) && Took(limits, step)
    ensures StepAt(limits, start, steps, i)
  {
  }

  lemma OldSteps(limits: Limits, start: Moment, steps: seq<Step>, more: seq<Step>)
    requires Ran(limits, start, steps) && |more| >= |steps| && more[..|steps|] == steps
    ensures forall i :: 0 <= i < |steps| ==> StepAt(limits, start, more, i)
  {
    assert forall i :: 0 <= i < |steps| ==> more[..|steps|][i] == more[i];
    forall i | 0 <= i < |steps| ensures StepAt(limits, start, more, i) {
      SameStep(limits, start, steps, more, i);
    }
  }

  lemma RanStep(limits: Limits, start: Moment, steps: seq<Step>, step: Step)
    requires Ran(limits, start, steps) && step.was == Before(start, steps, |steps|)
    requires IsSound(step.now) && Took(limits, step)
    ensures Ran(limits, start, steps + [step])
  {
    var n, more := |steps|, steps + [step];
    OldSteps(limits, start, steps, more);
    assert Before(start, more, n) == Before(start, steps, n);
    NewStep(limits, start, more, n, step);
  }
}

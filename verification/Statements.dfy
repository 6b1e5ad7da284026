/** Data and schema statements, and what each does to the catalog and to the rows of every table. */
module Statements {
  import opened Values
  import opened BTreeNodes
  import opened Catalog
  import opened Storage
  import opened BTreeIndex
  import opened Expressions
  import opened Table
  import opened Agreement
  import opened Consistency
  import opened Plans

  datatype Statement =
    | Create(definition: CreateTable)
    | Drop(name: string)
    | Insert(table: string, columns: seq<string>, values: seq<Expr>)
    | Update(table: string, assignments: seq<(string, Expr)>, where: Option<Expr>)
    | Delete(table: string, where: Option<Expr>)
    | Query(table: string, where: Option<Expr>)  // the part of a SELECT that touches storage

  function Target(statement: Statement): string {
    match statement
    case Create(d) => d.name
    case Drop(name) => name
    case Insert(t, _, _) => t
    case Update(t, _, _) => t
    case Delete(t, _) => t
    case Query(t, _) => t
  }

  /** The database between two statements. */
  datatype Moment = Moment(pages: seq<Page>, state: State)

  function RowsAt(m: Moment, table: string): map<Pointer, Row> {
    TableRows(m.pages, m.state, table)
  }

  // ---------------------------------------------------------------- validation

  predicate KnownColumn(schema: TableSchema, column: string) {
    column in ColumnNames(schema.columns)
  }

  /** Every plain column an expression mentions exists; `*` is allowed only where said so. */
  predicate ValidColumns(schema: TableSchema, e: Expr, allowStar: bool, aggregate: bool)
    decreases e
  {
    match e
    case Identifier(name) => if name == "*" then allowStar else KnownColumn(schema, name)
    case Function(name, arguments) =>
      forall i :: 0 <= i < |arguments| ==> ValidColumns(schema, arguments[i], aggregate && name == "COUNT", false)
    case Binary(l, _, r) => ValidColumns(schema, l, allowStar, false) && ValidColumns(schema, r, allowStar, false)
    case _ => true
  }

  predicate ValidWhere(schema: TableSchema, where: Option<Expr>) {
    where.Some? ==> ValidColumns(schema, where.value, false, false)
  }

  /** The plain column names that an expression mentions. */
  function Names(e: Expr): set<string>
    decreases e
  {
    match e
    case Identifier(name) => {name}
    case Binary(l, _, r) => Names(l) + Names(r)
    case Function(_, arguments) => set i, n | 0 <= i < |arguments| && n in Names(arguments[i]) :: n
    case _ => {}
  }

  /** A WHERE is taken exactly when every plain name in it is a column, and none is `*`. */
  lemma {:induction false} ValidColumnsIff(schema: TableSchema, e: Expr)
    ensures ValidColumns(schema, e, false, false) <==> Names(e) <= ColumnNames(schema.columns) - {"*"}
    decreases e
  {
    match e
    case Binary(l, _, r) =>
      ValidColumnsIff(schema, l);
      ValidColumnsIff(schema, r);
      assert Names(e) == Names(l) + Names(r);
    case Function(_, arguments) =>
      forall i | 0 <= i < |arguments|
        ensures ValidColumns(schema, arguments[i], false, false) <==>
          Names(arguments[i]) <= ColumnNames(schema.columns) - {"*"}
      {
        ValidColumnsIff(schema, arguments[i]);
      }
      assert forall i :: 0 <= i < |arguments| ==> Names(arguments[i]) <= Names(e);
    case _ =>
  }

  ghost predicate ValidAssignments(schema: TableSchema, assignments: seq<(string, Expr)>) {
    forall i :: 0 <= i < |assignments| ==> KnownColumn(schema, assignments[i].0)
  }

  // ---------------------------------------------------------------- INSERT

  ghost predicate Insertable(schema: TableSchema, columns: seq<string>, values: seq<Expr>) {
    && |columns| == |values|
    && (forall i :: 0 <= i < |columns| ==> KnownColumn(schema, columns[i]))
    && (forall i, j :: 0 <= i < j < |columns| ==> columns[i] != columns[j])
    && (forall i :: 0 <= i < |values| ==> Evaluate(values[i], map[]).Ok?)
  }

  /** The first listed columns have their values, the others are still NULL. */
  ghost predicate FilledTo(columns: seq<string>, values: seq<Expr>, row: Row, seen: set<string>, done: nat)
    requires done <= |columns| == |values|
  {
    && (forall j :: 0 <= j < done ==> columns[j] in seen)
    && (forall n :: n in seen ==> exists j :: 0 <= j < done && columns[j] == n)
    && (forall j, k :: 0 <= j < k < done ==> columns[j] != columns[k])
    && (forall j :: 0 <= j < done ==> columns[j] in row && Evaluate(values[j], map[]) == Ok(row[columns[j]]))
    && (forall n :: n in row && n !in seen ==> row[n] == Null)
  }

  lemma FillStep(columns: seq<string>, values: seq<Expr>, row: Row, seen: set<string>, i: nat)
    requires |columns| == |values| && i < |columns| && FilledTo(columns, values, row, seen, i)
    requires columns[i] !in seen && Evaluate(values[i], map[]).Ok?
    ensures FilledTo(columns, values, row[columns[i] := Evaluate(values[i], map[]).value], seen + {columns[i]}, i + 1)
  {
    forall n | n in seen + {columns[i]} ensures exists j :: 0 <= j < i + 1 && columns[j] == n {
      if n in seen {
        var j :| 0 <= j < i && columns[j] == n;
      }
    }
  }

  lemma SeenTwice(schema: TableSchema, columns: seq<string>, values: seq<Expr>, row: Row, seen: set<string>, i: nat)
    requires |columns| == |values| && i < |columns| && FilledTo(columns, values, row, seen, i) && columns[i] in seen
    ensures !Insertable(schema, columns, values)
  {
    var j :| 0 <= j < i && columns[j] == columns[i];
  }

  lemma FilledAll(schema: TableSchema, columns: seq<string>, values: seq<Expr>, row: Row, seen: set<string>)
    requires |columns| == |values| && FilledTo(columns, values, row, seen, |columns|)
    requires row.Keys == ColumnNames(schema.columns)
    requires forall i :: 0 <= i < |columns| ==> KnownColumn(schema, columns[i])
    ensures GivenRow(schema, columns, values, row)
  {
  }

  /** The listed columns have their values, the others are NULL. */
  ghost predicate GivenRow(schema: TableSchema, columns: seq<string>, values: seq<Expr>, row: Row) {
    && Insertable(schema, columns, values)
    && row.Keys == ColumnNames(schema.columns)
    && (forall i :: 0 <= i < |columns| ==> Evaluate(values[i], map[]) == Ok(row[columns[i]]))
    && (forall n :: n in row && n !in columns ==> row[n] == Null)
  }

  lemma GivenRowUnique(schema: TableSchema, columns: seq<string>, values: seq<Expr>, a: Row, b: Row)
    requires GivenRow(schema, columns, values, a) && GivenRow(schema, columns, values, b)
    ensures a == b
  {
    forall n | n in a ensures a[n] == b[n] {
      if n in columns {
        var i :| 0 <= i < |columns| && columns[i] == n;
      }
    }
  }

  /** The statement gives a row, and the table takes it. */
  ghost predicate Storable(schema: TableSchema, rows: map<Pointer, Row>, columns: seq<string>, values: seq<Expr>) {
    exists row :: GivenRow(schema, columns, values, row) && Fitting(schema, row, rows, None)
  }

  /** One new row, holding the given values as the table stores them. */
  ghost predicate InsertedRows(schema: TableSchema, before: map<Pointer, Row>, now: map<Pointer, Row>,
                               columns: seq<string>, values: seq<Expr>)
    requires WellFormed(schema)
  {
    exists p, row :: IsNewRow(schema, before, now, columns, values, p, row)
  }

  ghost predicate IsNewRow(schema: TableSchema, before: map<Pointer, Row>, now: map<Pointer, Row>,
                           columns: seq<string>, values: seq<Expr>, p: Pointer, row: Row)
    requires WellFormed(schema)
  {
    && p !in before && GivenRow(schema, columns, values, row) && Acceptable(schema, row)
    && now == before[p := NormalRow(schema, row)]
  }

  // ---------------------------------------------------------------- UPDATE

  /** The row after the assignments, each evaluated on the old row; later ones win. */
  function Assigned(old_: Row, base: Row, assignments: seq<(string, Expr)>): Outcome<Row>
    decreases |assignments|
  {
    if assignments == [] then Ok(base)
    else
      var v := Evaluate(assignments[0].1, old_);
      if v.Raised? then Raised(v.error) else Assigned(old_, base[assignments[0].0 := v.value], assignments[1..])
  }

  /** Assignment `i` is the last one to its column. */
  predicate LastTo(assignments: seq<(string, Expr)>, i: nat) {
    i < |assignments| && forall j :: i < j < |assignments| ==> assignments[j].0 != assignments[i].0
  }

  predicate Assigns(assignments: seq<(string, Expr)>, column: string) {
    exists i :: 0 <= i < |assignments| && assignments[i].0 == column
  }

  /** The row has, for assignment `i`, the value of its expression on the old row. */
  predicate HasValue(oldRow: Row, assignments: seq<(string, Expr)>, row: Row, i: nat)
    requires i < |assignments|
  {
    assignments[i].0 in row && Evaluate(assignments[i].1, oldRow) == Ok(row[assignments[i].0])
  }

  /** Every column has the value, on the old row, of the last assignment to it, and that of `base` if
      there is none. */
  ghost predicate Overlaid(oldRow: Row, base: Row, assignments: seq<(string, Expr)>, row: Row) {
    && (forall n :: n in row <==> n in base || Assigns(assignments, n))
    && (forall i :: 0 <= i < |assignments| && LastTo(assignments, i) ==> HasValue(oldRow, assignments, row, i))
    && (forall n :: n in base && !Assigns(assignments, n) ==> row[n] == base[n])
  }

  /** The old row after the assignments. */
  ghost predicate AssignedFrom(oldRow: Row, assignments: seq<(string, Expr)>, row: Row) {
    Overlaid(oldRow, oldRow, assignments, row)
  }

  ghost predicate AllEvaluate(assignments: seq<(string, Expr)>, oldRow: Row) {
    forall i :: 0 <= i < |assignments| ==> Evaluate(assignments[i].1, oldRow).Ok?
  }

  /** The assignment that raises first on the old row decides the error. */
  ghost predicate FirstRaises(assignments: seq<(string, Expr)>, oldRow: Row, error: Error) {
    exists i :: 0 <= i < |assignments| && Evaluate(assignments[i].1, oldRow) == Raised(error)
                && forall j :: 0 <= j < i ==> Evaluate(assignments[j].1, oldRow).Ok?
  }

  lemma AssignsCons(first: (string, Expr), rest: seq<(string, Expr)>, n: string)
    ensures Assigns([first] + rest, n) <==> n == first.0 || Assigns(rest, n)
  {
    var all := [first] + rest;
    assert all[0] == first;
    if i :| 0 <= i < |rest| && rest[i].0 == n {
      assert all[i + 1].0 == n;
    }
  }

  lemma LastToCons(first: (string, Expr), rest: seq<(string, Expr)>, i: nat)
    requires LastTo([first] + rest, i)
    ensures i > 0 ==> LastTo(rest, i - 1) && ([first] + rest)[i] == rest[i - 1]
    ensures i == 0 ==> !Assigns(rest, first.0)
  {
    var all := [first] + rest;
    assert forall j :: 0 <= j < |rest| ==> rest[j] == all[j + 1];
  }

  /** One more assignment, in front of the others. */
  lemma OverlaidCons(oldRow: Row, base: Row, first: (string, Expr), v: Value, rest: seq<(string, Expr)>, row: Row)
    requires Evaluate(first.1, oldRow) == Ok(v) && Overlaid(oldRow, base[first.0 := v], rest, row)
    ensures Overlaid(oldRow, base, [first] + rest, row)
  {
    var all := [first] + rest;
    forall n ensures Assigns(all, n) <==> n == first.0 || Assigns(rest, n) {
      AssignsCons(first, rest, n);
    }
    forall i | 0 <= i < |all| && LastTo(all, i) ensures HasValue(oldRow, all, row, i) {
      LastToCons(first, rest, i);
      if i > 0 {
        assert HasValue(oldRow, rest, row, i - 1);
      }
    }
  }

  lemma {:induction false} AssignedOverlays(oldRow: Row, base: Row, assignments: seq<(string, Expr)>)
    ensures var r := Assigned(oldRow, base, assignments);
      && (r.Ok? <==> AllEvaluate(assignments, oldRow))
      && (r.Ok? ==> Overlaid(oldRow, base, assignments, r.value))
      && (r.Raised? ==> FirstRaises(assignments, oldRow, r.error))
    decreases |assignments|
  {
    if assignments != [] {
      var first, rest := assignments[0], assignments[1..];
      assert assignments == [first] + rest;
      var v := Evaluate(first.1, oldRow);
      if v.Ok? {
        AssignedOverlays(oldRow, base[first.0 := v.value], rest);
        var r := Assigned(oldRow, base[first.0 := v.value], rest);
        assert forall i :: 0 < i < |assignments| ==> assignments[i] == rest[i - 1];
        if r.Ok? {
          OverlaidCons(oldRow, base, first, v.value, rest, r.value);
        } else {
          var i :| 0 <= i < |rest| && Evaluate(rest[i].1, oldRow) == Raised(r.error)
            && forall j :: 0 <= j < i ==> Evaluate(rest[j].1, oldRow).Ok?;
          assert assignments[i + 1] == rest[i];
        }
      }
    }
  }

  /** The assignments raise exactly when one of them does on the old row; otherwise they give the one
      row whose columns have their values on the old row. */
  lemma AssignedMeans(oldRow: Row, assignments: seq<(string, Expr)>)
    ensures var r := Assigned(oldRow, oldRow, assignments);
      && (r.Ok? <==> AllEvaluate(assignments, oldRow))
      && (r.Ok? ==> AssignedFrom(oldRow, assignments, r.value))
      && (r.Raised? ==> FirstRaises(assignments, oldRow, r.error))
  {
    AssignedOverlays(oldRow, oldRow, assignments);
  }

  lemma {:induction false} LastExists(assignments: seq<(string, Expr)>, column: string) returns (i: nat)
    requires Assigns(assignments, column)
    ensures LastTo(assignments, i) && assignments[i].0 == column
  {
    var init, last := assignments[..|assignments| - 1], |assignments| - 1;
    if assignments[last].0 == column {
      i := last;
    } else {
      var k :| 0 <= k < |assignments| && assignments[k].0 == column;
      assert init[k].0 == column;
      i := LastExists(init, column);
      assert forall j :: i < j < last ==> init[j] == assignments[j];
    }
  }

  /** There is only one such row. */
  lemma AssignedFromUnique(oldRow: Row, assignments: seq<(string, Expr)>, a: Row, b: Row)
    requires AssignedFrom(oldRow, assignments, a) && AssignedFrom(oldRow, assignments, b)
    ensures a == b
  {
    forall n | n in a ensures a[n] == b[n] {
      if Assigns(assignments, n) {
        var i := LastExists(assignments, n);
        assert HasValue(oldRow, assignments, a, i) && HasValue(oldRow, assignments, b, i);
      }
    }
  }

  /** The rows after the matched ones are reassigned in turn, or nothing if an assignment raises or a
      new row does not fit beside the rows as they are by then. */
  ghost function Reassign(schema: TableSchema, rows: map<Pointer, Row>, matched: seq<(Pointer, Row)>,
                          assignments: seq<(string, Expr)>): Option<map<Pointer, Row>>
    requires WellFormed(schema)
    decreases |matched|
  {
    if matched == [] then Some(rows)
    else
      var p, row := matched[0].0, Assigned(matched[0].1, matched[0].1, assignments);
      if row.Ok? && Fitting(schema, row.value, rows, Some(p))
      then Reassign(schema, rows[p := NormalRow(schema, row.value)], matched[1..], assignments)
      else None
  }

  /** `now` is the stored form of `row` after the assignments, every one evaluated on `row`. */
  ghost predicate Reassigned(schema: TableSchema, row: Row, now: Row, assignments: seq<(string, Expr)>)
    requires WellFormed(schema)
  {
    exists given :: IsReassigned(schema, row, now, assignments, given)
  }

  ghost predicate IsReassigned(schema: TableSchema, row: Row, now: Row, assignments: seq<(string, Expr)>, given: Row)
    requires WellFormed(schema)
  {
    && AllEvaluate(assignments, row) && AssignedFrom(row, assignments, given)
    && Acceptable(schema, given) && now == NormalRow(schema, given)
  }

  lemma ReassignedBy(schema: TableSchema, row: Row, assignments: seq<(string, Expr)>)
    requires WellFormed(schema) && Assigned(row, row, assignments).Ok?
    requires Acceptable(schema, Assigned(row, row, assignments).value)
    ensures Reassigned(schema, row, NormalRow(schema, Assigned(row, row, assignments).value), assignments)
  {
    var given := Assigned(row, row, assignments).value;
    AssignedMeans(row, assignments);
    assert IsReassigned(schema, row, NormalRow(schema, given), assignments, given);
  }

  /** The rows an UPDATE leaves: accepted rows reassigned, the others as they were. If not `exact`,
      accepted rows may have been passed over. */
  ghost predicate UpdatedRows(schema: TableSchema, before: map<Pointer, Row>, now: map<Pointer, Row>,
                              assignments: seq<(string, Expr)>, where: Option<Expr>, exact: bool)
    requires WellFormed(schema)
  {
    && now.Keys == before.Keys
    && forall p :: p in before ==>
      (if exact && Accepts(where, before[p]) then Reassigned(schema, before[p], now[p], assignments)
       else now[p] == before[p] || (Accepts(where, before[p]) && Reassigned(schema, before[p], now[p], assignments)))
  }

  ghost predicate Unmatched(matched: seq<(Pointer, Row)>, p: Pointer) {
    forall i :: 0 <= i < |matched| ==> matched[i].0 != p
  }

  lemma {:induction false} ReassignedEach(schema: TableSchema, rows: map<Pointer, Row>, matched: seq<(Pointer, Row)>,
                                          assignments: seq<(string, Expr)>)
    requires WellFormed(schema) && Reassign(schema, rows, matched, assignments).Some?
    requires forall i :: 0 <= i < |matched| ==> matched[i].0 in rows
    requires forall i, j :: 0 <= i < j < |matched| ==> matched[i].0 != matched[j].0
    ensures var now := Reassign(schema, rows, matched, assignments).value;
      && now.Keys == rows.Keys
      && (forall i :: 0 <= i < |matched| ==> Reassigned(schema, matched[i].1, now[matched[i].0], assignments))
      && (forall p :: p in rows && Unmatched(matched, p) ==> now[p] == rows[p])
    decreases |matched|
  {
    if matched != [] {
      var p, row, rest := matched[0].0, Assigned(matched[0].1, matched[0].1, assignments).value, matched[1..];
      var next := rows[p := NormalRow(schema, row)];
      ReassignedEach(schema, next, rest, assignments);
      var now := Reassign(schema, rows, matched, assignments).value;
      assert now[p] == next[p] by {
        assert Unmatched(rest, p);
      }
      ReassignedBy(schema, matched[0].1, assignments);
      forall i | 0 <= i < |matched| ensures Reassigned(schema, matched[i].1, now[matched[i].0], assignments) {
        assert i > 0 ==> matched[i] == rest[i - 1];
      }
      forall q | q in rows && Unmatched(matched, q) ensures now[q] == rows[q] {
        assert Unmatched(rest, q) && matched[0].0 != q;
      }
    }
  }

  lemma ReassignMeans(schema: TableSchema, rows: map<Pointer, Row>, matched: seq<(Pointer, Row)>,
                      assignments: seq<(string, Expr)>, where: Option<Expr>, exact: bool)
    requires WellFormed(schema) && Reassign(schema, rows, matched, assignments).Some?
    requires ListsAccepted(matched, rows, where, exact)
    ensures UpdatedRows(schema, rows, Reassign(schema, rows, matched, assignments).value, assignments, where, exact)
  {
    ReassignedEach(schema, rows, matched, assignments);
    var now := Reassign(schema, rows, matched, assignments).value;
    forall p | p in rows && exact && Accepts(where, rows[p])
      ensures Reassigned(schema, rows[p], now[p], assignments)
    {
      assert (p, rows[p]) in matched;
      var i :| 0 <= i < |matched| && matched[i] == (p, rows[p]);
    }
    forall p | p in rows
      ensures now[p] == rows[p] || (Accepts(where, rows[p]) && Reassigned(schema, rows[p], now[p], assignments))
    {
      if i :| 0 <= i < |matched| && matched[i].0 == p {
        assert matched[i] == (p, rows[p]);
      }
    }
  }

  // ---------------------------------------------------------------- DELETE

  function PointersOf(matched: seq<(Pointer, Row)>): set<Pointer> {
    set x | x in matched :: x.0
  }

  /** The rows a DELETE leaves: those the WHERE does not accept. */
  function RemainingRows(before: map<Pointer, Row>, where: Option<Expr>): map<Pointer, Row> {
    map p | p in before && !Accepts(where, before[p]) :: before[p]
  }

  lemma DeleteMeans(rows: map<Pointer, Row>, matched: seq<(Pointer, Row)>, where: Option<Expr>, exact: bool)
    requires ListsAccepted(matched, rows, where, exact)
    ensures forall p :: p in rows && !Accepts(where, rows[p]) ==> p in rows - PointersOf(matched)
    ensures exact ==> rows - PointersOf(matched) == RemainingRows(rows, where)
  {
    forall p | p in rows && p in PointersOf(matched) ensures Accepts(where, rows[p]) {
      var i :| 0 <= i < |matched| && matched[i].0 == p;
    }
    if exact {
      forall p | p in rows && Accepts(where, rows[p]) ensures p in PointersOf(matched) {
        assert (p, rows[p]) in matched;
      }
    }
  }

  // ---------------------------------------------------------------- CREATE and DROP

  function SchemaOf(definition: CreateTable): TableSchema {
    TableSchema(definition.name, AppliedAll(definition.columns))
  }

  /** No live row of another table has a value in a column whose index name the new table takes. */
  ghost predicate Unharmed(m: Moment, definition: CreateTable) {
    forall t, c :: Overtakes(m.state.catalog, definition, t, c) ==> NoValue(RowsAt(m, t), c.name)
  }

  /** The new table takes the name of this column's index. */
  ghost predicate Overtakes(catalog: Tables, definition: CreateTable, t: string, c: ColumnSchema) {
    HasIndex(catalog, t, c) && IndexName(catalog[t], c) in IndexNames(SchemaOf(definition))
  }

  ghost predicate HasIndex(catalog: Tables, t: string, c: ColumnSchema) {
    t in catalog && c in catalog[t].columns && Indexed(c)
  }

  ghost predicate NoValue(rows: map<Pointer, Row>, column: string) {
    forall p :: p in rows ==> ValueOf(rows[p], column) == Null
  }

  /** The statement makes some index lose entries. */
  ghost predicate Harms(statement: Statement, m: Moment) {
    statement.Create? && !Unharmed(m, statement.definition)
  }

  /** Creating this table gives no index the name of another table's index. */
  ghost predicate StaysDistinct(catalog: Tables, definition: CreateTable) {
    forall t :: t in catalog && t != definition.name ==> IndexNames(catalog[t]) !! IndexNames(SchemaOf(definition))
  }

  ghost predicate Harmless(catalog: Tables, statement: Statement) {
    statement.Create? ==> StaysDistinct(catalog, statement.definition)
  }

  lemma HarmlessUnharmed(m: Moment, statement: Statement)
    requires Harmless(m.state.catalog, statement)
    requires statement.Create? ==> statement.definition.name !in m.state.catalog
    ensures !Harms(statement, m)
  {
    if statement.Create? {
      forall t, c | HasIndex(m.state.catalog, t, c) ensures !Overtakes(m.state.catalog, statement.definition, t, c) {
        assert IndexName(m.state.catalog[t], c) in IndexNames(m.state.catalog[t]);
      }
    }
  }

  /** The indexes of the first columns are empty. */
  ghost predicate FirstEmpty(pages: seq<Page>, schema: TableSchema, done: nat)
    requires done <= |schema.columns|
  {
    forall j :: 0 <= j < done && Indexed(schema.columns[j]) ==>
      Stored(pages, IndexName(schema, schema.columns[j])) == []
  }

  lemma OneMoreEmpty(before: seq<Page>, now: seq<Page>, schema: TableSchema, i: nat)
    requires i < |schema.columns| && WellFormed(schema) && FirstEmpty(before, schema, i)
    requires IndexesKept(before, now, {IndexName(schema, schema.columns[i])})
    requires Stored(now, IndexName(schema, schema.columns[i])) == []
    ensures FirstEmpty(now, schema, i + 1)
  {
    forall j | 0 <= j < i && Indexed(schema.columns[j])
      ensures Stored(now, IndexName(schema, schema.columns[j])) == []
    {
      NamesDifferByColumn(schema, schema.columns[j], schema.columns[i]);
      assert Stored(before, IndexName(schema, schema.columns[j])) == [];
    }
  }

  /** What CREATE has done: the indexes named for the new table are empty, everything else stands. */
  ghost predicate Emptied(before: Moment, now: Moment, schema: TableSchema) {
    && schema.name !in before.state.catalog && WellFormed(schema)
    && now.state.catalog == before.state.catalog[schema.name := schema]
    && (forall t :: RecordsOf(now.state, t) == RecordsOf(before.state, t))
    && Extends(before.pages, now.pages) && ValidImages(now.pages)
    && IndexesKept(before.pages, now.pages, IndexNames(schema))
    && FirstEmpty(now.pages, schema, |schema.columns|)
  }

  lemma EmptiedStores(before: Moment, now: Moment, schema: TableSchema, n: string)
    requires Emptied(before, now, schema)
    ensures Stored(now.pages, n) == if n in IndexNames(schema) then [] else Stored(before.pages, n)
  {
    if n in IndexNames(schema) {
      var c :| c in schema.columns && Indexed(c) && IndexName(schema, c) == n;
      var j :| 0 <= j < |schema.columns| && schema.columns[j] == c;
    }
  }

  /** Another table's index is mirrored after CREATE, exactly so if it kept its entries or had none. */
  ghost predicate MirroredAfter(before: Moment, now: Moment, definition: CreateTable, t: string, c: ColumnSchema,
                                exact: bool)
    requires t in before.state.catalog
  {
    ColumnMirrored(now.pages, RowsAt(now, t), before.state.catalog[t], c, exact) <==>
      (exact && Overtakes(before.state.catalog, definition, t, c) ==> NoValue(RowsAt(before, t), c.name))
  }

  lemma OtherColumnCreated(before: Moment, now: Moment, definition: CreateTable, t: string, c: ColumnSchema,
                           exact: bool)
    requires Emptied(before, now, SchemaOf(definition)) && HasIndex(before.state.catalog, t, c)
    requires var s := before.state.catalog[t];
      s.name == t && ColumnMirrored(before.pages, RowsAt(before, t), s, c, exact)
    requires RowsAt(now, t) == RowsAt(before, t)
    ensures MirroredAfter(before, now, definition, t, c, exact)
  {
    var n := IndexName(before.state.catalog[t], c);
    EmptiedStores(before, now, SchemaOf(definition), n);
    if Overtakes(before.state.catalog, definition, t, c) {
      EmptyMirrorsIff([], t, RowsAt(now, t), c.name);
    }
  }

  lemma OtherRowsCreated(before: Moment, now: Moment, schema: TableSchema, t: string, exact: bool)
    requires Emptied(before, now, schema) && Consistent(before.pages, before.state, exact)
    requires t in before.state.catalog
    ensures RowsAt(now, t) == RowsAt(before, t)
    ensures TableOk(now.pages, RecordsOf(now.state, t), now.state.catalog[t])
  {
    assert TableSound(before.pages, before.state, before.state.catalog[t], exact);
    ExtendsKeepsTable(before.pages, now.pages, RecordsOf(before.state, t), before.state.catalog[t]);
  }

  lemma NewTableSound(before: Moment, now: Moment, schema: TableSchema, exact: bool)
    requires Emptied(before, now, schema) && RecordsOf(before.state, schema.name) == []
    ensures RowsAt(now, schema.name) == map[] && TableSound(now.pages, now.state, schema, exact)
  {
    NoRecordsNoRows(now.pages, now.state, schema.name);
    forall c | c in schema.columns && Indexed(c)
      ensures ColumnMirrored(now.pages, RowsAt(now, schema.name), schema, c, exact)
    {
      assert IndexName(schema, c) in IndexNames(schema);
      EmptiedStores(before, now, schema, IndexName(schema, c));
      EmptyMirrorsIff([], schema.name, map[], c.name);
    }
  }

  lemma NoRecordsNoRows(pages: seq<Page>, state: State, table: string)
    requires RecordsOf(state, table) == []
    ensures TableRows(pages, state, table) == map[]
  {
  }

  /** CREATE keeps the indexes of all tables exact if and only if no live row of another table has a
      value in a column whose index name it takes; loose mirrors they stay in any case. */
  lemma TableCreated(before: Moment, now: Moment, definition: CreateTable, exact: bool)
    requires Consistent(before.pages, before.state, exact) && Emptied(before, now, SchemaOf(definition))
    ensures Consistent(now.pages, now.state, exact) <==> (exact ==> Unharmed(before, definition))
    ensures RowsAt(now, definition.name) == map[]
    ensures forall t :: t in before.state.catalog ==> RowsAt(now, t) == RowsAt(before, t)
  {
    NewTableSound(before, now, SchemaOf(definition), exact);
    forall t | t in before.state.catalog
      ensures RowsAt(now, t) == RowsAt(before, t) && TableOk(now.pages, RecordsOf(now.state, t), now.state.catalog[t])
    {
      OtherRowsCreated(before, now, SchemaOf(definition), t, exact);
    }
    forall t, c | HasIndex(before.state.catalog, t, c) ensures MirroredAfter(before, now, definition, t, c, exact) {
      SoundAt(before.pages, before.state, t, exact);
      assert ColumnMirrored(before.pages, RowsAt(before, t), before.state.catalog[t], c, exact);
      OtherColumnCreated(before, now, definition, t, c, exact);
    }
    if exact ==> Unharmed(before, definition) {
      CreatedKeeps(before, now, definition, exact);
    } else {
      CreatedHarms(before, now, definition);
    }
  }

  lemma CreatedKeeps(before: Moment, now: Moment, definition: CreateTable, exact: bool)
    requires Consistent(before.pages, before.state, exact) && Emptied(before, now, SchemaOf(definition))
    requires TableSound(now.pages, now.state, SchemaOf(definition), exact)
    requires forall t :: t in before.state.catalog ==>
      RowsAt(now, t) == RowsAt(before, t) && TableOk(now.pages, RecordsOf(now.state, t), now.state.catalog[t])
    requires forall t, c :: HasIndex(before.state.catalog, t, c) ==> MirroredAfter(before, now, definition, t, c, exact)
    requires exact ==> Unharmed(before, definition)
    ensures Consistent(now.pages, now.state, exact)
  {
    forall t | t in before.state.catalog
      ensures before.state.catalog[t].name == t
      ensures TableSound(now.pages, now.state, before.state.catalog[t], exact)
    {
      SoundAt(before.pages, before.state, t, exact);
      OthersListed(before, now, SchemaOf(definition), t);
      forall c | c in before.state.catalog[t].columns && Indexed(c)
        ensures ColumnMirrored(now.pages, RowsAt(now, t), before.state.catalog[t], c, exact)
      {
        assert HasIndex(before.state.catalog, t, c);
      }
    }
  }

  lemma CreatedHarms(before: Moment, now: Moment, definition: CreateTable)
    requires Emptied(before, now, SchemaOf(definition)) && !Unharmed(before, definition)
    requires forall t, c :: HasIndex(before.state.catalog, t, c) ==> MirroredAfter(before, now, definition, t, c, true)
    ensures !Consistent(now.pages, now.state, true)
  {
    var t, c :| Overtakes(before.state.catalog, definition, t, c) && !NoValue(RowsAt(before, t), c.name);
    assert MirroredAfter(before, now, definition, t, c, true);
    OthersListed(before, now, SchemaOf(definition), t);
    HarmedAt(now, t, c);
  }

  lemma OthersListed(before: Moment, now: Moment, schema: TableSchema, t: string)
    requires Emptied(before, now, schema) && t in before.state.catalog
    ensures t in now.state.catalog && now.state.catalog[t] == before.state.catalog[t]
  {
  }

  lemma HarmedAt(m: Moment, t: string, c: ColumnSchema)
    requires HasIndex(m.state.catalog, t, c) && !ColumnMirrored(m.pages, RowsAt(m, t), m.state.catalog[t], c, true)
    ensures !Consistent(m.pages, m.state, true)
  {
    if Consistent(m.pages, m.state, true) {
      SoundAt(m.pages, m.state, t, true);
    }
  }

  lemma CreatedSeparate(before: Moment, now: Moment, definition: CreateTable)
    requires Separate(before.pages, before.state.catalog) && Emptied(before, now, SchemaOf(definition))
    requires StaysDistinct(before.state.catalog, definition)
    ensures Separate(now.pages, now.state.catalog)
  {
    var schema := SchemaOf(definition);
    forall t, c | t in now.state.catalog && c in now.state.catalog[t].columns && Indexed(c)
      ensures Pure(Stored(now.pages, IndexName(now.state.catalog[t], c)), t)
    {
      EmptiedStores(before, now, schema, IndexName(now.state.catalog[t], c));
      assert t != schema.name ==> PureIndexes(before.pages, before.state.catalog[t]);
    }
  }

  lemma TableDropped(pages: seq<Page>, was: State, state: State, name: string, exact: bool)
    requires Consistent(pages, was, exact)
    requires state.catalog == was.catalog - {name} && RecordsOf(state, name) == []
    requires forall t :: t != name ==> RecordsOf(state, t) == RecordsOf(was, t)
    ensures Consistent(pages, state, exact)
    ensures TableRows(pages, state, name) == map[]
    ensures forall t :: t in state.catalog ==> TableRows(pages, state, t) == TableRows(pages, was, t)
    ensures Separate(pages, was.catalog) ==> Separate(pages, state.catalog)
  {
    NoRecordsNoRows(pages, state, name);
    forall t | t in state.catalog
      ensures state.catalog[t].name == t && TableSound(pages, state, state.catalog[t], exact)
      ensures TableRows(pages, state, t) == TableRows(pages, was, t)
    {
      assert TableSound(pages, was, was.catalog[t], exact);
    }
  }

  // ---------------------------------------------------------------- what a statement does

  /** The effect of a successful statement on the catalog and on the rows of every table. */
  ghost predicate Effect(statement: Statement, was: Moment, now: Moment) {
    && (forall t :: t in was.state.catalog && t in now.state.catalog && t != Target(statement) ==>
         RowsAt(now, t) == RowsAt(was, t))
    && Succeeds(statement, was)
    && match statement
       case Create(d) =>
         now.state.catalog == was.state.catalog[d.name := SchemaOf(d)] && RowsAt(now, d.name) == map[]
       case Drop(name) =>
         now.state.catalog == was.state.catalog - {name} && RowsAt(now, name) == map[]
       case Insert(t, columns, values) =>
         && now.state.catalog == was.state.catalog
         && InsertedRows(was.state.catalog[t], RowsAt(was, t), RowsAt(now, t), columns, values)
       case Update(t, assignments, where) =>
         && now.state.catalog == was.state.catalog
         && Reassign(was.state.catalog[t], RowsAt(was, t), MatchedAt(was, t, where), assignments)
         == Some(RowsAt(now, t))
       case Delete(t, where) =>
         && now.state.catalog == was.state.catalog
         && RowsAt(now, t) == RowsAt(was, t) - PointersOf(MatchedAt(was, t, where))
       case Query(t, where) => now == was
  }

  function MatchedAt(m: Moment, table: string, where: Option<Expr>): seq<(Pointer, Row)>
    requires table in m.state.catalog
  {
    Matched(m.pages, m.state, m.state.catalog[table], where)
  }

  /** What makes a statement succeed, where no write is refused and every index is the table's own. */
  ghost predicate Succeeds(statement: Statement, m: Moment) {
    match statement
    case Create(d) => Creatable(m.state.catalog, d)
    case Drop(name) => name in m.state.catalog
    case Insert(t, columns, values) =>
      && t in m.state.catalog && WellFormed(m.state.catalog[t])
      && Storable(m.state.catalog[t], RowsAt(m, t), columns, values)
    case Update(t, assignments, where) =>
      && t in m.state.catalog && WellFormed(m.state.catalog[t])
      && ValidAssignments(m.state.catalog[t], assignments) && Selectable(m, t, where)
      && Reassign(m.state.catalog[t], RowsAt(m, t), MatchedAt(m, t, where), assignments).Some?
    case Delete(t, where) => t in m.state.catalog && Selectable(m, t, where)
    case Query(t, where) => t in m.state.catalog && Selectable(m, t, where)
  }

  /** The WHERE names known columns, and choosing the rows raises nothing. */
  ghost predicate Selectable(m: Moment, table: string, where: Option<Expr>)
    requires table in m.state.catalog
  {
    ValidWhere(m.state.catalog[table], where) && Matchable(m.pages, m.state, m.state.catalog[table], where)
  }

  /** With exact indexes an UPDATE reassigns, and a DELETE removes, exactly the rows that the WHERE
      accepts; with indexes that have lost entries they may pass over some, but touch no others. */
  lemma EffectMeans(statement: Statement, was: Moment, now: Moment, exact: bool)
    requires Consistent(was.pages, was.state, false) && Consistent(was.pages, was.state, exact)
    requires Effect(statement, was, now)
    ensures var rows, rows' := RowsAt(was, Target(statement)), RowsAt(now, Target(statement));
      && (statement.Update? ==>
           UpdatedRows(was.state.catalog[statement.table], rows, rows', statement.assignments, statement.where, exact))
      && (statement.Delete? ==>
           && (forall p :: p in rows && !Accepts(statement.where, rows[p]) ==> p in rows' && rows'[p] == rows[p])
           && (exact ==> rows' == RemainingRows(rows, statement.where)))
  {
    if statement.Update? || statement.Delete? {
      var t := statement.table;
      var schema, rows, matched := was.state.catalog[t], RowsAt(was, t), MatchedAt(was, t, statement.where);
      assert TableSound(was.pages, was.state, schema, exact) && TableSound(was.pages, was.state, schema, false);
      MatchedAreAccepted(was.pages, was.state, schema, statement.where, exact);
      if statement.Update? {
        ReassignMeans(schema, rows, matched, statement.assignments, statement.where, exact);
      } else {
        DeleteMeans(rows, matched, statement.where, exact);
      }
    }
  }
}

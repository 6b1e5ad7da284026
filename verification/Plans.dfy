/** What a query plan returns, and the step-by-step agreement of the indexes while one row changes. */
module Plans {
  import opened Values
  import opened BTreeNodes
  import opened Catalog
  import opened Storage
  import opened BTreeIndex
  import opened Expressions
  import opened Planner
  import opened Table
  import opened Agreement
  import opened Consistency

  /** The rows a plan looks at: all in record order, or those behind the pointers of a lookup. */
  function PlannedRows(pages: seq<Page>, state: State, schema: TableSchema, where: Option<Expr>): seq<(Pointer, Row)> {
    var plan := PlanFor(schema, where);
    if plan.None? then Scanned(pages, RecordsOf(state, schema.name), schema.name)
    else ReadAll(Found(Stored(pages, ConstraintIndexName(schema.name, plan.value.column)), plan.value.lookup),
                 TableRows(pages, state, schema.name))
  }

  /** The lookup of the plan, if it has one, raises no type error. */
  ghost predicate PlanRuns(pages: seq<Page>, schema: TableSchema, where: Option<Expr>) {
    var plan := PlanFor(schema, where);
    plan.Some? ==>
      !LookupRaises(Stored(pages, ConstraintIndexName(schema.name, plan.value.column)), plan.value.lookup)
  }

  /** The rows a statement works on. */
  function Matched(pages: seq<Page>, state: State, schema: TableSchema, where: Option<Expr>): seq<(Pointer, Row)> {
    Filtered(PlannedRows(pages, state, schema, where), where)
  }

  /** Choosing the rows raises nothing. */
  ghost predicate Matchable(pages: seq<Page>, state: State, schema: TableSchema, where: Option<Expr>) {
    PlanRuns(pages, schema, where) && Finishes(PlannedRows(pages, state, schema, where), where)
  }

  /** Accepted rows, each once; if `exact`, all of them. */
  ghost predicate ListsAccepted(s: seq<(Pointer, Row)>, rows: map<Pointer, Row>, where: Option<Expr>, exact: bool) {
    && (forall i :: 0 <= i < |s| ==> s[i].0 in rows && rows[s[i].0] == s[i].1 && Accepts(where, s[i].1))
    && (forall i, j :: 0 <= i < j < |s| ==> s[i].0 != s[j].0)
    && (exact ==> forall p :: p in rows && Accepts(where, rows[p]) ==> (p, rows[p]) in s)
  }

  /** The literal of the chosen lookup, if any, is comparable with its column. */
  ghost predicate LiteralFits(schema: TableSchema, where: Option<Expr>) {
    var plan := PlanFor(schema, where);
    plan.Some? ==> forall c :: c in schema.columns && c.name == plan.value.column ==>
      forall i :: 0 <= i < |Bounds(plan.value.lookup)| ==> Fits(c.ty, Bounds(plan.value.lookup)[i])
  }

  /** No live row has a value in the column of the chosen lookup. */
  ghost predicate NothingStored(schema: TableSchema, where: Option<Expr>, rows: map<Pointer, Row>) {
    var plan := PlanFor(schema, where);
    plan.Some? ==> forall p :: p in rows ==> ValueOf(rows[p], plan.value.column) == Null
  }

  lemma PlannedColumn(pages: seq<Page>, state: State, schema: TableSchema, where: Expr, exact: bool)
    returns (c: ColumnSchema)
    requires TableSound(pages, state, schema, exact) && FindIndexCandidate(schema, where).Some?
    ensures c in schema.columns && Indexed(c) && c.name == FindIndexCandidate(schema, where).value.column
    ensures ColumnMirrored(pages, TableRows(pages, state, schema.name), schema, c, exact)
    ensures forall p :: p in TableRows(pages, state, schema.name) ==>
      Typed(c.ty, ValueOf(TableRows(pages, state, schema.name)[p], c.name))
  {
    var column := FindIndexCandidate(schema, where).value.column;
    CandidateIsIndexed(schema, where);
    var i :| 0 <= i < |schema.columns| && schema.columns[i].name == column && Indexed(schema.columns[i]);
    c := schema.columns[i];
    RowsTyped(schema, TableRows(pages, state, schema.name), c);
  }

  /** A plan gives live rows of the table, each at most once. */
  lemma PlanIsSound(pages: seq<Page>, state: State, schema: TableSchema, where: Option<Expr>)
    requires TableSound(pages, state, schema, false)
    ensures var rows := PlannedRows(pages, state, schema, where);
      && NoDuplicates(rows)
      && forall x :: x in rows ==>
        x.0 in TableRows(pages, state, schema.name) && TableRows(pages, state, schema.name)[x.0] == x.1
  {
    ScanIsRows(pages, RecordsOf(state, schema.name), schema.name);
    TableRowsOfTable(pages, state, schema.name);
    if PlanFor(schema, where).Some? {
      var c := PlannedColumn(pages, state, schema, where.value, false);
      IndexPlanIsSound(Stored(pages, IndexName(schema, c)), TableRows(pages, state, schema.name), schema.name, c.name,
                       PlanFor(schema, where).value.lookup);
    }
  }

  /** The rows chosen are accepted rows, each once, and all of them when the indexes are exact. */
  lemma MatchedAreAccepted(pages: seq<Page>, state: State, schema: TableSchema, where: Option<Expr>, exact: bool)
    requires TableSound(pages, state, schema, false) && TableSound(pages, state, schema, exact)
    ensures ListsAccepted(Matched(pages, state, schema, where), TableRows(pages, state, schema.name), where, exact)
  {
    if exact {
      PlanKeepsMeaning(pages, state, schema, where);
    } else {
      var rows, s := PlannedRows(pages, state, schema, where), Matched(pages, state, schema, where);
      PlanIsSound(pages, state, schema, where);
      FilteredMembers(rows, where);
      forall i | 0 <= i < |s| ensures s[i] in rows && Accepts(where, s[i].1) {
        assert s[i] in s;
      }
    }
  }

  /** With exact indexes the rows chosen are a permutation of those a scan accepts, and choosing them
      raises nothing that the scan would not. */
  lemma PlanKeepsMeaning(pages: seq<Page>, state: State, schema: TableSchema, where: Option<Expr>)
    requires TableSound(pages, state, schema, true)
    ensures var scan := Scanned(pages, RecordsOf(state, schema.name), schema.name);
      && multiset(Matched(pages, state, schema, where)) == multiset(Filtered(scan, where))
      && (Finishes(scan, where) ==> Finishes(PlannedRows(pages, state, schema, where), where))
    ensures ListsAccepted(Matched(pages, state, schema, where), TableRows(pages, state, schema.name), where, true)
  {
    var scan, live := Scanned(pages, RecordsOf(state, schema.name), schema.name), TableRows(pages, state, schema.name);
    ScanIsRows(pages, RecordsOf(state, schema.name), schema.name);
    TableRowsOfTable(pages, state, schema.name);
    if PlanFor(schema, where).Some? {
      var c := PlannedColumn(pages, state, schema, where.value, true);
      var s, lookup := Stored(pages, IndexName(schema, c)), PlanFor(schema, where).value.lookup;
      IndexPlanPreservesMeaning(schema, where.value, s, live, scan);
      ExactMirrors(s, schema.name, live, c.name);
      if Finishes(scan, where) {
        IndexPlanFinishes(s, live, scan, schema.name, c.name, lookup, where);
      }
    }
    FilteredScan(scan, live, where);
    SameMultisetListsAccepted(Filtered(scan, where), Matched(pages, state, schema, where), live, where);
  }

  lemma ExactMirrors(s: seq<Entry>, table: string, rows: map<Pointer, Row>, column: string)
    requires Mirrors(s, table, rows, column, true)
    ensures Mirrors(s, table, rows, column, false)
  {
  }

  lemma FilteredScan(scan: seq<(Pointer, Row)>, rows: map<Pointer, Row>, where: Option<Expr>)
    requires ListsRows(scan, rows)
    ensures ListsAccepted(Filtered(scan, where), rows, where, true)
  {
    var s := Filtered(scan, where);
    FilteredMembers(scan, where);
    forall i | 0 <= i < |s| ensures s[i].0 in rows && rows[s[i].0] == s[i].1 && Accepts(where, s[i].1) {
      assert s[i] in s;
    }
    assert NoDuplicates(scan);
    forall i, j | 0 <= i < j < |s| ensures s[i].0 != s[j].0 {
      assert s[i] != s[j];
    }
  }

  lemma SameMultisetListsAccepted(s: seq<(Pointer, Row)>, t: seq<(Pointer, Row)>, rows: map<Pointer, Row>,
                                  where: Option<Expr>)
    requires ListsAccepted(s, rows, where, true) && multiset(s) == multiset(t)
    ensures ListsAccepted(t, rows, where, true)
  {
    assert forall x :: x in s <==> x in multiset(s);
    assert forall x :: x in t <==> x in multiset(t);
    assert forall i :: 0 <= i < |t| ==> t[i] in s;
    assert NoDuplicates(s);
    NoDuplicatesMultiset(s);
    forall i, j | 0 <= i < j < |t| ensures t[i].0 != t[j].0 {
      if t[i].0 == t[j].0 {
        assert t[i] == t[j];
        TwiceCounts(t, i, j);
      }
    }
  }

  lemma TwiceCounts<T>(t: seq<T>, i: nat, j: nat)
    requires i < j < |t| && t[i] == t[j]
    ensures multiset(t)[t[i]] >= 2
  {
    assert t == t[..j] + [t[j]] + t[j + 1..];
    assert t[..j][i] == t[i] && t[i] in multiset(t[..j]);
  }

  /** Exact indexes of their own raise exactly when there is a value to compare and the literal of the
      lookup does not fit the column. */
  lemma PlanRunsIff(pages: seq<Page>, state: State, schema: TableSchema, where: Option<Expr>)
    requires TableSound(pages, state, schema, true) && PureIndexes(pages, schema)
    ensures PlanRuns(pages, schema, where) <==>
      LiteralFits(schema, where) || NothingStored(schema, where, TableRows(pages, state, schema.name))
  {
    if PlanFor(schema, where).Some? {
      var c := PlannedColumn(pages, state, schema, where.value, true);
      CandidateIsIndexed(schema, where.value);
      LookupRaisesIff(Stored(pages, IndexName(schema, c)), schema.name, TableRows(pages, state, schema.name), c.name,
                      c.ty, PlanFor(schema, where).value.lookup);
      FitsIff(schema, where, c);
    }
  }

  lemma FitsIff(schema: TableSchema, where: Option<Expr>, c: ColumnSchema)
    requires WellFormed(schema) && PlanFor(schema, where).Some? && |Bounds(PlanFor(schema, where).value.lookup)| == 1
    requires c in schema.columns && c.name == PlanFor(schema, where).value.column
    ensures LiteralFits(schema, where) <==> Fits(c.ty, Bounds(PlanFor(schema, where).value.lookup)[0])
  {
    forall d | d in schema.columns && d.name == c.name ensures d == c {
      OneColumnPerName(schema.columns, d, c);
    }
  }

  lemma {:induction false} ReadAllConcat(a: seq<Pointer>, b: seq<Pointer>, rows: map<Pointer, Row>)
    ensures ReadAll(a + b, rows) == ReadAll(a, rows) + ReadAll(b, rows)
  {
    if a == [] {
      assert a + b == b;
    } else {
      assert (a + b)[1..] == a[1..] + b;
      ReadAllConcat(a[1..], b, rows);
    }
  }

  lemma {:induction false} ReadAllSnoc(pointers: seq<Pointer>, i: nat, rows: map<Pointer, Row>)
    requires i < |pointers|
    ensures ReadAll(pointers[..i + 1], rows)
         == ReadAll(pointers[..i], rows) + (if pointers[i] in rows then [(pointers[i], rows[pointers[i]])] else [])
  {
    assert pointers[..i + 1] == pointers[..i] + [pointers[i]];
    ReadAllConcat(pointers[..i], [pointers[i]], rows);
    assert [pointers[i]][1..] == [];
  }

  lemma {:induction false} FilteredSnoc(rows: seq<(Pointer, Row)>, i: nat, where: Option<Expr>)
    requires i < |rows|
    ensures Filtered(rows[..i + 1], where)
         == Filtered(rows[..i], where) + (if Accepts(where, rows[i].1) then [rows[i]] else [])
  {
    assert rows[..i + 1] == rows[..i] + [rows[i]];
    FilteredConcat(rows[..i], [rows[i]], where);
    assert [rows[i]][1..] == [];
  }

  // ---------------------------------------------------------------- midway through the indexes of a row

  /** The indexes of the first columns mirror the new rows, the others still the old ones. */
  ghost predicate HalfMirrors(pages: seq<Page>, was: map<Pointer, Row>, rows: map<Pointer, Row>, schema: TableSchema,
                              done: nat, exact: bool)
  {
    forall j :: 0 <= j < |schema.columns| && Indexed(schema.columns[j]) ==>
      ColumnMirrored(pages, if j < done then rows else was, schema, schema.columns[j], exact)
  }

  /** The indexes of the later columns have not been touched. */
  ghost predicate Untouched(before: seq<Page>, now: seq<Page>, schema: TableSchema, done: nat) {
    forall j :: done <= j < |schema.columns| ==>
      Stored(now, IndexName(schema, schema.columns[j])) == Stored(before, IndexName(schema, schema.columns[j]))
  }

  /** One index was changed, and in it only the entries of the table. */
  ghost predicate OneIndexChanged(before: seq<Page>, now: seq<Page>, schema: TableSchema, c: ColumnSchema) {
    && Extends(before, now)
    && IndexesKept(before, now, {IndexName(schema, c)})
    && ForeignEntriesKept(before, now, schema.name)
  }

  lemma OneIndexWithin(before: seq<Page>, now: seq<Page>, schema: TableSchema, c: ColumnSchema)
    requires OneIndexChanged(before, now, schema, c) && c in schema.columns && Indexed(c)
    ensures Within(before, now, schema)
  {
    ExtendsForeign(before, now, schema.name);
    assert IndexName(schema, c) in IndexNames(schema);
  }

  lemma NothingChanged(pages: seq<Page>, schema: TableSchema)
    ensures Within(pages, pages, schema) && Extends(pages, pages) && Untouched(pages, pages, schema, 0)
  {
  }

  lemma OtherColumnKept(before: seq<Page>, now: seq<Page>, rows: map<Pointer, Row>, schema: TableSchema, i: nat, j: nat,
                        exact: bool)
    requires WellFormed(schema) && i < |schema.columns| && j < |schema.columns| && i != j
    requires IndexesKept(before, now, {IndexName(schema, schema.columns[i])})
    requires ColumnMirrored(before, rows, schema, schema.columns[j], exact)
    ensures ColumnMirrored(now, rows, schema, schema.columns[j], exact)
  {
    NamesDifferByColumn(schema, schema.columns[i], schema.columns[j]);
  }

  lemma OneColumnDone(before: seq<Page>, now: seq<Page>, was: map<Pointer, Row>, rows: map<Pointer, Row>,
                      schema: TableSchema, i: nat, exact: bool)
    requires WellFormed(schema) && i < |schema.columns| && Indexed(schema.columns[i])
    requires HalfMirrors(before, was, rows, schema, i, exact)
    requires OneIndexChanged(before, now, schema, schema.columns[i])
    requires ColumnMirrored(now, rows, schema, schema.columns[i], exact)
    ensures HalfMirrors(now, was, rows, schema, i + 1, exact)
  {
    forall j | 0 <= j < |schema.columns| && Indexed(schema.columns[j])
      ensures ColumnMirrored(now, if j < i + 1 then rows else was, schema, schema.columns[j], exact)
    {
      if j != i {
        OtherColumnKept(before, now, if j < i then rows else was, schema, i, j, exact);
      }
    }
  }

  lemma RestUntouched(start: seq<Page>, before: seq<Page>, now: seq<Page>, schema: TableSchema, i: nat)
    requires WellFormed(schema) && i < |schema.columns| && Untouched(start, before, schema, i)
    requires IndexesKept(before, now, {IndexName(schema, schema.columns[i])})
    ensures Untouched(start, now, schema, i + 1)
  {
    forall j | i + 1 <= j < |schema.columns|
      ensures Stored(now, IndexName(schema, schema.columns[j])) == Stored(start, IndexName(schema, schema.columns[j]))
    {
      NamesDifferByColumn(schema, schema.columns[i], schema.columns[j]);
      var name := IndexName(schema, schema.columns[j]);
      assert Stored(before, name) == Stored(start, name);
    }
  }

  lemma HalfIsNone(pages: seq<Page>, was: map<Pointer, Row>, rows: map<Pointer, Row>, schema: TableSchema, exact: bool)
    requires IndexesMirror(pages, was, schema, exact)
    ensures HalfMirrors(pages, was, rows, schema, 0, exact)
  {
  }

  lemma HalfIsAll(pages: seq<Page>, was: map<Pointer, Row>, rows: map<Pointer, Row>, schema: TableSchema, exact: bool)
    requires HalfMirrors(pages, was, rows, schema, |schema.columns|, exact)
    ensures IndexesMirror(pages, rows, schema, exact)
  {
  }

  lemma NotIndexedDone(pages: seq<Page>, was: map<Pointer, Row>, rows: map<Pointer, Row>, schema: TableSchema, i: nat,
                       exact: bool)
    requires i < |schema.columns| && !Indexed(schema.columns[i]) && HalfMirrors(pages, was, rows, schema, i, exact)
    ensures HalfMirrors(pages, was, rows, schema, i + 1, exact)
  {
  }

  // ---------------------------------------------------------------- what the chosen rows are

  lemma MatchedIs(pages: seq<Page>, state: State, schema: TableSchema, where: Option<Expr>, x: (Pointer, Row))
    requires TableSound(pages, state, schema, true)
    ensures x in Matched(pages, state, schema, where) <==>
      var rows := TableRows(pages, state, schema.name);
      x.0 in rows && rows[x.0] == x.1 && Accepts(where, x.1)
  {
    PlanKeepsMeaning(pages, state, schema, where);
    var rows, matched := TableRows(pages, state, schema.name), Matched(pages, state, schema, where);
    if x in matched {
      var i :| 0 <= i < |matched| && matched[i] == x;
    }
  }

  /** With exact indexes, whatever plans are chosen, OR chooses the rows that either side chooses and
      AND those that both do, as far as both sides evaluate. */
  lemma EitherOrBoth(pages: seq<Page>, state: State, schema: TableSchema, l: Expr, r: Expr, x: (Pointer, Row))
    requires TableSound(pages, state, schema, true) && Evaluate(l, x.1).Ok? && Evaluate(r, x.1).Ok?
    ensures x in Matched(pages, state, schema, Some(Binary(l, OR, r))) <==>
      x in Matched(pages, state, schema, Some(l)) || x in Matched(pages, state, schema, Some(r))
    ensures x in Matched(pages, state, schema, Some(Binary(l, AND, r))) <==>
      x in Matched(pages, state, schema, Some(l)) && x in Matched(pages, state, schema, Some(r))
  {
    MatchedIs(pages, state, schema, Some(l), x);
    MatchedIs(pages, state, schema, Some(r), x);
    MatchedIs(pages, state, schema, Some(Binary(l, OR, r)), x);
    MatchedIs(pages, state, schema, Some(Binary(l, AND, r)), x);
    OrMeans(l, r, x.1);
    AndMeans(l, r, x.1);
  }

  /** With exact indexes a comparison of a column with a literal chooses, of the live rows, those whose
      value is in that relation to the literal; without a WHERE all are chosen. */
  lemma ComparisonChooses(pages: seq<Page>, state: State, schema: TableSchema, column: string, v: Value, p: Pointer)
    requires TableSound(pages, state, schema, true) && p in TableRows(pages, state, schema.name)
    requires column in TableRows(pages, state, schema.name)[p]
    ensures var row := TableRows(pages, state, schema.name)[p];
      var a, x := row[column], (p, row);
      var equal := if IsNumeric(a) && IsNumeric(v) then Number(a) == Number(v) else a == v;
      var comparable := (IsNumeric(a) && IsNumeric(v)) || (a.Text? && v.Text?);
      && x in Matched(pages, state, schema, None)
      && (x in Matched(pages, state, schema, Comparing(column, EQ, v)) <==> equal)
      && (x in Matched(pages, state, schema, Comparing(column, NE, v)) <==> !equal)
      && (x in Matched(pages, state, schema, Comparing(column, LT, v)) <==> Smaller(a, v))
      && (x in Matched(pages, state, schema, Comparing(column, GT, v)) <==> Smaller(v, a))
      && (x in Matched(pages, state, schema, Comparing(column, LE, v)) <==> comparable && (Smaller(a, v) || equal))
      && (x in Matched(pages, state, schema, Comparing(column, GE, v)) <==> comparable && (Smaller(v, a) || equal))
  {
    var row := TableRows(pages, state, schema.name)[p];
    MatchedIs(pages, state, schema, None, (p, row));
    MatchedIs(pages, state, schema, Comparing(column, EQ, v), (p, row));
    MatchedIs(pages, state, schema, Comparing(column, NE, v), (p, row));
    MatchedIs(pages, state, schema, Comparing(column, LT, v), (p, row));
    MatchedIs(pages, state, schema, Comparing(column, GT, v), (p, row));
    MatchedIs(pages, state, schema, Comparing(column, LE, v), (p, row));
    MatchedIs(pages, state, schema, Comparing(column, GE, v), (p, row));
    ComparisonMeans(Identifier(column), Literal(v), row);
  }

  function Comparing(column: string, op: Operator, v: Value): Option<Expr> {
    Some(Binary(Identifier(column), op, Literal(v)))
  }
}

/** A whole SELECT: its rows are chosen, then sorted, paged and projected, or grouped and aggregated. */
module Queries {
  import opened Values
  import opened BTreeNodes
  import opened Catalog
  import opened Storage
  import opened Expressions
  import opened Table
  import Agreement
  import opened Consistency
  import opened Plans
  import opened Statements
  import opened Executor
  import opened Ordering
  import opened Grouping
  import Join

  datatype Select = Select(table: string, projections: seq<Expr>, where: Option<Expr>, groupBy: seq<string>,
                           orders: seq<Order>, offset: Option<nat>, limit: Option<nat>)

  // ---------------------------------------------------------------- validation

  predicate IsStar(projections: seq<Expr>) {
    projections == [Identifier("*")]
  }

  /** `*` stands alone, or is the argument of COUNT; every other name is a column. */
  predicate ValidSelect(schema: TableSchema, s: Select) {
    && (forall i :: 0 <= i < |s.projections| ==>
          ValidColumns(schema, s.projections[i], IsStar(s.projections), s.projections[i].Function?))
    && ValidWhere(schema, s.where)
    && (forall i :: 0 <= i < |s.orders| ==> KnownColumn(schema, s.orders[i].column))
    && (forall i :: 0 <= i < |s.groupBy| ==> KnownColumn(schema, s.groupBy[i]))
  }

  /** `*` is a projection by itself and the argument of COUNT only; any other argument is a column. */
  lemma ArgumentsAllowed(schema: TableSchema, name: string, column: string)
    ensures ValidColumns(schema, Identifier("*"), IsStar([Identifier("*")]), false)
    ensures ValidColumns(schema, Function(name, [Identifier("*")]), false, true) <==> name == "COUNT"
    ensures column != "*" ==>
      (ValidColumns(schema, Function(name, [Identifier(column)]), false, true) <==>
         column in ColumnNames(schema.columns))
  {
    var star, argument := [Identifier("*")], [Identifier(column)];
    assert star[0] == Identifier("*") && argument[0] == Identifier(column);
  }

  predicate IsAggregate(s: Select) {
    s.groupBy != [] || exists i :: 0 <= i < |s.projections| && s.projections[i].Function?
  }

  // ---------------------------------------------------------------- projecting

  /** What a result row shows of a row: all columns in their order, or the value of each projection. */
  ghost predicate Displays(schema: TableSchema, projections: seq<Expr>, row: Row, cells: seq<Value>) {
    if IsStar(projections) then
      && |cells| == |schema.columns|
      && forall j :: 0 <= j < |cells| ==> schema.columns[j].name in row && cells[j] == row[schema.columns[j].name]
    else
      && |cells| == |projections|
      && forall j :: 0 <= j < |cells| ==> Evaluate(projections[j], row) == Ok(cells[j])
  }

  ghost predicate Displayable(projections: seq<Expr>, row: Row) {
    IsStar(projections) || forall j :: 0 <= j < |projections| ==> Evaluate(projections[j], row).Ok?
  }

  ghost predicate RowFault(projections: seq<Expr>, row: Row, error: Error) {
    exists j :: 0 <= j < |projections| && Evaluate(projections[j], row) == Raised(error)
                && forall k :: 0 <= k < j ==> Evaluate(projections[k], row).Ok?
  }

  ghost predicate AllDisplay(schema: TableSchema, projections: seq<Expr>, rows: seq<Row>, result: seq<seq<Value>>) {
    |result| == |rows| && forall i :: 0 <= i < |rows| ==> Displays(schema, projections, rows[i], result[i])
  }

  ghost predicate AllDisplayable(projections: seq<Expr>, rows: seq<Row>) {
    forall i :: 0 <= i < |rows| ==> Displayable(projections, rows[i])
  }

  /** The first row with a projection that raises decides the error. */
  ghost predicate FirstRowFault(projections: seq<Expr>, rows: seq<Row>, error: Error) {
    exists i :: 0 <= i < |rows| && !Displayable(projections, rows[i]) && RowFault(projections, rows[i], error)
                && AllDisplayable(projections, rows[..i])
  }

  ghost predicate FullRows(schema: TableSchema, rows: seq<Row>) {
    forall i :: 0 <= i < |rows| ==> rows[i].Keys == ColumnNames(schema.columns)
  }

  method ProjectRow(schema: TableSchema, projections: seq<Expr>, row: Row) returns (r: Outcome<seq<Value>>)
    requires IsStar(projections) ==> row.Keys == ColumnNames(schema.columns)
    ensures r.Ok? <==> Displayable(projections, row)
    ensures r.Ok? ==> Displays(schema, projections, row, r.value)
    ensures r.Raised? ==> RowFault(projections, row, r.error)
  {
    var cells: seq<Value> := [];
    if IsStar(projections) {
      for j := 0 to |schema.columns|
        invariant |cells| == j
        invariant forall k :: 0 <= k < j ==>
          schema.columns[k].name in row && cells[k] == row[schema.columns[k].name]
      {
        cells := cells + [row[schema.columns[j].name]];
      }
    } else {
      for j := 0 to |projections|
        invariant |cells| == j
        invariant forall k :: 0 <= k < j ==> Evaluate(projections[k], row) == Ok(cells[k])
      {
        var v := Evaluate(projections[j], row);
        if v.Raised? {
          return Raised(v.error);
        }
        cells := cells + [v.value];
      }
    }
    r := Ok(cells);
  }

  method ProjectRows(schema: TableSchema, projections: seq<Expr>, rows: seq<Row>) returns (r: Outcome<seq<seq<Value>>>)
    requires IsStar(projections) ==> FullRows(schema, rows)
    ensures r.Ok? <==> AllDisplayable(projections, rows)
    ensures r.Ok? ==> AllDisplay(schema, projections, rows, r.value)
    ensures r.Raised? ==> FirstRowFault(projections, rows, r.error)
  {
    var result: seq<seq<Value>> := [];
    for i := 0 to |rows|
      invariant AllDisplayable(projections, rows[..i]) && AllDisplay(schema, projections, rows[..i], result)
    {
      var cells := ProjectRow(schema, projections, rows[i]);
      if cells.Raised? {
        return Raised(cells.error);
      }
      result := result + [cells.value];
    }
    assert rows[..|rows|] == rows;
    r := Ok(result);
  }

  // ---------------------------------------------------------------- without aggregates

  /** The answer of a SELECT over sorted rows: only those of the page are projected, so that no other
      row can raise. */
  ghost predicate PageAnswer(schema: TableSchema, s: Select, sorted: seq<Row>, r: Outcome<seq<seq<Value>>>) {
    var page := Ordering.Page(sorted, s.offset, s.limit);
    && (r.Ok? <==> AllDisplayable(s.projections, page))
    && (r.Ok? ==> AllDisplay(schema, s.projections, page, r.value))
    && (r.Raised? ==> FirstRowFault(s.projections, page, r.error))
  }

  /** The answer over chosen rows, in whatever order they were found. */
  ghost predicate PlainAnswer(schema: TableSchema, s: Select, rows: seq<Row>, r: Outcome<seq<seq<Value>>>) {
    exists sorted ::
      StablySorted(rows, sorted, s.orders) && OrderedBy(sorted, s.orders) && PageAnswer(schema, s, sorted, r)
  }

  lemma PageOfFull(schema: TableSchema, rows: seq<Row>, sorted: seq<Row>, offset: Option<nat>, limit: Option<nat>)
    requires FullRows(schema, rows) && multiset(sorted) == multiset(rows)
    ensures FullRows(schema, Ordering.Page(sorted, offset, limit))
  {
    forall i | 0 <= i < |sorted| ensures sorted[i].Keys == ColumnNames(schema.columns) {
      assert sorted[i] in multiset(rows);
    }
  }

  method SelectPlain(schema: TableSchema, s: Select, rows: seq<Row>) returns (r: Outcome<seq<seq<Value>>>)
    requires IsStar(s.projections) ==> FullRows(schema, rows)
    ensures PlainAnswer(schema, s, rows, r)
  {
    var sorted := ApplyOrdering(rows, s.orders);
    if IsStar(s.projections) {
      PageOfFull(schema, rows, sorted, s.offset, s.limit);
    }
    r := ProjectRows(schema, s.projections, Ordering.Page(sorted, s.offset, s.limit));
  }

  // ---------------------------------------------------------------- the statement

  function RowsOf(chosen: seq<(Pointer, Row)>): seq<Row> {
    seq(|chosen|, i requires 0 <= i < |chosen| => chosen[i].1)
  }

  ghost predicate AggregateAnswer(s: Select, titles: seq<string>, rows: seq<Row>, r: Outcome<seq<seq<Value>>>) {
    && (r.Ok? <==> Aggregable(s.projections, s.groupBy, rows) && Orderable(titles, s.groupBy, rows, s.orders))
    && (r.Ok? ==> AggregateResult(s.projections, titles, s.groupBy, rows, s.orders, s.offset, s.limit, r.value))
  }

  ghost predicate AnswerOver(schema: TableSchema, s: Select, titles: seq<string>, rows: seq<Row>,
                             r: Outcome<seq<seq<Value>>>)
  {
    if s.groupBy == [] && (forall i :: 0 <= i < |s.projections| ==> !s.projections[i].Function?) then
      PlainAnswer(schema, s, rows, r)
    else
      AggregateAnswer(s, titles, rows, r)
  }

  /** The answer of a SELECT: an error for an unknown table or column, or if choosing the rows raises; or
      what is computed over the accepted rows of the table, each once, and all of them if `exact`. */
  ghost predicate Answers(m: Moment, s: Select, titles: seq<string>, exact: bool, r: Outcome<seq<seq<Value>>>) {
    if s.table !in m.state.catalog || !ValidSelect(m.state.catalog[s.table], s) then r == Raised(ConstraintFault)
    else
      var schema := m.state.catalog[s.table];
      if !Matchable(m.pages, m.state, schema, s.where) then r.Raised?
      else exists chosen ::
        ListsAccepted(chosen, RowsAt(m, s.table), s.where, exact) && AnswerOver(schema, s, titles, RowsOf(chosen), r)
  }

  lemma ChosenAreFull(schema: TableSchema, rows: map<Pointer, Row>, chosen: seq<(Pointer, Row)>, where: Option<Expr>,
                      exact: bool)
    requires RowsOk(schema, rows) && ListsAccepted(chosen, rows, where, exact)
    ensures FullRows(schema, RowsOf(chosen))
  {
    forall i | 0 <= i < |chosen| ensures RowsOf(chosen)[i].Keys == ColumnNames(schema.columns) {
      assert RowOk(schema, rows[chosen[i].0]);
    }
  }

  /** `titles` are the texts of the projections. */
  method ExecuteSelect(executor: Executor, s: Select, titles: seq<string>, ghost exact: bool)
    returns (r: Outcome<seq<seq<Value>>>)
    requires executor.Valid(exact) && |titles| == |s.projections|
    modifies executor.storage`state, executor.storage`header, executor.storage`log
    ensures executor.Valid(exact) && executor.Now() == old(executor.Now())
    ensures Answers(executor.Now(), s, titles, exact, r)
  {
    if s.table !in executor.storage.state.catalog {
      return Raised(ConstraintFault);
    }
    var schema := executor.storage.state.catalog[s.table];
    assert TableSound(executor.storage.pages, executor.storage.state, schema, exact);
    if !ValidSelect(schema, s) {
      return Raised(ConstraintFault);
    }
    var chosen := executor.MatchingRows(schema, s.where, exact);
    if chosen.Raised? {
      return Raised(chosen.error);
    }
    var rows := RowsOf(chosen.value);
    ChosenAreFull(schema, executor.TableNow(schema.name), chosen.value, s.where, exact);
    if IsAggregate(s) {
      r := SelectAggregate(s.projections, titles, s.groupBy, rows, s.orders, s.offset, s.limit);
    } else {
      r := SelectPlain(schema, s, rows);
    }
    assert AnswerOver(schema, s, titles, RowsOf(chosen.value), r);
  }

  // ---------------------------------------------------------------- the answer and the order of finding

  /** No two different rows are tied. */
  ghost predicate Unambiguous(rows: seq<Row>, orders: seq<Order>) {
    forall x, y :: x in rows && y in rows && Tied(orders, x, y) ==> x == y
  }

  lemma {:induction false} TiesCount(s: seq<Row>, orders: seq<Order>, x: Row, y: Row)
    ensures multiset(Ties(s, orders, x))[y] == if Tied(orders, y, x) then multiset(s)[y] else 0
  {
    if s != [] {
      TiesCount(s[1..], orders, x, y);
      assert s == [s[0]] + s[1..];
    }
  }

  lemma TiedJoins(orders: seq<Order>, x: Row, y: Row, z: Row)
    requires Tied(orders, y, x) && Tied(orders, z, x)
    ensures Tied(orders, y, z)
  {
    LexIsWeakOrder(orders, y, x, z);
    LexIsWeakOrder(orders, z, x, y);
  }

  /** Where ties are equal, they are the same whatever the order of the rows. */
  lemma TiesAgree(s: seq<Row>, t: seq<Row>, orders: seq<Order>, x: Row)
    requires multiset(s) == multiset(t) && Unambiguous(s, orders)
    ensures Ties(s, orders, x) == Ties(t, orders, x)
  {
    var a, b := Ties(s, orders, x), Ties(t, orders, x);
    forall y ensures multiset(a)[y] == multiset(b)[y] {
      TiesCount(s, orders, x, y);
      TiesCount(t, orders, x, y);
    }
    assert multiset(a) == multiset(b) && |a| == |multiset(a)| == |multiset(b)| == |b|;
    forall i | 0 <= i < |a| ensures a[i] == b[i] {
      assert b[i] in multiset(a);
      TiesMembers(s, orders, x, a[i]);
      TiesMembers(s, orders, x, b[i]);
      TiedJoins(orders, x, a[i], b[i]);
    }
  }

  lemma SortsAgree(s: seq<Row>, t: seq<Row>, a: seq<Row>, b: seq<Row>, orders: seq<Order>)
    requires multiset(s) == multiset(t) && Unambiguous(s, orders)
    requires StablySorted(s, a, orders) && StablySorted(t, b, orders)
    ensures a == b
  {
    forall x ensures Ties(a, orders, x) == Ties(b, orders, x) {
      TiesAgree(s, t, orders, x);
    }
    StableSortUnique(a, b, orders);
  }

  lemma {:induction false} SortExists(s: seq<Row>, orders: seq<Order>) returns (t: seq<Row>)
    ensures StablySorted(s, t, orders)
  {
    if orders == [] {
      NoKeys(s);
      t := s;
    } else {
      var u := SortExists(s, orders[1..]);
      t := SortBy(u, orders[0]);
      SortByIsStable(u, orders[0]);
      SortsCompose(s, u, t, orders[0], orders[1..]);
      assert orders == [orders[0]] + orders[1..];
    }
  }

  lemma {:induction false} TiesConcat(a: seq<Row>, b: seq<Row>, orders: seq<Order>, x: Row)
    ensures Ties(a + b, orders, x) == Ties(a, orders, x) + Ties(b, orders, x)
  {
    if a == [] {
      assert a + b == b;
    } else {
      assert (a + b)[1..] == a[1..] + b;
      TiesConcat(a[1..], b, orders, x);
    }
  }

  lemma TieAt(before: seq<Row>, x: Row, after: seq<Row>, orders: seq<Order>, z: Row)
    requires Tied(orders, x, z)
    ensures var k, all := |Ties(before, orders, z)|, Ties(before + ([x] + after), orders, z);
      k < |all| && all[k] == x
  {
    TiesConcat(before, [x] + after, orders, z);
    assert ([x] + after)[0] == x;
  }

  lemma Exchanged<T>(s: seq<T>, i: nat, j: nat) returns (t: seq<T>)
    requires i < j < |s|
    ensures t == s[i := s[j]][j := s[i]] && multiset(t) == multiset(s)
  {
    var u := s[i := s[j]];
    assert multiset(u) == multiset(s) - multiset{s[i]} + multiset{s[j]};
    t := u[j := s[i]];
    assert multiset(t) == multiset(u) - multiset{s[j]} + multiset{s[i]};
  }

  lemma SplitAt<T>(s: seq<T>, i: nat)
    requires i < |s|
    ensures s == s[..i] + ([s[i]] + s[i + 1..])
  {
  }

  /** Two different rows that are tied come out in the order in which they were found. */
  lemma TieShows(s: seq<Row>, i: nat, j: nat, orders: seq<Order>) returns (t: seq<Row>)
    requires i < j < |s| && s[i] != s[j] && Tied(orders, s[i], s[j])
    ensures multiset(t) == multiset(s)
    ensures forall a, b :: StablySorted(s, a, orders) && StablySorted(t, b, orders) ==> a != b
  {
    t := Exchanged(s, i, j);
    SelfTied(orders, s[i]);
    SplitAt(s, i);
    SplitAt(t, i);
    assert t[..i] == s[..i];
    TieAt(s[..i], s[i], s[i + 1..], orders, s[i]);
    TieAt(s[..i], s[j], t[i + 1..], orders, s[i]);
    assert Ties(s, orders, s[i]) != Ties(t, orders, s[i]);
  }

  /** The sorted rows are the same in whatever order they were found exactly if no two different ones
      are tied. */
  lemma FindingOrderIsInvisibleIff(s: seq<Row>, orders: seq<Order>)
    ensures Unambiguous(s, orders) <==>
      forall t, a, b ::
        multiset(t) == multiset(s) && StablySorted(s, a, orders) && StablySorted(t, b, orders) ==> a == b
  {
    if Unambiguous(s, orders) {
      forall t, a, b | multiset(t) == multiset(s) && StablySorted(s, a, orders) && StablySorted(t, b, orders)
        ensures a == b
      {
        SortsAgree(s, t, a, b, orders);
      }
    } else {
      var x, y :| x in s && y in s && Tied(orders, x, y) && x != y;
      var i :| 0 <= i < |s| && s[i] == x;
      var j :| 0 <= j < |s| && s[j] == y;
      var t := TieShows(s, if i < j then i else j, if i < j then j else i, orders);
      var a := SortExists(s, orders);
      var b := SortExists(t, orders);
    }
  }

  // ---------------------------------------------------------------- the answer and the plan

  lemma CellsOnce(schema: TableSchema, projections: seq<Expr>, row: Row, a: seq<Value>, b: seq<Value>)
    requires Displays(schema, projections, row, a) && Displays(schema, projections, row, b)
    ensures a == b
  {
    if !IsStar(projections) {
      assert forall j :: 0 <= j < |projections| ==> Ok(a[j]) == Ok(b[j]);
    }
  }

  lemma DisplayableBefore(projections: seq<Expr>, rows: seq<Row>, i: nat, j: nat)
    requires i < j <= |rows| && AllDisplayable(projections, rows[..j])
    ensures Displayable(projections, rows[i])
  {
    assert rows[..j][i] == rows[i];
  }

  lemma RowFaultOnce(projections: seq<Expr>, row: Row, a: Error, b: Error)
    requires RowFault(projections, row, a) && RowFault(projections, row, b)
    ensures a == b
  {
  }

  lemma FaultAt(projections: seq<Expr>, rows: seq<Row>, error: Error) returns (i: nat)
    requires FirstRowFault(projections, rows, error)
    ensures i < |rows| && !Displayable(projections, rows[i]) && RowFault(projections, rows[i], error)
    ensures AllDisplayable(projections, rows[..i])
  {
    i :| 0 <= i < |rows| && !Displayable(projections, rows[i]) && RowFault(projections, rows[i], error)
         && AllDisplayable(projections, rows[..i]);
  }

  lemma FaultOnce(projections: seq<Expr>, rows: seq<Row>, a: Error, b: Error)
    requires FirstRowFault(projections, rows, a) && FirstRowFault(projections, rows, b)
    ensures a == b
  {
    var i := FaultAt(projections, rows, a);
    var j := FaultAt(projections, rows, b);
    if i < j {
      DisplayableBefore(projections, rows, i, j);
    } else if j < i {
      DisplayableBefore(projections, rows, j, i);
    } else {
      RowFaultOnce(projections, rows[i], a, b);
    }
  }

  /** Sorted rows have one answer. */
  lemma PageAnswerOnce(schema: TableSchema, s: Select, sorted: seq<Row>, a: Outcome<seq<seq<Value>>>,
                       b: Outcome<seq<seq<Value>>>)
    requires PageAnswer(schema, s, sorted, a) && PageAnswer(schema, s, sorted, b)
    ensures a == b
  {
    var page := Ordering.Page(sorted, s.offset, s.limit);
    if a.Ok? {
      forall i | 0 <= i < |page| ensures a.value[i] == b.value[i] {
        CellsOnce(schema, s.projections, page[i], a.value[i], b.value[i]);
      }
      assert a.value == b.value;
    } else {
      FaultOnce(s.projections, page, a.error, b.error);
    }
  }

  /** The rows are ordered by a column in which no two rows of the table agree. */
  ghost predicate OrderedByKey(schema: TableSchema, orders: seq<Order>) {
    exists m, c :: 0 <= m < |orders| && c in schema.columns && Indexed(c) && c.notNull && orders[m].column == c.name
  }

  lemma KeyBreaksTies(schema: TableSchema, rows: map<Pointer, Row>, orders: seq<Order>, p: Pointer, q: Pointer)
    requires RowsOk(schema, rows) && OrderedByKey(schema, orders)
    requires p in rows && q in rows && Tied(orders, rows[p], rows[q])
    ensures p == q
  {
    var m, c :| 0 <= m < |orders| && c in schema.columns && Indexed(c) && c.notNull && orders[m].column == c.name;
    TiedMeans(orders, rows[p], rows[q]);
    assert RowOk(schema, rows[p]) && RowOk(schema, rows[q]);
    assert ClashAt(c, rows[p], rows[q]);
    assert Clash(schema, rows[p], rows[q]);
  }

  lemma AcceptedUnambiguous(schema: TableSchema, rows: map<Pointer, Row>, orders: seq<Order>, a: seq<(Pointer, Row)>,
                            where: Option<Expr>)
    requires RowsOk(schema, rows) && OrderedByKey(schema, orders) && ListsAccepted(a, rows, where, true)
    ensures Unambiguous(RowsOf(a), orders)
  {
    forall x, y | x in RowsOf(a) && y in RowsOf(a) && Tied(orders, x, y) ensures x == y {
      var i :| 0 <= i < |a| && RowsOf(a)[i] == x;
      var j :| 0 <= j < |a| && RowsOf(a)[j] == y;
      KeyBreaksTies(schema, rows, orders, a[i].0, a[j].0);
    }
  }

  function Without<T>(s: seq<T>, j: nat): seq<T>
    requires j < |s|
  {
    s[..j] + s[j + 1..]
  }

  lemma WithoutOne<T>(s: seq<T>, j: nat)
    requires j < |s|
    ensures multiset(s) == multiset(Without(s, j)) + multiset{s[j]} && (j == 0 ==> Without(s, j) == s[1..])
    ensures multiset(Without(s, j)) == multiset(s) - multiset{s[j]}
  {
    assert s == s[..j] + [s[j]] + s[j + 1..];
  }

  /** Permuted sequences stay so without an element they share. */
  lemma FirstElsewhere<T>(a: seq<T>, b: seq<T>) returns (j: nat)
    requires multiset(a) == multiset(b) && a != []
    ensures |a| == |b| && j < |b| && b[j] == a[0] && multiset(a[1..]) == multiset(Without(b, j))
  {
    assert |a| == |multiset(a)| == |multiset(b)| == |b|;
    assert a[0] in multiset(b);
    j :| 0 <= j < |b| && b[j] == a[0];
    WithoutOne(a, 0);
    WithoutOne(b, j);
  }

  /** What is computed element by element is permuted with the elements. */
  lemma {:induction false} PermutedWith<S, T>(a: seq<S>, b: seq<S>, fa: seq<T>, fb: seq<T>)
    requires multiset(a) == multiset(b) && |fa| == |a| && |fb| == |b|
    requires forall i, j :: 0 <= i < |a| && 0 <= j < |b| && a[i] == b[j] ==> fa[i] == fb[j]
    ensures multiset(fa) == multiset(fb)
    decreases |a|
  {
    if a == [] {
      assert b == [];
    } else {
      var j := FirstElsewhere(a, b);
      WithoutOne(fa, 0);
      WithoutOne(fb, j);
      PermutedWith(a[1..], Without(b, j), fa[1..], Without(fb, j));
      assert fa[0] == fb[j];
    }
  }

  lemma SameAccepted(rows: map<Pointer, Row>, where: Option<Expr>, a: seq<(Pointer, Row)>, b: seq<(Pointer, Row)>)
    requires ListsAccepted(a, rows, where, true) && ListsAccepted(b, rows, where, true)
    ensures multiset(a) == multiset(b) && multiset(RowsOf(a)) == multiset(RowsOf(b))
  {
    forall x ensures x in a <==> x in b {
      ListedIff(rows, where, a, x);
      ListedIff(rows, where, b, x);
    }
    assert (set x | x in a) == (set x | x in b);
    assert Agreement.NoDuplicates(a) && Agreement.NoDuplicates(b);
    Agreement.NoDuplicatesMultiset(a);
    Agreement.NoDuplicatesMultiset(b);
    PermutedWith(a, b, RowsOf(a), RowsOf(b));
  }

  lemma ListedIff(rows: map<Pointer, Row>, where: Option<Expr>, a: seq<(Pointer, Row)>, x: (Pointer, Row))
    requires ListsAccepted(a, rows, where, true)
    ensures x in a <==> x.0 in rows && rows[x.0] == x.1 && Accepts(where, x.1)
  {
    if x in a {
      var i :| 0 <= i < |a| && a[i] == x;
    }
  }

  /** Ordered by a key, a SELECT without aggregates has one answer, by whatever plan its rows were
      found: the errors of its projections, LIMIT and OFFSET included. */
  lemma AnswerIgnoresPlan(schema: TableSchema, rows: map<Pointer, Row>, s: Select, a: seq<(Pointer, Row)>,
                          b: seq<(Pointer, Row)>, ra: Outcome<seq<seq<Value>>>, rb: Outcome<seq<seq<Value>>>)
    requires RowsOk(schema, rows) && OrderedByKey(schema, s.orders)
    requires ListsAccepted(a, rows, s.where, true) && ListsAccepted(b, rows, s.where, true)
    requires PlainAnswer(schema, s, RowsOf(a), ra) && PlainAnswer(schema, s, RowsOf(b), rb)
    ensures ra == rb
  {
    var x :| StablySorted(RowsOf(a), x, s.orders) && PageAnswer(schema, s, x, ra);
    var y :| StablySorted(RowsOf(b), y, s.orders) && PageAnswer(schema, s, y, rb);
    SameAccepted(rows, s.where, a, b);
    AcceptedUnambiguous(schema, rows, s.orders, a, s.where);
    SortsAgree(RowsOf(a), RowsOf(b), x, y, s.orders);
    PageAnswerOnce(schema, s, x, ra, rb);
  }

  lemma PermutedDisplayable(projections: seq<Expr>, x: seq<Row>, y: seq<Row>)
    requires multiset(x) == multiset(y) && AllDisplayable(projections, x)
    ensures AllDisplayable(projections, y)
  {
    forall i | 0 <= i < |y| ensures Displayable(projections, y[i]) {
      assert y[i] in multiset(x);
      var j :| 0 <= j < |x| && x[j] == y[i];
    }
  }

  lemma PermutedDisplay(schema: TableSchema, projections: seq<Expr>, x: seq<Row>, y: seq<Row>, a: seq<seq<Value>>,
                        b: seq<seq<Value>>)
    requires multiset(x) == multiset(y)
    requires AllDisplay(schema, projections, x, a) && AllDisplay(schema, projections, y, b)
    ensures multiset(a) == multiset(b)
  {
    forall i, j | 0 <= i < |x| && 0 <= j < |y| && x[i] == y[j] ensures a[i] == b[j] {
      CellsOnce(schema, projections, x[i], a[i], b[j]);
    }
    PermutedWith(x, y, a, b);
  }

  lemma SortedAnswersArePermuted(schema: TableSchema, s: Select, x: seq<Row>, y: seq<Row>,
                                 ra: Outcome<seq<seq<Value>>>, rb: Outcome<seq<seq<Value>>>)
    requires multiset(x) == multiset(y) && s.offset.None? && s.limit.None?
    requires PageAnswer(schema, s, x, ra) && PageAnswer(schema, s, y, rb)
    ensures (ra.Ok? <==> rb.Ok?) && (ra.Ok? ==> multiset(ra.value) == multiset(rb.value))
  {
    assert Ordering.Page(x, None, None) == x && Ordering.Page(y, None, None) == y;
    if ra.Ok? {
      PermutedDisplayable(s.projections, x, y);
      PermutedDisplay(schema, s.projections, x, y, ra.value, rb.value);
    } else if rb.Ok? {
      PermutedDisplayable(s.projections, y, x);
    }
  }

  /** Without LIMIT and OFFSET the plan decides at most the order of the answer. */
  lemma WholeAnswersArePermuted(schema: TableSchema, s: Select, a: seq<Row>, b: seq<Row>, ra: Outcome<seq<seq<Value>>>,
                                rb: Outcome<seq<seq<Value>>>)
    requires multiset(a) == multiset(b) && s.offset.None? && s.limit.None?
    requires PlainAnswer(schema, s, a, ra) && PlainAnswer(schema, s, b, rb)
    ensures (ra.Ok? <==> rb.Ok?) && (ra.Ok? ==> multiset(ra.value) == multiset(rb.value))
  {
    var x :| StablySorted(a, x, s.orders) && PageAnswer(schema, s, x, ra);
    var y :| StablySorted(b, y, s.orders) && PageAnswer(schema, s, y, rb);
    SortedAnswersArePermuted(schema, s, x, y, ra, rb);
  }

  lemma StaysSorted(a: seq<Row>, b: seq<Row>, x: seq<Row>, orders: seq<Order>)
    requires multiset(a) == multiset(b) && Unambiguous(a, orders) && StablySorted(a, x, orders)
    ensures StablySorted(b, x, orders)
  {
    forall y ensures Ties(x, orders, y) == Ties(b, orders, y) {
      TiesAgree(a, b, orders, y);
    }
  }

  /** With exact indexes a SELECT ordered by a key answers as if the table had been scanned. */
  lemma AnswersAsScan(m: Moment, s: Select, titles: seq<string>, r: Outcome<seq<seq<Value>>>)
    requires Consistent(m.pages, m.state, true) && s.table in m.state.catalog
    requires var schema := m.state.catalog[s.table];
      ValidSelect(schema, s) && !IsAggregate(s) && OrderedByKey(schema, s.orders)
      && Matchable(m.pages, m.state, schema, s.where)
    requires Answers(m, s, titles, true, r)
    ensures var scan := Scanned(m.pages, RecordsOf(m.state, s.table), s.table);
      PlainAnswer(m.state.catalog[s.table], s, RowsOf(Agreement.Filtered(scan, s.where)), r)
  {
    var schema, rows := m.state.catalog[s.table], RowsAt(m, s.table);
    SoundAt(m.pages, m.state, s.table, true);
    var scan := Scanned(m.pages, RecordsOf(m.state, s.table), s.table);
    ScanIsRows(m.pages, RecordsOf(m.state, s.table), s.table);
    TableRowsOfTable(m.pages, m.state, s.table);
    FilteredScan(scan, rows, s.where);
    var b := Agreement.Filtered(scan, s.where);
    var a :| ListsAccepted(a, rows, s.where, true) && AnswerOver(schema, s, titles, RowsOf(a), r);
    AnswerOfOther(schema, rows, s, a, b, r);
  }

  lemma AnswerOfOther(schema: TableSchema, rows: map<Pointer, Row>, s: Select, a: seq<(Pointer, Row)>,
                      b: seq<(Pointer, Row)>, r: Outcome<seq<seq<Value>>>)
    requires RowsOk(schema, rows) && OrderedByKey(schema, s.orders)
    requires ListsAccepted(a, rows, s.where, true) && ListsAccepted(b, rows, s.where, true)
    requires PlainAnswer(schema, s, RowsOf(a), r)
    ensures PlainAnswer(schema, s, RowsOf(b), r)
  {
    var x :| StablySorted(RowsOf(a), x, s.orders) && OrderedBy(x, s.orders) && PageAnswer(schema, s, x, r);
    SameAccepted(rows, s.where, a, b);
    AcceptedUnambiguous(schema, rows, s.orders, a, s.where);
    StaysSorted(RowsOf(a), RowsOf(b), x, s.orders);
  }

  // ---------------------------------------------------------------- aggregates and the plan

  lemma {:induction false} TotalWithout(rows: seq<Row>, j: nat, f: Row -> real)
    requires j < |rows|
    ensures Total(rows, f) == f(rows[j]) + Total(Without(rows, j), f)
  {
    if j == 0 {
      assert Without(rows, j) == rows[1..];
    } else {
      TotalWithout(rows[1..], j - 1, f);
      assert Without(rows, j)[1..] == Without(rows[1..], j - 1);
    }
  }

  lemma {:induction false} PermutedTotal(a: seq<Row>, b: seq<Row>, f: Row -> real)
    requires multiset(a) == multiset(b)
    ensures Total(a, f) == Total(b, f)
    decreases |a|
  {
    if a == [] {
      assert b == [];
    } else {
      var j := FirstElsewhere(a, b);
      PermutedTotal(a[1..], Without(b, j), f);
      TotalWithout(b, j, f);
    }
  }

  lemma PermutedAll(a: seq<Row>, b: seq<Row>, P: Row -> bool)
    requires multiset(a) == multiset(b) && AllRows(a, P)
    ensures AllRows(b, P)
  {
    forall i | 0 <= i < |b| ensures P(b[i]) {
      assert b[i] in multiset(a);
      var j :| 0 <= j < |a| && a[j] == b[i];
    }
  }

  lemma PermutedAllIff(a: seq<Row>, b: seq<Row>, P: Row -> bool)
    requires multiset(a) == multiset(b)
    ensures AllRows(a, P) <==> AllRows(b, P)
  {
    if AllRows(a, P) {
      PermutedAll(a, b, P);
    } else if AllRows(b, P) {
      PermutedAll(b, a, P);
    }
  }

  lemma KnownIgnoresOrder(e: Expr, a: seq<Row>, b: seq<Row>)
    requires multiset(a) == multiset(b)
    ensures var x, y := ValuesOn(e, a), ValuesOn(e, b);
      && (x.Ok? <==> y.Ok?)
      && (x.Ok? ==>
           && |Known(x.value)| == |Known(y.value)|
           && (AllSummable(Known(x.value)) <==> AllSummable(Known(y.value)))
           && (AllSummable(Known(x.value)) ==> Sum(Known(x.value)) == Sum(Known(y.value))))
  {
    PermutedAllIff(a, b, EvaluatesOn(e));
    PermutedAllIff(a, b, SumsOn(e));
    PermutedTotal(a, b, Counted(e));
    PermutedTotal(a, b, Added(e));
    ValuesAdd(e, a);
    ValuesAdd(e, b);
  }

  /** An aggregate does not see the order of its rows. */
  lemma AggregateIgnoresOrder(kind: Aggregate, e: Expr, a: seq<Row>, b: seq<Row>)
    requires multiset(a) == multiset(b)
    ensures var x, y := EvaluateAggregate(kind, e, a), EvaluateAggregate(kind, e, b);
      (x.Ok? <==> y.Ok?) && (x.Ok? ==> x == y)
  {
    assert |a| == |multiset(a)| == |multiset(b)| == |b|;
    KnownIgnoresOrder(e, a, b);
  }

  lemma CountSnoc<T>(s: seq<T>, last: T, x: T)
    ensures multiset(s + [last])[x] == multiset(s)[x] + if x == last then 1 else 0
  {
  }

  lemma {:induction false} MembersCount(rows: seq<Row>, columns: seq<string>, key: GroupKey, x: Row)
    ensures multiset(Members(rows, columns, key))[x] == if SameKey(key, KeyOf(x, columns)) then multiset(rows)[x] else 0
  {
    if rows != [] {
      var init, last := rows[..|rows| - 1], rows[|rows| - 1];
      MembersCount(init, columns, key, x);
      assert rows == init + [last];
      CountSnoc(init, last, x);
      CountSnoc(Members(init, columns, key), last, x);
    }
  }

  lemma {:induction false} MembersOfSameKey(rows: seq<Row>, columns: seq<string>, a: GroupKey, b: GroupKey)
    requires SameKey(a, b)
    ensures Members(rows, columns, a) == Members(rows, columns, b)
  {
    if rows != [] {
      MembersOfSameKey(rows[..|rows| - 1], columns, a, b);
      SameKeyTransitive(a, b, KeyOf(rows[|rows| - 1], columns));
    }
  }

  lemma SomeRowOf(rows: seq<Row>, columns: seq<string>, i: nat) returns (row: Row)
    requires i < |GroupsOf(rows, columns)|
    ensures row in rows && SameKey(GroupsOf(rows, columns)[i].key, KeyOf(row, columns))
    ensures GroupsOf(rows, columns)[i].rows == Members(rows, columns, GroupsOf(rows, columns)[i].key)
  {
    GroupsPartition(rows, columns);
    var position :| SeenAt(rows, columns, GroupsOf(rows, columns), position);
    row := rows[position[i]];
  }

  lemma GroupOfRow(rows: seq<Row>, columns: seq<string>, row: Row) returns (j: nat)
    requires row in rows
    ensures j < |GroupsOf(rows, columns)| && SameKey(GroupsOf(rows, columns)[j].key, KeyOf(row, columns))
    ensures GroupsOf(rows, columns)[j].rows == Members(rows, columns, GroupsOf(rows, columns)[j].key)
  {
    GroupsPartition(rows, columns);
    var q :| 0 <= q < |rows| && rows[q] == row;
    assert HasGroup(GroupsOf(rows, columns), KeyOf(rows[q], columns));
    j :| 0 <= j < |GroupsOf(rows, columns)| && SameKey(GroupsOf(rows, columns)[j].key, KeyOf(row, columns));
  }

  /** Whatever the order in which the rows were found, the groups hold the same rows: only the order of
      the groups, and of the rows in a group, follows it. */
  lemma GroupsIgnoreOrder(a: seq<Row>, b: seq<Row>, columns: seq<string>, i: nat) returns (j: nat)
    requires multiset(a) == multiset(b) && i < |GroupsOf(a, columns)|
    ensures j < |GroupsOf(b, columns)| && SameKey(GroupsOf(a, columns)[i].key, GroupsOf(b, columns)[j].key)
    ensures multiset(GroupsOf(a, columns)[i].rows) == multiset(GroupsOf(b, columns)[j].rows)
  {
    var row := SomeRowOf(a, columns, i);
    assert row in multiset(b);
    j := GroupOfRow(b, columns, row);
    var k, l := GroupsOf(a, columns)[i].key, GroupsOf(b, columns)[j].key;
    SameKeySymmetric(l, KeyOf(row, columns));
    SameKeyTransitive(k, KeyOf(row, columns), l);
    GroupOfKey(a, b, columns, k, l);
  }

  lemma GroupOfKey(a: seq<Row>, b: seq<Row>, columns: seq<string>, k: GroupKey, l: GroupKey)
    requires multiset(a) == multiset(b) && SameKey(k, l)
    ensures multiset(Members(a, columns, k)) == multiset(Members(b, columns, l))
  {
    MembersOfSameKey(b, columns, k, l);
    forall x ensures multiset(Members(a, columns, k))[x] == multiset(Members(b, columns, k))[x] {
      MembersCount(a, columns, k, x);
      MembersCount(b, columns, k, x);
    }
  }

  // ---------------------------------------------------------------- joins

  /** The rows that a WHERE accepts, in their order. */
  function Accepted(rows: seq<Row>, where: Option<Expr>): seq<Row> {
    if rows == [] then []
    else
      var last := rows[|rows| - 1];
      Accepted(rows[..|rows| - 1], where) + if Accepts(where, last) then [last] else []
  }

  lemma {:induction false} AcceptedCount(rows: seq<Row>, where: Option<Expr>, x: Row)
    ensures multiset(Accepted(rows, where))[x] == if Accepts(where, x) then multiset(rows)[x] else 0
  {
    if rows != [] {
      var init, last := rows[..|rows| - 1], rows[|rows| - 1];
      AcceptedCount(init, where, x);
      assert rows == init + [last];
      CountSnoc(init, last, x);
      CountSnoc(Accepted(init, where), last, x);
    }
  }

  ghost predicate Evaluable(rows: seq<Row>, where: Option<Expr>) {
    forall i :: 0 <= i < |rows| ==> EvaluatePredicate(where, rows[i]).Ok?
  }

  method AcceptRows(rows: seq<Row>, where: Option<Expr>) returns (r: Outcome<seq<Row>>)
    ensures r.Ok? <==> Evaluable(rows, where)
    ensures r.Ok? ==> r.value == Accepted(rows, where)
  {
    var accepted: seq<Row> := [];
    for i := 0 to |rows|
      invariant Evaluable(rows[..i], where) && accepted == Accepted(rows[..i], where)
    {
      var verdict := EvaluatePredicate(where, rows[i]);
      if verdict.Raised? {
        return Raised(verdict.error);
      }
      assert rows[..i + 1][..i] == rows[..i];
      if verdict.value {
        accepted := accepted + [rows[i]];
      }
    }
    assert rows[..|rows|] == rows;
    r := Ok(accepted);
  }

  /** The answer of a joined SELECT: that of the joined rows which the WHERE accepts. */
  ghost predicate JoinAnswer(sources: seq<Join.Source>, predicates: seq<Join.Predicate>, s: Select,
                             r: Outcome<seq<seq<Value>>>)
  {
    exists joined :: Join.JoinOf(sources, predicates, joined) && AcceptedAnswer(joined, s, r)
  }

  ghost predicate AcceptedAnswer(joined: seq<Row>, s: Select, r: Outcome<seq<seq<Value>>>) {
    if Evaluable(joined, s.where) then PlainAnswer(TableSchema(s.table, []), s, Accepted(joined, s.where), r)
    else r.Raised?
  }

  /** The names in `s` are qualified, and its projections are those that `*` stands for. */
  method ExecuteJoinSelect(sources: seq<Join.Source>, predicates: seq<Join.Predicate>, s: Select)
    returns (r: Outcome<seq<seq<Value>>>)
    requires Join.DistinctQualifiers(sources) && Join.Resolved(predicates, sources) && Join.WellSourced(sources)
    requires !IsStar(s.projections)
    ensures JoinAnswer(sources, predicates, s, r)
  {
    var joined := Join.JoinRows(sources, predicates);
    var rows := AcceptRows(joined, s.where);
    if rows.Raised? {
      return Raised(rows.error);
    }
    r := SelectPlain(TableSchema(s.table, []), s, rows.value);
    assert AcceptedAnswer(joined, s, r);
  }
}

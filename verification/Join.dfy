/** Inner joins: a nested loop over the sources that drops a partial row as soon as an ON predicate
    it can already evaluate fails. */
module Join {
  import opened Values
  import opened Catalog
  import opened Sequences
  import opened Storage
  import opened Expressions

  datatype Column = Column(qualifier: string, name: string)

  datatype Predicate = Predicate(left: Column, right: Column)

  /** A joined table: its qualifier (alias or name), its columns and its rows in record order. */
  datatype Source = Source(qualifier: string, columns: set<string>, rows: seq<Row>)

  function NameOf(c: Column): string {
    QualifiedName(Some(c.qualifier), c.name)
  }

  ghost predicate NoDot(s: string) {
    '.' !in s
  }

  /** Qualified names tell their parts apart because identifiers hold no dot. */
  lemma {:induction false} NamesDiffer(a: Column, b: Column)
    requires NoDot(a.qualifier) && NoDot(b.qualifier) && NameOf(a) == NameOf(b)
    ensures a == b
  {
    var i, j, n := |a.qualifier|, |b.qualifier|, NameOf(a);
    FirstDot(a);
    FirstDot(b);
    assert a.qualifier == n[..i] && b.qualifier == n[..j];
    assert a.name == n[i + 1..] && b.name == n[j + 1..];
  }

  lemma FirstDot(c: Column)
    requires NoDot(c.qualifier)
    ensures var n := NameOf(c);
      |n| > |c.qualifier| && n[|c.qualifier|] == '.' && forall x :: 0 <= x < |c.qualifier| ==> n[x] != '.'
  {
    assert forall x :: 0 <= x < |c.qualifier| ==> NameOf(c)[x] == c.qualifier[x] && c.qualifier[x] in c.qualifier;
  }

  // ---------------------------------------------------------------- planning

  ghost predicate DistinctQualifiers(sources: seq<Source>) {
    forall i, j :: 0 <= i < j < |sources| ==> sources[i].qualifier != sources[j].qualifier
  }

  ghost predicate Present(c: Column, sources: seq<Source>) {
    exists i :: 0 <= i < |sources| && sources[i].qualifier == c.qualifier && c.name in sources[i].columns
  }

  ghost predicate Resolved(predicates: seq<Predicate>, sources: seq<Source>) {
    forall i :: 0 <= i < |predicates| ==> Present(predicates[i].left, sources) && Present(predicates[i].right, sources)
  }

  /** Two sources with one qualifier are refused. */
  method CheckQualifiers(sources: seq<Source>) returns (r: Outcome<()>)
    ensures r.Ok? <==> DistinctQualifiers(sources)
    ensures r.Raised? ==> r.error == ConstraintFault
  {
    var seen: set<string> := {};
    for i := 0 to |sources|
      invariant seen == set j | 0 <= j < i :: sources[j].qualifier
      invariant DistinctQualifiers(sources[..i])
    {
      if sources[i].qualifier in seen {
        return Raised(ConstraintFault);
      }
      seen := seen + {sources[i].qualifier};
    }
    assert sources[..|sources|] == sources;
    r := Ok(());
  }

  /** A qualified column must exist in its source; an unqualified one in exactly one source. */
  method ResolveColumn(qualifier: Option<string>, name: string, sources: seq<Source>) returns (r: Outcome<Column>)
    requires DistinctQualifiers(sources)
    ensures r.Ok? ==>
      Present(r.value, sources) && r.value.name == name && (qualifier.Some? ==> r.value.qualifier == qualifier.value)
    ensures qualifier.Some? ==> (r.Ok? <==> Present(Column(qualifier.value, name), sources))
    ensures qualifier.None? ==> (r.Ok? <==> exists i :: 0 <= i < |sources| && Only(i, name, sources))
    ensures r.Raised? ==> r.error == ConstraintFault
  {
    var found: Option<nat> := None;
    for i := 0 to |sources|
      invariant found.Some? ==> found.value < i && Matches(sources[found.value], qualifier, name)
      invariant forall j :: 0 <= j < i && Some(j) != found ==> !Matches(sources[j], qualifier, name)
    {
      if Matches(sources[i], qualifier, name) {
        if found.Some? {
          assert sources[found.value].qualifier != sources[i].qualifier;
          return Raised(ConstraintFault);
        }
        found := Some(i);
      }
    }
    if found.None? {
      return Raised(ConstraintFault);
    }
    assert qualifier.None? ==> Only(found.value, name, sources);
    r := Ok(Column(sources[found.value].qualifier, name));
  }

  predicate Matches(source: Source, qualifier: Option<string>, name: string) {
    (qualifier.Some? ==> source.qualifier == qualifier.value) && name in source.columns
  }

  ghost predicate Only(i: nat, name: string, sources: seq<Source>) {
    && i < |sources| && name in sources[i].columns
    && forall j :: 0 <= j < |sources| && j != i ==> name !in sources[j].columns
  }

  // ---------------------------------------------------------------- the full product

  function QualifiedNames(q: string, row: Row): set<string> {
    set n | n in row :: QualifiedName(Some(q), n)
  }

  /** A source row under qualified names. */
  function Qualified(q: string, row: Row): Row {
    map k | k in QualifiedNames(q, row) :: if |k| > |q| && k[|q| + 1..] in row then row[k[|q| + 1..]] else Null
  }

  function ExtendOne(row: Row, q: string, rows: seq<Row>): seq<Row> {
    seq(|rows|, i requires 0 <= i < |rows| => row + Qualified(q, rows[i]))
  }

  function ExtendAll(rows: seq<Row>, source: Source): seq<Row> {
    if rows == [] then [] else ExtendOne(rows[0], source.qualifier, source.rows) + ExtendAll(rows[1..], source)
  }

  /** All combinations, the last source varying fastest. */
  function Cross(sources: seq<Source>): seq<Row>
    decreases |sources|
  {
    if sources == [] then [map[]]
    else ExtendAll(Cross(sources[..|sources| - 1]), sources[|sources| - 1])
  }

  /** The ON comparison of two columns. */
  predicate Holds(p: Predicate, row: Row) {
    var left, right := ColumnRef(Some(p.left.qualifier), p.left.name), ColumnRef(Some(p.right.qualifier), p.right.name);
    Accepts(Some(Binary(left, EQ, right)), row)
  }

  predicate Evaluable(p: Predicate, row: Row) {
    NameOf(p.left) in row && NameOf(p.right) in row
  }

  /** No predicate that can already be evaluated fails. */
  predicate NoneFails(predicates: seq<Predicate>, row: Row) {
    forall i :: 0 <= i < |predicates| && Evaluable(predicates[i], row) ==> Holds(predicates[i], row)
  }

  predicate AllHold(predicates: seq<Predicate>, row: Row) {
    forall i :: 0 <= i < |predicates| ==> Holds(predicates[i], row)
  }

  function Pruned(predicates: seq<Predicate>, rows: seq<Row>): seq<Row> {
    if rows == [] then []
    else (if NoneFails(predicates, rows[0]) then [rows[0]] else []) + Pruned(predicates, rows[1..])
  }

  function Selected(predicates: seq<Predicate>, rows: seq<Row>): seq<Row> {
    if rows == [] then []
    else (if AllHold(predicates, rows[0]) then [rows[0]] else []) + Selected(predicates, rows[1..])
  }

  /** The product is in lexicographic order: combination (i, j) comes at position i * width + j. */
  lemma {:induction false} ExtendAllPosition(rows: seq<Row>, source: Source, i: nat, j: nat)
    requires i < |rows| && j < |source.rows|
    ensures |ExtendAll(rows, source)| == |rows| * |source.rows|
    ensures i * |source.rows| + j < |rows| * |source.rows|
    ensures ExtendAll(rows, source)[i * |source.rows| + j] == rows[i] + Qualified(source.qualifier, source.rows[j])
  {
    var width, rest := |source.rows|, rows[1..];
    ExtendAllLength(rows, source);
    PositionBound(i, j, |rows|, width);
    if i > 0 {
      ExtendAllPosition(rest, source, i - 1, j);
      OneMore(i, width);
    }
  }

  lemma OneMore(n: nat, width: nat)
    requires n > 0
    ensures n * width == width + (n - 1) * width
  {
  }

  lemma {:induction false} TimesMonotone(a: nat, b: nat, width: nat)
    requires a <= b
    ensures a * width <= b * width
  {
    if a < b {
      TimesMonotone(a, b - 1, width);
      OneMore(b, width);
    }
  }

  lemma PositionBound(i: nat, j: nat, n: nat, width: nat)
    requires i < n && j < width
    ensures i * width + j < n * width
  {
    OneMore(i + 1, width);
    TimesMonotone(i + 1, n, width);
  }

  lemma {:induction false} ExtendAllLength(rows: seq<Row>, source: Source)
    ensures |ExtendAll(rows, source)| == |rows| * |source.rows|
  {
    if rows != [] {
      ExtendAllLength(rows[1..], source);
      OneMore(|rows|, |source.rows|);
    }
  }

  // ---------------------------------------------------------------- the loop

  method JoinPredicatesMatch(predicates: seq<Predicate>, row: Row) returns (match_: bool)
    ensures match_ <==> NoneFails(predicates, row)
  {
    for i := 0 to |predicates|
      invariant forall j :: 0 <= j < i && Evaluable(predicates[j], row) ==> Holds(predicates[j], row)
    {
      if Evaluable(predicates[i], row) && !Holds(predicates[i], row) {
        return false;
      }
    }
    match_ := true;
  }

  /** The pruned nested loop returns the rows of the full product that satisfy every predicate, in
      the product's own order, predicates on later tables included. */
  method JoinRows(sources: seq<Source>, predicates: seq<Predicate>) returns (joined: seq<Row>)
    requires DistinctQualifiers(sources) && Resolved(predicates, sources) && WellSourced(sources)
    ensures joined == Selected(predicates, Cross(sources))
    ensures JoinOf(sources, predicates, joined)
  {
    joined := [map[]];
    assert sources[..0] == [];
    StartUnpruned(predicates);
    for k := 0 to |sources|
      invariant joined == Pruned(predicates, Cross(sources[..k]))
    {
      var candidates: seq<Row> := [];
      for i := 0 to |joined|
        invariant candidates == Pruned(predicates, ExtendAll(joined[..i], sources[k]))
      {
        var more := ExtendRow(joined[i], sources[k], predicates);
        ExtendAllSnoc(joined, i, sources[k]);
        PrunedConcat(predicates, ExtendAll(joined[..i], sources[k]),
                     ExtendOne(joined[i], sources[k].qualifier, sources[k].rows));
        candidates := candidates + more;
      }
      assert joined[..|joined|] == joined;
      PruningEarly(sources, k, predicates);
      joined := candidates;
    }
    assert sources[..|sources|] == sources;
    AllEvaluable(sources, predicates);
    SelectedIsJoin(sources, predicates);
  }

  method ExtendRow(row: Row, source: Source, predicates: seq<Predicate>) returns (candidates: seq<Row>)
    ensures candidates == Pruned(predicates, ExtendOne(row, source.qualifier, source.rows))
  {
    candidates := [];
    ghost var all := ExtendOne(row, source.qualifier, source.rows);
    for i := 0 to |source.rows|
      invariant candidates == Pruned(predicates, all[..i])
    {
      var candidate := row + Qualified(source.qualifier, source.rows[i]);
      PrunedSnoc(predicates, all, i);
      var matching := JoinPredicatesMatch(predicates, candidate);
      if matching {
        candidates := candidates + [candidate];
      }
    }
    assert all[..|source.rows|] == all;
  }

  // ---------------------------------------------------------------- why pruning is safe

  /** Qualifiers are identifiers, and every row of a source has exactly its columns. */
  ghost predicate WellSourced(sources: seq<Source>) {
    forall i :: 0 <= i < |sources| ==> WellNamed(sources[i])
  }

  ghost predicate WellNamed(source: Source) {
    NoDot(source.qualifier) && forall j :: 0 <= j < |source.rows| ==> source.rows[j].Keys == source.columns
  }

  /** The names a row over these sources has. */
  ghost predicate NamedBy(name: string, sources: seq<Source>) {
    exists c: Column :: Present(c, sources) && NameOf(c) == name
  }

  ghost predicate RowOver(row: Row, sources: seq<Source>) {
    forall n :: n in row <==> NamedBy(n, sources)
  }

  lemma QualifiedKeys(q: string, row: Row)
    ensures forall k :: k in Qualified(q, row) <==> exists n :: n in row && k == QualifiedName(Some(q), n)
  {
  }

  /** The new source's names are new. */
  lemma ExtendedRow(sources: seq<Source>, k: nat, row: Row, j: nat)
    requires k < |sources| && DistinctQualifiers(sources) && WellSourced(sources)
    requires RowOver(row, sources[..k]) && j < |sources[k].rows|
    ensures var all := row + Qualified(sources[k].qualifier, sources[k].rows[j]);
      && RowOver(all, sources[..k + 1])
      && (forall n :: n in row ==> n in all && all[n] == row[n])
  {
    var source := sources[k];
    var more := Qualified(source.qualifier, source.rows[j]);
    var all := row + more;
    QualifiedKeys(source.qualifier, source.rows[j]);
    forall n | n in more ensures n !in row && NamedBy(n, sources[..k + 1]) {
      var c :| c in source.rows[j] && n == QualifiedName(Some(source.qualifier), c);
      var mine := Column(source.qualifier, c);
      assert sources[..k + 1][k] == source;
      assert Present(mine, sources[..k + 1]);
      forall other: Column | Present(other, sources[..k]) ensures NameOf(other) != n {
        var i :| 0 <= i < k && sources[..k][i].qualifier == other.qualifier && other.name in sources[..k][i].columns;
        assert WellNamed(sources[i]) && sources[i].qualifier != sources[k].qualifier;
        if NameOf(other) == n {
          NamesDiffer(mine, other);
        }
      }
    }
    forall n | NamedBy(n, sources[..k + 1]) ensures n in all {
      var c: Column :| Present(c, sources[..k + 1]) && NameOf(c) == n;
      var i :| 0 <= i < k + 1 && sources[..k + 1][i].qualifier == c.qualifier && c.name in sources[..k + 1][i].columns;
      if i < k {
        assert sources[..k][i] == sources[..k + 1][i];
        assert Present(c, sources[..k]);
      } else {
        assert c.name in source.rows[j];
      }
    }
    forall n | n in row ensures NamedBy(n, sources[..k + 1]) {
      var c: Column :| Present(c, sources[..k]) && NameOf(c) == n;
      var i :| 0 <= i < k && sources[..k][i].qualifier == c.qualifier && c.name in sources[..k][i].columns;
      assert sources[..k + 1][i] == sources[..k][i];
      assert Present(c, sources[..k + 1]);
    }
  }

  /** A predicate that fails on a partial row fails on all its extensions. */
  lemma FailureStays(predicates: seq<Predicate>, row: Row, all: Row)
    requires forall n :: n in row ==> n in all && all[n] == row[n]
    requires !NoneFails(predicates, row)
    ensures !NoneFails(predicates, all)
  {
    var i :| 0 <= i < |predicates| && Evaluable(predicates[i], row) && !Holds(predicates[i], row);
    HoldsIsEquality(predicates[i], row);
    HoldsIsEquality(predicates[i], all);
    assert Evaluable(predicates[i], all);
  }

  lemma {:induction false} PrunedConcat(predicates: seq<Predicate>, a: seq<Row>, b: seq<Row>)
    ensures Pruned(predicates, a + b) == Pruned(predicates, a) + Pruned(predicates, b)
  {
    if a == [] {
      assert a + b == b;
    } else {
      assert (a + b)[0] == a[0] && (a + b)[1..] == a[1..] + b;
      PrunedConcat(predicates, a[1..], b);
    }
  }

  lemma {:induction false} PrunedSnoc(predicates: seq<Predicate>, rows: seq<Row>, i: nat)
    requires i < |rows|
    ensures Pruned(predicates, rows[..i + 1])
         == Pruned(predicates, rows[..i]) + (if NoneFails(predicates, rows[i]) then [rows[i]] else [])
  {
    assert rows[..i + 1] == rows[..i] + [rows[i]];
    PrunedConcat(predicates, rows[..i], [rows[i]]);
    assert [rows[i]][1..] == [];
  }

  lemma ExtendAllCons(row: Row, rows: seq<Row>, source: Source)
    ensures ExtendAll([row] + rows, source) == ExtendOne(row, source.qualifier, source.rows) + ExtendAll(rows, source)
  {
    assert ([row] + rows)[1..] == rows;
  }

  lemma {:induction false} ExtendAllConcat(a: seq<Row>, b: seq<Row>, source: Source)
    ensures ExtendAll(a + b, source) == ExtendAll(a, source) + ExtendAll(b, source)
  {
    if a == [] {
      assert a + b == b;
    } else {
      ExtendAllConcat(a[1..], b, source);
      ExtendAllCons(a[0], a[1..], source);
      ExtendAllCons(a[0], a[1..] + b, source);
      assert [a[0]] + a[1..] == a;
      Uncons(a, b);
      Append(ExtendOne(a[0], source.qualifier, source.rows), ExtendAll(a[1..], source), ExtendAll(b, source));
    }
  }

  lemma {:induction false} ExtendAllSnoc(rows: seq<Row>, i: nat, source: Source)
    requires i < |rows|
    ensures ExtendAll(rows[..i + 1], source)
         == ExtendAll(rows[..i], source) + ExtendOne(rows[i], source.qualifier, source.rows)
  {
    assert rows[..i + 1] == rows[..i] + [rows[i]];
    ExtendAllConcat(rows[..i], [rows[i]], source);
    assert [rows[i]][1..] == [];
  }

  lemma StartUnpruned(predicates: seq<Predicate>)
    ensures Pruned(predicates, Cross([])) == [map[]]
  {
    var rows: seq<Row> := [map[]];
    assert Cross([]) == rows && rows[1..] == [];
  }

  lemma {:induction false} CrossRows(sources: seq<Source>, k: nat)
    requires k <= |sources| && DistinctQualifiers(sources) && WellSourced(sources)
    ensures forall i :: 0 <= i < |Cross(sources[..k])| ==> RowOver(Cross(sources[..k])[i], sources[..k])
  {
    if k > 0 {
      CrossRows(sources, k - 1);
      assert sources[..k][..k - 1] == sources[..k - 1];
      ExtendAllRows(sources, k - 1, Cross(sources[..k - 1]));
    }
  }

  lemma {:induction false} ExtendAllRows(sources: seq<Source>, k: nat, rows: seq<Row>)
    requires k < |sources| && DistinctQualifiers(sources) && WellSourced(sources)
    requires forall i :: 0 <= i < |rows| ==> RowOver(rows[i], sources[..k])
    ensures forall i :: 0 <= i < |ExtendAll(rows, sources[k])| ==>
      RowOver(ExtendAll(rows, sources[k])[i], sources[..k + 1])
  {
    if rows != [] {
      ExtendAllRows(sources, k, rows[1..]);
      var first := ExtendOne(rows[0], sources[k].qualifier, sources[k].rows);
      forall j | 0 <= j < |first| ensures RowOver(first[j], sources[..k + 1]) {
        ExtendedRow(sources, k, rows[0], j);
      }
    }
  }

  lemma {:induction false} PrunedNothing(predicates: seq<Predicate>, rows: seq<Row>)
    requires forall i :: 0 <= i < |rows| ==> !NoneFails(predicates, rows[i])
    ensures Pruned(predicates, rows) == []
  {
    if rows != [] {
      PrunedNothing(predicates, rows[1..]);
    }
  }

  /** Dropping failing rows before extending them loses nothing. */
  lemma {:induction false} PruneThenExtend(sources: seq<Source>, k: nat, rows: seq<Row>, predicates: seq<Predicate>)
    requires k < |sources| && DistinctQualifiers(sources) && WellSourced(sources)
    requires forall i :: 0 <= i < |rows| ==> RowOver(rows[i], sources[..k])
    ensures Pruned(predicates, ExtendAll(Pruned(predicates, rows), sources[k]))
         == Pruned(predicates, ExtendAll(rows, sources[k]))
  {
    if rows != [] {
      var source, rest := sources[k], rows[1..];
      var first := ExtendOne(rows[0], source.qualifier, source.rows);
      PruneThenExtend(sources, k, rest, predicates);
      PrunedConcat(predicates, first, ExtendAll(rest, source));
      if NoneFails(predicates, rows[0]) {
        var kept := Pruned(predicates, rest);
        assert Pruned(predicates, rows) == [rows[0]] + kept;
        assert ([rows[0]] + kept)[1..] == kept;
        PrunedConcat(predicates, first, ExtendAll(kept, source));
      } else {
        forall j | 0 <= j < |first| ensures !NoneFails(predicates, first[j]) {
          ExtendedRow(sources, k, rows[0], j);
          FailureStays(predicates, rows[0], first[j]);
        }
        PrunedNothing(predicates, first);
        assert Pruned(predicates, rows) == Pruned(predicates, rest);
      }
    }
  }

  lemma PruningEarly(sources: seq<Source>, k: nat, predicates: seq<Predicate>)
    requires k < |sources| && DistinctQualifiers(sources) && WellSourced(sources)
    ensures Pruned(predicates, ExtendAll(Pruned(predicates, Cross(sources[..k])), sources[k]))
         == Pruned(predicates, Cross(sources[..k + 1]))
  {
    CrossRows(sources, k);
    PruneThenExtend(sources, k, Cross(sources[..k]), predicates);
    assert sources[..k + 1][..k] == sources[..k];
  }

  /** On complete rows every resolved predicate is evaluated. */
  lemma AllEvaluable(sources: seq<Source>, predicates: seq<Predicate>)
    requires DistinctQualifiers(sources) && WellSourced(sources) && Resolved(predicates, sources)
    ensures Pruned(predicates, Cross(sources)) == Selected(predicates, Cross(sources))
  {
    CrossRows(sources, |sources|);
    assert sources[..|sources|] == sources;
    SelectedIsPruned(sources, predicates, Cross(sources));
  }

  lemma {:induction false} SelectedIsPruned(sources: seq<Source>, predicates: seq<Predicate>, rows: seq<Row>)
    requires Resolved(predicates, sources) && forall i :: 0 <= i < |rows| ==> RowOver(rows[i], sources)
    ensures Pruned(predicates, rows) == Selected(predicates, rows)
  {
    if rows != [] {
      SelectedIsPruned(sources, predicates, rows[1..]);
      forall i | 0 <= i < |predicates| ensures Evaluable(predicates[i], rows[0]) {
        assert NamedBy(NameOf(predicates[i].left), sources) && NamedBy(NameOf(predicates[i].right), sources);
      }
    }
  }

  // ---------------------------------------------------------------- the order of predicates

  /** Permuting the ON predicates changes neither the joined rows nor their order. */
  lemma {:induction false} PredicateOrderIsIrrelevant(p: seq<Predicate>, q: seq<Predicate>, rows: seq<Row>)
    requires multiset(p) == multiset(q)
    ensures Selected(p, rows) == Selected(q, rows)
  {
    if rows != [] {
      PredicateOrderIsIrrelevant(p, q, rows[1..]);
      SameVerdict(p, q, rows[0]);
      SameVerdict(q, p, rows[0]);
    }
  }

  lemma SameVerdict(p: seq<Predicate>, q: seq<Predicate>, row: Row)
    requires multiset(p) == multiset(q)
    ensures AllHold(p, row) ==> AllHold(q, row)
  {
    forall i | 0 <= i < |q| && AllHold(p, row) ensures Holds(q[i], row) {
      assert q[i] in multiset(p);
      assert q[i] in p;
    }
  }

  /** An ON predicate is equality of the two values, NULL being equal to NULL. */
  lemma HoldsIsEquality(p: Predicate, row: Row)
    requires Evaluable(p, row)
    ensures Holds(p, row) <==> Same(row[NameOf(p.left)], row[NameOf(p.right)])
  {
    var l, r := ColumnRef(Some(p.left.qualifier), p.left.name), ColumnRef(Some(p.right.qualifier), p.right.name);
    assert Evaluate(l, row) == Ok(row[NameOf(p.left)]) && Evaluate(r, row) == Ok(row[NameOf(p.right)]);
    assert Evaluate(Binary(l, EQ, r), row) == Compare(EQ, row[NameOf(p.left)], row[NameOf(p.right)]);
  }

  // ---------------------------------------------------------------- what a join returns

  /** One row number for every source. */
  predicate IsChoice(sources: seq<Source>, choice: seq<nat>) {
    |choice| == |sources| && forall i :: 0 <= i < |sources| ==> choice[i] < |sources[i].rows|
  }

  predicate HasColumn(row: Row, source: Source, k: nat, n: string)
    requires k < |source.rows| && n in source.rows[k]
  {
    var name := source.qualifier + "." + n;
    name in row && row[name] == source.rows[k][n]
  }

  /** The row has, under qualified names, exactly the values of the chosen rows. */
  ghost predicate IsRowOf(sources: seq<Source>, choice: seq<nat>, row: Row)
    requires IsChoice(sources, choice)
  {
    && RowOver(row, sources)
    && forall i, n :: 0 <= i < |sources| && n in sources[i].rows[choice[i]] ==> HasColumn(row, sources[i], choice[i], n)
  }

  /** The first source in which two choices differ comes from an earlier row in `a`. */
  ghost predicate ChoiceBefore(a: seq<nat>, b: seq<nat>) {
    exists k: nat :: DiffersAt(a, b, k)
  }

  predicate DiffersAt(a: seq<nat>, b: seq<nat>, k: nat) {
    k < |a| == |b| && a[..k] == b[..k] && a[k] < b[k]
  }

  /** The two chosen rows that a predicate names have the same value there. */
  ghost predicate Matching(p: Predicate, sources: seq<Source>, choice: seq<nat>)
    requires IsChoice(sources, choice)
  {
    exists i, j :: 0 <= i < |sources| && 0 <= j < |sources|
      && SameAt(p, sources[i], choice[i], sources[j], choice[j])
  }

  predicate SameAt(p: Predicate, left: Source, i: nat, right: Source, j: nat)
    requires i < |left.rows| && j < |right.rows|
  {
    && left.qualifier == p.left.qualifier && p.left.name in left.rows[i]
    && right.qualifier == p.right.qualifier && p.right.name in right.rows[j]
    && Same(left.rows[i][p.left.name], right.rows[j][p.right.name])
  }

  ghost predicate Qualifies(predicates: seq<Predicate>, sources: seq<Source>, choice: seq<nat>)
    requires IsChoice(sources, choice)
  {
    forall k :: 0 <= k < |predicates| ==> Matching(predicates[k], sources, choice)
  }

  /** The joined rows are those of the choices whose values match every predicate, in the order of the
      choices, and of all such choices from position `p` on. */
  ghost predicate JoinedFrom(sources: seq<Source>, predicates: seq<Predicate>, p: nat, joined: seq<Row>,
                             choices: seq<seq<nat>>)
  {
    && |choices| == |joined|
    && (forall k :: 0 <= k < |choices| ==> Kept(sources, predicates, p, choices[k], joined[k]))
    && Increasing(choices)
    && (forall choice :: Wanted(sources, predicates, p, choice) ==> choice in choices)
  }

  ghost predicate Kept(sources: seq<Source>, predicates: seq<Predicate>, p: nat, choice: seq<nat>, row: Row) {
    Wanted(sources, predicates, p, choice) && IsRowOf(sources, choice, row)
  }

  ghost predicate Increasing(choices: seq<seq<nat>>) {
    forall k, l :: 0 <= k < l < |choices| ==> ChoiceBefore(choices[k], choices[l])
  }

  lemma IncreasingCons(choice: seq<nat>, rest: seq<seq<nat>>)
    requires Increasing(rest) && forall l :: 0 <= l < |rest| ==> ChoiceBefore(choice, rest[l])
    ensures Increasing([choice] + rest)
  {
  }

  /** A choice whose values match every predicate, at position `p` or later. */
  ghost predicate Wanted(sources: seq<Source>, predicates: seq<Predicate>, p: nat, choice: seq<nat>) {
    && IsChoice(sources, choice) && Position(sources, choice) >= p
    && Qualifies(predicates, sources, choice)
  }

  ghost predicate JoinOf(sources: seq<Source>, predicates: seq<Predicate>, joined: seq<Row>) {
    exists choices :: JoinedFrom(sources, predicates, 0, joined, choices)
  }

  /** Where a choice stands in the product. */
  function Position(sources: seq<Source>, choice: seq<nat>): nat
    requires IsChoice(sources, choice)
    decreases |sources|
  {
    if sources == [] then 0
    else
      var n := |sources| - 1;
      Position(sources[..n], choice[..n]) * |sources[n].rows| + choice[n]
  }

  lemma QualifiedValue(q: string, row: Row, n: string)
    requires n in row
    ensures q + "." + n in Qualified(q, row) && Qualified(q, row)[q + "." + n] == row[n]
  {
    var k := q + "." + n;
    assert k == QualifiedName(Some(q), n) && k[|q| + 1..] == n;
  }

  /** Every choice has its place in the product, and there stands its row. */
  lemma {:induction false} CrossOfChoice(sources: seq<Source>, choice: seq<nat>)
    requires DistinctQualifiers(sources) && WellSourced(sources) && IsChoice(sources, choice)
    ensures Position(sources, choice) < |Cross(sources)|
    ensures IsRowOf(sources, choice, Cross(sources)[Position(sources, choice)])
    decreases |sources|
  {
    if sources == [] {
      assert Cross(sources) == [map[]];
    } else {
      var n := |sources| - 1;
      CrossOfChoice(sources[..n], choice[..n]);
      PlaceNext(sources, choice, Cross(sources[..n]), Position(sources[..n], choice[..n]));
    }
  }

  lemma PlaceNext(sources: seq<Source>, choice: seq<nat>, rows: seq<Row>, p: nat)
    requires sources != [] && DistinctQualifiers(sources) && WellSourced(sources) && IsChoice(sources, choice)
    requires p < |rows| && IsRowOf(sources[..|sources| - 1], choice[..|sources| - 1], rows[p])
    ensures var n := |sources| - 1;
      var all, q := ExtendAll(rows, sources[n]), p * |sources[n].rows| + choice[n];
      q < |all| && IsRowOf(sources, choice, all[q])
  {
    var n := |sources| - 1;
    ExtendAllPosition(rows, sources[n], p, choice[n]);
    RowExtends(sources, choice, rows[p]);
  }

  lemma RowExtends(sources: seq<Source>, choice: seq<nat>, before: Row)
    requires sources != [] && DistinctQualifiers(sources) && WellSourced(sources) && IsChoice(sources, choice)
    requires IsRowOf(sources[..|sources| - 1], choice[..|sources| - 1], before)
    ensures var n := |sources| - 1;
      IsRowOf(sources, choice, before + Qualified(sources[n].qualifier, sources[n].rows[choice[n]]))
  {
    var n := |sources| - 1;
    var more := Qualified(sources[n].qualifier, sources[n].rows[choice[n]]);
    var all := before + more;
    assert sources[..n + 1] == sources;
    ExtendedRow(sources, n, before, choice[n]);
    forall i, c | 0 <= i < |sources| && c in sources[i].rows[choice[i]]
      ensures HasColumn(all, sources[i], choice[i], c)
    {
      if i < n {
        assert sources[..n][i] == sources[i] && choice[..n][i] == choice[i];
        assert HasColumn(before, sources[i], choice[i], c);
      } else {
        QualifiedValue(sources[n].qualifier, sources[n].rows[choice[n]], c);
      }
    }
  }

  lemma Divided(p: nat, n: nat, width: nat) returns (i: nat, j: nat)
    requires p < n * width
    ensures i < n && j < width && p == i * width + j
  {
    i, j := p / width, p % width;
    if i >= n {
      TimesMonotone(n, i, width);
    }
  }

  /** Every place of the product is that of a choice. */
  lemma {:induction false} ChoiceAt(sources: seq<Source>, p: nat) returns (choice: seq<nat>)
    requires p < |Cross(sources)|
    ensures IsChoice(sources, choice) && Position(sources, choice) == p
    decreases |sources|
  {
    if sources == [] {
      choice := [];
    } else {
      var n := |sources| - 1;
      ExtendAllLength(Cross(sources[..n]), sources[n]);
      var i, j := Divided(p, |Cross(sources[..n])|, |sources[n].rows|);
      var first := ChoiceAt(sources[..n], i);
      choice := first + [j];
      assert choice[..n] == first;
    }
  }

  lemma Ahead(i: nat, x: nat, j: nat, y: nat, width: nat)
    requires i < j && x < width
    ensures i * width + x < j * width + y
  {
    OneMore(i + 1, width);
    TimesMonotone(i + 1, j, width);
  }

  /** The product is in lexicographic order of the choices. */
  lemma {:induction false} PositionLex(sources: seq<Source>, a: seq<nat>, b: seq<nat>)
    requires IsChoice(sources, a) && IsChoice(sources, b)
    ensures Position(sources, a) < Position(sources, b) <==> ChoiceBefore(a, b)
    ensures Position(sources, a) == Position(sources, b) ==> a == b
    decreases |sources|
  {
    if sources != [] {
      var n := |sources| - 1;
      var init, i, j := sources[..n], a[..n], b[..n];
      PositionLex(init, i, j);
      PositionLex(init, j, i);
      assert a == i + [a[n]] && b == j + [b[n]];
      LexStep(i, Position(init, i), a[n], j, Position(init, j), b[n], |sources[n].rows|);
    }
  }

  lemma LexStep(i: seq<nat>, p: nat, x: nat, j: seq<nat>, q: nat, y: nat, width: nat)
    requires |i| == |j| && x < width && y < width && (p == q ==> i == j)
    requires (p < q <==> ChoiceBefore(i, j)) && (q < p <==> ChoiceBefore(j, i))
    ensures p * width + x < q * width + y <==> ChoiceBefore(i + [x], j + [y])
    ensures p * width + x == q * width + y ==> i + [x] == j + [y]
  {
    BeforeSnoc(i, x, j, y);
    if p < q {
      Ahead(p, x, q, y, width);
    } else if q < p {
      Ahead(q, y, p, x, width);
      NotBoth(j, i);
    } else if i == j {
      NotItself(i);
    }
  }

  lemma NotItself(a: seq<nat>)
    ensures !ChoiceBefore(a, a)
  {
  }

  lemma NotBoth(a: seq<nat>, b: seq<nat>)
    requires ChoiceBefore(a, b)
    ensures !ChoiceBefore(b, a) && a != b
  {
    var k: nat :| DiffersAt(a, b, k);
    if l: nat :| DiffersAt(b, a, l) {
      if k < l {
        SamePrefix(b, a, l, k);
      } else if l < k {
        SamePrefix(a, b, k, l);
      }
      assert false;
    }
  }

  lemma BeforeSnoc(a: seq<nat>, x: nat, b: seq<nat>, y: nat)
    requires |a| == |b|
    ensures ChoiceBefore(a + [x], b + [y]) <==> ChoiceBefore(a, b) || (a == b && x < y)
  {
    var c, d, n := a + [x], b + [y], |a|;
    if k: nat :| DiffersAt(a, b, k) {
      assert c[..k] == a[..k] && d[..k] == b[..k];
      assert DiffersAt(c, d, k);
    }
    if a == b && x < y {
      assert c[..n] == d[..n];
      assert DiffersAt(c, d, n);
    }
    if k: nat :| DiffersAt(c, d, k) {
      if k < n {
        assert c[..k] == a[..k] && d[..k] == b[..k];
        assert DiffersAt(a, b, k);
      } else {
        assert c[..n] == a && d[..n] == b;
      }
    }
  }

  /** On the row of a choice a predicate holds exactly when the chosen values match. */
  lemma HoldsIff(p: Predicate, sources: seq<Source>, choice: seq<nat>, row: Row)
    requires DistinctQualifiers(sources) && WellSourced(sources) && IsChoice(sources, choice)
    requires IsRowOf(sources, choice, row) && Present(p.left, sources) && Present(p.right, sources)
    ensures Holds(p, row) <==> Matching(p, sources, choice)
  {
    var i :| 0 <= i < |sources| && sources[i].qualifier == p.left.qualifier && p.left.name in sources[i].columns;
    var j :| 0 <= j < |sources| && sources[j].qualifier == p.right.qualifier && p.right.name in sources[j].columns;
    assert WellNamed(sources[i]) && WellNamed(sources[j]);
    assert HasColumn(row, sources[i], choice[i], p.left.name) && HasColumn(row, sources[j], choice[j], p.right.name);
    HoldsIsEquality(p, row);
    MatchingAt(p, sources, choice, i, j);
  }

  lemma MatchingAt(p: Predicate, sources: seq<Source>, choice: seq<nat>, i: nat, j: nat)
    requires DistinctQualifiers(sources) && IsChoice(sources, choice) && i < |sources| && j < |sources|
    requires sources[i].qualifier == p.left.qualifier && sources[j].qualifier == p.right.qualifier
    ensures Matching(p, sources, choice) <==> SameAt(p, sources[i], choice[i], sources[j], choice[j])
  {
    if Matching(p, sources, choice) {
      var k, l :| 0 <= k < |sources| && 0 <= l < |sources|
        && SameAt(p, sources[k], choice[k], sources[l], choice[l]);
      assert sources[k].qualifier == sources[i].qualifier && sources[l].qualifier == sources[j].qualifier;
    }
  }

  lemma AllHoldIff(predicates: seq<Predicate>, sources: seq<Source>, choice: seq<nat>, row: Row)
    requires DistinctQualifiers(sources) && WellSourced(sources) && IsChoice(sources, choice)
    requires IsRowOf(sources, choice, row) && Resolved(predicates, sources)
    ensures AllHold(predicates, row) <==> Qualifies(predicates, sources, choice)
  {
    forall k | 0 <= k < |predicates| ensures Holds(predicates[k], row) <==> Matching(predicates[k], sources, choice) {
      HoldsIff(predicates[k], sources, choice, row);
    }
  }

  ghost predicate PlacedAt(sources: seq<Source>, choice: seq<nat>, p: nat) {
    IsChoice(sources, choice) && Position(sources, choice) == p
  }

  /** Every choice has a place among the rows, with its row there, and every place is that of a choice. */
  ghost predicate Arranged(sources: seq<Source>, rows: seq<Row>) {
    && (forall choice :: IsChoice(sources, choice) ==>
         Position(sources, choice) < |rows| && IsRowOf(sources, choice, rows[Position(sources, choice)]))
    && (forall p :: 0 <= p < |rows| ==> Filled(sources, p))
  }

  ghost predicate Filled(sources: seq<Source>, p: nat) {
    exists choice :: PlacedAt(sources, choice, p)
  }

  /** The product arranges the choices. */
  lemma CrossIsArranged(sources: seq<Source>)
    requires DistinctQualifiers(sources) && WellSourced(sources)
    ensures Arranged(sources, Cross(sources))
  {
    forall choice | IsChoice(sources, choice)
      ensures Position(sources, choice) < |Cross(sources)|
      ensures IsRowOf(sources, choice, Cross(sources)[Position(sources, choice)])
    {
      CrossOfChoice(sources, choice);
    }
    forall p | 0 <= p < |Cross(sources)| ensures Filled(sources, p) {
      var choice := ChoiceAt(sources, p);
      assert PlacedAt(sources, choice, p);
    }
  }

  lemma {:induction false} SelectedFrom(sources: seq<Source>, predicates: seq<Predicate>, all: seq<Row>, p: nat)
    returns (choices: seq<seq<nat>>)
    requires DistinctQualifiers(sources) && WellSourced(sources) && Resolved(predicates, sources)
    requires Arranged(sources, all) && p <= |all|
    ensures JoinedFrom(sources, predicates, p, Selected(predicates, all[p..]), choices)
    decreases |all| - p
  {
    if p == |all| {
      choices := [];
    } else {
      var rest := SelectedFrom(sources, predicates, all, p + 1);
      assert Filled(sources, p);
      var choice :| PlacedAt(sources, choice, p);
      AllHoldIff(predicates, sources, choice, all[p]);
      SelectedCons(predicates, all, p);
      var kept := Selected(predicates, all[p + 1..]);
      if AllHold(predicates, all[p]) {
        choices := [choice] + rest;
        JoinedCons(sources, predicates, p, kept, rest, choice, all[p]);
      } else {
        choices := rest;
        JoinedSkips(sources, predicates, p, kept, rest, choice);
      }
    }
  }

  lemma SelectedCons(predicates: seq<Predicate>, all: seq<Row>, p: nat)
    requires p < |all|
    ensures Selected(predicates, all[p..]) ==
      if AllHold(predicates, all[p]) then [all[p]] + Selected(predicates, all[p + 1..])
      else Selected(predicates, all[p + 1..])
  {
    assert all[p..][1..] == all[p + 1..];
  }

  lemma JoinedCons(sources: seq<Source>, predicates: seq<Predicate>, p: nat, joined: seq<Row>, rest: seq<seq<nat>>,
                   choice: seq<nat>, row: Row)
    requires JoinedFrom(sources, predicates, p + 1, joined, rest)
    requires IsChoice(sources, choice) && Position(sources, choice) == p
    requires Qualifies(predicates, sources, choice) && IsRowOf(sources, choice, row)
    ensures JoinedFrom(sources, predicates, p, [row] + joined, [choice] + rest)
  {
    forall l | 0 <= l < |rest| ensures ChoiceBefore(choice, rest[l]) {
      assert Kept(sources, predicates, p + 1, rest[l], joined[l]);
      PositionLex(sources, choice, rest[l]);
    }
    IncreasingCons(choice, rest);
    KeptCons(sources, predicates, p, joined, rest, choice, row);
    forall other | Wanted(sources, predicates, p, other) ensures other in [choice] + rest {
      WantedNext(sources, predicates, p, rest, choice, other);
    }
  }

  lemma KeptCons(sources: seq<Source>, predicates: seq<Predicate>, p: nat, joined: seq<Row>, rest: seq<seq<nat>>,
                 choice: seq<nat>, row: Row)
    requires Kept(sources, predicates, p, choice, row) && |rest| == |joined|
    requires forall k :: 0 <= k < |rest| ==> Kept(sources, predicates, p + 1, rest[k], joined[k])
    ensures forall k :: 0 <= k < |[choice] + rest| ==>
      Kept(sources, predicates, p, ([choice] + rest)[k], ([row] + joined)[k])
  {
    forall k | 0 <= k < |rest| ensures Kept(sources, predicates, p, rest[k], joined[k]) {
      assert Kept(sources, predicates, p + 1, rest[k], joined[k]);
    }
  }

  /** A wanted choice is at the first position or wanted from the next one on. */
  lemma WantedNext(sources: seq<Source>, predicates: seq<Predicate>, p: nat, rest: seq<seq<nat>>, choice: seq<nat>,
                   other: seq<nat>)
    requires forall c :: Wanted(sources, predicates, p + 1, c) ==> c in rest
    requires PlacedAt(sources, choice, p) && Wanted(sources, predicates, p, other)
    ensures other == choice || other in rest
  {
    if Position(sources, other) == p {
      PositionLex(sources, other, choice);
    } else {
      assert Wanted(sources, predicates, p + 1, other);
    }
  }

  lemma JoinedSkips(sources: seq<Source>, predicates: seq<Predicate>, p: nat, joined: seq<Row>, rest: seq<seq<nat>>,
                    choice: seq<nat>)
    requires JoinedFrom(sources, predicates, p + 1, joined, rest)
    requires IsChoice(sources, choice) && Position(sources, choice) == p && !Qualifies(predicates, sources, choice)
    ensures JoinedFrom(sources, predicates, p, joined, rest)
  {
    forall k | 0 <= k < |rest| ensures Kept(sources, predicates, p, rest[k], joined[k]) {
      assert Kept(sources, predicates, p + 1, rest[k], joined[k]);
    }
    forall other | Wanted(sources, predicates, p, other) ensures other in rest {
      WantedNext(sources, predicates, p, rest, choice, other);
    }
  }

  /** The rows of the product that satisfy all predicates are the rows of the matching choices. */
  lemma SelectedIsJoin(sources: seq<Source>, predicates: seq<Predicate>)
    requires DistinctQualifiers(sources) && WellSourced(sources) && Resolved(predicates, sources)
    ensures JoinOf(sources, predicates, Selected(predicates, Cross(sources)))
  {
    CrossIsArranged(sources);
    var choices := SelectedFrom(sources, predicates, Cross(sources), 0);
    assert Cross(sources)[0..] == Cross(sources);
  }
}

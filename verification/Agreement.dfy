/** What it means for an index to agree with its table, how each change to a row must be mirrored,
    and why answering a WHERE from the index then gives the rows of a full scan. */
module Agreement {
  import opened Values
  import opened BTreeNodes
  import opened BTreeInsert
  import opened BTreeDelete
  import opened Catalog
  import opened Storage
  import opened BTreeIndex
  import opened Expressions
  import opened Planner
  import opened Sequences
  import opened Table

  type Pair = (Value, Pointer)

  // ---------------------------------------------------------------- pairs held by an index

  function PairOf(e: Entry): Pair {
    (e.key, e.pointer)
  }

  function Pairs(s: seq<Entry>): multiset<Pair> {
    if s == [] then multiset{} else multiset{PairOf(s[0])} + Pairs(s[1..])
  }

  lemma {:induction false} PairsConcat(s: seq<Entry>, t: seq<Entry>)
    ensures Pairs(s + t) == Pairs(s) + Pairs(t)
  {
    if s == [] {
      assert s + t == t;
    } else {
      assert (s + t)[1..] == s[1..] + t;
      PairsConcat(s[1..], t);
    }
  }

  lemma {:induction false} PairsBetween(a: seq<Entry>, e: Entry, b: seq<Entry>)
    ensures Pairs(a + [e] + b) == Pairs(a + b) + multiset{PairOf(e)}
  {
    PairsConcat(a, b);
    PairsConcat(a, [e]);
    assert [e][1..] == [];
    PairsConcat(a + [e], b);
  }

  predicate DoomedPair(x: Pair, key: Value, pointer: Pointer) {
    !Less(x.0, key) && !Less(key, x.0) && x.1 == pointer
  }

  lemma {:induction false} PairsKept(s: seq<Entry>, key: Key, pointer: Pointer, x: Pair)
    ensures Pairs(Kept(s, key, Some(pointer)))[x] == if DoomedPair(x, key, pointer) then 0 else Pairs(s)[x]
  {
    if s != [] {
      PairsKept(s[1..], key, pointer, x);
      var rest := Kept(s[1..], key, Some(pointer));
      if Doomed(s[0], key, Some(pointer)) {
        assert Kept(s, key, Some(pointer)) == rest;
      } else {
        assert Kept(s, key, Some(pointer)) == [s[0]] + rest;
        assert ([s[0]] + rest)[1..] == rest;
      }
    }
  }

  // ---------------------------------------------------------------- entries of one table

  /** The entries that point into one table: indexes of different tables can share a name. */
  function Own(s: seq<Entry>, table: string): seq<Entry> {
    if s == [] then [] else OwnOf(s[0], table) + Own(s[1..], table)
  }

  function OwnOf(e: Entry, table: string): seq<Entry> {
    if e.pointer.table == table then [e] else []
  }

  lemma {:induction false} OwnCons(e: Entry, rest: seq<Entry>, table: string)
    ensures Own([e] + rest, table) == OwnOf(e, table) + Own(rest, table)
  {
    assert ([e] + rest)[1..] == rest;
  }

  lemma {:induction false} OwnConcat(s: seq<Entry>, t: seq<Entry>, table: string)
    ensures Own(s + t, table) == Own(s, table) + Own(t, table)
  {
    if s == [] {
      assert s + t == t;
    } else {
      OwnConcat(s[1..], t, table);
      OwnCons(s[0], s[1..] + t, table);
      Uncons(s, t);
      Append(OwnOf(s[0], table), Own(s[1..], table), Own(t, table));
    }
  }

  lemma {:induction false} OwnOne(e: Entry, table: string)
    ensures Own([e], table) == OwnOf(e, table)
  {
    assert [e][1..] == [];
  }

  lemma OwnMiddle(a: seq<Entry>, e: Entry, b: seq<Entry>, table: string)
    ensures Own(a + [e] + b, table) == Own(a, table) + OwnOf(e, table) + Own(b, table)
  {
    OwnConcat(a + [e], b, table);
    OwnConcat(a, [e], table);
    OwnOne(e, table);
  }

  /** Inserting an entry shows in the entries of its own table only. */
  lemma {:induction false} OwnInserted(s: seq<Entry>, e: Entry, table: string)
    ensures e.pointer.table == table ==>
      Pairs(Own(Inserted(s, e), table)) == Pairs(Own(s, table)) + multiset{PairOf(e)}
    ensures e.pointer.table != table ==> Own(Inserted(s, e), table) == Own(s, table)
  {
    var p := UpperBound(s, e.key);
    var a, b := s[..p], s[p..];
    assert a + b == s;
    OwnConcat(a, b, table);
    OwnMiddle(a, e, b, table);
    if e.pointer.table == table {
      PairsBetween(Own(a, table), e, Own(b, table));
    } else {
      assert Own(a, table) + [] == Own(a, table);
    }
  }

  /** ... and so does deleting the entries of one pointer. */
  lemma {:induction false} OwnKept(s: seq<Entry>, key: Key, p: Pointer, table: string)
    ensures p.table == table ==> Own(Kept(s, key, Some(p)), table) == Kept(Own(s, table), key, Some(p))
    ensures p.table != table ==> Own(Kept(s, key, Some(p)), table) == Own(s, table)
  {
    if s != [] {
      var rest := Kept(s[1..], key, Some(p));
      OwnKept(s[1..], key, p, table);
      if Doomed(s[0], key, Some(p)) {
        assert Kept(s, key, Some(p)) == rest;
      } else {
        assert Kept(s, key, Some(p)) == [s[0]] + rest;
        OwnConcat([s[0]], rest, table);
        OwnOne(s[0], table);
      }
      if s[0].pointer.table == table {
        KeptCons(s[0], Own(s[1..], table), key, Some(p));
        assert Own(s, table) == [s[0]] + Own(s[1..], table);
      } else {
        assert Own(s, table) == Own(s[1..], table);
      }
    }
  }

  lemma {:induction false} KeptCons(e: Entry, s: seq<Entry>, key: Key, pointer: Option<Pointer>)
    ensures Kept([e] + s, key, pointer) == (if Doomed(e, key, pointer) then [] else [e]) + Kept(s, key, pointer)
  {
    assert ([e] + s)[1..] == s;
  }

  // ---------------------------------------------------------------- pairs of the live rows

  /** The (value, pointer) pairs of the live rows whose value is not NULL, each once. */
  function ExpectedSet(rows: map<Pointer, Row>, column: string): set<Pair> {
    set p | p in rows && ValueOf(rows[p], column) != Null :: (ValueOf(rows[p], column), p)
  }

  function Expected(rows: map<Pointer, Row>, column: string): multiset<Pair> {
    multiset(ExpectedSet(rows, column))
  }

  lemma ExpectedCount(rows: map<Pointer, Row>, column: string, x: Pair)
    ensures Expected(rows, column)[x] == if x in ExpectedSet(rows, column) then 1 else 0
  {
  }

  lemma ExpectedInsert(rows: map<Pointer, Row>, p: Pointer, row: Row, column: string)
    requires p !in rows
    ensures Expected(rows[p := row], column) == Expected(rows, column) +
      (if ValueOf(row, column) != Null then multiset{(ValueOf(row, column), p)} else multiset{})
  {
    var all, v := rows[p := row], ValueOf(row, column);
    forall x: Pair
      ensures x in ExpectedSet(all, column) <==> x in ExpectedSet(rows, column) || (v != Null && x == (v, p))
    {
      assert x in ExpectedSet(all, column) <==> x.1 in all && ValueOf(all[x.1], column) == x.0 && x.0 != Null;
      if x.1 == p {
        assert all[p] == row;
      } else if x.1 in rows {
        assert all[x.1] == rows[x.1];
      }
    }
    forall x: Pair | x in ExpectedSet(rows, column) ensures x.1 != p {
    }
  }

  lemma ExpectedRemove(rows: map<Pointer, Row>, p: Pointer, column: string)
    requires p in rows
    ensures ExpectedSet(rows - {p}, column) == ExpectedSet(rows, column) - {(ValueOf(rows[p], column), p)}
  {
    var rest := rows - {p};
    forall x | x in ExpectedSet(rows, column) && x.1 != p ensures x in ExpectedSet(rest, column) {
      assert x.1 in rest && rest[x.1] == rows[x.1];
    }
  }

  lemma ExpectedSame(rows: map<Pointer, Row>, p: Pointer, row: Row, column: string)
    requires p in rows && ValueOf(row, column) == ValueOf(rows[p], column)
    ensures Expected(rows[p := row], column) == Expected(rows, column)
  {
    var all := rows[p := row];
    forall x ensures x in ExpectedSet(all, column) <==> x in ExpectedSet(rows, column) {
      assert x.1 in all <==> x.1 in rows;
    }
  }

  /** The table's entries in an index are pairs of its live rows, each at most once; if `exact`, all
      of them. */
  ghost predicate Mirrors(s: seq<Entry>, table: string, rows: map<Pointer, Row>, column: string, exact: bool) {
    var pairs := Pairs(Own(s, table));
    if exact then pairs == Expected(rows, column) else pairs <= Expected(rows, column)
  }

  /** The entries without the pair of a row, if it has one. */
  function Taken(s: seq<Entry>, v: Value, p: Pointer): seq<Entry> {
    if v == Null then s else Kept(s, v, Some(p))
  }

  /** Deleting a row's pair from an index that mirrors its table leaves it mirroring the other rows. */
  lemma DeleteMirrors(s: seq<Entry>, rows: map<Pointer, Row>, p: Pointer, column: string, exact: bool)
    requires Mirrors(s, p.table, rows, column, exact) && p in rows
    ensures Mirrors(Taken(s, ValueOf(rows[p], column), p), p.table, rows - {p}, column, exact)
  {
    var v, own := ValueOf(rows[p], column), Own(s, p.table);
    ExpectedRemove(rows, p, column);
    if v == Null {
      assert (v, p) !in ExpectedSet(rows, column);
      return;
    }
    OwnKept(s, v, p, p.table);
    forall x
      ensures Pairs(Kept(own, v, Some(p)))[x] <= Expected(rows - {p}, column)[x]
      ensures exact ==> Pairs(Kept(own, v, Some(p)))[x] == Expected(rows - {p}, column)[x]
    {
      DeletedPair(own, rows, p, column, exact, x);
    }
  }

  lemma DeletedPair(own: seq<Entry>, rows: map<Pointer, Row>, p: Pointer, column: string, exact: bool, x: Pair)
    requires if exact then Pairs(own) == Expected(rows, column) else Pairs(own) <= Expected(rows, column)
    requires p in rows && ValueOf(rows[p], column) != Null
    ensures var now := Pairs(Kept(own, ValueOf(rows[p], column), Some(p)));
      && now[x] <= Expected(rows - {p}, column)[x]
      && (exact ==> now[x] == Expected(rows - {p}, column)[x])
  {
    var v := ValueOf(rows[p], column);
    LessTrichotomy(v, v);
    ExpectedRemove(rows, p, column);
    PairsKept(own, v, p, x);
    ExpectedCount(rows, column, x);
    ExpectedCount(rows - {p}, column, x);
    assert Pairs(own)[x] <= Expected(rows, column)[x];
  }

  /** Inserting a row's pair, if it has one, makes the index mirror the rows plus this one. */
  lemma InsertMirrors(s: seq<Entry>, rows: map<Pointer, Row>, p: Pointer, row: Row, column: string, e: Entry,
                      exact: bool)
    requires Mirrors(s, p.table, rows, column, exact) && p !in rows
    requires ValueOf(row, column) != Null ==> PairOf(e) == (ValueOf(row, column), p)
    ensures var now := if ValueOf(row, column) == Null then s else Inserted(s, e);
      Mirrors(now, p.table, rows[p := row], column, exact)
  {
    ExpectedInsert(rows, p, row, column);
    OwnInserted(s, e, p.table);
  }

  /** A row rewritten with the same value leaves the index mirroring. */
  lemma SameMirrors(s: seq<Entry>, rows: map<Pointer, Row>, p: Pointer, row: Row, column: string, exact: bool)
    requires Mirrors(s, p.table, rows, column, exact) && p in rows && ValueOf(row, column) == ValueOf(rows[p], column)
    ensures Mirrors(s, p.table, rows[p := row], column, exact)
  {
    ExpectedSame(rows, p, row, column);
  }

  /** An index without entries of a table mirrors it loosely, and exactly if no row has a value. */
  lemma EmptyMirrorsIff(s: seq<Entry>, table: string, rows: map<Pointer, Row>, column: string)
    requires Own(s, table) == []
    ensures Mirrors(s, table, rows, column, false)
    ensures Mirrors(s, table, rows, column, true) <==> forall p :: p in rows ==> ValueOf(rows[p], column) == Null
  {
    if p :| p in rows && ValueOf(rows[p], column) != Null {
      assert (ValueOf(rows[p], column), p) in ExpectedSet(rows, column);
      assert (ValueOf(rows[p], column), p) in Expected(rows, column);
    }
    if forall p :: p in rows ==> ValueOf(rows[p], column) == Null {
      assert ExpectedSet(rows, column) == {};
    }
  }

  // ---------------------------------------------------------------- answering from the index

  /** The rows behind the pointers; a pointer to no live row is passed over. */
  function ReadAll(pointers: seq<Pointer>, rows: map<Pointer, Row>): seq<(Pointer, Row)> {
    if pointers == [] then []
    else (if pointers[0] in rows then [(pointers[0], rows[pointers[0]])] else []) + ReadAll(pointers[1..], rows)
  }

  /** The rows a WHERE accepts. */
  function Filtered(s: seq<(Pointer, Row)>, where: Option<Expr>): seq<(Pointer, Row)> {
    if s == [] then [] else (if Accepts(where, s[0].1) then [s[0]] else []) + Filtered(s[1..], where)
  }

  /** The WHERE evaluates without error on every row. */
  ghost predicate Finishes(s: seq<(Pointer, Row)>, where: Option<Expr>) {
    forall i :: 0 <= i < |s| ==> EvaluatePredicate(where, s[i].1).Ok?
  }

  ghost predicate NoDuplicates<T>(s: seq<T>) {
    forall i, j :: 0 <= i < j < |s| ==> s[i] != s[j]
  }

  lemma {:induction false} NoDuplicatesMultiset<T>(s: seq<T>)
    requires NoDuplicates(s)
    ensures multiset(s) == multiset(set x | x in s)
  {
    if s != [] {
      var rest := s[1..];
      NoDuplicatesMultiset(rest);
      assert s == [s[0]] + rest;
      assert s[0] !in rest;
      assert (set x | x in s) == (set x | x in rest) + {s[0]};
    }
  }

  lemma {:induction false} FilteredMembers(s: seq<(Pointer, Row)>, where: Option<Expr>)
    ensures forall x :: x in Filtered(s, where) <==> x in s && Accepts(where, x.1)
    ensures NoDuplicates(s) ==> NoDuplicates(Filtered(s, where))
  {
    if s != [] {
      var rest := s[1..];
      FilteredMembers(rest, where);
      assert s == [s[0]] + rest;
      if NoDuplicates(s) {
        assert NoDuplicates(rest);
        assert s[0] !in rest;
      }
    }
  }

  lemma {:induction false} FilteredConcat(s: seq<(Pointer, Row)>, t: seq<(Pointer, Row)>, where: Option<Expr>)
    ensures Filtered(s + t, where) == Filtered(s, where) + Filtered(t, where)
  {
    if s == [] {
      assert s + t == t;
    } else {
      assert (s + t)[1..] == s[1..] + t;
      FilteredConcat(s[1..], t, where);
    }
  }

  /** Entries whose pairs are a set carry distinct pairs. */
  lemma {:induction false} PairMembers(s: seq<Entry>, i: nat)
    requires i < |s|
    ensures PairOf(s[i]) in Pairs(s)
  {
    if i > 0 {
      PairMembers(s[1..], i - 1);
    }
  }

  lemma {:induction false} PairsHaveEntries(s: seq<Entry>, x: Pair)
    requires x in Pairs(s)
    ensures exists i :: 0 <= i < |s| && s[i].key == x.0 && s[i].pointer == x.1
  {
    if PairOf(s[0]) != x {
      PairsHaveEntries(s[1..], x);
      var i :| 0 <= i < |s[1..]| && s[1..][i].key == x.0 && s[1..][i].pointer == x.1;
      assert s[i + 1].key == x.0;
    }
  }

  /** A prefix of an agreeing traversal: some pairs of the live rows, each once. */
  ghost predicate Part(s: seq<Entry>, rows: map<Pointer, Row>, column: string) {
    Pairs(s) <= Expected(rows, column)
  }

  lemma {:induction false} PartTail(s: seq<Entry>, rows: map<Pointer, Row>, column: string)
    requires s != [] && Part(s, rows, column)
    ensures Part(s[1..], rows, column)
    ensures s[0].pointer in rows && ValueOf(rows[s[0].pointer], column) == s[0].key
    ensures forall i :: 0 <= i < |s[1..]| ==> s[1..][i].pointer != s[0].pointer
  {
    var x := PairOf(s[0]);
    assert x in Pairs(s);
    assert x in Expected(rows, column);
    assert Pairs(s)[x] == 1 + Pairs(s[1..])[x] && Expected(rows, column)[x] <= 1;
    assert x !in Pairs(s[1..]);
    forall i | 0 <= i < |s[1..]| ensures s[1..][i].pointer != s[0].pointer {
      PairMembers(s[1..], i);
      var y := PairOf(s[1..][i]);
      assert y in Pairs(s) && y in Expected(rows, column);
      assert y in Pairs(s[1..]);
      assert y.1 == x.1 ==> y.0 == x.0;
    }
  }

  lemma {:induction false} FoundMembers(s: seq<Entry>, lookup: IndexLookup, p: Pointer)
    ensures p in Found(s, lookup) <==> exists i :: 0 <= i < |s| && s[i].pointer == p && Selects(lookup, s[i].key)
  {
    if s != [] {
      var rest := s[1..];
      FoundMembers(rest, lookup, p);
      if p in Found(rest, lookup) {
        var i :| 0 <= i < |rest| && rest[i].pointer == p && Selects(lookup, rest[i].key);
        assert s[i + 1] == rest[i];
      }
      if i :| 0 <= i < |s| && s[i].pointer == p && Selects(lookup, s[i].key) {
        assert i > 0 ==> s[i] == rest[i - 1];
      }
    }
  }

  /** An index lookup lists, without repetition, rows whose value the lookup selects. */
  lemma {:induction false} IndexRows(s: seq<Entry>, rows: map<Pointer, Row>, column: string, lookup: IndexLookup)
    requires Part(s, rows, column)
    ensures var found := ReadAll(Found(s, lookup), rows);
      && NoDuplicates(found)
      && |found| == |Found(s, lookup)|
      && (forall x :: x in found ==> x.0 in Found(s, lookup) && x.0 in rows && rows[x.0] == x.1)
      && (forall p :: p in Found(s, lookup) ==> p in rows && (p, rows[p]) in found)
  {
    if s != [] {
      PartTail(s, rows, column);
      IndexRows(s[1..], rows, column, lookup);
      FoundMembers(s[1..], lookup, s[0].pointer);
      if Selects(lookup, s[0].key) {
        var rest := Found(s[1..], lookup);
        assert Found(s, lookup) == [s[0].pointer] + rest;
        assert Found(s, lookup)[1..] == rest;
      } else {
        assert Found(s, lookup) == Found(s[1..], lookup);
      }
    }
  }

  ghost predicate RowsOf(rows: map<Pointer, Row>, table: string) {
    forall p :: p in rows ==> p.table == table
  }

  /** Reading passes over the pointers into other tables. */
  lemma {:induction false} ReadsOwn(s: seq<Entry>, lookup: IndexLookup, rows: map<Pointer, Row>, table: string)
    requires RowsOf(rows, table)
    ensures ReadAll(Found(s, lookup), rows) == ReadAll(Found(Own(s, table), lookup), rows)
  {
    if s != [] {
      ReadsOwn(s[1..], lookup, rows, table);
      FoundCons(s, lookup, rows);
      var rest := Own(s[1..], table);
      if s[0].pointer.table == table {
        assert Own(s, table) == [s[0]] + rest;
        FoundCons([s[0]] + rest, lookup, rows);
        assert ([s[0]] + rest)[1..] == rest;
      } else {
        assert Own(s, table) == rest;
      }
    }
  }

  lemma {:induction false} FoundCons(s: seq<Entry>, lookup: IndexLookup, rows: map<Pointer, Row>)
    requires s != []
    ensures ReadAll(Found(s, lookup), rows) ==
      (if Selects(lookup, s[0].key) && s[0].pointer in rows then [(s[0].pointer, rows[s[0].pointer])] else [])
      + ReadAll(Found(s[1..], lookup), rows)
  {
    var rest := Found(s[1..], lookup);
    if Selects(lookup, s[0].key) {
      assert Found(s, lookup) == [s[0].pointer] + rest;
      assert ([s[0].pointer] + rest)[1..] == rest;
    } else {
      assert Found(s, lookup) == rest;
    }
  }

  /** Under agreement a lookup finds exactly the rows whose value it selects. */
  lemma FoundIffSelected(s: seq<Entry>, rows: map<Pointer, Row>, column: string, lookup: IndexLookup, p: Pointer)
    requires Pairs(s) == Expected(rows, column)
    ensures p in Found(s, lookup) <==>
      p in rows && ValueOf(rows[p], column) != Null && Selects(lookup, ValueOf(rows[p], column))
  {
    FoundMembers(s, lookup, p);
    if p in Found(s, lookup) {
      var i :| 0 <= i < |s| && s[i].pointer == p && Selects(lookup, s[i].key);
      PairMembers(s, i);
      assert PairOf(s[i]) in Expected(rows, column);
    }
    if p in rows && ValueOf(rows[p], column) != Null && Selects(lookup, ValueOf(rows[p], column)) {
      var x := (ValueOf(rows[p], column), p);
      assert x in ExpectedSet(rows, column);
      PairsHaveEntries(s, x);
    }
  }

  lemma SameMembers<T>(s: seq<T>, t: seq<T>)
    requires NoDuplicates(s) && NoDuplicates(t) && forall x :: x in s <==> x in t
    ensures multiset(s) == multiset(t)
  {
    NoDuplicatesMultiset(s);
    NoDuplicatesMultiset(t);
    assert (set x | x in s) == (set x | x in t);
  }

  lemma ListsExactly(scan: seq<(Pointer, Row)>, rows: map<Pointer, Row>, x: (Pointer, Row))
    requires ListsRows(scan, rows)
    ensures x in scan <==> x.0 in rows && rows[x.0] == x.1
  {
    if x.0 in rows {
      assert (x.0, rows[x.0]) in scan;
    }
  }

  lemma AcceptedIsFound(schema: TableSchema, where: Expr, own: seq<Entry>, rows: map<Pointer, Row>,
                        scan: seq<(Pointer, Row)>, x: (Pointer, Row))
    requires FindIndexCandidate(schema, where).Some? && ListsRows(scan, rows) && Accepts(Some(where), x.1)
    requires Pairs(own) == Expected(rows, FindIndexCandidate(schema, where).value.column)
    requires Part(own, rows, FindIndexCandidate(schema, where).value.column)
    ensures x in ReadAll(Found(own, FindIndexCandidate(schema, where).value.lookup), rows) <==> x in scan
  {
    var c := FindIndexCandidate(schema, where).value;
    LookupImplied(schema, where, x.1);
    IndexRows(own, rows, c.column, c.lookup);
    FoundIffSelected(own, rows, c.column, c.lookup, x.0);
    ListsExactly(scan, rows, x);
  }

  /** The index plan preserves meaning: whatever AND/OR/comparison tree the WHERE is, the accepted
      rows among those found through the index are a permutation of the accepted rows of a scan. */
  lemma IndexPlanPreservesMeaning(schema: TableSchema, where: Expr, s: seq<Entry>, rows: map<Pointer, Row>,
                                  scan: seq<(Pointer, Row)>)
    requires FindIndexCandidate(schema, where).Some? && RowsOf(rows, schema.name)
    requires Mirrors(s, schema.name, rows, FindIndexCandidate(schema, where).value.column, true)
    requires ListsRows(scan, rows)
    ensures var c := FindIndexCandidate(schema, where).value;
      multiset(Filtered(ReadAll(Found(s, c.lookup), rows), Some(where))) == multiset(Filtered(scan, Some(where)))
  {
    var c, own := FindIndexCandidate(schema, where).value, Own(s, schema.name);
    ReadsOwn(s, c.lookup, rows, schema.name);
    var found := ReadAll(Found(own, c.lookup), rows);
    IndexRows(own, rows, c.column, c.lookup);
    FilteredMembers(found, Some(where));
    FilteredMembers(scan, Some(where));
    forall x: (Pointer, Row) | Accepts(Some(where), x.1) ensures x in found <==> x in scan {
      AcceptedIsFound(schema, where, own, rows, scan, x);
    }
    assert NoDuplicates(scan);
    SameMembers(Filtered(found, Some(where)), Filtered(scan, Some(where)));
  }

  /** Even an index that has lost entries answers with live rows only, none of them twice. */
  lemma IndexPlanIsSound(s: seq<Entry>, rows: map<Pointer, Row>, table: string, column: string, lookup: IndexLookup)
    requires Mirrors(s, table, rows, column, false) && RowsOf(rows, table)
    ensures var found := ReadAll(Found(s, lookup), rows);
      NoDuplicates(found) && forall x :: x in found ==> x.0 in rows && rows[x.0] == x.1
  {
    ReadsOwn(s, lookup, rows, table);
    IndexRows(Own(s, table), rows, column, lookup);
  }

  /** When the scan finishes, so does the filtering of the rows found through the index. */
  lemma IndexPlanFinishes(s: seq<Entry>, rows: map<Pointer, Row>, scan: seq<(Pointer, Row)>, table: string,
                          column: string, lookup: IndexLookup, where: Option<Expr>)
    requires Mirrors(s, table, rows, column, false) && RowsOf(rows, table)
    requires ListsRows(scan, rows) && Finishes(scan, where)
    ensures Finishes(ReadAll(Found(s, lookup), rows), where)
  {
    IndexPlanIsSound(s, rows, table, column, lookup);
    var found := ReadAll(Found(s, lookup), rows);
    forall i | 0 <= i < |found| ensures EvaluatePredicate(where, found[i].1).Ok? {
      assert found[i] in found;
      assert (found[i].0, rows[found[i].0]) in scan;
    }
  }

  /** The literal of a lookup can be compared with a typed column. */
  predicate Fits(ty: TinyType, v: Value) {
    if ty == TEXT then v.Text? else IsNumeric(v)
  }

  /** Nothing but entries of the table is in the index. */
  ghost predicate Pure(s: seq<Entry>, table: string) {
    forall i :: 0 <= i < |s| ==> s[i].pointer.table == table
  }

  lemma {:induction false} PureIsOwn(s: seq<Entry>, table: string)
    requires Pure(s, table)
    ensures Own(s, table) == s
  {
    if s != [] {
      PureIsOwn(s[1..], table);
      assert [s[0]] + s[1..] == s;
    }
  }

  lemma {:induction false} OwnEntry(s: seq<Entry>, i: nat)
    requires i < |s|
    ensures Own(s, s[i].pointer.table) != []
  {
    if i > 0 {
      OwnEntry(s[1..], i - 1);
    }
  }

  lemma {:induction false} NoneOwn(s: seq<Entry>, table: string, other: string)
    requires Pure(s, table) && other != table
    ensures Own(s, other) == []
  {
    if s != [] {
      NoneOwn(s[1..], table, other);
    }
  }

  /** An index whose entries of other tables have not changed is as pure as it was. */
  lemma StaysPure(s: seq<Entry>, now: seq<Entry>, table: string)
    requires Pure(s, table) && forall t :: t != table ==> Own(now, t) == Own(s, t)
    ensures Pure(now, table)
  {
    forall i | 0 <= i < |now| ensures now[i].pointer.table == table {
      OwnEntry(now, i);
      if now[i].pointer.table != table {
        NoneOwn(s, table, now[i].pointer.table);
      }
    }
  }

  /** In a pure index over a typed column every stored key is comparable with a value of the type. */
  lemma PureTakes(s: seq<Entry>, table: string, rows: map<Pointer, Row>, column: string, ty: TinyType, v: Value)
    requires Mirrors(s, table, rows, column, false) && Pure(s, table)
    requires forall p :: p in rows ==> Typed(ty, ValueOf(rows[p], column))
    ensures v != Null && Typed(ty, v) ==> Takes(s, v)
    ensures v != Null && s != [] ==> (Takes(s, v) <==> Fits(ty, v))
  {
    PureIsOwn(s, table);
    if s != [] {
      PairMembers(s, 0);
      assert PairOf(s[0]) in Expected(rows, column);
    }
  }

  /** On a typed column the lookup raises exactly when there is something to compare and the
      literal is of the other kind; a scan with `=` just finds no row then. */
  lemma LookupRaisesIff(s: seq<Entry>, table: string, rows: map<Pointer, Row>, column: string, ty: TinyType,
                        lookup: IndexLookup)
    requires Mirrors(s, table, rows, column, true) && Pure(s, table)
    requires forall p :: p in rows ==> Typed(ty, ValueOf(rows[p], column))
    requires |Bounds(lookup)| == 1 && Bounds(lookup)[0] != Null
    ensures LookupRaises(s, lookup) <==>
      (exists p :: p in rows && ValueOf(rows[p], column) != Null) && !Fits(ty, Bounds(lookup)[0])
  {
    var v := Bounds(lookup)[0];
    PureIsOwn(s, table);
    PureTakes(s, table, rows, column, ty, v);
    EmptyMirrorsIff([], table, rows, column);
    if s != [] {
      PairMembers(s, 0);
      assert PairOf(s[0]) in Expected(rows, column);
      assert s[0].pointer in rows && ValueOf(rows[s[0].pointer], column) != Null;
      assert LookupRaises(s, lookup) <==> !Comparable(s[0].key, v);
    }
  }
}

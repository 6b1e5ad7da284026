/** ORDER BY as repeated stable sorts, from the last key to the first, and LIMIT/OFFSET paging. */
module Ordering {
  import opened Values
  import opened Catalog
  import opened Storage

  datatype Order = Order(column: string, descending: bool)

  // ---------------------------------------------------------------- orders on rows

  /** Non-NULL values in their order, NULL after all of them. */
  predicate ValueBefore(a: Value, b: Value) {
    a != Null && (b == Null || Less(a, b))
  }

  /** `a` must come strictly before `b` by one key. */
  predicate Before(o: Order, a: Row, b: Row) {
    if o.descending then ValueBefore(ValueOf(b, o.column), ValueOf(a, o.column))
    else ValueBefore(ValueOf(a, o.column), ValueOf(b, o.column))
  }

  /** `a` must come strictly before `b` by the first key that tells them apart. */
  predicate LexBefore(orders: seq<Order>, a: Row, b: Row) {
    orders != [] &&
    (Before(orders[0], a, b) || (!Before(orders[0], b, a) && LexBefore(orders[1..], a, b)))
  }

  predicate Tied(orders: seq<Order>, a: Row, b: Row) {
    !LexBefore(orders, a, b) && !LexBefore(orders, b, a)
  }

  /** NULLs come last ascending and first descending. */
  lemma NullPlacement(column: string, a: Row, b: Row)
    requires ValueOf(a, column) == Null && ValueOf(b, column) != Null
    ensures Before(Order(column, false), b, a) && !Before(Order(column, false), a, b)
    ensures Before(Order(column, true), a, b) && !Before(Order(column, true), b, a)
  {
  }

  // ---------------------------------------------------------------- what an order means

  /** `a` may stand before the different value `b` ascending: NULL comes last, a number before greater
      ones, a text before one that it starts or that has the greater first differing character. */
  ghost predicate Ascends(a: Value, b: Value) {
    && a != Null
    && (IsNumeric(a) && IsNumeric(b) ==> Number(a) < Number(b))
    && (a.Text? && b.Text? ==> exists k: nat :: SmallerAt(a.s, b.s, k))
  }

  ghost predicate InDirection(o: Order, a: Value, b: Value) {
    if o.descending then Ascends(b, a) else Ascends(a, b)
  }

  /** Key `k` is the first on which the rows differ. */
  ghost predicate FirstDifference(orders: seq<Order>, a: Row, b: Row, k: nat) {
    && k < |orders|
    && (forall m :: 0 <= m < k ==> Same(ValueOf(a, orders[m].column), ValueOf(b, orders[m].column)))
    && !Same(ValueOf(a, orders[k].column), ValueOf(b, orders[k].column))
  }

  /** Of two rows the one in front is so by the first key on which they differ. */
  ghost predicate OrderedBy(rows: seq<Row>, orders: seq<Order>) {
    forall i, j, k: nat :: 0 <= i < j < |rows| && FirstDifference(orders, rows[i], rows[j], k) ==>
      InDirection(orders[k], ValueOf(rows[i], orders[k].column), ValueOf(rows[j], orders[k].column))
  }

  lemma BeforeMeans(a: Value, b: Value)
    requires !Same(a, b) && !ValueBefore(b, a)
    ensures Ascends(a, b)
  {
    LessTrichotomy(a, b);
    if Comparable(a, b) {
      LessMeans(a, b);
    }
  }

  lemma {:induction false} FirstDifferenceDecides(orders: seq<Order>, a: Row, b: Row, k: nat)
    requires FirstDifference(orders, a, b, k) && !LexBefore(orders, b, a)
    ensures InDirection(orders[k], ValueOf(a, orders[k].column), ValueOf(b, orders[k].column))
  {
    var x, y := ValueOf(a, orders[0].column), ValueOf(b, orders[0].column);
    if k == 0 {
      if orders[0].descending {
        BeforeMeans(y, x);
      } else {
        BeforeMeans(x, y);
      }
    } else {
      LessTrichotomy(x, y);
      assert forall m :: 0 <= m < k - 1 ==> orders[1..][m] == orders[m + 1];
      FirstDifferenceDecides(orders[1..], a, b, k - 1);
    }
  }

  /** Rows are tied exactly when they have the same values under all keys. */
  lemma {:induction false} TiedMeans(orders: seq<Order>, a: Row, b: Row)
    ensures Tied(orders, a, b) <==>
      forall m :: 0 <= m < |orders| ==> Same(ValueOf(a, orders[m].column), ValueOf(b, orders[m].column))
  {
    if orders != [] {
      var x, y := ValueOf(a, orders[0].column), ValueOf(b, orders[0].column);
      LessTrichotomy(x, y);
      LessTrichotomy(y, x);
      TiedMeans(orders[1..], a, b);
      assert forall m :: 0 <= m < |orders| - 1 ==> orders[1..][m] == orders[m + 1];
      assert forall m :: 0 < m < |orders| ==> orders[m] == orders[1..][m - 1];
    }
  }

  /** Rows in order are ordered by numbers and texts, key by key, each in its direction. */
  lemma InOrderMeans(rows: seq<Row>, orders: seq<Order>)
    requires InOrder(rows, orders)
    ensures OrderedBy(rows, orders)
  {
    forall i, j, k: nat | 0 <= i < j < |rows| && FirstDifference(orders, rows[i], rows[j], k)
      ensures InDirection(orders[k], ValueOf(rows[i], orders[k].column), ValueOf(rows[j], orders[k].column))
    {
      FirstDifferenceDecides(orders, rows[i], rows[j], k);
    }
  }

  lemma BeforeIsWeakOrder(o: Order, a: Row, b: Row, c: Row)
    ensures Before(o, a, b) ==> !Before(o, b, a)
    ensures !Before(o, a, b) && !Before(o, b, c) ==> !Before(o, a, c)
  {
    var x, y, z := ValueOf(a, o.column), ValueOf(b, o.column), ValueOf(c, o.column);
    LessTrichotomy(x, y);
    if !Less(x, y) && !Less(y, z) {
      LessNegTransitive(x, y, z);
    }
    if !Less(z, y) && !Less(y, x) {
      LessNegTransitive(z, y, x);
    }
  }

  lemma {:induction false} LexIsWeakOrder(orders: seq<Order>, a: Row, b: Row, c: Row)
    ensures LexBefore(orders, a, b) ==> !LexBefore(orders, b, a)
    ensures !LexBefore(orders, a, b) && !LexBefore(orders, b, c) ==> !LexBefore(orders, a, c)
  {
    if orders != [] {
      var o := orders[0];
      LexIsWeakOrder(orders[1..], a, b, c);
      BeforeIsWeakOrder(o, a, b, c);
      BeforeIsWeakOrder(o, b, a, c);
      BeforeIsWeakOrder(o, a, c, b);
      BeforeIsWeakOrder(o, c, a, b);
      BeforeIsWeakOrder(o, b, c, a);
      BeforeIsWeakOrder(o, c, b, a);
    }
  }

  // ---------------------------------------------------------------- stable sorting

  /** The rows tied with `x`, in their order. */
  function Ties(s: seq<Row>, orders: seq<Order>, x: Row): seq<Row> {
    if s == [] then [] else (if Tied(orders, s[0], x) then [s[0]] else []) + Ties(s[1..], orders, x)
  }

  ghost predicate InOrder(s: seq<Row>, orders: seq<Order>) {
    forall i, j :: 0 <= i < j < |s| ==> !LexBefore(orders, s[j], s[i])
  }

  /** `t` is `s` sorted stably: the same rows, in order, ties as they were. */
  ghost predicate StablySorted(s: seq<Row>, t: seq<Row>, orders: seq<Order>) {
    && multiset(t) == multiset(s)
    && InOrder(t, orders)
    && forall x :: Ties(t, orders, x) == Ties(s, orders, x)
  }

  lemma {:induction false} TiesMembers(s: seq<Row>, orders: seq<Order>, x: Row, y: Row)
    ensures y in Ties(s, orders, x) <==> y in s && Tied(orders, y, x)
  {
    if s != [] {
      TiesMembers(s[1..], orders, x, y);
      assert s == [s[0]] + s[1..];
    }
  }

  lemma {:induction false} SelfTied(orders: seq<Order>, x: Row)
    ensures Tied(orders, x, x)
  {
    LexIsWeakOrder(orders, x, x, x);
  }

  /** A stable sort has only one result. */
  lemma {:induction false} StableSortUnique(t: seq<Row>, u: seq<Row>, orders: seq<Order>)
    requires multiset(t) == multiset(u) && InOrder(t, orders) && InOrder(u, orders)
    requires forall x :: Ties(t, orders, x) == Ties(u, orders, x)
    ensures t == u
  {
    assert |t| == |multiset(t)| == |multiset(u)| == |u|;
    if t != [] {
      FirstsTied(t, u, orders);
      SelfTied(orders, t[0]);
      assert Ties(t, orders, t[0])[0] == t[0] && Ties(u, orders, t[0])[0] == u[0];
      TailsAgree(t, u, orders);
      StableSortUnique(t[1..], u[1..], orders);
    }
  }

  lemma TailsAgree(t: seq<Row>, u: seq<Row>, orders: seq<Order>)
    requires t != [] && u != [] && t[0] == u[0]
    requires multiset(t) == multiset(u) && InOrder(t, orders) && InOrder(u, orders)
    requires forall x :: Ties(t, orders, x) == Ties(u, orders, x)
    ensures multiset(t[1..]) == multiset(u[1..]) && InOrder(t[1..], orders) && InOrder(u[1..], orders)
    ensures forall x :: Ties(t[1..], orders, x) == Ties(u[1..], orders, x)
  {
    TailFacts(t, orders);
    TailFacts(u, orders);
    forall y ensures Ties(t[1..], orders, y) == Ties(u[1..], orders, y) {
      TailTies(t, orders, y);
      TailTies(u, orders, y);
    }
  }

  lemma TailFacts(t: seq<Row>, orders: seq<Order>)
    requires t != [] && InOrder(t, orders)
    ensures multiset(t[1..]) == multiset(t) - multiset{t[0]} && InOrder(t[1..], orders)
  {
    assert t == [t[0]] + t[1..];
  }

  lemma TailTies(t: seq<Row>, orders: seq<Order>, y: Row)
    requires t != []
    ensures Ties(t, orders, y) == (if Tied(orders, t[0], y) then [t[0]] else []) + Ties(t[1..], orders, y)
    ensures Ties(t[1..], orders, y) == Ties(t, orders, y)[if Tied(orders, t[0], y) then 1 else 0..]
  {
  }

  lemma FirstsTied(t: seq<Row>, u: seq<Row>, orders: seq<Order>)
    requires t != [] && u != [] && multiset(t) == multiset(u) && InOrder(t, orders) && InOrder(u, orders)
    ensures Tied(orders, u[0], t[0])
  {
    assert t[0] in multiset(u) && u[0] in multiset(t);
    var i :| 0 <= i < |t| && t[i] == u[0];
    var j :| 0 <= j < |u| && u[j] == t[0];
    SelfTied(orders, t[0]);
  }

  /** Python's `list.sort` with one key, as insertion: a row goes before those not smaller than it. */
  function InsertRow(x: Row, t: seq<Row>, o: Order): seq<Row> {
    if t == [] || !Before(o, t[0], x) then [x] + t else [t[0]] + InsertRow(x, t[1..], o)
  }

  function SortBy(s: seq<Row>, o: Order): seq<Row> {
    if s == [] then [] else InsertRow(s[0], SortBy(s[1..], o), o)
  }

  lemma OneKey(o: Order, a: Row, b: Row)
    ensures LexBefore([o], a, b) <==> Before(o, a, b)
  {
    assert [o][1..] == [];
  }

  lemma OneKeyEverywhere(o: Order)
    ensures forall a, b :: LexBefore([o], a, b) <==> Before(o, a, b)
  {
    forall a, b ensures LexBefore([o], a, b) <==> Before(o, a, b) {
      OneKey(o, a, b);
    }
  }

  lemma ConsInOrder(x: Row, t: seq<Row>, orders: seq<Order>)
    requires InOrder(t, orders) && forall y :: y in t ==> !LexBefore(orders, y, x)
    ensures InOrder([x] + t, orders)
  {
    var r := [x] + t;
    forall i, j | 0 <= i < j < |r| ensures !LexBefore(orders, r[j], r[i]) {
      assert r[j] == t[j - 1];
    }
  }

  lemma {:induction false} InsertMultiset(x: Row, t: seq<Row>, o: Order)
    ensures multiset(InsertRow(x, t, o)) == multiset(t) + multiset{x}
  {
    if t != [] && Before(o, t[0], x) {
      InsertMultiset(x, t[1..], o);
      assert t == [t[0]] + t[1..];
    }
  }

  lemma {:induction false} InsertKeepsOrder(x: Row, t: seq<Row>, o: Order)
    requires InOrder(t, [o])
    ensures InOrder(InsertRow(x, t, o), [o])
  {
    OneKeyEverywhere(o);
    if t == [] || !Before(o, t[0], x) {
      forall y | y in t ensures !LexBefore([o], y, x) {
        var k :| 0 <= k < |t| && t[k] == y;
        assert k > 0 ==> !LexBefore([o], t[k], t[0]);
        BeforeIsWeakOrder(o, y, t[0], x);
      }
      ConsInOrder(x, t, [o]);
    } else {
      InsertKeepsOrder(x, t[1..], o);
      InsertMultiset(x, t[1..], o);
      var rest := InsertRow(x, t[1..], o);
      forall y | y in rest ensures !LexBefore([o], y, t[0]) {
        assert y in multiset(rest);
        BeforeIsWeakOrder(o, t[0], x, x);
      }
      ConsInOrder(t[0], rest, [o]);
    }
  }

  /** The inserted row comes first among its ties. */
  lemma {:induction false} InsertTies(x: Row, t: seq<Row>, o: Order, y: Row)
    ensures Ties(InsertRow(x, t, o), [o], y) == (if Tied([o], x, y) then [x] else []) + Ties(t, [o], y)
  {
    if t == [] || !Before(o, t[0], x) {
      TiesCons(x, t, [o], y);
    } else {
      InsertTies(x, t[1..], o, y);
      TiesCons(t[0], InsertRow(x, t[1..], o), [o], y);
      TailTies(t, [o], y);
      NotBothTied(o, t[0], x, y);
    }
  }

  lemma NotBothTied(o: Order, a: Row, b: Row, y: Row)
    requires Before(o, a, b)
    ensures !(Tied([o], a, y) && Tied([o], b, y))
  {
    OneKeyEverywhere(o);
    BeforeIsWeakOrder(o, a, y, b);
  }

  /** One sort is stable. */
  lemma {:induction false} SortByIsStable(s: seq<Row>, o: Order)
    ensures StablySorted(s, SortBy(s, o), [o])
  {
    if s != [] {
      SortByIsStable(s[1..], o);
      InsertKeepsOrder(s[0], SortBy(s[1..], o), o);
      InsertMultiset(s[0], SortBy(s[1..], o), o);
      assert s == [s[0]] + s[1..];
      forall y ensures Ties(SortBy(s, o), [o], y) == Ties(s, [o], y) {
        InsertTies(s[0], SortBy(s[1..], o), o, y);
      }
    }
  }

  // ---------------------------------------------------------------- sorting by several keys

  lemma TiedBoth(o: Order, rest: seq<Order>, a: Row, x: Row)
    ensures Tied([o] + rest, a, x) <==> Tied([o], a, x) && Tied(rest, a, x)
  {
    OneKeyEverywhere(o);
    assert ([o] + rest)[1..] == rest;
    BeforeIsWeakOrder(o, a, x, a);
  }

  lemma {:induction false} TiesOfTies(s: seq<Row>, o: Order, rest: seq<Order>, x: Row)
    ensures Ties(Ties(s, [o], x), rest, x) == Ties(s, [o] + rest, x)
    ensures Ties(Ties(s, rest, x), [o], x) == Ties(s, [o] + rest, x)
  {
    if s != [] {
      TiesOfTies(s[1..], o, rest, x);
      TiedBoth(o, rest, s[0], x);
      var one, others := Ties(s[1..], [o], x), Ties(s[1..], rest, x);
      TiesCons(s[0], one, rest, x);
      TiesCons(s[0], others, [o], x);
      assert Ties(s, [o], x) == if Tied([o], s[0], x) then [s[0]] + one else one;
      assert Ties(s, rest, x) == if Tied(rest, s[0], x) then [s[0]] + others else others;
    }
  }

  lemma TiesCons(r: Row, s: seq<Row>, orders: seq<Order>, x: Row)
    ensures Ties([r] + s, orders, x) == (if Tied(orders, r, x) then [r] else []) + Ties(s, orders, x)
  {
    assert ([r] + s)[1..] == s;
  }

  lemma {:induction false} TiesInOrder(s: seq<Row>, o: Order, x: Row, rest: seq<Order>)
    requires InOrder(s, rest)
    ensures InOrder(Ties(s, [o], x), rest)
  {
    if s != [] {
      assert forall i, j :: 0 <= i < j < |s[1..]| ==> s[1..][i] == s[i + 1] && s[1..][j] == s[j + 1];
      TiesInOrder(s[1..], o, x, rest);
      var tail := Ties(s[1..], [o], x);
      forall j | 0 <= j < |tail| ensures !LexBefore(rest, tail[j], s[0]) {
        TiesMembers(s[1..], [o], x, tail[j]);
        var k :| 0 <= k < |s[1..]| && s[1..][k] == tail[j];
        assert s[k + 1] == tail[j];
      }
    }
  }

  /** Two tied rows appear among the ties in the same order. */
  lemma {:induction false} TiesPositions(s: seq<Row>, orders: seq<Order>, x: Row, i: nat, j: nat)
    requires i < j < |s| && Tied(orders, s[i], x) && Tied(orders, s[j], x)
    ensures exists a, b :: 0 <= a < b < |Ties(s, orders, x)|
                        && Ties(s, orders, x)[a] == s[i] && Ties(s, orders, x)[b] == s[j]
  {
    var all, rest := Ties(s, orders, x), Ties(s[1..], orders, x);
    if i == 0 {
      TiesMembers(s[1..], orders, x, s[j]);
      assert s[1..][j - 1] == s[j];
      var b :| 0 <= b < |rest| && rest[b] == s[j];
      assert all[0] == s[0] && all[b + 1] == s[j];
    } else {
      TiesPositions(s[1..], orders, x, i - 1, j - 1);
      var a, b :| 0 <= a < b < |rest| && rest[a] == s[i] && rest[b] == s[j];
      var d := |all| - |rest|;
      assert all[a + d] == s[i] && all[b + d] == s[j];
    }
  }

  /** Sorting stably by a key what is stably sorted by the others sorts by the key and then the others. */
  lemma SortsCompose(s: seq<Row>, t: seq<Row>, u: seq<Row>, o: Order, rest: seq<Order>)
    requires StablySorted(s, t, rest) && StablySorted(t, u, [o])
    ensures StablySorted(s, u, [o] + rest)
  {
    OneKeyEverywhere(o);
    assert ([o] + rest)[1..] == rest;
    forall i, j | 0 <= i < j < |u| ensures !LexBefore([o] + rest, u[j], u[i]) {
      assert !LexBefore([o], u[j], u[i]);
      if Tied([o], u[j], u[i]) {
        SelfTied([o], u[i]);
        TiesPositions(u, [o], u[i], i, j);
        var a, b :| 0 <= a < b < |Ties(u, [o], u[i])| && Ties(u, [o], u[i])[a] == u[i] && Ties(u, [o], u[i])[b] == u[j];
        TiesInOrder(t, o, u[i], rest);
        assert Ties(u, [o], u[i]) == Ties(t, [o], u[i]);
      }
    }
    forall x ensures Ties(u, [o] + rest, x) == Ties(s, [o] + rest, x) {
      TiesOfTies(u, o, rest, x);
      TiesOfTies(t, o, rest, x);
      TiesOfTies(s, o, rest, x);
    }
  }

  lemma {:induction false} NoKeys(s: seq<Row>)
    ensures StablySorted(s, s, [])
  {
  }

  /** Sorting once per key from last to first gives the one stable sort by all keys. */
  method ApplyOrdering(rows: seq<Row>, orders: seq<Order>) returns (ordered: seq<Row>)
    ensures StablySorted(rows, ordered, orders)
    ensures OrderedBy(ordered, orders)
  {
    ordered := rows;
    NoKeys(rows);
    assert orders[|orders|..] == [];
    var i: nat := |orders|;
    while i > 0
      invariant i <= |orders|
      invariant StablySorted(rows, ordered, orders[i..])
    {
      i := i - 1;
      SortByIsStable(ordered, orders[i]);
      SortsCompose(rows, ordered, SortBy(ordered, orders[i]), orders[i], orders[i + 1..]);
      assert orders[i..] == [orders[i]] + orders[i + 1..];
      ordered := SortBy(ordered, orders[i]);
    }
    assert orders[0..] == orders;
    InOrderMeans(ordered, orders);
  }

  // ---------------------------------------------------------------- paging

  /** OFFSET and LIMIT as slicing: what lies outside the rows is empty. */
  function Page<T>(rows: seq<T>, offset: Option<nat>, limit: Option<nat>): seq<T> {
    var from := if offset.None? then 0 else if offset.value < |rows| then offset.value else |rows|;
    if limit.None? then rows[from..]
    else rows[from..if from + limit.value < |rows| then from + limit.value else |rows|]
  }

  /** A page has the rows from the offset on, in their order, and as many as the limit allows. */
  lemma PageHas<T>(rows: seq<T>, offset: Option<nat>, limit: Option<nat>)
    ensures var page, from := Page(rows, offset, limit), if offset.Some? then offset.value else 0;
      var left := if from < |rows| then |rows| - from else 0;
      && |page| == (if limit.Some? && limit.value < left then limit.value else left)
      && forall i :: 0 <= i < |page| ==> page[i] == rows[from + i]
  {
  }

  /** The first `count` pages of a size, one after another. */
  function PagesUpTo(rows: seq<Row>, size: nat, count: nat): seq<Row> {
    if count == 0 then [] else PagesUpTo(rows, size, count - 1) + Page(rows, Some((count - 1) * size), Some(size))
  }

  lemma PageEnd(count: nat, size: nat)
    requires count > 0
    ensures (count - 1) * size + size == count * size
  {
  }

  lemma NextPage(rows: seq<Row>, from: nat, size: nat)
    ensures Page(rows, None, Some(from)) + Page(rows, Some(from), Some(size)) == Page(rows, None, Some(from + size))
  {
  }

  /** Consecutive pages concatenate to the rows they cover, and enough of them to all rows. */
  lemma {:induction false} PagesConcatenate(rows: seq<Row>, size: nat, count: nat)
    ensures PagesUpTo(rows, size, count) == Page(rows, None, Some(count * size))
    ensures count * size >= |rows| ==> PagesUpTo(rows, size, count) == rows
  {
    if count > 0 {
      PagesConcatenate(rows, size, count - 1);
      NextPage(rows, (count - 1) * size, size);
      PageEnd(count, size);
    }
  }
}

/** GROUP BY as a dictionary filled in one pass over the rows, and the aggregates of its groups. */
module Grouping {
  import opened Values
  import opened Catalog
  import opened Storage
  import opened Expressions
  import opened Ordering

  type GroupKey = seq<Value>

  datatype Group = Group(key: GroupKey, rows: seq<Row>)

  // ---------------------------------------------------------------- keys

  /** The values of the grouping columns, which the statement's checks have found in the schema. */
  function KeyOf(row: Row, columns: seq<string>): (key: GroupKey)
    ensures |key| == |columns|
  {
    seq(|columns|, i requires 0 <= i < |columns| => ValueOf(row, columns[i]))
  }

  /** Dictionary keys are the same when their values compare equal. */
  predicate SameKey(a: GroupKey, b: GroupKey) {
    |a| == |b| && forall i :: 0 <= i < |a| ==> Same(a[i], b[i])
  }

  lemma SameKeySymmetric(a: GroupKey, b: GroupKey)
    ensures SameKey(a, a) && (SameKey(a, b) <==> SameKey(b, a))
  {
  }

  lemma SameKeyTransitive(a: GroupKey, b: GroupKey, c: GroupKey)
    requires SameKey(a, b)
    ensures SameKey(a, c) <==> SameKey(b, c)
  {
    if |a| == |c| {
      forall i | 0 <= i < |a| ensures Same(a[i], c[i]) <==> Same(b[i], c[i]) {
        SameSubstitutes(a[i], b[i], c[i]);
      }
    }
  }

  // ---------------------------------------------------------------- the pass over the rows

  /** One more row: into the group of its key if there is one, else into a new last group. */
  function AddRow(groups: seq<Group>, key: GroupKey, row: Row): seq<Group> {
    if groups == [] then [Group(key, [row])]
    else if SameKey(groups[0].key, key) then [Group(groups[0].key, groups[0].rows + [row])] + groups[1..]
    else [groups[0]] + AddRow(groups[1..], key, row)
  }

  function GroupsOf(rows: seq<Row>, columns: seq<string>): seq<Group> {
    if rows == [] then []
    else AddRow(GroupsOf(rows[..|rows| - 1], columns), KeyOf(rows[|rows| - 1], columns), rows[|rows| - 1])
  }

  method GroupRows(rows: seq<Row>, columns: seq<string>) returns (groups: seq<Group>)
    ensures groups == GroupsOf(rows, columns) && Partition(rows, columns, groups)
  {
    groups := [];
    for n := 0 to |rows|
      invariant groups == GroupsOf(rows[..n], columns)
    {
      assert rows[..n + 1][..n] == rows[..n];
      groups := AddRow(groups, KeyOf(rows[n], columns), rows[n]);
    }
    assert rows[..|rows|] == rows;
    GroupsPartition(rows, columns);
  }

  // ---------------------------------------------------------------- what grouping promises

  /** The rows with a key, in their order. */
  function Members(rows: seq<Row>, columns: seq<string>, key: GroupKey): seq<Row> {
    if rows == [] then []
    else
      var last := rows[|rows| - 1];
      Members(rows[..|rows| - 1], columns, key) + if SameKey(key, KeyOf(last, columns)) then [last] else []
  }

  ghost predicate FirstAt(rows: seq<Row>, columns: seq<string>, key: GroupKey, p: nat) {
    && p < |rows| && SameKey(key, KeyOf(rows[p], columns))
    && forall q :: 0 <= q < p ==> !SameKey(key, KeyOf(rows[q], columns))
  }

  /** `position` is where the keys of the groups are first seen. */
  ghost predicate SeenAt(rows: seq<Row>, columns: seq<string>, groups: seq<Group>, position: seq<nat>) {
    && |position| == |groups|
    && (forall i :: 0 <= i < |groups| ==> FirstAt(rows, columns, groups[i].key, position[i]))
    && (forall i, j :: 0 <= i < j < |groups| ==> position[i] < position[j])
  }

  ghost predicate DistinctKeys(groups: seq<Group>) {
    forall i, j :: 0 <= i < j < |groups| ==> !SameKey(groups[i].key, groups[j].key)
  }

  ghost predicate Gathered(rows: seq<Row>, columns: seq<string>, groups: seq<Group>) {
    forall i :: 0 <= i < |groups| ==> groups[i].rows == Members(rows, columns, groups[i].key)
  }

  ghost predicate HasGroup(groups: seq<Group>, key: GroupKey) {
    exists i :: 0 <= i < |groups| && SameKey(groups[i].key, key)
  }

  ghost predicate Covered(rows: seq<Row>, columns: seq<string>, groups: seq<Group>) {
    forall p :: 0 <= p < |rows| ==> HasGroup(groups, KeyOf(rows[p], columns))
  }

  /** Every row is in exactly one group, with the rows of the same key in their order, and the
      groups come in the order in which their keys are first seen. */
  ghost predicate Partition(rows: seq<Row>, columns: seq<string>, groups: seq<Group>) {
    && DistinctKeys(groups)
    && Gathered(rows, columns, groups)
    && Covered(rows, columns, groups)
    && exists position :: SeenAt(rows, columns, groups, position)
  }

  lemma IsPartition(rows: seq<Row>, columns: seq<string>, groups: seq<Group>, position: seq<nat>)
    requires DistinctKeys(groups) && Gathered(rows, columns, groups) && Covered(rows, columns, groups)
    requires SeenAt(rows, columns, groups, position)
    ensures Partition(rows, columns, groups)
  {
  }

  /** The group at `k`, if there is one, is the one with the key. */
  ghost predicate OnlyGroup(groups: seq<Group>, key: GroupKey, k: nat) {
    forall i :: 0 <= i < |groups| ==> (SameKey(groups[i].key, key) <==> i == k)
  }

  /** Where the key goes: an old group grows, or a new one is added at the end. */
  lemma {:induction false} AddRowAt(groups: seq<Group>, key: GroupKey, row: Row) returns (k: nat)
    requires DistinctKeys(groups)
    ensures k <= |groups| && OnlyGroup(groups, key, k)
    ensures k == |groups| ==> AddRow(groups, key, row) == groups + [Group(key, [row])]
    ensures k < |groups| ==> AddRow(groups, key, row) == groups[k := Group(groups[k].key, groups[k].rows + [row])]
  {
    if groups == [] {
      k := 0;
    } else if SameKey(groups[0].key, key) {
      k := 0;
      FirstIsOnly(groups, key);
    } else {
      var i := AddRowAt(groups[1..], key, row);
      k := i + 1;
      OnlyGroupCons(groups, key, k);
      if i == |groups[1..]| {
        ConsAppend(groups, Group(key, [row]));
      } else {
        ConsUpdate(groups, i, Group(groups[k].key, groups[k].rows + [row]));
      }
    }
  }

  lemma ConsAppend(groups: seq<Group>, g: Group)
    requires groups != []
    ensures [groups[0]] + (groups[1..] + [g]) == groups + [g]
  {
  }

  lemma ConsUpdate(groups: seq<Group>, i: nat, g: Group)
    requires i + 1 < |groups|
    ensures [groups[0]] + groups[1..][i := g] == groups[i + 1 := g]
  {
  }

  lemma FirstIsOnly(groups: seq<Group>, key: GroupKey)
    requires DistinctKeys(groups) && groups != [] && SameKey(groups[0].key, key)
    ensures OnlyGroup(groups, key, 0)
  {
    forall i | 0 < i < |groups| ensures !SameKey(groups[i].key, key) {
      SameKeyTransitive(groups[0].key, key, groups[i].key);
      SameKeySymmetric(groups[i].key, key);
    }
  }

  lemma OnlyGroupCons(groups: seq<Group>, key: GroupKey, k: nat)
    requires groups != [] && !SameKey(groups[0].key, key) && k > 0 && OnlyGroup(groups[1..], key, k - 1)
    ensures OnlyGroup(groups, key, k)
  {
    forall i | 0 < i < |groups| ensures SameKey(groups[i].key, key) <==> i == k {
      assert groups[1..][i - 1] == groups[i];
    }
  }

  lemma FirstAtExtends(rows: seq<Row>, row: Row, columns: seq<string>, key: GroupKey, p: nat)
    requires FirstAt(rows, columns, key, p)
    ensures FirstAt(rows + [row], columns, key, p)
  {
    var more := rows + [row];
    assert forall q :: 0 <= q <= p ==> more[q] == rows[q];
  }

  lemma MembersSnoc(rows: seq<Row>, row: Row, columns: seq<string>, key: GroupKey)
    ensures Members(rows + [row], columns, key)
         == Members(rows, columns, key) + if SameKey(key, KeyOf(row, columns)) then [row] else []
  {
    var more := rows + [row];
    assert more[..|more| - 1] == rows;
  }

  lemma {:induction false} NoMembers(rows: seq<Row>, columns: seq<string>, key: GroupKey)
    requires forall p :: 0 <= p < |rows| ==> !SameKey(key, KeyOf(rows[p], columns))
    ensures Members(rows, columns, key) == []
  {
    if rows != [] {
      NoMembers(rows[..|rows| - 1], columns, key);
    }
  }

  /** A key without a group is the key of no row. */
  lemma NewKey(rows: seq<Row>, columns: seq<string>, groups: seq<Group>, key: GroupKey)
    requires Covered(rows, columns, groups) && !HasGroup(groups, key)
    ensures forall p :: 0 <= p < |rows| ==> !SameKey(key, KeyOf(rows[p], columns))
  {
    forall p | 0 <= p < |rows| ensures !SameKey(key, KeyOf(rows[p], columns)) {
      var i :| 0 <= i < |groups| && SameKey(groups[i].key, KeyOf(rows[p], columns));
      SameKeyTransitive(groups[i].key, KeyOf(rows[p], columns), key);
      SameKeySymmetric(KeyOf(rows[p], columns), key);
    }
  }

  ghost predicate SameKeys(groups: seq<Group>, more: seq<Group>) {
    |groups| <= |more| && forall i :: 0 <= i < |groups| ==> more[i].key == groups[i].key
  }

  lemma GroupsStay(groups: seq<Group>, more: seq<Group>, key: GroupKey)
    requires SameKeys(groups, more) && HasGroup(groups, key)
    ensures HasGroup(more, key)
  {
    var i :| 0 <= i < |groups| && SameKey(groups[i].key, key);
    assert more[i].key == groups[i].key;
  }

  lemma AllHaveGroups(rows: seq<Row>, row: Row, columns: seq<string>, groups: seq<Group>, more: seq<Group>)
    requires Covered(rows, columns, groups)
    requires SameKeys(groups, more) && HasGroup(more, KeyOf(row, columns))
    ensures Covered(rows + [row], columns, more)
  {
    forall p | 0 <= p < |rows + [row]| ensures HasGroup(more, KeyOf((rows + [row])[p], columns)) {
      if p < |rows| {
        GroupsStay(groups, more, KeyOf(rows[p], columns));
      }
    }
  }

  lemma SeenStays(rows: seq<Row>, row: Row, columns: seq<string>, groups: seq<Group>, more: seq<Group>,
                  position: seq<nat>)
    requires SeenAt(rows, columns, groups, position) && SameKeys(groups, more) && |more| == |groups|
    ensures SeenAt(rows + [row], columns, more, position)
  {
    forall i | 0 <= i < |more| ensures FirstAt(rows + [row], columns, more[i].key, position[i]) {
      FirstAtExtends(rows, row, columns, groups[i].key, position[i]);
    }
  }

  lemma NewIsSeenLast(rows: seq<Row>, row: Row, columns: seq<string>, groups: seq<Group>, last: Group,
                      position: seq<nat>) returns (now: seq<nat>)
    requires SeenAt(rows, columns, groups, position) && last.key == KeyOf(row, columns)
    requires forall p :: 0 <= p < |rows| ==> !SameKey(last.key, KeyOf(rows[p], columns))
    ensures SeenAt(rows + [row], columns, groups + [last], now)
  {
    now := position + [|rows|];
    SeenStays(rows, row, columns, groups, groups, position);
    SameKeySymmetric(last.key, last.key);
    assert FirstAt(rows + [row], columns, last.key, |rows|);
    assert forall i :: 0 <= i < |position| ==> position[i] < |rows| by {
      assert forall i :: 0 <= i < |groups| ==> FirstAt(rows, columns, groups[i].key, position[i]);
    }
  }

  lemma SameKeysDistinct(groups: seq<Group>, more: seq<Group>)
    requires DistinctKeys(groups) && SameKeys(groups, more) && |more| == |groups|
    ensures DistinctKeys(more)
  {
  }

  lemma GatheredGrows(rows: seq<Row>, row: Row, columns: seq<string>, groups: seq<Group>, k: nat, grown: seq<Group>)
    requires Gathered(rows, columns, groups) && k < |groups|
    requires OnlyGroup(groups, KeyOf(row, columns), k)
    requires grown == groups[k := Group(groups[k].key, groups[k].rows + [row])]
    ensures Gathered(rows + [row], columns, grown)
  {
    forall i | 0 <= i < |grown| ensures grown[i].rows == Members(rows + [row], columns, grown[i].key) {
      assert grown[i].key == groups[i].key;
      MembersSnoc(rows, row, columns, groups[i].key);
    }
  }

  lemma GrownKeys(groups: seq<Group>, k: nat, grown: seq<Group>)
    requires k < |groups| && |grown| == |groups| && grown[k].key == groups[k].key
    requires grown == groups[k := grown[k]]
    ensures SameKeys(groups, grown)
  {
  }

  lemma OldGroupGrows(rows: seq<Row>, row: Row, columns: seq<string>, groups: seq<Group>, k: nat)
    requires Partition(rows, columns, groups) && k < |groups|
    requires OnlyGroup(groups, KeyOf(row, columns), k)
    ensures Partition(rows + [row], columns, groups[k := Group(groups[k].key, groups[k].rows + [row])])
  {
    var grown := groups[k := Group(groups[k].key, groups[k].rows + [row])];
    GrownKeys(groups, k, grown);
    SameKeysDistinct(groups, grown);
    GatheredGrows(rows, row, columns, groups, k, grown);
    assert HasGroup(groups, KeyOf(row, columns)) by {
      assert SameKey(groups[k].key, KeyOf(row, columns));
    }
    GroupsStay(groups, grown, KeyOf(row, columns));
    AllHaveGroups(rows, row, columns, groups, grown);
    var position :| SeenAt(rows, columns, groups, position);
    SeenStays(rows, row, columns, groups, grown, position);
    IsPartition(rows + [row], columns, grown, position);
  }

  lemma GatheredNew(rows: seq<Row>, row: Row, columns: seq<string>, groups: seq<Group>)
    requires Gathered(rows, columns, groups) && !HasGroup(groups, KeyOf(row, columns))
    requires forall p :: 0 <= p < |rows| ==> !SameKey(KeyOf(row, columns), KeyOf(rows[p], columns))
    ensures Gathered(rows + [row], columns, groups + [Group(KeyOf(row, columns), [row])])
  {
    var key := KeyOf(row, columns);
    SameKeySymmetric(key, key);
    NoMembers(rows, columns, key);
    MembersSnoc(rows, row, columns, key);
    forall i | 0 <= i < |groups| ensures groups[i].rows == Members(rows + [row], columns, groups[i].key) {
      MembersSnoc(rows, row, columns, groups[i].key);
    }
  }

  lemma DistinctNew(groups: seq<Group>, last: Group)
    requires DistinctKeys(groups) && !HasGroup(groups, last.key)
    ensures DistinctKeys(groups + [last])
  {
    assert forall i :: 0 <= i < |groups| ==> !SameKey(groups[i].key, last.key);
  }

  lemma LastHasGroup(groups: seq<Group>, last: Group)
    ensures SameKeys(groups, groups + [last]) && HasGroup(groups + [last], last.key)
  {
    SameKeySymmetric(last.key, last.key);
    assert (groups + [last])[|groups|] == last;
  }

  lemma NewGroupIsAdded(rows: seq<Row>, row: Row, columns: seq<string>, groups: seq<Group>)
    requires Partition(rows, columns, groups) && !HasGroup(groups, KeyOf(row, columns))
    ensures Partition(rows + [row], columns, groups + [Group(KeyOf(row, columns), [row])])
  {
    var key := KeyOf(row, columns);
    var last := Group(key, [row]);
    var grown := groups + [last];
    NewKey(rows, columns, groups, key);
    GatheredNew(rows, row, columns, groups);
    DistinctNew(groups, last);
    LastHasGroup(groups, last);
    AllHaveGroups(rows, row, columns, groups, grown);
    var position :| SeenAt(rows, columns, groups, position);
    var now := NewIsSeenLast(rows, row, columns, groups, last, position);
    IsPartition(rows + [row], columns, grown, now);
  }

  /** The dictionary filled in one pass is the partition of the rows by key, in first-seen order. */
  lemma {:induction false} GroupsPartition(rows: seq<Row>, columns: seq<string>)
    ensures Partition(rows, columns, GroupsOf(rows, columns))
  {
    if rows == [] {
      assert SeenAt(rows, columns, [], []);
    } else {
      var init, row := rows[..|rows| - 1], rows[|rows| - 1];
      assert rows == init + [row];
      GroupsPartition(init, columns);
      var groups := GroupsOf(init, columns);
      var k := AddRowAt(groups, KeyOf(row, columns), row);
      if k < |groups| {
        OldGroupGrows(init, row, columns, groups, k);
      } else {
        NewGroupIsAdded(init, row, columns, groups);
      }
    }
  }

  /** The first row of a group stands for all of them: they agree on the grouping columns. */
  lemma RepresentativeHasTheKey(rows: seq<Row>, columns: seq<string>, groups: seq<Group>, g: nat, r: nat)
    requires Gathered(rows, columns, groups) && g < |groups| && r < |groups[g].rows|
    ensures SameKey(KeyOf(groups[g].rows[0], columns), KeyOf(groups[g].rows[r], columns))
  {
    var key, members := groups[g].key, groups[g].rows;
    MembersHaveKey(rows, columns, key, 0);
    MembersHaveKey(rows, columns, key, r);
    SameKeyTransitive(key, KeyOf(members[0], columns), KeyOf(members[r], columns));
  }

  lemma {:induction false} MembersHaveKey(rows: seq<Row>, columns: seq<string>, key: GroupKey, r: nat)
    requires r < |Members(rows, columns, key)|
    ensures SameKey(key, KeyOf(Members(rows, columns, key)[r], columns))
  {
    if r < |Members(rows[..|rows| - 1], columns, key)| {
      MembersHaveKey(rows[..|rows| - 1], columns, key, r);
    }
  }

  /** Rows of two groups have the same values, as SQL compares them, in all grouping columns exactly if
      it is one group. */
  lemma GroupsByValues(rows: seq<Row>, columns: seq<string>, g: nat, r: nat, h: nat, q: nat)
    requires g < |GroupsOf(rows, columns)| && r < |GroupsOf(rows, columns)[g].rows|
    requires h < |GroupsOf(rows, columns)| && q < |GroupsOf(rows, columns)[h].rows|
    ensures var a, b := GroupsOf(rows, columns)[g].rows[r], GroupsOf(rows, columns)[h].rows[q];
      g == h <==> forall c :: 0 <= c < |columns| ==> Same(ValueOf(a, columns[c]), ValueOf(b, columns[c]))
  {
    var groups := GroupsOf(rows, columns);
    GroupsPartition(rows, columns);
    SameGroupIff(rows, columns, groups, g, r, h, q);
    SameKeyIff(groups[g].rows[r], groups[h].rows[q], columns);
  }

  lemma SameKeyIff(a: Row, b: Row, columns: seq<string>)
    ensures SameKey(KeyOf(a, columns), KeyOf(b, columns)) <==>
      forall c :: 0 <= c < |columns| ==> Same(ValueOf(a, columns[c]), ValueOf(b, columns[c]))
  {
    var x, y := KeyOf(a, columns), KeyOf(b, columns);
    assert forall c :: 0 <= c < |columns| ==> x[c] == ValueOf(a, columns[c]) && y[c] == ValueOf(b, columns[c]);
  }

  lemma SameGroupIff(rows: seq<Row>, columns: seq<string>, groups: seq<Group>, g: nat, r: nat, h: nat, q: nat)
    requires Gathered(rows, columns, groups) && DistinctKeys(groups)
    requires g < |groups| && r < |groups[g].rows| && h < |groups| && q < |groups[h].rows|
    ensures g == h <==> SameKey(KeyOf(groups[g].rows[r], columns), KeyOf(groups[h].rows[q], columns))
  {
    MembersHaveKey(rows, columns, groups[g].key, r);
    MembersHaveKey(rows, columns, groups[h].key, q);
    KeysThrough(groups[g].key, KeyOf(groups[g].rows[r], columns), groups[h].key, KeyOf(groups[h].rows[q], columns));
    SameKeySymmetric(groups[g].key, groups[h].key);
  }

  lemma KeysThrough(k: GroupKey, a: GroupKey, l: GroupKey, b: GroupKey)
    requires SameKey(k, a) && SameKey(l, b)
    ensures SameKey(k, l) <==> SameKey(a, b)
  {
    SameKeyTransitive(k, a, b);
    SameKeySymmetric(k, b);
    SameKeySymmetric(k, l);
    SameKeyTransitive(l, b, k);
  }

  // ---------------------------------------------------------------- properties of all rows

  ghost predicate AllRows(rows: seq<Row>, P: Row -> bool) {
    forall i :: 0 <= i < |rows| ==> P(rows[i])
  }

  ghost predicate AllGroups(groups: seq<Group>, P: Row -> bool) {
    forall i :: 0 <= i < |groups| ==> AllRows(groups[i].rows, P)
  }

  lemma AllRowsSnoc(rows: seq<Row>, row: Row, P: Row -> bool)
    ensures AllRows(rows + [row], P) <==> AllRows(rows, P) && P(row)
  {
    var more := rows + [row];
    assert more[|rows|] == row;
    assert forall i :: 0 <= i < |rows| ==> more[i] == rows[i];
  }

  lemma AllGroupsCons(g: Group, groups: seq<Group>, P: Row -> bool)
    ensures AllGroups([g] + groups, P) <==> AllRows(g.rows, P) && AllGroups(groups, P)
  {
    var more := [g] + groups;
    assert more[0] == g;
    assert forall i :: 0 <= i < |groups| ==> more[i + 1] == groups[i];
  }

  lemma {:induction false} AddRowAll(groups: seq<Group>, key: GroupKey, row: Row, P: Row -> bool)
    ensures AllGroups(AddRow(groups, key, row), P) <==> AllGroups(groups, P) && P(row)
  {
    if groups == [] {
      assert AddRow(groups, key, row) == [Group(key, [row])] + [];
      AllGroupsCons(Group(key, [row]), [], P);
      AllRowsSnoc([], row, P);
      assert [] + [row] == [row];
    } else {
      var first, rest := groups[0], groups[1..];
      assert groups == [first] + rest;
      AllGroupsCons(first, rest, P);
      if SameKey(first.key, key) {
        AllRowsSnoc(first.rows, row, P);
        AllGroupsCons(Group(first.key, first.rows + [row]), rest, P);
      } else {
        AddRowAll(rest, key, row, P);
        AllGroupsCons(first, AddRow(rest, key, row), P);
      }
    }
  }

  /** What holds of all rows holds of all rows of all groups, and the other way round. */
  lemma {:induction false} AllInGroups(rows: seq<Row>, columns: seq<string>, P: Row -> bool)
    ensures AllGroups(GroupsOf(rows, columns), P) <==> AllRows(rows, P)
  {
    if rows != [] {
      var init, row := rows[..|rows| - 1], rows[|rows| - 1];
      assert rows == init + [row];
      AllInGroups(init, columns, P);
      AddRowAll(GroupsOf(init, columns), KeyOf(row, columns), row, P);
      AllRowsSnoc(init, row, P);
    }
  }

  // ---------------------------------------------------------------- sums over groups

  function Total(rows: seq<Row>, f: Row -> real): real {
    if rows == [] then 0.0 else f(rows[0]) + Total(rows[1..], f)
  }

  function GroupsTotal(groups: seq<Group>, f: Row -> real): real {
    if groups == [] then 0.0 else Total(groups[0].rows, f) + GroupsTotal(groups[1..], f)
  }

  lemma {:induction false} TotalSnoc(rows: seq<Row>, row: Row, f: Row -> real)
    ensures Total(rows + [row], f) == Total(rows, f) + f(row)
  {
    if rows == [] {
      assert [row][1..] == [];
    } else {
      TotalSnoc(rows[1..], row, f);
      assert (rows + [row])[1..] == rows[1..] + [row];
    }
  }

  lemma {:induction false} AddRowTotal(groups: seq<Group>, key: GroupKey, row: Row, f: Row -> real)
    ensures GroupsTotal(AddRow(groups, key, row), f) == GroupsTotal(groups, f) + f(row)
  {
    if groups == [] {
      TotalSnoc([], row, f);
      assert [] + [row] == [row];
      assert [Group(key, [row])][1..] == [];
    } else if SameKey(groups[0].key, key) {
      TotalSnoc(groups[0].rows, row, f);
    } else {
      AddRowTotal(groups[1..], key, row, f);
    }
  }

  /** Whatever is added up over the rows is the sum of what is added up over each group. */
  lemma {:induction false} GroupsAddUp(rows: seq<Row>, columns: seq<string>, f: Row -> real)
    ensures GroupsTotal(GroupsOf(rows, columns), f) == Total(rows, f)
  {
    if rows != [] {
      var init, row := rows[..|rows| - 1], rows[|rows| - 1];
      GroupsAddUp(init, columns, f);
      AddRowTotal(GroupsOf(init, columns), KeyOf(row, columns), row, f);
      TotalSnoc(init, row, f);
      assert rows == init + [row];
    }
  }

  // ---------------------------------------------------------------- aggregates

  datatype Aggregate = COUNT | SUM | AVG

  /** The values of an expression on the rows, or the first error. */
  function ValuesOn(e: Expr, rows: seq<Row>): Outcome<seq<Value>> {
    if rows == [] then Ok([])
    else
      var v := Evaluate(e, rows[0]);
      if v.Raised? then Raised(v.error)
      else
        var rest := ValuesOn(e, rows[1..]);
        if rest.Raised? then rest else Ok([v.value] + rest.value)
  }

  function Known(values: seq<Value>): seq<Value> {
    if values == [] then [] else (if values[0] != Null then [values[0]] else []) + Known(values[1..])
  }

  predicate Summable(v: Value) {
    v.Int? || v.Float?
  }

  predicate AllSummable(values: seq<Value>) {
    forall i :: 0 <= i < |values| ==> Summable(values[i])
  }

  function Sum(values: seq<Value>): real
    requires AllSummable(values)
  {
    if values == [] then 0.0 else Number(values[0]) + Sum(values[1..])
  }

  /** `COUNT(*)`, and `COUNT`, `SUM` and `AVG` of an expression over its non-NULL values. */
  function EvaluateAggregate(a: Aggregate, argument: Expr, rows: seq<Row>): Outcome<Value> {
    if a == COUNT && argument == Identifier("*") then Ok(Int(|rows|))
    else
      var values := ValuesOn(argument, rows);
      if values.Raised? then Raised(values.error)
      else
        var known := Known(values.value);
        if a == COUNT then Ok(Int(|known|))
        else if !AllSummable(known) then Raised(ExecutionFault)
        else if known == [] then Ok(Null)
        else if a == SUM then Ok(Float(Sum(known)))
        else Ok(Float(Sum(known) / |known| as real))
  }

  /** What one row adds to a count and to a sum. */
  function Counted(e: Expr): Row -> real {
    row => var v := Evaluate(e, row); if v.Ok? && v.value != Null then 1.0 else 0.0
  }

  function Added(e: Expr): Row -> real {
    row => var v := Evaluate(e, row); if v.Ok? && Summable(v.value) then Number(v.value) else 0.0
  }

  function EvaluatesOn(e: Expr): Row -> bool {
    row => Evaluate(e, row).Ok?
  }

  function SumsOn(e: Expr): Row -> bool {
    row => Evaluate(e, row).Ok? && (Evaluate(e, row).value == Null || Summable(Evaluate(e, row).value))
  }

  ghost predicate Evaluates(e: Expr, rows: seq<Row>) {
    AllRows(rows, EvaluatesOn(e))
  }

  ghost predicate Sums(e: Expr, rows: seq<Row>) {
    AllRows(rows, SumsOn(e))
  }

  lemma AllRowsCons(row: Row, rows: seq<Row>, P: Row -> bool)
    ensures AllRows([row] + rows, P) <==> P(row) && AllRows(rows, P)
  {
    var more := [row] + rows;
    assert more[0] == row;
    assert forall i :: 0 <= i < |rows| ==> more[i + 1] == rows[i];
  }

  lemma {:induction false} ValuesOnOk(e: Expr, rows: seq<Row>)
    ensures ValuesOn(e, rows).Ok? <==> Evaluates(e, rows)
  {
    if rows != [] {
      assert rows == [rows[0]] + rows[1..];
      ValuesOnOk(e, rows[1..]);
      AllRowsCons(rows[0], rows[1..], EvaluatesOn(e));
    }
  }

  lemma KnownCons(v: Value, values: seq<Value>)
    ensures Known([v] + values) == if v != Null then [v] + Known(values) else Known(values)
  {
    assert ([v] + values)[1..] == values;
  }

  lemma {:induction false} CountKnown(e: Expr, rows: seq<Row>)
    requires ValuesOn(e, rows).Ok?
    ensures |Known(ValuesOn(e, rows).value)| as real == Total(rows, Counted(e))
  {
    if rows != [] {
      CountKnown(e, rows[1..]);
      KnownCons(Evaluate(e, rows[0]).value, ValuesOn(e, rows[1..]).value);
    }
  }

  lemma SummableCons(v: Value, values: seq<Value>)
    ensures AllSummable([v] + values) <==> Summable(v) && AllSummable(values)
  {
    var all := [v] + values;
    assert all[0] == v;
    assert forall i :: 0 <= i < |values| ==> all[i + 1] == values[i];
  }

  lemma {:induction false} SumsIffSummable(e: Expr, rows: seq<Row>)
    requires ValuesOn(e, rows).Ok?
    ensures AllSummable(Known(ValuesOn(e, rows).value)) <==> Sums(e, rows)
  {
    if rows != [] {
      var v, others := Evaluate(e, rows[0]).value, ValuesOn(e, rows[1..]).value;
      SumsIffSummable(e, rows[1..]);
      AllRowsCons(rows[0], rows[1..], SumsOn(e));
      assert rows == [rows[0]] + rows[1..];
      KnownCons(v, others);
      SummableCons(v, Known(others));
    }
  }

  lemma {:induction false} SumKnown(e: Expr, rows: seq<Row>)
    requires ValuesOn(e, rows).Ok? && AllSummable(Known(ValuesOn(e, rows).value))
    ensures Sum(Known(ValuesOn(e, rows).value)) == Total(rows, Added(e))
  {
    if rows != [] {
      var v, others := Evaluate(e, rows[0]).value, ValuesOn(e, rows[1..]).value;
      KnownCons(v, others);
      var known := Known(ValuesOn(e, rows).value);
      if v != Null {
        assert known[0] == v && known[1..] == Known(others);
      }
      SumKnown(e, rows[1..]);
    }
  }

  lemma ValuesAdd(e: Expr, rows: seq<Row>)
    ensures ValuesOn(e, rows).Ok? <==> Evaluates(e, rows)
    ensures Evaluates(e, rows) ==> |Known(ValuesOn(e, rows).value)| as real == Total(rows, Counted(e))
    ensures Evaluates(e, rows) ==> (AllSummable(Known(ValuesOn(e, rows).value)) <==> Sums(e, rows))
    ensures Sums(e, rows) ==> Sum(Known(ValuesOn(e, rows).value)) == Total(rows, Added(e))
  {
    ValuesOnOk(e, rows);
    if Evaluates(e, rows) {
      CountKnown(e, rows);
      SumsIffSummable(e, rows);
      if Sums(e, rows) {
        SumKnown(e, rows);
      }
    }
  }

  /** NULL when no row has a value. */
  function SumOf(e: Expr, rows: seq<Row>): Value {
    if Total(rows, Counted(e)) == 0.0 then Null else Float(Total(rows, Added(e)))
  }

  /** Exactly when an aggregate raises, and its value in terms of what each row adds. */
  lemma AggregateMeaning(e: Expr, rows: seq<Row>)
    requires e != Identifier("*")
    ensures EvaluateAggregate(COUNT, e, rows).Ok? <==> Evaluates(e, rows)
    ensures EvaluateAggregate(SUM, e, rows).Ok? <==> Sums(e, rows)
    ensures Evaluates(e, rows) ==>
      (var c := EvaluateAggregate(COUNT, e, rows).value; c.Int? && c.i as real == Total(rows, Counted(e)))
    ensures Sums(e, rows) ==> EvaluateAggregate(SUM, e, rows).value == SumOf(e, rows)
  {
    ValuesAdd(e, rows);
  }

  /** From the COUNT and SUM of some rows to those with one row more: a NULL adds nothing, any other
      value one to the COUNT and its number to the SUM. */
  predicate OneMoreValue(v: Value, count: Outcome<Value>, sum: Outcome<Value>, count': Outcome<Value>,
                         sum': Outcome<Value>)
  {
    if v == Null then count' == count && sum' == sum
    else
      && (v.Int? || v.Float?) && count.Ok? && count.value.Int? && sum.Ok? && (sum.value.Null? || sum.value.Float?)
      && count' == Ok(Int(count.value.i + 1))
      && sum' == Ok(Float((if v.Int? then v.i as real else v.f) + if sum.value.Float? then sum.value.f else 0.0))
  }

  lemma AggregateSteps(e: Expr, row: Row, rest: seq<Row>)
    requires e != Identifier("*") && Sums(e, [row] + rest)
    ensures Evaluate(e, row).Ok?
    ensures OneMoreValue(Evaluate(e, row).value, EvaluateAggregate(COUNT, e, rest), EvaluateAggregate(SUM, e, rest),
                         EvaluateAggregate(COUNT, e, [row] + rest), EvaluateAggregate(SUM, e, [row] + rest))
  {
    AllRowsCons(row, rest, SumsOn(e));
    KnownValues(e, rest);
    KnownValues(e, [row] + rest);
    ValuesCons(e, row, rest);
    KnownCons(Evaluate(e, row).value, ValuesOn(e, rest).value);
    OneMoreKnown(Evaluate(e, row).value, Known(ValuesOn(e, rest).value));
  }

  lemma AggregateOfNone(e: Expr)
    requires e != Identifier("*")
    ensures EvaluateAggregate(COUNT, e, []) == Ok(Int(0)) && EvaluateAggregate(SUM, e, []) == Ok(Null)
  {
  }

  function SumValue(known: seq<Value>): Value
    requires AllSummable(known)
  {
    if known == [] then Null else Float(Sum(known))
  }

  lemma OneMoreKnown(v: Value, known: seq<Value>)
    requires AllSummable(known) && (v == Null || Summable(v))
    ensures var all := if v != Null then [v] + known else known;
      && AllSummable(all)
      && OneMoreValue(v, Ok(Int(|known|)), Ok(SumValue(known)), Ok(Int(|all|)), Ok(SumValue(all)))
  {
    if v != Null {
      SumCons(v, known);
    }
  }

  lemma ValuesCons(e: Expr, row: Row, rest: seq<Row>)
    requires Evaluate(e, row).Ok? && ValuesOn(e, rest).Ok?
    ensures ValuesOn(e, [row] + rest) == Ok([Evaluate(e, row).value] + ValuesOn(e, rest).value)
  {
    assert ([row] + rest)[0] == row && ([row] + rest)[1..] == rest;
  }

  lemma SumCons(v: Value, values: seq<Value>)
    requires Summable(v) && AllSummable(values)
    ensures AllSummable([v] + values) && Sum([v] + values) == Number(v) + Sum(values)
  {
    SummableCons(v, values);
    assert ([v] + values)[1..] == values;
  }

  /** COUNT and SUM in terms of the values that are not NULL. */
  lemma KnownValues(e: Expr, rows: seq<Row>)
    requires e != Identifier("*") && Sums(e, rows)
    ensures ValuesOn(e, rows).Ok? && AllSummable(Known(ValuesOn(e, rows).value))
    ensures var known := Known(ValuesOn(e, rows).value);
      && EvaluateAggregate(COUNT, e, rows) == Ok(Int(|known|))
      && EvaluateAggregate(SUM, e, rows) == Ok(SumValue(known))
  {
    ValuesAdd(e, rows);
  }

  /** AVG is SUM over COUNT, and raises exactly when SUM does. */
  lemma AverageIsSumOverCount(e: Expr, rows: seq<Row>)
    requires e != Identifier("*")
    ensures EvaluateAggregate(AVG, e, rows).Ok? <==> EvaluateAggregate(SUM, e, rows).Ok?
    ensures EvaluateAggregate(SUM, e, rows) == Ok(Null) ==> EvaluateAggregate(AVG, e, rows) == Ok(Null)
    ensures (EvaluateAggregate(SUM, e, rows).Ok? && EvaluateAggregate(SUM, e, rows).value != Null) ==> (
              var c, s := EvaluateAggregate(COUNT, e, rows), EvaluateAggregate(SUM, e, rows);
              c.Ok? && c.value.Int? && c.value.i > 0 && s.value.Float?
              && EvaluateAggregate(AVG, e, rows) == Ok(Float(s.value.f / c.value.i as real)))
  {
  }

  // ---------------------------------------------------------------- grouped against ungrouped

  function EachGroup(a: Aggregate, e: Expr, groups: seq<Group>): seq<Outcome<Value>> {
    seq(|groups|, i requires 0 <= i < |groups| => EvaluateAggregate(a, e, groups[i].rows))
  }

  ghost predicate AllOk(results: seq<Outcome<Value>>) {
    forall i :: 0 <= i < |results| ==> results[i].Ok?
  }

  function Contribution(result: Outcome<Value>): real {
    if result.Ok? && Summable(result.value) then Number(result.value) else 0.0
  }

  /** Adding up group results, a NULL counting as nothing. */
  function Combined(results: seq<Outcome<Value>>): real {
    if results == [] then 0.0 else Contribution(results[0]) + Combined(results[1..])
  }

  lemma EachGroupCons(a: Aggregate, e: Expr, groups: seq<Group>)
    requires groups != []
    ensures EachGroup(a, e, groups)[0] == EvaluateAggregate(a, e, groups[0].rows)
    ensures EachGroup(a, e, groups)[1..] == EachGroup(a, e, groups[1..])
  {
  }

  function One(row: Row): real {
    1.0
  }

  lemma {:induction false} TotalOfOne(rows: seq<Row>)
    ensures Total(rows, One) == |rows| as real
  {
    if rows != [] {
      TotalOfOne(rows[1..]);
    }
  }

  lemma {:induction false} CombinedStars(groups: seq<Group>)
    ensures Combined(EachGroup(COUNT, Identifier("*"), groups)) == GroupsTotal(groups, One)
  {
    if groups != [] {
      CombinedStars(groups[1..]);
      EachGroupCons(COUNT, Identifier("*"), groups);
      TotalOfOne(groups[0].rows);
    }
  }

  /** The group COUNT(*)s add up to the ungrouped COUNT(*). */
  lemma CountsAddUp(rows: seq<Row>, columns: seq<string>)
    ensures EvaluateAggregate(COUNT, Identifier("*"), rows) == Ok(Int(|rows|))
    ensures Combined(EachGroup(COUNT, Identifier("*"), GroupsOf(rows, columns))) == |rows| as real
  {
    CombinedStars(GroupsOf(rows, columns));
    GroupsAddUp(rows, columns, One);
    TotalOfOne(rows);
  }

  lemma {:induction false} CombinedCounts(e: Expr, groups: seq<Group>)
    requires e != Identifier("*") && AllGroups(groups, EvaluatesOn(e))
    ensures Combined(EachGroup(COUNT, e, groups)) == GroupsTotal(groups, Counted(e))
  {
    if groups != [] {
      CombinedCounts(e, groups[1..]);
      EachGroupCons(COUNT, e, groups);
      AggregateMeaning(e, groups[0].rows);
    }
  }

  lemma SumContributes(e: Expr, rows: seq<Row>)
    requires e != Identifier("*") && Sums(e, rows)
    ensures Contribution(EvaluateAggregate(SUM, e, rows)) == Total(rows, Added(e))
  {
    AggregateMeaning(e, rows);
    NothingAdded(e, rows);
  }

  lemma {:induction false} CombinedSums(e: Expr, groups: seq<Group>)
    requires e != Identifier("*") && AllGroups(groups, SumsOn(e))
    ensures Combined(EachGroup(SUM, e, groups)) == GroupsTotal(groups, Added(e))
  {
    if groups != [] {
      CombinedSums(e, groups[1..]);
      EachGroupCons(SUM, e, groups);
      SumContributes(e, groups[0].rows);
    }
  }

  lemma {:induction false} NothingAdded(e: Expr, rows: seq<Row>)
    ensures Total(rows, Counted(e)) >= 0.0
    ensures Total(rows, Counted(e)) == 0.0 ==> Total(rows, Added(e)) == 0.0
  {
    if rows != [] {
      NothingAdded(e, rows[1..]);
    }
  }

  /** The group COUNTs of an expression add up to the ungrouped COUNT, and raise only if it does. */
  lemma ColumnCountsAddUp(e: Expr, rows: seq<Row>, columns: seq<string>)
    requires e != Identifier("*")
    ensures AllOk(EachGroup(COUNT, e, GroupsOf(rows, columns))) <==> EvaluateAggregate(COUNT, e, rows).Ok?
    ensures EvaluateAggregate(COUNT, e, rows).Ok? ==>
              EvaluateAggregate(COUNT, e, rows).value.Int?
              && Combined(EachGroup(COUNT, e, GroupsOf(rows, columns)))
              == EvaluateAggregate(COUNT, e, rows).value.i as real
  {
    var groups := GroupsOf(rows, columns);
    AggregateMeaning(e, rows);
    AllInGroups(rows, columns, EvaluatesOn(e));
    forall i | 0 <= i < |groups|
      ensures EachGroup(COUNT, e, groups)[i].Ok? <==> AllRows(groups[i].rows, EvaluatesOn(e))
    {
      AggregateMeaning(e, groups[i].rows);
    }
    if Evaluates(e, rows) {
      CombinedCounts(e, groups);
      GroupsAddUp(rows, columns, Counted(e));
    }
  }

  /** The group SUMs, a NULL one counting as nothing, add up to the ungrouped SUM; the ungrouped SUM
      is NULL exactly when all of them are; and they raise only if it does. */
  lemma SumsCombine(e: Expr, rows: seq<Row>, columns: seq<string>)
    requires e != Identifier("*")
    ensures AllOk(EachGroup(SUM, e, GroupsOf(rows, columns))) <==> EvaluateAggregate(SUM, e, rows).Ok?
    ensures EvaluateAggregate(SUM, e, rows).Ok? ==>
      SumIsOf(EvaluateAggregate(SUM, e, rows).value, EachGroup(SUM, e, GroupsOf(rows, columns)))
  {
    var groups := GroupsOf(rows, columns);
    AggregateMeaning(e, rows);
    AllInGroups(rows, columns, SumsOn(e));
    forall i | 0 <= i < |groups| ensures EachGroup(SUM, e, groups)[i].Ok? <==> AllRows(groups[i].rows, SumsOn(e)) {
      AggregateMeaning(e, groups[i].rows);
    }
    if Sums(e, rows) {
      CombinedSums(e, groups);
      GroupsAddUp(rows, columns, Added(e));
      GroupsAddUp(rows, columns, Counted(e));
      SumsAreNull(e, groups);
    }
  }

  /** The value is NULL if all results are NULL, and the sum of the others if not. */
  ghost predicate SumIsOf(value: Value, results: seq<Outcome<Value>>) {
    if forall i :: 0 <= i < |results| ==> results[i] == Ok(Null) then value == Null
    else value == Float(Combined(results))
  }

  lemma {:induction false} SumsAreNull(e: Expr, groups: seq<Group>)
    requires e != Identifier("*") && AllGroups(groups, SumsOn(e))
    ensures GroupsTotal(groups, Counted(e)) >= 0.0
    ensures GroupsTotal(groups, Counted(e)) == 0.0 <==>
      forall i :: 0 <= i < |groups| ==> EachGroup(SUM, e, groups)[i] == Ok(Null)
  {
    if groups != [] {
      var all, rest := EachGroup(SUM, e, groups), EachGroup(SUM, e, groups[1..]);
      SumsAreNull(e, groups[1..]);
      EachGroupCons(SUM, e, groups);
      NothingAdded(e, groups[0].rows);
      AggregateMeaning(e, groups[0].rows);
      assert forall i :: 0 < i < |groups| ==> all[i] == all[1..][i - 1];
      assert forall i :: 0 <= i < |rest| ==> rest[i] == all[i + 1];
    }
  }

  // ---------------------------------------------------------------- the aggregate SELECT

  function AggregateNamed(name: string): Option<Aggregate> {
    match name
    case "COUNT" => Some(COUNT)
    case "SUM" => Some(SUM)
    case "AVG" => Some(AVG)
    case _ => None
  }

  /** Which aggregate each name stands for; no other name is one, and only the first argument counts. */
  lemma NamedAggregates(name: string, e: Expr, more: seq<Expr>, rows: seq<Row>, columns: seq<string>)
    ensures Projection(Function("COUNT", [e] + more), rows, columns) == EvaluateAggregate(COUNT, e, rows)
    ensures Projection(Function("SUM", [e] + more), rows, columns) == EvaluateAggregate(SUM, e, rows)
    ensures Projection(Function("AVG", [e] + more), rows, columns) == EvaluateAggregate(AVG, e, rows)
    ensures name !in {"COUNT", "SUM", "AVG"} ==>
      Projection(Function(name, [e] + more), rows, columns) == Raised(ExecutionFault)
  {
  }

  /** An aggregate of the group's rows, or a grouping column of its first row. */
  function Projection(p: Expr, rows: seq<Row>, columns: seq<string>): Outcome<Value> {
    if p.Function? then
      if p.arguments != [] && AggregateNamed(p.name).Some? then
        EvaluateAggregate(AggregateNamed(p.name).value, p.arguments[0], rows)
      else Raised(ExecutionFault)
    else if p.Identifier? && p.name in columns then Ok(if rows == [] then Null else ValueOf(rows[0], p.name))
    else Raised(ExecutionFault)
  }

  ghost predicate Projected(projections: seq<Expr>, rows: seq<Row>, columns: seq<string>, values: seq<Value>) {
    && |values| == |projections|
    && forall i :: 0 <= i < |projections| ==> Projection(projections[i], rows, columns) == Ok(values[i])
  }

  ghost predicate AllProject(projections: seq<Expr>, rows: seq<Row>, columns: seq<string>) {
    forall i :: 0 <= i < |projections| ==> Projection(projections[i], rows, columns).Ok?
  }

  /** The first projection that raises decides the error. */
  ghost predicate FirstFault(projections: seq<Expr>, rows: seq<Row>, columns: seq<string>, error: Error) {
    exists i :: 0 <= i < |projections| && Projection(projections[i], rows, columns) == Raised(error)
                && forall j :: 0 <= j < i ==> Projection(projections[j], rows, columns).Ok?
  }

  method EvaluateProjectionGroup(projections: seq<Expr>, rows: seq<Row>, columns: seq<string>)
    returns (r: Outcome<seq<Value>>)
    ensures r.Ok? <==> AllProject(projections, rows, columns)
    ensures r.Ok? ==> Projected(projections, rows, columns, r.value)
    ensures r.Raised? ==> FirstFault(projections, rows, columns, r.error)
  {
    var values: seq<Value> := [];
    for i := 0 to |projections|
      invariant Projected(projections[..i], rows, columns, values)
    {
      assert projections[..i + 1] == projections[..i] + [projections[i]];
      assert forall j :: 0 <= j < i ==> projections[j] == projections[..i][j];
      var v := Projection(projections[i], rows, columns);
      if v.Raised? {
        return Raised(v.error);
      }
      values := values + [v.value];
    }
    assert projections[..|projections|] == projections;
    r := Ok(values);
  }

  /** The result rows before ordering: one per group in first-seen order, or a single one for all
      the rows when nothing is grouped. */
  ghost predicate AggregateRows(projections: seq<Expr>, columns: seq<string>, rows: seq<Row>, output: seq<seq<Value>>) {
    if columns == [] then |output| == 1 && Projected(projections, rows, columns, output[0])
    else ProjectedGroups(projections, columns, GroupsOf(rows, columns), output)
  }

  ghost predicate ProjectedGroups(projections: seq<Expr>, columns: seq<string>, groups: seq<Group>,
                                  output: seq<seq<Value>>)
  {
    |output| == |groups| && forall i :: 0 <= i < |groups| ==> Projected(projections, groups[i].rows, columns, output[i])
  }

  /** The first group with a projection that raises decides the error. */
  ghost predicate FirstGroupFault(projections: seq<Expr>, columns: seq<string>, groups: seq<Group>, error: Error) {
    exists g :: 0 <= g < |groups| && FirstFault(projections, groups[g].rows, columns, error)
             && forall h :: 0 <= h < g ==> AllProject(projections, groups[h].rows, columns)
  }

  method ProjectGroups(projections: seq<Expr>, columns: seq<string>, groups: seq<Group>)
    returns (r: Outcome<seq<seq<Value>>>)
    ensures r.Ok? <==> forall g :: 0 <= g < |groups| ==> AllProject(projections, groups[g].rows, columns)
    ensures r.Ok? ==> ProjectedGroups(projections, columns, groups, r.value)
    ensures r.Raised? ==> FirstGroupFault(projections, columns, groups, r.error)
  {
    var output: seq<seq<Value>> := [];
    for i := 0 to |groups|
      invariant ProjectedGroups(projections, columns, groups[..i], output)
      invariant forall g :: 0 <= g < i ==> AllProject(projections, groups[g].rows, columns)
    {
      var values := EvaluateProjectionGroup(projections, groups[i].rows, columns);
      if values.Raised? {
        return Raised(values.error);
      }
      assert groups[..i + 1] == groups[..i] + [groups[i]];
      output := output + [values.value];
    }
    assert groups[..|groups|] == groups;
    r := Ok(output);
  }

  /** When the projections of an aggregate SELECT evaluate: without GROUP BY all must be aggregates. */
  ghost predicate Aggregable(projections: seq<Expr>, columns: seq<string>, rows: seq<Row>) {
    if columns == [] then
      (forall i :: 0 <= i < |projections| ==> projections[i].Function?) && AllProject(projections, rows, columns)
    else
      var groups := GroupsOf(rows, columns);
      forall g :: 0 <= g < |groups| ==> AllProject(projections, groups[g].rows, columns)
  }

  ghost predicate AggregateFault(projections: seq<Expr>, columns: seq<string>, rows: seq<Row>, error: Error) {
    if columns == [] then
      if exists p :: p in projections && !p.Function? then error == ExecutionFault
      else FirstFault(projections, rows, columns, error)
    else FirstGroupFault(projections, columns, GroupsOf(rows, columns), error)
  }

  method OutputRows(projections: seq<Expr>, columns: seq<string>, rows: seq<Row>) returns (r: Outcome<seq<seq<Value>>>)
    ensures r.Ok? <==> Aggregable(projections, columns, rows)
    ensures r.Ok? ==> AggregateRows(projections, columns, rows, r.value)
    ensures r.Raised? ==> AggregateFault(projections, columns, rows, r.error)
  {
    if columns == [] {
      if exists p :: p in projections && !p.Function? {
        return Raised(ExecutionFault);
      }
      var values := EvaluateProjectionGroup(projections, rows, columns);
      return if values.Ok? then Ok([values.value]) else Raised(values.error);
    }
    var groups := GroupRows(rows, columns);
    r := ProjectGroups(projections, columns, groups);
  }

  /** A result row by column title; of equal titles the last value stays. */
  function Labelled(titles: seq<string>, values: seq<Value>): Row
    requires |titles| == |values|
  {
    if titles == [] then map[]
    else
      var n := |titles| - 1;
      Labelled(titles[..n], values[..n])[titles[n] := values[n]]
  }

  function LabelledAll(titles: seq<string>, output: seq<seq<Value>>): seq<Row>
    requires forall i :: 0 <= i < |output| ==> |output[i]| == |titles|
  {
    seq(|output|, i requires 0 <= i < |output| => Labelled(titles, output[i]))
  }

  function Shown(titles: seq<string>, rows: seq<Row>): seq<seq<Value>> {
    seq(|rows|, i requires 0 <= i < |rows| =>
      ShownRow(titles, rows[i]))
  }

  function ShownRow(titles: seq<string>, row: Row): seq<Value> {
    seq(|titles|, j requires 0 <= j < |titles| => ValueOf(row, titles[j]))
  }

  // ---------------------------------------------------------------- what a result row shows

  /** Column `k` is the last with the title of column `j`. */
  predicate LastTitle(titles: seq<string>, j: nat, k: nat) {
    && j < |titles| && k < |titles| && titles[k] == titles[j]
    && forall m :: k < m < |titles| ==> titles[m] != titles[j]
  }

  /** Every column shows its value, or that of the last column with its title. */
  ghost predicate ShownAs(titles: seq<string>, values: seq<Value>, shown: seq<Value>) {
    && |shown| == |values| == |titles|
    && forall j: nat, k: nat :: LastTitle(titles, j, k) ==> shown[j] == values[k]
  }

  ghost predicate AllShown(titles: seq<string>, output: seq<seq<Value>>, shown: seq<seq<Value>>) {
    |shown| == |output| && forall i :: 0 <= i < |output| ==> ShownAs(titles, output[i], shown[i])
  }

  /** `keys` are columns of the result with the titles that the orders name. */
  predicate KeyColumns(titles: seq<string>, orders: seq<Order>, keys: seq<nat>) {
    && |keys| == |orders|
    && forall m :: 0 <= m < |keys| ==> keys[m] < |titles| && titles[keys[m]] == orders[m].column
  }

  /** Column `keys[k]` is the first of the ordering columns in which the rows differ. */
  ghost predicate FirstShownDifference(keys: seq<nat>, a: seq<Value>, b: seq<Value>, k: nat) {
    && k < |keys| && (forall m :: 0 <= m <= k ==> keys[m] < |a| && keys[m] < |b|)
    && (forall m :: 0 <= m < k ==> Same(a[keys[m]], b[keys[m]]))
    && !Same(a[keys[k]], b[keys[k]])
  }

  /** Of two result rows the one in front is so by the first ordering column in which they differ. */
  ghost predicate ShownOrdered(titles: seq<string>, orders: seq<Order>, sorted: seq<seq<Value>>) {
    forall keys, i, j, k: nat ::
      KeyColumns(titles, orders, keys) && 0 <= i < j < |sorted| && FirstShownDifference(keys, sorted[i], sorted[j], k)
      ==> InDirection(orders[k], sorted[i][keys[k]], sorted[j][keys[k]])
  }

  /** The rows of an aggregate SELECT: those of the groups as they are shown, sorted stably and paged. */
  ghost predicate AggregateResult(projections: seq<Expr>, titles: seq<string>, columns: seq<string>, rows: seq<Row>,
                                  orders: seq<Order>, offset: Option<nat>, limit: Option<nat>, result: seq<seq<Value>>)
  {
    exists output, shown, sorted ::
      && AggregateRows(projections, columns, rows, output)
      && AllShown(titles, output, shown) && SortedOutput(titles, orders, shown, sorted)
      && result == Ordering.Page(sorted, offset, limit)
  }

  ghost predicate SortedOutput(titles: seq<string>, orders: seq<Order>, shown: seq<seq<Value>>, sorted: seq<seq<Value>>)
  {
    && multiset(sorted) == multiset(shown)
    && (forall i :: 0 <= i < |shown| ==> |shown[i]| == |titles|)
    && (forall i :: 0 <= i < |sorted| ==> |sorted[i]| == |titles|)
    && StablySorted(LabelledAll(titles, shown), LabelledAll(titles, sorted), orders)
    && ShownOrdered(titles, orders, sorted)
  }

  lemma {:induction false} LabelledMeans(titles: seq<string>, values: seq<Value>, j: nat, k: nat)
    requires |titles| == |values| && LastTitle(titles, j, k)
    ensures titles[j] in Labelled(titles, values) && Labelled(titles, values)[titles[j]] == values[k]
    decreases |titles|
  {
    var n := |titles| - 1;
    if k < n {
      assert LastTitle(titles[..n], k, k);
      LabelledMeans(titles[..n], values[..n], k, k);
    }
  }

  lemma {:induction false} LabelledKeys(titles: seq<string>, values: seq<Value>, t: string)
    requires |titles| == |values|
    ensures t in Labelled(titles, values) <==> t in titles
    decreases |titles|
  {
    if titles != [] {
      var n := |titles| - 1;
      LabelledKeys(titles[..n], values[..n], t);
      assert titles == titles[..n] + [titles[n]];
    }
  }

  lemma {:induction false} LastTitleExists(titles: seq<string>, j: nat) returns (k: nat)
    requires j < |titles|
    ensures LastTitle(titles, j, k)
    decreases |titles|
  {
    var n := |titles| - 1;
    if titles[n] == titles[j] {
      k := n;
    } else {
      k := LastTitleExists(titles[..n], j);
    }
  }

  /** What is shown of a labelled row. */
  lemma ShownOfLabelled(titles: seq<string>, values: seq<Value>)
    requires |titles| == |values|
    ensures ShownAs(titles, values, ShownRow(titles, Labelled(titles, values)))
  {
    forall j: nat, k: nat | LastTitle(titles, j, k) ensures ShownRow(titles, Labelled(titles, values))[j] == values[k] {
      LabelledMeans(titles, values, j, k);
    }
  }

  /** Labelling what is shown gives the labelled row back. */
  lemma LabelledOfShown(titles: seq<string>, values: seq<Value>)
    requires |titles| == |values|
    ensures Labelled(titles, ShownRow(titles, Labelled(titles, values))) == Labelled(titles, values)
  {
    var row := Labelled(titles, values);
    var shown := ShownRow(titles, row);
    forall t
      ensures (t in Labelled(titles, shown) <==> t in row) && (t in row ==> Labelled(titles, shown)[t] == row[t])
    {
      LabelledKeys(titles, values, t);
      LabelledKeys(titles, shown, t);
      if t in titles {
        var j :| 0 <= j < |titles| && titles[j] == t;
        var k := LastTitleExists(titles, j);
        LabelledMeans(titles, values, j, k);
        LabelledMeans(titles, shown, j, k);
        assert LastTitle(titles, k, k);
      }
    }
  }

  lemma {:induction false} ShownMultiset(titles: seq<string>, a: seq<Row>, b: seq<Row>)
    requires multiset(a) == multiset(b)
    ensures multiset(Shown(titles, a)) == multiset(Shown(titles, b))
    decreases |a|
  {
    if a == [] {
      assert |b| == |multiset(b)| == 0;
    } else {
      var i := SameElement(a, b);
      ShownMultiset(titles, a[..0] + a[1..], b[..i] + b[i + 1..]);
      ShownTakenOut(titles, a, 0);
      ShownTakenOut(titles, b, i);
    }
  }

  lemma SameElement<T>(a: seq<T>, b: seq<T>) returns (i: nat)
    requires a != [] && multiset(a) == multiset(b)
    ensures i < |b| && b[i] == a[0] && multiset(a[..0] + a[1..]) == multiset(b[..i] + b[i + 1..])
  {
    assert a[0] in multiset(b);
    i :| 0 <= i < |b| && b[i] == a[0];
    TakenOut(a, 0);
    TakenOut(b, i);
  }

  lemma ShownTakenOut(titles: seq<string>, rows: seq<Row>, i: nat)
    requires i < |rows|
    ensures multiset(Shown(titles, rows)) ==
      multiset(Shown(titles, rows[..i] + rows[i + 1..])) + multiset{ShownRow(titles, rows[i])}
  {
    TakenOut(Shown(titles, rows), i);
    ShownWithout(titles, rows, i);
  }

  lemma TakenOut<T>(s: seq<T>, i: nat)
    requires i < |s|
    ensures multiset(s) == multiset(s[..i] + s[i + 1..]) + multiset{s[i]}
    ensures multiset(s[..i] + s[i + 1..]) == multiset(s) - multiset{s[i]}
  {
    assert s == s[..i] + [s[i]] + s[i + 1..];
  }

  lemma ShownWithout(titles: seq<string>, rows: seq<Row>, i: nat)
    requires i < |rows|
    ensures Shown(titles, rows)[..i] + Shown(titles, rows)[i + 1..] == Shown(titles, rows[..i] + rows[i + 1..])
  {
  }

  /** Sorting the labelled rows sorts what they show. */
  lemma SortedIsOutput(titles: seq<string>, orders: seq<Order>, output: seq<seq<Value>>, ordered: seq<Row>)
    requires forall i :: 0 <= i < |output| ==> |output[i]| == |titles|
    requires StablySorted(LabelledAll(titles, output), ordered, orders) && OrderedBy(ordered, orders)
    ensures var shown := Shown(titles, LabelledAll(titles, output));
      AllShown(titles, output, shown) && SortedOutput(titles, orders, shown, Shown(titles, ordered))
  {
    var labelled := LabelledAll(titles, output);
    var shown, sorted := Shown(titles, labelled), Shown(titles, ordered);
    forall i | 0 <= i < |output| ensures ShownAs(titles, output[i], shown[i]) {
      ShownOfLabelled(titles, output[i]);
    }
    ShownMultiset(titles, ordered, labelled);
    Relabelled(titles, output, labelled);
    forall i | 0 <= i < |ordered| ensures ordered[i] in labelled {
      assert ordered[i] in multiset(labelled);
    }
    Relabelled(titles, output, ordered);
    DifferencesShow(titles, orders, ordered);
  }

  lemma Relabelled(titles: seq<string>, output: seq<seq<Value>>, rows: seq<Row>)
    requires forall i :: 0 <= i < |output| ==> |output[i]| == |titles|
    requires forall i :: 0 <= i < |rows| ==> rows[i] in LabelledAll(titles, output)
    ensures LabelledAll(titles, Shown(titles, rows)) == rows
  {
    forall i | 0 <= i < |rows| ensures Labelled(titles, ShownRow(titles, rows[i])) == rows[i] {
      var k :| 0 <= k < |output| && LabelledAll(titles, output)[k] == rows[i];
      LabelledOfShown(titles, output[k]);
    }
  }

  lemma DifferencesShow(titles: seq<string>, orders: seq<Order>, ordered: seq<Row>)
    requires OrderedBy(ordered, orders)
    ensures ShownOrdered(titles, orders, Shown(titles, ordered))
  {
    var sorted := Shown(titles, ordered);
    forall keys, i, j, k: nat |
      KeyColumns(titles, orders, keys) && 0 <= i < j < |sorted| && FirstShownDifference(keys, sorted[i], sorted[j], k)
      ensures InDirection(orders[k], sorted[i][keys[k]], sorted[j][keys[k]])
    {
      assert forall m :: 0 <= m <= k ==> titles[keys[m]] == orders[m].column;
      assert FirstDifference(orders, ordered[i], ordered[j], k);
    }
  }

  lemma PageOfShown(titles: seq<string>, rows: seq<Row>, offset: Option<nat>, limit: Option<nat>)
    ensures Shown(titles, Ordering.Page(rows, offset, limit)) == Ordering.Page(Shown(titles, rows), offset, limit)
  {
  }

  /** An order by something that is no column of the result raises if there is a row to order. */
  ghost predicate Orderable(titles: seq<string>, columns: seq<string>, rows: seq<Row>, orders: seq<Order>) {
    (columns != [] && GroupsOf(rows, columns) == []) || forall o :: o in orders ==> o.column in titles
  }

  /** `titles` are the texts of the projections. */
  method SelectAggregate(projections: seq<Expr>, titles: seq<string>, columns: seq<string>, rows: seq<Row>,
                         orders: seq<Order>, offset: Option<nat>, limit: Option<nat>)
    returns (r: Outcome<seq<seq<Value>>>)
    requires |titles| == |projections|
    ensures r.Ok? <==> Aggregable(projections, columns, rows) && Orderable(titles, columns, rows, orders)
    ensures r.Ok? ==> AggregateResult(projections, titles, columns, rows, orders, offset, limit, r.value)
    ensures r.Raised? && !Aggregable(projections, columns, rows) ==> AggregateFault(projections, columns, rows, r.error)
    ensures r.Raised? && Aggregable(projections, columns, rows) ==> r.error == ConstraintFault
  {
    var output := OutputRows(projections, columns, rows);
    if output.Raised? {
      return Raised(output.error);
    }
    if output.value != [] && exists o :: o in orders && o.column !in titles {
      return Raised(ConstraintFault);
    }
    var ordered := ApplyOrdering(LabelledAll(titles, output.value), orders);
    var page := Ordering.Page(ordered, offset, limit);
    SortedIsOutput(titles, orders, output.value, ordered);
    PageOfShown(titles, ordered, offset, limit);
    assert AggregateRows(projections, columns, rows, output.value);
    r := Ok(Shown(titles, page));
  }

  predicate DistinctTitles(titles: seq<string>) {
    forall i, j :: 0 <= i < j < |titles| ==> titles[i] != titles[j]
  }

  /** With distinct titles a row is shown as it was computed. */
  lemma ShownItself(titles: seq<string>, values: seq<Value>, shown: seq<Value>)
    requires DistinctTitles(titles) && ShownAs(titles, values, shown)
    ensures shown == values
  {
    forall j | 0 <= j < |titles| ensures shown[j] == values[j] {
      assert LastTitle(titles, j, j);
    }
  }

  /** Sorting by nothing leaves the rows where they were. */
  lemma UnsortedOutput(titles: seq<string>, output: seq<seq<Value>>, shown: seq<seq<Value>>, sorted: seq<seq<Value>>)
    requires DistinctTitles(titles) && AllShown(titles, output, shown) && SortedOutput(titles, [], shown, sorted)
    ensures sorted == shown
  {
    var a, b := LabelledAll(titles, shown), LabelledAll(titles, sorted);
    NoKeys(a);
    StableSortUnique(a, b, []);
    forall i | 0 <= i < |shown| ensures shown[i] == sorted[i] {
      assert a[i] == b[i];
      forall j | 0 <= j < |titles| ensures shown[i][j] == sorted[i][j] {
        assert LastTitle(titles, j, j);
        LabelledMeans(titles, shown[i], j, j);
        LabelledMeans(titles, sorted[i], j, j);
      }
    }
  }

  /** With distinct titles the result is a page of a permutation of the rows computed from the groups,
      and without ORDER BY, LIMIT and OFFSET it is just these rows. */
  lemma DistinctTitlesShow(projections: seq<Expr>, titles: seq<string>, columns: seq<string>, rows: seq<Row>,
                           orders: seq<Order>, offset: Option<nat>, limit: Option<nat>, result: seq<seq<Value>>)
    returns (output: seq<seq<Value>>, sorted: seq<seq<Value>>)
    requires AggregateResult(projections, titles, columns, rows, orders, offset, limit, result)
    requires DistinctTitles(titles)
    ensures AggregateRows(projections, columns, rows, output)
    ensures multiset(sorted) == multiset(output) && ShownOrdered(titles, orders, sorted)
    ensures result == Ordering.Page(sorted, offset, limit)
    ensures orders == [] ==> sorted == output
    ensures orders == [] && offset.None? && limit.None? ==> result == output
  {
    var shown;
    output, shown, sorted :|
      && AggregateRows(projections, columns, rows, output)
      && AllShown(titles, output, shown) && SortedOutput(titles, orders, shown, sorted)
      && result == Ordering.Page(sorted, offset, limit);
    forall i | 0 <= i < |output| ensures shown[i] == output[i] {
      ShownItself(titles, output[i], shown[i]);
    }
    assert shown == output;
    if orders == [] {
      UnsortedOutput(titles, output, shown, sorted);
      if offset.None? && limit.None? {
        assert sorted[0..] == sorted;
      }
    }
  }

  /** The rows that a result row can stand for: those of one group, or all if nothing is grouped. */
  ghost predicate IsGroup(columns: seq<string>, rows: seq<Row>, members: seq<Row>) {
    if columns == [] then members == rows
    else exists g :: 0 <= g < |GroupsOf(rows, columns)| && GroupsOf(rows, columns)[g].rows == members
  }

  /** Every cell of the result is its projection of one group, the same for the whole row; with a
      repeated title it is that of the last column with this title. */
  lemma CellsAreProjections(projections: seq<Expr>, titles: seq<string>, columns: seq<string>, rows: seq<Row>,
                            orders: seq<Order>, offset: Option<nat>, limit: Option<nat>, result: seq<seq<Value>>,
                            i: nat)
    returns (members: seq<Row>)
    requires AggregateResult(projections, titles, columns, rows, orders, offset, limit, result)
    requires |titles| == |projections| && i < |result|
    ensures IsGroup(columns, rows, members) && |result[i]| == |projections|
    ensures forall j: nat, k: nat :: LastTitle(titles, j, k) ==>
      Projection(projections[k], members, columns) == Ok(result[i][j])
  {
    var output, shown, sorted :|
      && AggregateRows(projections, columns, rows, output)
      && AllShown(titles, output, shown) && SortedOutput(titles, orders, shown, sorted)
      && result == Ordering.Page(sorted, offset, limit);
    assert result[i] in sorted by {
      Ordering.PageHas(sorted, offset, limit);
    }
    assert result[i] in multiset(sorted) && result[i] in multiset(shown);
    var x :| 0 <= x < |shown| && shown[x] == result[i];
    members := ProjectedFrom(projections, columns, rows, output, x);
    CellsShown(projections, titles, columns, members, output[x], result[i]);
  }

  lemma ProjectedFrom(projections: seq<Expr>, columns: seq<string>, rows: seq<Row>, output: seq<seq<Value>>, x: nat)
    returns (members: seq<Row>)
    requires AggregateRows(projections, columns, rows, output) && x < |output|
    ensures IsGroup(columns, rows, members) && Projected(projections, members, columns, output[x])
  {
    members := if columns == [] then rows else GroupsOf(rows, columns)[x].rows;
  }

  lemma CellsShown(projections: seq<Expr>, titles: seq<string>, columns: seq<string>, members: seq<Row>,
                   values: seq<Value>, shown: seq<Value>)
    requires |titles| == |projections| && Projected(projections, members, columns, values)
    requires ShownAs(titles, values, shown)
    ensures |shown| == |projections|
    ensures forall j: nat, k: nat :: LastTitle(titles, j, k) ==>
      Projection(projections[k], members, columns) == Ok(shown[j])
  {
  }

  /** A grouping column of a result row is the value of that column in every row of the group. */
  lemma GroupColumnOfEveryRow(rows: seq<Row>, columns: seq<string>, g: nat, r: nat, c: nat)
    requires g < |GroupsOf(rows, columns)| && r < |GroupsOf(rows, columns)[g].rows| && c < |columns|
    ensures var members := GroupsOf(rows, columns)[g].rows;
            var shown := Projection(Identifier(columns[c]), members, columns);
            shown.Ok? && Same(shown.value, ValueOf(members[r], columns[c]))
  {
    var groups := GroupsOf(rows, columns);
    assert Gathered(rows, columns, groups) by {
      GroupsPartition(rows, columns);
    }
    RepresentativeHasTheKey(rows, columns, groups, g, r);
    var first, other := KeyOf(groups[g].rows[0], columns), KeyOf(groups[g].rows[r], columns);
    assert Same(first[c], other[c]);
    assert columns[c] in columns;
  }
}

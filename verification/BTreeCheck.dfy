/** The tree's own runtime check, and its equivalence with the well-formedness the proofs use. */
module BTreeCheck {
  import opened Values
  import opened BTreeNodes

  ghost predicate KeysSorted(keys: seq<Key>) {
    forall i, j :: 0 <= i < j < |keys| ==> !Less(keys[j], keys[i])
  }

  ghost predicate AdjacentSorted(s: seq<Entry>) {
    forall i :: 0 <= i < |s| - 1 ==> EntryLeq(s[i], s[i + 1])
  }

  ghost predicate Within(s: seq<Entry>, lower: Option<Key>, upper: Option<Key>) {
    forall i :: 0 <= i < |s| ==>
      (lower.Some? ==> !Less(s[i].key, lower.value)) && (upper.Some? ==> !Less(upper.value, s[i].key))
  }

  function LowerOf(n: Node, i: nat, lower: Option<Key>): Option<Key>
    requires i <= |n.keys|
  {
    if i == 0 then lower else Some(n.keys[i - 1])
  }

  function UpperOf(n: Node, i: nat, upper: Option<Key>): Option<Key> {
    if i < |n.keys| then Some(n.keys[i]) else upper
  }

  /** No assertion of the per-node check fails. A separator is the maximum of a child, which
      exists only below populated nodes. */
  ghost predicate NodeAsserts(n: Node, order: nat, lower: Option<Key>, upper: Option<Key>, isRoot: bool)
    decreases n
  {
    && KeysSorted(n.keys)
    && if n.IsLeaf() then
         && |n.entries| <= MaxLeafEntries(order)
         && (!isRoot ==> |n.entries| >= MinLeafEntries(order))
         && KeysOf(n.entries) == n.keys
         && AdjacentSorted(n.entries)
         && Within(n.entries, lower, upper)
       else
         && n.entries == []
         && |n.children| == |n.keys| + 1
         && |n.children| <= order
         && (!isRoot ==> |n.children| >= MinChildren(order))
         && (isRoot ==> |n.children| >= 2)
         && (forall i :: 0 <= i < |n.children| ==> Populated(n.children[i]))
         && n.keys == SeparatorKeys(n.children)
         && forall i :: 0 <= i < |n.children| ==>
              NodeAsserts(n.children[i], order, LowerOf(n, i, lower), UpperOf(n, i, upper), false)
  }

  /** The depths at which leaves occur. */
  function LeafDepths(n: Node, depth: nat): set<nat>
    decreases n, 1
  {
    if n.IsLeaf() then {depth} else LeafDepthsAll(n.children, depth + 1)
  }

  function LeafDepthsAll(ns: seq<Node>, depth: nat): set<nat>
    decreases ns, 0
  {
    if ns == [] then {} else LeafDepths(ns[0], depth) + LeafDepthsAll(ns[1..], depth)
  }

  /** The check passes. */
  ghost predicate Asserted(root: Node, order: nat) {
    && order >= 3
    && AdjacentSorted(Walk(root))
    && NodeAsserts(root, order, None, None, true)
    && |LeafDepths(root, 1)| == 1
  }

  // ---------------------------------------------------------------- the check accepts valid roots

  lemma {:induction false} SortedFromAdjacent(s: seq<Entry>)
    requires AdjacentSorted(s)
    ensures Sorted(s)
  {
    forall i, j | 0 <= i < j < |s| ensures EntryLeq(s[i], s[j]) {
      Chain(s, i, j);
    }
  }

  lemma {:induction false} Chain(s: seq<Entry>, i: nat, j: nat)
    requires AdjacentSorted(s) && i < j < |s|
    ensures EntryLeq(s[i], s[j])
    decreases j
  {
    if i < j - 1 {
      Chain(s, i, j - 1);
      EntryLeqTransitive(s[i], s[j - 1], s[j]);
    }
  }

  lemma {:induction false} ShapeDepths(n: Node, order: nat, h: nat, isRoot: bool, depth: nat)
    requires order >= 3 && Shape(n, order, h, isRoot)
    ensures LeafDepths(n, depth) == {depth + h - 1}
    decreases h, 1
  {
    if h > 1 {
      ShapeDepthsAll(n.children, order, h - 1, depth + 1);
    }
  }

  lemma {:induction false} ShapeDepthsAll(ns: seq<Node>, order: nat, h: nat, depth: nat)
    requires order >= 3 && ns != [] && forall i :: 0 <= i < |ns| ==> Shape(ns[i], order, h, false)
    ensures LeafDepthsAll(ns, depth) == {depth + h - 1}
    decreases h, 2, |ns|
  {
    ShapeDepths(ns[0], order, h, false, depth);
    if |ns| > 1 {
      ShapeDepthsAll(ns[1..], order, h, depth);
    }
  }

  lemma WithinParts(a: seq<Entry>, b: seq<Entry>, c: seq<Entry>, lower: Option<Key>, upper: Option<Key>)
    requires Within(a + b + c, lower, upper)
    ensures Within(b, lower, upper)
  {
    assert forall j :: 0 <= j < |b| ==> (a + b + c)[|a| + j] == b[j];
  }

  lemma {:induction false} ChildAboveSeparator(n: Node, i: nat)
    requires 0 < i < |n.children|
    requires forall j :: 0 <= j < |n.children| ==> Populated(n.children[j])
    requires Sorted(WalkAll(n.children))
    ensures forall j :: 0 <= j < |Walk(n.children[i])| ==> !Less(Walk(n.children[i])[j].key, MaxKey(n.children[i - 1]))
  {
    var a, b, c := WalkAll(n.children[..i]), Walk(n.children[i]), WalkAll(n.children[i + 1..]);
    WalkAllSplit(n.children, i);
    SortedConcat(a + b, c);
    SortedConcat(a, b);
    WalkAllSplit(n.children[..i], i - 1);
    assert n.children[..i][i..] == [];
    MaxKeyIsLast(n.children[i - 1]);
    EntriesAbove(a, b, MaxKey(n.children[i - 1]));
  }

  lemma {:induction false} ChildWithin(n: Node, i: nat, lower: Option<Key>, upper: Option<Key>)
    requires i < |n.children| && Populated(n.children[i])
    requires Sorted(WalkAll(n.children)) && Within(WalkAll(n.children), lower, upper)
    ensures Sorted(Walk(n.children[i])) && Within(Walk(n.children[i]), lower, upper)
    ensures forall j :: 0 <= j < |Walk(n.children[i])| ==> !Less(MaxKey(n.children[i]), Walk(n.children[i])[j].key)
  {
    var a, b, c := WalkAll(n.children[..i]), Walk(n.children[i]), WalkAll(n.children[i + 1..]);
    WalkAllSplit(n.children, i);
    WithinParts(a, b, c, lower, upper);
    SortedConcat(a + b, c);
    SortedConcat(a, b);
    MaxKeyIsLast(n.children[i]);
    EntriesBelowLast(b);
  }

  /** Neighbouring separators bound every entry of a child. */
  lemma {:induction false} ChildBounds(n: Node, i: nat, lower: Option<Key>, upper: Option<Key>)
    requires !n.IsLeaf() && i < |n.children|
    requires forall j :: 0 <= j < |n.children| ==> Populated(n.children[j])
    requires n.keys == SeparatorKeys(n.children)
    requires Sorted(WalkAll(n.children)) && Within(WalkAll(n.children), lower, upper)
    ensures Sorted(Walk(n.children[i]))
    ensures Within(Walk(n.children[i]), LowerOf(n, i, lower), UpperOf(n, i, upper))
  {
    ChildWithin(n, i, lower, upper);
    if i > 0 {
      ChildAboveSeparator(n, i);
    }
  }

  lemma EntriesAbove(a: seq<Entry>, b: seq<Entry>, k: Key)
    requires a != [] && a[|a| - 1].key == k
    requires forall i, j :: 0 <= i < |a| && 0 <= j < |b| ==> EntryLeq(a[i], b[j])
    ensures forall j :: 0 <= j < |b| ==> !Less(b[j].key, k)
  {
    LessIsWeakOrder();
    assert forall j :: 0 <= j < |b| ==> EntryLeq(a[|a| - 1], b[j]);
  }

  lemma EntriesBelowLast(b: seq<Entry>)
    requires b != [] && Sorted(b)
    ensures forall j :: 0 <= j < |b| ==> !Less(b[|b| - 1].key, b[j].key)
  {
    LessIsWeakOrder();
    assert forall j :: 0 <= j < |b| - 1 ==> EntryLeq(b[j], b[|b| - 1]);
  }

  lemma {:induction false} SeparatorsSorted(n: Node, i: nat, j: nat)
    requires !n.IsLeaf() && i < j < |n.keys|
    requires forall j :: 0 <= j < |n.children| ==> Populated(n.children[j])
    requires n.keys == SeparatorKeys(n.children) && Sorted(WalkAll(n.children))
    ensures !Less(n.keys[j], n.keys[i])
  {
    LessIsWeakOrder();
    var a, b := WalkAll(n.children[..j]), Walk(n.children[j]);
    WalkAllSplit(n.children, j);
    WalkAllSplit(n.children[..j], i);
    SortedConcat(a + b, WalkAll(n.children[j + 1..]));
    SortedConcat(a, b);
    MaxKeyIsLast(n.children[i]);
    MaxKeyIsLast(n.children[j]);
    var p := |WalkAll(n.children[..j][..i])| + |Walk(n.children[i])| - 1;
    assert a[p].key == n.keys[i];
    assert EntryLeq(a[p], b[|b| - 1]);
  }

  lemma {:induction false} ShapeAsserts(n: Node, order: nat, h: nat, lower: Option<Key>, upper: Option<Key>,
                                        isRoot: bool)
    requires order >= 3 && Shape(n, order, h, isRoot)
    requires Sorted(Walk(n)) && Within(Walk(n), lower, upper)
    ensures NodeAsserts(n, order, lower, upper, isRoot)
    decreases h
  {
    LessIsWeakOrder();
    if h > 1 {
      forall i, j | 0 <= i < j < |n.keys| ensures !Less(n.keys[j], n.keys[i]) {
        SeparatorsSorted(n, i, j);
      }
      forall i | 0 <= i < |n.children|
        ensures NodeAsserts(n.children[i], order, LowerOf(n, i, lower), UpperOf(n, i, upper), false)
      {
        ChildBounds(n, i, lower, upper);
        ShapeAsserts(n.children[i], order, h - 1, LowerOf(n, i, lower), UpperOf(n, i, upper), false);
      }
    } else {
      forall i, j | 0 <= i < j < |n.keys| ensures !Less(n.keys[j], n.keys[i]) {
        assert EntryLeq(n.entries[i], n.entries[j]);
      }
    }
  }

  // ---------------------------------------------------------------- ... and nothing else

  lemma {:induction false} DepthsAtLeast(n: Node, depth: nat, d: nat)
    requires LeafDepths(n, depth) == {d}
    ensures n.IsLeaf() ==> d == depth
    ensures !n.IsLeaf() ==> d > depth
    decreases n
  {
    if n.IsLeaf() {
      assert d in LeafDepths(n, depth);
    } else {
      DepthsOfChild(n.children, 0, depth + 1, d);
      DepthsAtLeast(n.children[0], depth + 1, d);
    }
  }

  /** The checks of one node that do not concern key bounds, at every node below. */
  ghost predicate Occupied(n: Node, order: nat, isRoot: bool)
    decreases n
  {
    if n.IsLeaf() then LeafShape(n, order, isRoot)
    else InnerShape(n, order, isRoot) && forall i :: 0 <= i < |n.children| ==> Occupied(n.children[i], order, false)
  }

  lemma {:induction false} AssertsOccupied(n: Node, order: nat, lower: Option<Key>, upper: Option<Key>, isRoot: bool)
    requires order >= 3 && NodeAsserts(n, order, lower, upper, isRoot)
    ensures Occupied(n, order, isRoot)
    decreases n
  {
    if n.IsLeaf() {
      AssertsLeaf(n, order, lower, upper, isRoot);
    } else {
      AssertsInner(n, order, lower, upper, isRoot);
      forall i | 0 <= i < |n.children| ensures Occupied(n.children[i], order, false) {
        AssertsOccupied(n.children[i], order, LowerOf(n, i, lower), UpperOf(n, i, upper), false);
      }
    }
  }

  lemma {:induction false} OccupiedShape(n: Node, order: nat, isRoot: bool, depth: nat, h: nat, d: nat)
    requires order >= 3 && Occupied(n, order, isRoot)
    requires LeafDepths(n, depth) == {d} && d + 1 == depth + h
    ensures Shape(n, order, h, isRoot)
    decreases n
  {
    DepthsAtLeast(n, depth, d);
    if !n.IsLeaf() {
      forall i | 0 <= i < |n.children| ensures Shape(n.children[i], order, h - 1, false) {
        DepthsOfChild(n.children, i, depth + 1, d);
        OccupiedShape(n.children[i], order, false, depth + 1, h - 1, d);
      }
    }
  }

  lemma AssertsLeaf(n: Node, order: nat, lower: Option<Key>, upper: Option<Key>, isRoot: bool)
    requires order >= 3 && n.IsLeaf() && NodeAsserts(n, order, lower, upper, isRoot)
    ensures LeafShape(n, order, isRoot)
  {
  }

  lemma AssertsInner(n: Node, order: nat, lower: Option<Key>, upper: Option<Key>, isRoot: bool)
    requires order >= 3 && !n.IsLeaf() && NodeAsserts(n, order, lower, upper, isRoot)
    ensures InnerShape(n, order, isRoot)
  {
  }

  lemma {:induction false} DepthsOfChild(ns: seq<Node>, i: nat, depth: nat, d: nat)
    requires i < |ns| && LeafDepthsAll(ns, depth) == {d}
    ensures LeafDepths(ns[i], depth) == {d}
    decreases ns
  {
    DepthsNonempty(ns[0], depth);
    if i == 0 {
      assert forall x :: x in LeafDepths(ns[0], depth) ==> x in LeafDepthsAll(ns, depth);
    } else {
      var rest := ns[1..];
      DepthsNonempty(rest[0], depth);
      assert LeafDepths(rest[0], depth) <= LeafDepthsAll(rest, depth) <= LeafDepthsAll(ns, depth);
      assert LeafDepthsAll(rest, depth) == {d};
      DepthsOfChild(rest, i - 1, depth, d);
    }
  }

  lemma {:induction false} DepthsNonempty(n: Node, depth: nat)
    ensures LeafDepths(n, depth) != {}
    decreases n
  {
    if !n.IsLeaf() {
      DepthsNonempty(n.children[0], depth + 1);
      assert LeafDepths(n.children[0], depth + 1) <= LeafDepths(n, depth);
    }
  }

  /** The runtime check accepts exactly the roots the proofs call valid. */
  lemma AssertedIffValid(root: Node, order: nat)
    ensures Asserted(root, order) <==> ValidRoot(root, order)
  {
    if ValidRoot(root, order) {
      ShapeDepths(root, order, Height(root), true, 1);
      ShapeAsserts(root, order, Height(root), None, None, true);
    }
    if Asserted(root, order) {
      var d :| d in LeafDepths(root, 1);
      SingletonSet(LeafDepths(root, 1), d);
      DepthsAtLeast(root, 1, d);
      AssertsOccupied(root, order, None, None, true);
      OccupiedShape(root, order, true, 1, d, d);
      ShapeFacts(root, order, d, true);
      SortedFromAdjacent(Walk(root));
    }
  }

  lemma SingletonSet(s: set<nat>, d: nat)
    requires |s| == 1 && d in s
    ensures s == {d}
  {
    assert |s - {d}| == 0;
    assert s == s - {d} + {d};
  }
}

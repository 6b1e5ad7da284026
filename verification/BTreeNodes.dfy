/** Nodes of the index tree, their in-order walk, and the well-formedness the tree promises. */
module BTreeNodes {
  import opened Values

  /** Keys are booleans, numbers and texts; NULL is never indexed. */
  type Key = v: Value | v != Null witness Int(0)

  datatype Pointer = Pointer(table: string, pageId: nat, slot: nat)

  datatype Entry = Entry(key: Key, pointer: Pointer, sequence: nat)

  datatype Node = Node(keys: seq<Key>, entries: seq<Entry>, children: seq<Node>) {
    predicate IsLeaf() {
      children == []
    }

    predicate IsEmpty() {
      entries == [] && children == []
    }
  }

  const EMPTY := Node([], [], [])

  // ---------------------------------------------------------------- order of entries

  predicate EntryLeq(a: Entry, b: Entry) {
    Less(a.key, b.key) || (!Less(b.key, a.key) && a.sequence <= b.sequence)
  }

  ghost predicate Sorted(s: seq<Entry>) {
    forall i, j :: 0 <= i < j < |s| ==> EntryLeq(s[i], s[j])
  }

  lemma EntryLeqTransitive(a: Entry, b: Entry, c: Entry)
    requires EntryLeq(a, b) && EntryLeq(b, c)
    ensures EntryLeq(a, c)
  {
    LessIsWeakOrder();
  }

  lemma SortedConcat(s: seq<Entry>, t: seq<Entry>)
    requires Sorted(s + t)
    ensures Sorted(s) && Sorted(t)
    ensures forall i, j :: 0 <= i < |s| && 0 <= j < |t| ==> EntryLeq(s[i], t[j])
  {
    var u := s + t;
    assert forall i :: 0 <= i < |s| ==> u[i] == s[i];
    assert forall j :: 0 <= j < |t| ==> u[|s| + j] == t[j];
    forall i, j | 0 <= i < j < |t| ensures EntryLeq(t[i], t[j]) {
      assert EntryLeq(u[|s| + i], u[|s| + j]);
    }
    forall i, j | 0 <= i < |s| && 0 <= j < |t| ensures EntryLeq(s[i], t[j]) {
      assert EntryLeq(u[i], u[|s| + j]);
    }
  }

  // ---------------------------------------------------------------- walking

  /** In-order traversal of the entries. */
  function Walk(n: Node): seq<Entry>
    decreases n, 1
  {
    if n.IsLeaf() then n.entries else WalkAll(n.children)
  }

  function WalkAll(ns: seq<Node>): seq<Entry>
    decreases ns, 0
  {
    if ns == [] then [] else Walk(ns[0]) + WalkAll(ns[1..])
  }

  lemma {:induction false} WalkAllConcat(a: seq<Node>, b: seq<Node>)
    ensures WalkAll(a + b) == WalkAll(a) + WalkAll(b)
  {
    if a == [] {
      assert a + b == b;
    } else {
      assert (a + b)[1..] == a[1..] + b;
      WalkAllConcat(a[1..], b);
    }
  }

  lemma {:induction false} WalkAllSingle(n: Node)
    ensures WalkAll([n]) == Walk(n)
  {
    assert [n][1..] == [];
  }

  /** The walk around child `i`. */
  lemma {:induction false} WalkAllSplit(ns: seq<Node>, i: nat)
    requires i < |ns|
    ensures WalkAll(ns) == WalkAll(ns[..i]) + Walk(ns[i]) + WalkAll(ns[i + 1..])
  {
    assert ns == ns[..i] + ([ns[i]] + ns[i + 1..]);
    WalkAllConcat(ns[..i], [ns[i]] + ns[i + 1..]);
    WalkAllConcat([ns[i]], ns[i + 1..]);
    WalkAllSingle(ns[i]);
  }

  // ---------------------------------------------------------------- non-empty nodes and separators

  /** Every leaf below (and including) `n` holds an entry. */
  ghost predicate Populated(n: Node)
    decreases n
  {
    if n.IsLeaf() then n.entries != [] else forall i :: 0 <= i < |n.children| ==> Populated(n.children[i])
  }

  /** The largest key below a node: only ever asked of populated nodes. */
  function MaxKey(n: Node): Key
    requires Populated(n)
    decreases n
  {
    if n.IsLeaf() then n.entries[|n.entries| - 1].key
    else MaxKey(n.children[|n.children| - 1])
  }

  lemma {:induction false} MaxKeyIsLast(n: Node)
    requires Populated(n)
    ensures Walk(n) != [] && MaxKey(n) == Walk(n)[|Walk(n)| - 1].key
    decreases n
  {
    if !n.IsLeaf() {
      var last := |n.children| - 1;
      MaxKeyIsLast(n.children[last]);
      WalkAllSplit(n.children, last);
      assert n.children[last + 1..] == [];
    }
  }

  function KeysOf(s: seq<Entry>): seq<Key> {
    seq(|s|, i requires 0 <= i < |s| => s[i].key)
  }

  function SeparatorKeys(children: seq<Node>): (r: seq<Key>)
    requires children != []
    requires forall i :: 0 <= i < |children| ==> Populated(children[i])
  {
    seq(|children| - 1, i requires 0 <= i < |children| - 1 => MaxKey(children[i]))
  }

  function MakeLeaf(entries: seq<Entry>): Node {
    Node(KeysOf(entries), entries, [])
  }

  function MakeInternal(children: seq<Node>): Node
    requires children != []
    requires forall i :: 0 <= i < |children| ==> Populated(children[i])
  {
    Node(SeparatorKeys(children), [], children)
  }

  // ---------------------------------------------------------------- occupancy

  function MaxLeafEntries(order: nat): int { order - 1 }

  function MinChildren(order: nat): nat { (order + 1) / 2 }

  function MinLeafEntries(order: nat): int {
    if MinChildren(order) - 1 > 1 then MinChildren(order) - 1 else 1
  }

  // ---------------------------------------------------------------- the tree's shape

  function Height(n: Node): (h: nat)
    ensures h >= 1
    decreases n
  {
    if n.IsLeaf() then 1 else 1 + Height(n.children[0])
  }

  /** `n` is a tree of uniform height `h` with legal occupancy and exact separators. */
  ghost predicate Shape(n: Node, order: nat, h: nat, isRoot: bool)
    decreases h
  {
    if h <= 1 then h == 1 && LeafShape(n, order, isRoot)
    else
      && InnerShape(n, order, isRoot)
      && forall i :: 0 <= i < |n.children| ==> Shape(n.children[i], order, h - 1, false)
  }

  ghost predicate LeafShape(n: Node, order: nat, isRoot: bool) {
    && n.IsLeaf()
    && n.keys == KeysOf(n.entries)
    && |n.entries| <= MaxLeafEntries(order)
    && (!isRoot ==> MinLeafEntries(order) <= |n.entries|)
  }

  ghost predicate InnerShape(n: Node, order: nat, isRoot: bool) {
    && n.entries == []
    && 2 <= |n.children| <= order
    && (!isRoot ==> MinChildren(order) <= |n.children|)
    && (forall i :: 0 <= i < |n.children| ==> Populated(n.children[i]))
    && n.keys == SeparatorKeys(n.children)
  }

  /** A root the index may hold. */
  ghost predicate ValidRoot(n: Node, order: nat) {
    order >= 3 && Shape(n, order, Height(n), true) && Sorted(Walk(n))
  }

  lemma {:induction false} ShapeFacts(n: Node, order: nat, h: nat, isRoot: bool)
    requires order >= 3 && Shape(n, order, h, isRoot)
    ensures h == Height(n)
    ensures !isRoot || h > 1 ==> Populated(n)
    decreases h
  {
    if h > 1 {
      ShapeFacts(n.children[0], order, h - 1, false);
    }
  }

  /** Children of one height, all populated, with their separators, form an inner node. */
  lemma InnerOf(children: seq<Node>, order: nat, h: nat, isRoot: bool)
    requires order >= 3 && h >= 1 && 2 <= |children| <= order
    requires !isRoot ==> MinChildren(order) <= |children|
    requires forall i :: 0 <= i < |children| ==> Shape(children[i], order, h, false)
    ensures forall i :: 0 <= i < |children| ==> Populated(children[i])
    ensures Shape(MakeInternal(children), order, h + 1, isRoot)
    ensures Walk(MakeInternal(children)) == WalkAll(children)
    ensures Populated(MakeInternal(children))
  {
    forall i | 0 <= i < |children| ensures Populated(children[i]) {
      ShapeFacts(children[i], order, h, false);
    }
  }
}

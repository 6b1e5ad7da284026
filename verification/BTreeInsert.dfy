/** Insertion: recursive descent by separators, with leaf and inner splits. */
module BTreeInsert {
  import opened Values
  import opened BTreeNodes

  // ---------------------------------------------------------------- where an entry belongs

  /** Index of the first entry whose key is above `k`: the place of a new entry with key `k`,
      after every entry with an equal or smaller key. */
  function UpperBound(s: seq<Entry>, k: Key): (p: nat)
    ensures p <= |s|
    ensures forall i :: 0 <= i < p ==> !Less(k, s[i].key)
    ensures p < |s| ==> Less(k, s[p].key)
  {
    if s == [] || Less(k, s[0].key) then 0 else 1 + UpperBound(s[1..], k)
  }

  /** The traversal with `e` placed after every entry whose key is at most its own. */
  function Inserted(s: seq<Entry>, e: Entry): seq<Entry> {
    var p := UpperBound(s, e.key);
    s[..p] + [e] + s[p..]
  }

  /** `e` was numbered after everything in `s`. */
  ghost predicate Newest(s: seq<Entry>, e: Entry) {
    forall i :: 0 <= i < |s| ==> s[i].sequence < e.sequence
  }

  lemma InsertedSorted(s: seq<Entry>, e: Entry)
    requires Sorted(s) && Newest(s, e)
    ensures Sorted(Inserted(s, e))
  {
    LessIsWeakOrder();
    var p := UpperBound(s, e.key);
    var t := Inserted(s, e);
    forall i, j | 0 <= i < j < |t| ensures EntryLeq(t[i], t[j]) {
      var a := if i <= p then i else i - 1;
      var b := if j <= p then j else j - 1;
      assert i != p ==> t[i] == s[a];
      assert j != p ==> t[j] == s[b];
      if i == p {
        assert EntryLeq(s[p], s[b]);
      }
    }
  }

  lemma InsertedMultiset(s: seq<Entry>, e: Entry)
    ensures multiset(Inserted(s, e)) == multiset(s) + multiset{e}
  {
    var p := UpperBound(s, e.key);
    assert s == s[..p] + s[p..];
  }

  ghost predicate AllAtMost(s: seq<Entry>, k: Key) {
    forall i :: 0 <= i < |s| ==> !Less(k, s[i].key)
  }

  ghost predicate AllAbove(k: Key, s: seq<Entry>) {
    forall i :: 0 <= i < |s| ==> Less(k, s[i].key)
  }

  /** `UpperBound` is the only place with keys at most `k` before it and a larger one after it. */
  lemma UpperBoundUnique(s: seq<Entry>, k: Key, q: nat)
    requires q <= |s| && AllAtMost(s[..q], k)
    requires q < |s| ==> Less(k, s[q].key)
    ensures UpperBound(s, k) == q
  {
    assert forall i :: 0 <= i < q ==> s[..q][i] == s[i];
  }

  lemma {:induction false} UpperBoundMiddle(a: seq<Entry>, b: seq<Entry>, c: seq<Entry>, k: Key)
    requires AllAtMost(a, k) && AllAbove(k, c)
    ensures UpperBound(a + b + c, k) == |a| + UpperBound(b, k)
  {
    var s, q := a + b + c, |a| + UpperBound(b, k);
    assert forall i :: 0 <= i < q ==> s[..q][i] == if i < |a| then a[i] else b[i - |a|];
    UpperBoundUnique(s, k, q);
  }

  lemma PutMiddle<T>(a: seq<T>, b: seq<T>, c: seq<T>, x: T, r: nat)
    requires r <= |b|
    ensures (a + b + c)[..|a| + r] + [x] + (a + b + c)[|a| + r..] == a + (b[..r] + [x] + b[r..]) + c
  {
    assert (a + b + c)[..|a| + r] == a + b[..r];
    assert (a + b + c)[|a| + r..] == b[r..] + c;
  }

  lemma {:induction false} InsertedMiddle(a: seq<Entry>, b: seq<Entry>, c: seq<Entry>, e: Entry)
    requires AllAtMost(a, e.key) && AllAbove(e.key, c)
    ensures Inserted(a + b + c, e) == a + Inserted(b, e) + c
  {
    var r := UpperBound(b, e.key);
    UpperBoundMiddle(a, b, c, e.key);
    PutMiddle(a, b, c, e, r);
  }

  method EntryInsertPosition(entries: seq<Entry>, entry: Entry) returns (position: nat)
    ensures position <= |entries|
    ensures forall i :: 0 <= i < position ==> EntryLeq(entries[i], entry)
    ensures position < |entries| ==> !EntryLeq(entries[position], entry)
    ensures Newest(entries, entry) ==> position == UpperBound(entries, entry.key)
  {
    position := 0;
    while position < |entries| && EntryLeq(entries[position], entry)
      invariant position <= |entries|
      invariant forall i :: 0 <= i < position ==> EntryLeq(entries[i], entry)
    {
      position := position + 1;
    }
    LessIsWeakOrder();
  }

  method ChildIndexForKey(keys: seq<Key>, key: Key) returns (position: nat)
    ensures position <= |keys|
    ensures forall i :: 0 <= i < position ==> !Less(key, keys[i])
    ensures position < |keys| ==> Less(key, keys[position])
  {
    position := 0;
    while position < |keys| && !Less(key, keys[position])
      invariant position <= |keys|
      invariant forall i :: 0 <= i < position ==> !Less(key, keys[i])
    {
      position := position + 1;
    }
  }

  /** Everything left of a child is at most the separator before it. */
  lemma {:induction false} LeftOfChild(children: seq<Node>, i: nat, k: Key)
    requires 0 < i <= |children| && Populated(children[i - 1])
    requires Sorted(WalkAll(children[..i]))
    requires !Less(k, MaxKey(children[i - 1]))
    ensures AllAtMost(WalkAll(children[..i]), k)
  {
    LessIsWeakOrder();
    var a := WalkAll(children[..i]);
    WalkAllSplit(children[..i], i - 1);
    assert children[..i][i..] == [];
    MaxKeyIsLast(children[i - 1]);
    assert a[|a| - 1].key == MaxKey(children[i - 1]);
    forall j | 0 <= j < |a| ensures !Less(k, a[j].key) {
      assert j < |a| - 1 ==> EntryLeq(a[j], a[|a| - 1]);
    }
  }

  /** Everything right of a child is above any key below the child's maximum. */
  lemma {:induction false} RightOfChild(b: seq<Entry>, c: seq<Entry>, child: Node, k: Key)
    requires Populated(child) && b == Walk(child)
    requires forall i, j :: 0 <= i < |b| && 0 <= j < |c| ==> EntryLeq(b[i], c[j])
    requires Less(k, MaxKey(child))
    ensures AllAbove(k, c)
  {
    LessIsWeakOrder();
    MaxKeyIsLast(child);
    forall j | 0 <= j < |c| ensures Less(k, c[j].key) {
      assert EntryLeq(b[|b| - 1], c[j]);
    }
  }

  /** The descent by separators keeps the rest of the traversal on the right side of the key. */
  lemma {:induction false} ChildWindow(node: Node, i: nat, k: Key)
    requires !node.IsLeaf() && |node.keys| == |node.children| - 1 && i < |node.children|
    requires forall j :: 0 <= j < |node.children| ==> Populated(node.children[j])
    requires node.keys == SeparatorKeys(node.children)
    requires Sorted(WalkAll(node.children))
    requires i > 0 ==> !Less(k, node.keys[i - 1])
    requires i < |node.keys| ==> Less(k, node.keys[i])
    ensures AllAtMost(WalkAll(node.children[..i]), k)
    ensures AllAbove(k, WalkAll(node.children[i + 1..]))
    ensures Sorted(Walk(node.children[i]))
  {
    var a, b, c := WalkAll(node.children[..i]), Walk(node.children[i]), WalkAll(node.children[i + 1..]);
    WalkAllSplit(node.children, i);
    assert a + b + c == a + (b + c);
    SortedConcat(a, b + c);
    SortedConcat(b, c);
    if i > 0 {
      LeftOfChild(node.children, i, k);
    } else {
      assert node.children[..i] == [];
    }
    if i < |node.keys| {
      RightOfChild(b, c, node.children[i], k);
    } else {
      assert node.children[i + 1..] == [];
    }
  }

  // ---------------------------------------------------------------- splitting

  method SplitLeaf(node: Node, order: nat) returns (left: Node, right: Node)
    requires order >= 3 && |node.entries| == order
    ensures Walk(left) + Walk(right) == node.entries
    ensures Shape(left, order, 1, false) && Shape(right, order, 1, false)
  {
    var splitAt := |node.entries| / 2;
    left, right := MakeLeaf(node.entries[..splitAt]), MakeLeaf(node.entries[splitAt..]);
  }

  method SplitInternal(node: Node, order: nat, ghost h: nat) returns (left: Node, right: Node)
    requires order >= 3 && h >= 1 && |node.children| == order + 1
    requires forall i :: 0 <= i < |node.children| ==> Shape(node.children[i], order, h, false)
    ensures Walk(left) + Walk(right) == WalkAll(node.children)
    ensures Shape(left, order, h + 1, false) && Shape(right, order, h + 1, false)
  {
    var splitAt := |node.children| / 2;
    var l, r := node.children[..splitAt], node.children[splitAt..];
    InnerOf(l, order, h, false);
    InnerOf(r, order, h, false);
    left, right := MakeInternal(l), MakeInternal(r);
    WalkAllConcat(l, r);
    assert l + r == node.children;
  }

  // ---------------------------------------------------------------- insertion

  function WalkPair(node: Node, split: Option<Node>): seq<Entry> {
    Walk(node) + (if split.Some? then Walk(split.value) else [])
  }

  /** Inserts below `node`; the node may come back as two nodes of the same height. */
  method InsertIntoNode(node: Node, entry: Entry, order: nat, ghost h: nat, ghost isRoot: bool)
    returns (result: Node, split: Option<Node>)
    requires order >= 3 && Shape(node, order, h, isRoot)
    requires Sorted(Walk(node)) && Newest(Walk(node), entry)
    ensures WalkPair(result, split) == Inserted(Walk(node), entry)
    ensures split.None? ==> Shape(result, order, h, isRoot)
    ensures split.Some? ==> Shape(result, order, h, false) && Shape(split.value, order, h, false)
    decreases node
  {
    if node.IsLeaf() {
      result, split := InsertIntoLeaf(node, entry, order, isRoot);
      return;
    }
    var i := ChildIndexForKey(node.keys, entry.key);
    BeforeDescent(node, i, entry);
    var child, childSplit := InsertIntoNode(node.children[i], entry, order, h - 1, false);
    AfterDescent(node, i, entry, child, childSplit, order, h);
    var children := node.children[..i] + Pieces(child, childSplit) + node.children[i + 1..];
    result, split := Reassemble(children, order, h, isRoot);
  }

  method InsertIntoLeaf(node: Node, entry: Entry, order: nat, ghost isRoot: bool)
    returns (result: Node, split: Option<Node>)
    requires order >= 3 && LeafShape(node, order, isRoot) && Newest(node.entries, entry)
    ensures WalkPair(result, split) == Inserted(node.entries, entry)
    ensures split.None? ==> Shape(result, order, 1, isRoot)
    ensures split.Some? ==> Shape(result, order, 1, false) && Shape(split.value, order, 1, false)
  {
    var position := EntryInsertPosition(node.entries, entry);
    var leaf := MakeLeaf(node.entries[..position] + [entry] + node.entries[position..]);
    if |leaf.entries| <= MaxLeafEntries(order) {
      return leaf, None;
    }
    var left, right := SplitLeaf(leaf, order);
    return left, Some(right);
  }

  /** The inner node over the new children, split in two when one child too many. */
  method Reassemble(children: seq<Node>, order: nat, ghost h: nat, ghost isRoot: bool)
    returns (result: Node, split: Option<Node>)
    requires order >= 3 && h > 1 && 2 <= |children| <= order + 1
    requires !isRoot ==> MinChildren(order) <= |children|
    requires forall j :: 0 <= j < |children| ==> Shape(children[j], order, h - 1, false)
    ensures WalkPair(result, split) == WalkAll(children)
    ensures split.None? ==> Shape(result, order, h, isRoot)
    ensures split.Some? ==> Shape(result, order, h, false) && Shape(split.value, order, h, false)
  {
    InnerOfPopulated(children, order, h - 1);
    if |children| <= order {
      InnerOf(children, order, h - 1, isRoot);
      return MakeInternal(children), None;
    }
    var left, right := SplitInternal(MakeInternal(children), order, h - 1);
    return left, Some(right);
  }

  function Pieces(node: Node, split: Option<Node>): seq<Node> {
    if split.Some? then [node, split.value] else [node]
  }

  /** What the recursive call needs. */
  lemma {:induction false} BeforeDescent(node: Node, i: nat, entry: Entry)
    requires !node.IsLeaf() && i < |node.children|
    requires Sorted(Walk(node)) && Newest(Walk(node), entry)
    ensures Sorted(Walk(node.children[i])) && Newest(Walk(node.children[i]), entry)
  {
    var a, b, c := WalkAll(node.children[..i]), Walk(node.children[i]), WalkAll(node.children[i + 1..]);
    WalkAllSplit(node.children, i);
    SortedConcat(a + b, c);
    SortedConcat(a, b);
    NewestParts(a, b, c, entry);
  }

  /** What the recursive call gives: the new children walk to the insertion into the whole node. */
  lemma {:induction false} AfterDescent(node: Node, i: nat, entry: Entry, child: Node, split: Option<Node>,
                                        order: nat, h: nat)
    requires !node.IsLeaf() && i < |node.children| && h > 1
    requires order >= 3 && InnerShape(node, order, true) && Sorted(Walk(node))
    requires forall j :: 0 <= j < |node.children| ==> Shape(node.children[j], order, h - 1, false)
    requires i > 0 ==> !Less(entry.key, node.keys[i - 1])
    requires i < |node.keys| ==> Less(entry.key, node.keys[i])
    requires WalkPair(child, split) == Inserted(Walk(node.children[i]), entry)
    requires Shape(child, order, h - 1, false)
    requires split.Some? ==> Shape(split.value, order, h - 1, false)
    ensures var all := node.children[..i] + Pieces(child, split) + node.children[i + 1..];
      && WalkAll(all) == Inserted(Walk(node), entry)
      && (forall j :: 0 <= j < |all| ==> Shape(all[j], order, h - 1, false))
  {
    var a, b, c := WalkAll(node.children[..i]), Walk(node.children[i]), WalkAll(node.children[i + 1..]);
    WalkAllSplit(node.children, i);
    ChildWindow(node, i, entry.key);
    InsertedMiddle(a, b, c, entry);
    MiddleWalk(node.children[..i], child, split, node.children[i + 1..]);
    PiecesShape(child, split, order, h - 1);
    ChildrenShape(node.children, i, Pieces(child, split), order, h - 1);
  }

  lemma PiecesShape(child: Node, split: Option<Node>, order: nat, h: nat)
    requires Shape(child, order, h, false) && (split.Some? ==> Shape(split.value, order, h, false))
    ensures forall j :: 0 <= j < |Pieces(child, split)| ==> Shape(Pieces(child, split)[j], order, h, false)
  {
  }

  lemma NewestParts(a: seq<Entry>, b: seq<Entry>, c: seq<Entry>, e: Entry)
    requires Newest(a + b + c, e)
    ensures Newest(b, e)
  {
    forall i | 0 <= i < |b| ensures b[i].sequence < e.sequence {
      assert (a + b + c)[|a| + i] == b[i];
    }
  }

  lemma MiddleWalk(before: seq<Node>, child: Node, split: Option<Node>, after: seq<Node>)
    ensures WalkAll(before + Pieces(child, split) + after)
         == WalkAll(before) + WalkPair(child, split) + WalkAll(after)
  {
    var middle := Pieces(child, split);
    WalkAllConcat(before + middle, after);
    WalkAllConcat(before, middle);
    WalkAllSingle(child);
    if split.Some? {
      assert middle == [child] + [split.value];
      WalkAllConcat([child], [split.value]);
      WalkAllSingle(split.value);
    }
  }

  lemma {:induction false} ChildrenShape(children: seq<Node>, i: nat, middle: seq<Node>, order: nat, h: nat)
    requires i < |children|
    requires forall j :: 0 <= j < |children| ==> Shape(children[j], order, h, false)
    requires forall j :: 0 <= j < |middle| ==> Shape(middle[j], order, h, false)
    ensures var all := children[..i] + middle + children[i + 1..];
      forall j :: 0 <= j < |all| ==> Shape(all[j], order, h, false)
  {
    var all := children[..i] + middle + children[i + 1..];
    forall j | 0 <= j < |all| ensures Shape(all[j], order, h, false) {
      if j < i {
        assert all[j] == children[j];
      } else if j < i + |middle| {
        assert all[j] == middle[j - i];
      } else {
        assert all[j] == children[j - |middle| + 1];
      }
    }
  }

  lemma {:induction false} InnerOfPopulated(children: seq<Node>, order: nat, h: nat)
    requires order >= 3
    requires forall j :: 0 <= j < |children| ==> Shape(children[j], order, h, false)
    ensures forall j :: 0 <= j < |children| ==> Populated(children[j])
  {
    forall j | 0 <= j < |children| ensures Populated(children[j]) {
      ShapeFacts(children[j], order, h, false);
    }
  }

  lemma PairWalk(node: Node, split: Option<Node>)
    requires split.Some?
    ensures WalkAll([node, split.value]) == WalkPair(node, split)
  {
    MiddleWalk([], node, split, []);
    assert [] + [node, split.value] + [] == [node, split.value];
  }

  /** The whole insertion at the root: a split root grows the tree by one level. */
  method InsertAtRoot(root: Node, entry: Entry, order: nat) returns (newRoot: Node)
    requires ValidRoot(root, order) && Newest(Walk(root), entry)
    ensures ValidRoot(newRoot, order)
    ensures Walk(newRoot) == Inserted(Walk(root), entry)
  {
    InsertedSorted(Walk(root), entry);
    ghost var h := Height(root);
    var result, split := InsertIntoNode(root, entry, order, h, true);
    if split.None? {
      ShapeFacts(result, order, h, true);
      assert WalkPair(result, split) == Walk(result);
      return result;
    }
    InnerOf([result, split.value], order, h, true);
    newRoot := MakeInternal([result, split.value]);
    ShapeFacts(newRoot, order, h + 1, true);
    PairWalk(result, split);
  }
}

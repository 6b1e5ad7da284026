/** Deletion: matching entries are removed leaf by leaf, and what is left is bulk loaded again. */
module BTreeDelete {
  import opened Values
  import opened BTreeNodes
  import opened BTreeBulk

  /** The entries a deletion removes: those with an equal key and, if one is given, that pointer. */
  predicate Doomed(e: Entry, key: Key, pointer: Option<Pointer>) {
    !Less(e.key, key) && !Less(key, e.key) && (pointer.None? || e.pointer == pointer.value)
  }

  /** The traversal without the removed entries, otherwise in the same order. */
  function Kept(s: seq<Entry>, key: Key, pointer: Option<Pointer>): seq<Entry> {
    if s == [] then []
    else (if Doomed(s[0], key, pointer) then [] else [s[0]]) + Kept(s[1..], key, pointer)
  }

  ghost predicate AnyDoomed(s: seq<Entry>, key: Key, pointer: Option<Pointer>) {
    exists i :: 0 <= i < |s| && Doomed(s[i], key, pointer)
  }

  lemma {:induction false} KeptConcat(s: seq<Entry>, t: seq<Entry>, key: Key, pointer: Option<Pointer>)
    ensures Kept(s + t, key, pointer) == Kept(s, key, pointer) + Kept(t, key, pointer)
  {
    if s == [] {
      assert s + t == t;
    } else {
      assert (s + t)[1..] == s[1..] + t;
      KeptConcat(s[1..], t, key, pointer);
    }
  }

  /** Deletion keeps exactly the entries it does not remove, each as often as before. */
  lemma {:induction false} KeptCounts(s: seq<Entry>, key: Key, pointer: Option<Pointer>, e: Entry)
    ensures multiset(Kept(s, key, pointer))[e] == if Doomed(e, key, pointer) then 0 else multiset(s)[e]
  {
    if s != [] {
      KeptCounts(s[1..], key, pointer, e);
      assert s == [s[0]] + s[1..];
    }
  }

  /** ... and keeps the order of the traversal. */
  lemma {:induction false} KeptSorted(s: seq<Entry>, key: Key, pointer: Option<Pointer>)
    requires Sorted(s)
    ensures Sorted(Kept(s, key, pointer))
  {
    if s != [] {
      var rest := Kept(s[1..], key, pointer);
      SortedConcat([s[0]], s[1..]);
      assert [s[0]] + s[1..] == s;
      KeptSorted(s[1..], key, pointer);
      forall i | 0 <= i < |rest| ensures EntryLeq(s[0], rest[i]) {
        KeptCounts(s[1..], key, pointer, rest[i]);
        assert rest[i] in multiset(rest);
        assert rest[i] in s[1..];
      }
    }
  }

  lemma {:induction false} KeptSame(s: seq<Entry>, key: Key, pointer: Option<Pointer>)
    requires !AnyDoomed(s, key, pointer)
    ensures Kept(s, key, pointer) == s
  {
    if s != [] {
      assert !Doomed(s[0], key, pointer);
      assert forall i :: 0 <= i < |s[1..]| ==> s[1..][i] == s[i + 1];
      KeptSame(s[1..], key, pointer);
    }
  }

  /** A result of the recursive deletion: empty, or without empty leaves. It need not be balanced. */
  ghost predicate EmptyOrPopulated(n: Node) {
    n == EMPTY || Populated(n)
  }

  lemma KeptSnoc(s: seq<Entry>, i: nat, key: Key, pointer: Option<Pointer>)
    requires i < |s|
    ensures Kept(s[..i + 1], key, pointer)
         == Kept(s[..i], key, pointer) + if Doomed(s[i], key, pointer) then [] else [s[i]]
    ensures AnyDoomed(s[..i + 1], key, pointer) <==> AnyDoomed(s[..i], key, pointer) || Doomed(s[i], key, pointer)
  {
    assert s[..i + 1] == s[..i] + [s[i]];
    KeptConcat(s[..i], [s[i]], key, pointer);
    assert [s[i]][1..] == [];
    AnyDoomedConcat(s[..i], [s[i]], key, pointer);
    assert AnyDoomed([s[i]], key, pointer) <==> Doomed([s[i]][0], key, pointer);
  }

  method DeleteFromLeaf(node: Node, key: Key, pointer: Option<Pointer>) returns (result: Node, removed: bool)
    requires node.IsLeaf()
    ensures result.IsLeaf() && result == MakeLeaf(Kept(node.entries, key, pointer))
    ensures removed <==> AnyDoomed(node.entries, key, pointer)
  {
    var remaining: seq<Entry> := [];
    removed := false;
    for i := 0 to |node.entries|
      invariant remaining == Kept(node.entries[..i], key, pointer)
      invariant removed <==> AnyDoomed(node.entries[..i], key, pointer)
    {
      var entry := node.entries[i];
      KeptSnoc(node.entries, i, key, pointer);
      if Doomed(entry, key, pointer) {
        removed := true;
      } else {
        remaining := remaining + [entry];
      }
    }
    assert node.entries[..|node.entries|] == node.entries;
    result := MakeLeaf(remaining);
  }

  lemma AnyDoomedConcat(s: seq<Entry>, t: seq<Entry>, key: Key, pointer: Option<Pointer>)
    ensures AnyDoomed(s + t, key, pointer) <==> AnyDoomed(s, key, pointer) || AnyDoomed(t, key, pointer)
  {
    if AnyDoomed(s, key, pointer) {
      var i :| 0 <= i < |s| && Doomed(s[i], key, pointer);
      assert (s + t)[i] == s[i];
    }
    if AnyDoomed(t, key, pointer) {
      var i :| 0 <= i < |t| && Doomed(t[i], key, pointer);
      assert (s + t)[|s| + i] == t[i];
    }
  }

  ghost predicate AllPopulated(children: seq<Node>) {
    forall j :: 0 <= j < |children| ==> Populated(children[j])
  }

  method DeleteFromNode(node: Node, key: Key, pointer: Option<Pointer>) returns (result: Node, removed: bool)
    ensures Walk(result) == Kept(Walk(node), key, pointer)
    ensures removed <==> AnyDoomed(Walk(node), key, pointer)
    ensures EmptyOrPopulated(result)
    decreases node
  {
    if node.IsLeaf() {
      result, removed := DeleteFromLeaf(node, key, pointer);
      return;
    }
    removed := false;
    var children: seq<Node> := [];
    for i := 0 to |node.children|
      invariant WalkAll(children) == Kept(WalkAll(node.children[..i]), key, pointer)
      invariant removed <==> AnyDoomed(WalkAll(node.children[..i]), key, pointer)
      invariant AllPopulated(children)
    {
      var child, childRemoved := DeleteFromNode(node.children[i], key, pointer);
      OneMoreChild(node.children, i, key, pointer);
      removed := removed || childRemoved;
      WalkOneMore(children, child);
      if !child.IsEmpty() {
        children := children + [child];
      }
    }
    assert node.children[..|node.children|] == node.children;
    if children == [] {
      result := EMPTY;
    } else if |children| == 1 {
      WalkAllSingle(children[0]);
      assert children == [children[0]];
      result := children[0];
    } else {
      result := MakeInternal(children);
    }
  }

  lemma {:induction false} WalkOneMore(children: seq<Node>, child: Node)
    requires EmptyOrPopulated(child)
    ensures WalkAll(if child.IsEmpty() then children else children + [child]) == WalkAll(children) + Walk(child)
    ensures AllPopulated(children) ==> AllPopulated(if child.IsEmpty() then children else children + [child])
  {
    WalkAllConcat(children, [child]);
    WalkAllSingle(child);
  }

  lemma {:induction false} OneMoreChild(children: seq<Node>, i: nat, key: Key, pointer: Option<Pointer>)
    requires i < |children|
    ensures Kept(WalkAll(children[..i + 1]), key, pointer)
         == Kept(WalkAll(children[..i]), key, pointer) + Kept(Walk(children[i]), key, pointer)
    ensures AnyDoomed(WalkAll(children[..i + 1]), key, pointer)
       <==> AnyDoomed(WalkAll(children[..i]), key, pointer) || AnyDoomed(Walk(children[i]), key, pointer)
  {
    assert children[..i + 1] == children[..i] + [children[i]];
    WalkAllConcat(children[..i], [children[i]]);
    WalkAllSingle(children[i]);
    KeptConcat(WalkAll(children[..i]), Walk(children[i]), key, pointer);
    AnyDoomedConcat(WalkAll(children[..i]), Walk(children[i]), key, pointer);
  }

  /** The whole deletion at the root. */
  method DeleteAtRoot(root: Node, key: Key, pointer: Option<Pointer>, order: nat) returns (newRoot: Node, removed: bool)
    requires ValidRoot(root, order)
    ensures ValidRoot(newRoot, order)
    ensures Walk(newRoot) == Kept(Walk(root), key, pointer)
    ensures removed <==> AnyDoomed(Walk(root), key, pointer)
    ensures !removed ==> newRoot == root
  {
    var pruned;
    pruned, removed := DeleteFromNode(root, key, pointer);
    KeptSorted(Walk(root), key, pointer);
    if !removed {
      KeptSame(Walk(root), key, pointer);
      return root, false;
    }
    newRoot := BulkLoadEntries(Walk(pruned), order);
  }
}

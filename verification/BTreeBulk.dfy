/** Bulk loading: balanced leaves, then balanced levels of inner nodes up to a single root. */
module BTreeBulk {
  import opened Values
  import opened BTreeNodes

  function Sum(s: seq<nat>): nat {
    if s == [] then 0 else s[0] + Sum(s[1..])
  }

  lemma {:induction false} SumConcat(s: seq<nat>, t: seq<nat>)
    ensures Sum(s + t) == Sum(s) + Sum(t)
  {
    if s == [] {
      assert s + t == t;
    } else {
      assert (s + t)[1..] == s[1..] + t;
      SumConcat(s[1..], t);
    }
  }

  // ---------------------------------------------------------------- balanced sizes

  /** Enough room to share a surplus: the two size pairs of every order >= 3 have it. */
  predicate Shareable(maxSize: nat, minSize: nat) {
    1 <= minSize && 2 * minSize <= maxSize + 1
  }

  lemma OrderPairsShareable(order: nat)
    requires order >= 3
    ensures Shareable(MaxLeafEntries(order), MinLeafEntries(order))
    ensures Shareable(order, MinChildren(order))
  {
  }

  function CeilDiv(total: nat, d: nat): nat
    requires d > 0
  {
    (total + d - 1) / d
  }

  lemma MulMonotone(a: nat, b: nat, c: nat)
    requires a <= b
    ensures a * c <= b * c
  {
  }

  lemma MulCancel(a: nat, b: nat, c: nat)
    requires a * c < b * c
    ensures a < b
  {
    if b <= a {
      MulMonotone(b, a, c);
    }
  }

  /** Division is at least `m` when the dividend holds `m` full shares. */
  lemma QuotientAtLeast(total: nat, c: nat, m: nat)
    requires c > 0 && m * c <= total
    ensures m <= total / c
  {
    var q := total / c;
    assert total == q * c + total % c;
    assert (q + 1) * c == q * c + c;
    MulCancel(m, q + 1, c);
  }

  lemma QuotientAtMost(total: nat, c: nat, m: nat)
    requires c > 0 && total <= m * c
    ensures total / c <= m
    ensures total / c == m ==> total % c == 0
  {
    var q := total / c;
    assert total == q * c + total % c;
    assert (m + 1) * c == m * c + c;
    MulCancel(q, m + 1, c);
  }

  lemma CeilDivBounds(total: nat, d: nat)
    requires d > 0 && total > d
    ensures CeilDiv(total, d) >= 2
    ensures d * (CeilDiv(total, d) - 1) < total <= d * CeilDiv(total, d)
    ensures d >= 2 ==> CeilDiv(total, d) < total
  {
    var c := CeilDiv(total, d);
    assert total + d - 1 == d * c + (total + d - 1) % d;
    assert d * (c - 1) == d * c - d;
    QuotientAtLeast(total + d - 1, d, 2);
    if d >= 2 {
      MulMonotone(2, d, c - 1);
      assert 2 * (c - 1) <= d * (c - 1);
    }
  }

  /** `c` groups of at least `minSize` fit into anything that overflows `c - 1` full groups. */
  lemma SharesFit(total: nat, c: nat, maxSize: nat, minSize: nat)
    requires Shareable(maxSize, minSize) && c >= 2
    requires maxSize * (c - 1) < total
    ensures minSize * c <= total
  {
    MulMonotone(2 * minSize - 1, maxSize, c - 1);
    MulMonotone(0, minSize - 1, c - 2);
    assert (2 * minSize - 1) * (c - 1) + 1 - minSize * c == (minSize - 1) * (c - 2);
  }

  /** The quotient already meets the minimum, so the count-lowering loop has nothing to do. */
  lemma QuotientIsEnough(total: nat, maxSize: nat, minSize: nat)
    requires Shareable(maxSize, minSize) && total > maxSize
    ensures var c := CeilDiv(total, maxSize);
      && c >= 2
      && minSize <= total / c <= maxSize
      && (total / c == maxSize ==> total % c == 0)
  {
    var c := CeilDiv(total, maxSize);
    CeilDivBounds(total, maxSize);
    SharesFit(total, c, maxSize, minSize);
    QuotientAtLeast(total, c, minSize);
    QuotientAtMost(total, c, maxSize);
  }

  /** `sizes` shares out `total` evenly. */
  method BalancedSizes(total: nat, maxSize: nat, minSize: nat) returns (sizes: seq<nat>)
    requires maxSize >= 1
    ensures Sum(sizes) == total && sizes != []
    ensures forall i, j :: 0 <= i < j < |sizes| ==> sizes[j] <= sizes[i] <= sizes[j] + 1
    ensures total <= maxSize ==> sizes == [total]
    ensures Shareable(maxSize, minSize) && total > maxSize ==> |sizes| == CeilDiv(total, maxSize)
    ensures Shareable(maxSize, minSize) && total > maxSize ==>
      forall i :: 0 <= i < |sizes| ==> minSize <= sizes[i] <= maxSize
  {
    if total <= maxSize {
      sizes := [total];
      assert sizes[1..] == [];
      return;
    }
    var count := (total + maxSize - 1) / maxSize;
    CeilDivBounds(total, maxSize);
    if Shareable(maxSize, minSize) {
      QuotientIsEnough(total, maxSize, minSize);
    }
    while count > 1 && total / count < minSize
      invariant 1 <= count
      invariant Shareable(maxSize, minSize) ==> count == CeilDiv(total, maxSize)
    {
      count := count - 1;
    }
    var base, remainder := total / count, total % count;
    EvenSizes(total, count, base, remainder);
    sizes := Even(count, base, remainder);
  }

  /** `count` sizes, the first `remainder` of them one larger. */
  function Even(count: nat, base: nat, remainder: nat): seq<nat> {
    seq(count, position requires 0 <= position < count => base + (if position < remainder then 1 else 0))
  }

  lemma EvenSizes(total: nat, count: nat, base: nat, remainder: nat)
    requires 0 < count && base == total / count && remainder == total % count
    ensures Sum(Even(count, base, remainder)) == total
    ensures remainder < count
  {
    EvenSum(Even(count, base, remainder), base, remainder);
    assert total == base * count + remainder;
  }

  lemma {:induction false} EvenSum(sizes: seq<nat>, base: nat, remainder: nat)
    requires forall i :: 0 <= i < |sizes| ==> sizes[i] == base + (if i < remainder then 1 else 0)
    ensures Sum(sizes) == base * |sizes| + (if remainder < |sizes| then remainder else |sizes|)
  {
    if sizes != [] {
      EvenSum(sizes[1..], base, if remainder > 0 then remainder - 1 else 0);
      assert base * |sizes| == base * (|sizes| - 1) + base;
    }
  }

  // ---------------------------------------------------------------- levels

  /** Start and length of each group. */
  method SizedOffsets(sizes: seq<nat>) returns (offsets: seq<(nat, nat)>)
    ensures |offsets| == |sizes|
    ensures forall i :: 0 <= i < |sizes| ==> offsets[i] == (Sum(sizes[..i]), sizes[i])
  {
    offsets := [];
    var offset := 0;
    for i := 0 to |sizes|
      invariant |offsets| == i && offset == Sum(sizes[..i])
      invariant forall j :: 0 <= j < i ==> offsets[j] == (Sum(sizes[..j]), sizes[j])
    {
      offsets := offsets + [(offset, sizes[i])];
      SumPrefix(sizes, i);
      offset := offset + sizes[i];
    }
  }

  lemma {:induction false} SumPrefix(sizes: seq<nat>, i: nat)
    requires i < |sizes|
    ensures Sum(sizes[..i + 1]) == Sum(sizes[..i]) + sizes[i] <= Sum(sizes)
  {
    assert sizes[..i + 1] == sizes[..i] + [sizes[i]];
    SumConcat(sizes[..i], [sizes[i]]);
    assert [sizes[i]][1..] == [];
    assert sizes == sizes[..i + 1] + sizes[i + 1..];
    SumConcat(sizes[..i + 1], sizes[i + 1..]);
  }

  method PackLeaves(entries: seq<Entry>, sizes: seq<nat>) returns (level: seq<Node>)
    requires Sum(sizes) == |entries|
    ensures |level| == |sizes| && WalkAll(level) == entries
    ensures forall i :: 0 <= i < |level| ==> level[i] == MakeLeaf(level[i].entries) && |level[i].entries| == sizes[i]
  {
    var offsets := SizedOffsets(sizes);
    level := [];
    for i := 0 to |offsets|
      invariant |level| == i && Sum(sizes[..i]) <= |entries|
      invariant WalkAll(level) == entries[..Sum(sizes[..i])]
      invariant forall j :: 0 <= j < i ==> level[j] == MakeLeaf(level[j].entries) && |level[j].entries| == sizes[j]
    {
      var (offset, size) := offsets[i];
      SumPrefix(sizes, i);
      var leaf := MakeLeaf(entries[offset..offset + size]);
      WalkAllConcat(level, [leaf]);
      WalkAllSingle(leaf);
      assert entries[..offset + size] == entries[..offset] + entries[offset..offset + size];
      level := level + [leaf];
    }
    assert sizes[..|sizes|] == sizes;
  }

  /** `level` holds nodes of one height that may stand below a parent. */
  ghost predicate Level(level: seq<Node>, order: nat, h: nat) {
    forall i :: 0 <= i < |level| ==> Shape(level[i], order, h, false)
  }

  /** A run of a level, put under one parent. */
  lemma {:induction false} GroupShape(level: seq<Node>, offset: nat, size: nat, order: nat, h: nat, isRoot: bool)
    requires order >= 3 && h >= 1 && Level(level, order, h)
    requires offset + size <= |level| && 2 <= size <= order
    requires !isRoot ==> MinChildren(order) <= size
    ensures var children := level[offset..offset + size];
      && (forall i :: 0 <= i < |children| ==> Populated(children[i]))
      && Shape(MakeInternal(children), order, h + 1, isRoot)
      && WalkAll(level[..offset + size]) == WalkAll(level[..offset]) + Walk(MakeInternal(children))
  {
    var children := level[offset..offset + size];
    InnerOf(children, order, h, isRoot);
    assert level[..offset + size] == level[..offset] + children;
    WalkAllConcat(level[..offset], children);
  }

  /** The next node, over the children at the sum of the earlier sizes. */
  lemma PackStep(level: seq<Node>, sizes: seq<nat>, i: nat, nodes: seq<Node>, children: seq<Node>, order: nat, h: nat,
                 isRoot: bool)
    requires order >= 3 && h >= 1 && Level(level, order, h) && Sum(sizes) == |level|
    requires i < |sizes| && 2 <= sizes[i] <= order && (!isRoot ==> MinChildren(order) <= sizes[i])
    requires Sum(sizes[..i]) + sizes[i] <= |level| && WalkAll(nodes) == WalkAll(level[..Sum(sizes[..i])])
    requires children == level[Sum(sizes[..i])..Sum(sizes[..i]) + sizes[i]]
    ensures Sum(sizes[..i + 1]) <= |level| && children != []
    ensures forall j :: 0 <= j < |children| ==> Populated(children[j])
    ensures Shape(MakeInternal(children), order, h + 1, isRoot)
    ensures WalkAll(nodes + [MakeInternal(children)]) == WalkAll(level[..Sum(sizes[..i + 1])])
  {
    SumPrefix(sizes, i);
    GroupShape(level, Sum(sizes[..i]), sizes[i], order, h, isRoot);
    WalkAllConcat(nodes, [MakeInternal(children)]);
    WalkAllSingle(MakeInternal(children));
  }

  ghost predicate AllShaped(nodes: seq<Node>, order: nat, h: nat, isRoot: bool) {
    forall i :: 0 <= i < |nodes| ==> Shape(nodes[i], order, h, isRoot)
  }

  lemma AllShapedSnoc(nodes: seq<Node>, node: Node, order: nat, h: nat, isRoot: bool)
    requires AllShaped(nodes, order, h, isRoot) && Shape(node, order, h, isRoot)
    ensures AllShaped(nodes + [node], order, h, isRoot)
  {
  }

  method PackInner(level: seq<Node>, sizes: seq<nat>, order: nat, ghost h: nat) returns (next: seq<Node>)
    requires order >= 3 && h >= 1 && Level(level, order, h) && Sum(sizes) == |level|
    requires forall i :: 0 <= i < |sizes| ==> 2 <= sizes[i] <= order
    requires |sizes| > 1 ==> forall i :: 0 <= i < |sizes| ==> MinChildren(order) <= sizes[i]
    ensures |next| == |sizes| && WalkAll(next) == WalkAll(level)
    ensures forall i :: 0 <= i < |next| ==> Shape(next[i], order, h + 1, |sizes| == 1)
  {
    var offsets := SizedOffsets(sizes);
    next := [];
    for i := 0 to |offsets|
      invariant |next| == i && Sum(sizes[..i]) <= |level|
      invariant WalkAll(next) == WalkAll(level[..Sum(sizes[..i])])
      invariant AllShaped(next, order, h + 1, |sizes| == 1)
    {
      var (offset, size) := offsets[i];
      SumPrefix(sizes, i);
      var children := level[offset..offset + size];
      PackStep(level, sizes, i, next, children, order, h, |sizes| == 1);
      AllShapedSnoc(next, MakeInternal(children), order, h + 1, |sizes| == 1);
      next := next + [MakeInternal(children)];
    }
    assert sizes[..|sizes|] == sizes;
    assert level[..|level|] == level;
  }

  /** Loads any entry list into a tree with exactly that traversal; every level is strictly
      shorter than the one below it. */
  method BulkLoadEntries(entries: seq<Entry>, order: nat) returns (root: Node)
    requires order >= 3
    ensures Walk(root) == entries
    ensures Shape(root, order, Height(root), true)
  {
    if entries == [] {
      return EMPTY;
    }
    OrderPairsShareable(order);
    var sizes := BalancedSizes(|entries|, MaxLeafEntries(order), MinLeafEntries(order));
    var level := PackLeaves(entries, sizes);
    ghost var h := 1;
    while |level| > 1
      invariant |level| >= 1 && h >= 1 && WalkAll(level) == entries
      invariant |level| > 1 ==> Level(level, order, h)
      invariant |level| == 1 ==> Shape(level[0], order, h, true)
      decreases |level|
    {
      sizes := BalancedSizes(|level|, order, MinChildren(order));
      CeilDivShrinks(|level|, order);
      level := PackInner(level, sizes, order, h);
      h := h + 1;
    }
    assert level == [level[0]];
    WalkAllSingle(level[0]);
    ShapeFacts(level[0], order, h, true);
    return level[0];
  }

  lemma CeilDivShrinks(n: nat, order: nat)
    requires order >= 3
    ensures n > order ==> CeilDiv(n, order) < n
  {
    if n > order {
      CeilDivBounds(n, order);
    }
  }
}

/** A named index: the newest image of its tree among the pages, loaded, changed and persisted
    again as a new page with the next generation number. */
module BTreeIndex {
  import opened Values
  import opened BTreeNodes
  import opened BTreeInsert
  import opened BTreeBulk
  import opened BTreeDelete
  import opened Catalog
  import opened Sequences
  import opened Storage

  // ---------------------------------------------------------------- which image is loaded

  /** Scanning the pages in order, an image of the index replaces the one found so far unless its
      generation is lower. */
  function Latest(pages: seq<Page>, name: string): Option<Image> {
    if pages == [] then None
    else
      var found := Latest(pages[..|pages| - 1], name);
      var page := pages[|pages| - 1];
      if page.IndexPage? && page.image.name == name && page.image.generation >= Generation(found)
      then Some(page.image) else found
  }

  function Generation(image: Option<Image>): nat {
    if image.Some? then image.value.generation else 0
  }

  /** All keys of an index are comparable with each other. */
  ghost predicate Homogeneous(s: seq<Entry>) {
    forall i, j {:trigger Comparable(s[i].key, s[j].key)} ::
      0 <= i < |s| && 0 <= j < |s| ==> Comparable(s[i].key, s[j].key)
  }

  /** A key can be compared with those stored. */
  predicate Takes(s: seq<Entry>, key: Value) {
    s != [] ==> Comparable(s[0].key, key)
  }

  ghost predicate SequencesBelow(s: seq<Entry>, next: nat) {
    forall i :: 0 <= i < |s| ==> s[i].sequence < next
  }

  ghost predicate ValidImage(image: Image) {
    && ValidRoot(image.root, image.order)
    && Homogeneous(Walk(image.root))
    && SequencesBelow(Walk(image.root), image.nextSequence)
  }

  ghost predicate ValidImages(pages: seq<Page>) {
    forall i {:trigger ValidImage(pages[i].image)} ::
      0 <= i < |pages| && pages[i].IndexPage? ==> ValidImage(pages[i].image)
  }

  /** The traversal of the index as stored; an index never persisted is empty. */
  function Stored(pages: seq<Page>, name: string): seq<Entry> {
    var image := Latest(pages, name);
    if image.Some? then Walk(image.value.root) else []
  }

  lemma {:induction false} LatestIsStored(pages: seq<Page>, name: string)
    ensures var l := Latest(pages, name);
      l.Some? ==> l.value.name == name && exists i :: 0 <= i < |pages| && pages[i] == IndexPage(l.value)
  {
    if pages != [] {
      LatestIsStored(pages[..|pages| - 1], name);
    }
  }

  predicate IsImage(page: Page, name: string) {
    page.IndexPage? && page.image.name == name
  }

  /** The image loaded is on the page `k`: no stored image of the index is newer, and any on a later
      page is older. */
  lemma {:induction false} LatestIsNewest(pages: seq<Page>, name: string) returns (k: nat)
    requires Latest(pages, name).Some?
    ensures k < |pages| && pages[k] == IndexPage(Latest(pages, name).value) && IsImage(pages[k], name)
    ensures forall i :: 0 <= i < |pages| && IsImage(pages[i], name) ==>
      pages[i].image.generation <= pages[k].image.generation
    ensures forall i :: k < i < |pages| && IsImage(pages[i], name) ==>
      pages[i].image.generation < pages[k].image.generation
  {
    var n := |pages| - 1;
    if Latest(pages[..n], name).Some? {
      k := LatestIsNewest(pages[..n], name);
    } else {
      NoImage(pages[..n], name);
    }
    assert forall i :: 0 <= i < n ==> pages[i] == pages[..n][i];
    if IsImage(pages[n], name) && pages[n].image.generation >= Generation(Latest(pages[..n], name)) {
      k := n;
    }
  }

  lemma {:induction false} NoImage(pages: seq<Page>, name: string)
    ensures Latest(pages, name).None? ==> forall i :: 0 <= i < |pages| ==> !IsImage(pages[i], name)
  {
    if pages != [] {
      NoImage(pages[..|pages| - 1], name);
    }
  }

  lemma {:induction false} LatestAppend(pages: seq<Page>, page: Page, name: string)
    ensures Latest(pages + [page], name) ==
      if page.IndexPage? && page.image.name == name && page.image.generation >= Generation(Latest(pages, name))
      then Some(page.image) else Latest(pages, name)
  {
    assert (pages + [page])[..|pages|] == pages;
  }

  /** Overwriting a page that holds no image by another such page changes no index. */
  lemma {:induction false} LatestOverwrite(pages: seq<Page>, i: nat, page: Page, name: string)
    requires i < |pages| && !pages[i].IndexPage? && !page.IndexPage?
    ensures Latest(pages[i := page], name) == Latest(pages, name)
  {
    var all, last := pages[i := page], |pages| - 1;
    if i < last {
      assert all[..last] == pages[..last][i := page];
      LatestOverwrite(pages[..last], i, page, name);
    } else {
      assert all[..last] == pages[..last];
    }
  }

  // ---------------------------------------------------------------- lookups

  datatype IndexLookup =
    | Equal(key: Value)
    | Range(start: Option<Value>, end: Option<Value>, includeStart: bool, includeEnd: bool)

  predicate InRange(key: Value, lookup: IndexLookup)
    requires lookup.Range?
  {
    && (lookup.start.Some? ==>
         !Less(key, lookup.start.value) && (lookup.includeStart || Less(lookup.start.value, key)))
    && (lookup.end.Some? ==>
         !Less(lookup.end.value, key) && (lookup.includeEnd || Less(key, lookup.end.value)))
  }

  predicate Selects(lookup: IndexLookup, key: Value) {
    match lookup
    case Equal(k) => !Less(key, k) && !Less(k, key)
    case Range(_, _, _, _) => InRange(key, lookup)
  }

  /** On keys that can be compared with its bounds a lookup selects, for an equality, the keys that are
      the same, and for a range those beyond an excluded bound or not before an included one. */
  lemma SelectsMeans(lookup: IndexLookup, key: Value)
    requires forall i :: 0 <= i < |Bounds(lookup)| ==> Comparable(key, Bounds(lookup)[i])
    ensures Selects(lookup, key) <==>
      match lookup
      case Equal(k) => Same(key, k)
      case Range(start, end, includeStart, includeEnd) =>
        && (start.Some? ==> Smaller(start.value, key) || (includeStart && Same(start.value, key)))
        && (end.Some? ==> Smaller(key, end.value) || (includeEnd && Same(key, end.value)))
  {
    match lookup
    case Equal(k) =>
      assert Bounds(lookup)[0] == k;
      LessTrichotomy(key, k);
    case Range(start, end, _, _) =>
      if start.Some? {
        assert Bounds(lookup)[0] == start.value;
        BoundMeans(start.value, key);
      }
      if end.Some? {
        assert Bounds(lookup)[|Bounds(lookup)| - 1] == end.value;
        BoundMeans(end.value, key);
      }
  }

  lemma BoundMeans(bound: Value, key: Value)
    requires Comparable(key, bound)
    ensures (Less(bound, key) <==> Smaller(bound, key)) && (Less(key, bound) <==> Smaller(key, bound))
    ensures !Less(key, bound) <==> Smaller(bound, key) || Same(bound, key)
    ensures !Less(bound, key) <==> Smaller(key, bound) || Same(key, bound)
  {
    LessMeans(bound, key);
    LessMeans(key, bound);
    LessTrichotomy(key, bound);
    LessTrichotomy(bound, key);
  }

  function Bounds(lookup: IndexLookup): seq<Value> {
    match lookup
    case Equal(k) => [k]
    case Range(start, end, _, _) =>
      (if start.Some? then [start.value] else []) + (if end.Some? then [end.value] else [])
  }

  /** Pointers of the selected entries, in traversal order. */
  function Found(s: seq<Entry>, lookup: IndexLookup): seq<Pointer> {
    if s == [] then []
    else (if Selects(lookup, s[0].key) then [s[0].pointer] else []) + Found(s[1..], lookup)
  }

  /** A lookup raises when a bound cannot be compared with the stored keys. */
  ghost predicate LookupRaises(s: seq<Entry>, lookup: IndexLookup) {
    exists i :: 0 <= i < |Bounds(lookup)| && s != [] && !Comparable(s[0].key, Bounds(lookup)[i])
  }

  /** The comparisons of one key raise; the upper bound is compared only if the lower one is met. */
  predicate ProbeRaises(key: Value, lookup: IndexLookup) {
    match lookup
    case Equal(k) => !Comparable(key, k)
    case Range(start, end, includeStart, _) =>
      || (start.Some? && !Comparable(key, start.value))
      || (end.Some? && !Comparable(key, end.value)
          && (start.Some? ==> !Less(key, start.value) && (includeStart || Less(start.value, key))))
  }

  ghost predicate SomeProbeRaises(s: seq<Entry>, lookup: IndexLookup) {
    exists i :: 0 <= i < |s| && ProbeRaises(s[i].key, lookup)
  }

  // ---------------------------------------------------------------- the index object

  class Index {
    const storage: StorageManager
    const name: string
    var order: nat
    var generation: nat
    var nextSequence: nat
    var root: Node

    ghost predicate Valid()
      reads this
    {
      && ValidRoot(root, order)
      && Homogeneous(Walk(root))
      && SequencesBelow(Walk(root), nextSequence)
    }

    /** What is in memory is what the newest image says. */
    ghost predicate Fresh()
      reads this, storage
    {
      && generation == Generation(Latest(storage.pages, name))
      && Walk(root) == Stored(storage.pages, name)
    }

    constructor (storage: StorageManager, name: string, order: nat := 4)
      requires order >= 3 && name != [] && ValidImages(storage.pages)
      ensures this.storage == storage && this.name == name
      ensures Valid() && Fresh()
      ensures var l := Latest(storage.pages, name);
        if l.Some? then Image(name, this.order, generation, nextSequence, root) == l.value
        else this.order == order && generation == 0 && nextSequence == 0 && root == EMPTY
    {
      this.storage, this.name, this.order := storage, name, order;
      generation, nextSequence, root := 0, 0, EMPTY;
      new;
      var latest: Option<Image> := None;
      for pageId := 0 to |storage.pages|
        invariant latest == Latest(storage.pages[..pageId], name) && generation == Generation(latest)
        invariant this.order == order && nextSequence == 0 && root == EMPTY
      {
        var page := storage.pages[pageId];
        assert storage.pages[..pageId + 1] == storage.pages[..pageId] + [page];
        LatestAppend(storage.pages[..pageId], page, name);
        if page.IndexPage? && page.image.name == name && page.image.generation >= generation {
          latest := Some(page.image);
          generation := page.image.generation;
        }
      }
      assert storage.pages[..|storage.pages|] == storage.pages;
      if latest.None? {
        return;
      }
      LatestIsStored(storage.pages, name);
      assert ValidImage(latest.value);
      this.order := latest.value.order;
      root := latest.value.root;
      nextSequence := latest.value.nextSequence;
    }

    /** The page that holds what is in memory. */
    function CurrentPage(): Page
      reads this
    {
      IndexPage(Image(name, order, generation, nextSequence, root))
    }

    /** Takes a new root and persists it as the next generation. */
    method Persist(newRoot: Node) returns (r: Outcome<()>)
      requires ValidRoot(newRoot, order) && Homogeneous(Walk(newRoot)) && SequencesBelow(Walk(newRoot), nextSequence)
      requires generation == Generation(Latest(storage.pages, name))
      requires ValidImages(storage.pages) && storage.Clean()
      modifies this`root, this`generation, storage`pages, storage`log
      ensures root == newRoot && Valid() && ValidImages(storage.pages)
      ensures r == if storage.limits.pageFits(CurrentPage()) then Ok(()) else Raised(StorageFault)
      ensures r.Ok? ==> storage.pages == old(storage.pages) + [CurrentPage()]
      ensures r.Ok? ==> Fresh() && AppendedImage(old(storage.pages), storage.pages, name)
      ensures r.Raised? ==> storage.pages == old(storage.pages)
      ensures storage.Traced() && (r.Ok? ==> storage.Clean())
      ensures r == Raised(StorageFault) ==> !storage.Unrefused()
    {
      root := newRoot;
      generation := generation + 1;
      AppendImage(storage.pages, CurrentPage().image);
      var added := storage.AllocatePage(CurrentPage());
      r := if added.Ok? then Ok(()) else Raised(StorageFault);
    }

    method NextSequence() returns (sequence: nat)
      modifies this`nextSequence
      ensures sequence == old(nextSequence) && nextSequence == sequence + 1
    {
      sequence := nextSequence;
      nextSequence := nextSequence + 1;
    }

    method Insert(key: Value, pointer: Pointer) returns (r: Outcome<()>)
      requires Valid() && Fresh() && ValidImages(storage.pages) && storage.Clean()
      modifies this, storage`pages, storage`log
      ensures storage.Traced() && (r.Ok? ==> storage.Clean())
      ensures r == Raised(StorageFault) ==> !storage.Unrefused()
      ensures Valid() && ValidImages(storage.pages)
      ensures r.Ok? ==> storage.pages == old(storage.pages) + [CurrentPage()]
      ensures r.Ok? ==> Fresh() && AppendedImage(old(storage.pages), storage.pages, name)
      ensures r.Ok? ==> key != Null && order == old(order) && nextSequence == old(nextSequence) + 1
      ensures r.Ok? ==> Walk(root) == Inserted(old(Walk(root)), Entry(key, pointer, old(nextSequence)))
      ensures r.Raised? ==> storage.pages == old(storage.pages) && r.error in {TypeFault, StorageFault}
      ensures r == Raised(TypeFault) <==> key == Null || !Takes(old(Walk(root)), key)
      ensures r == Raised(StorageFault) <==>
        key != Null && Takes(old(Walk(root)), key) && !storage.limits.pageFits(CurrentPage())
    {
      if key == Null {
        return Raised(TypeFault);
      }
      var sequence := NextSequence();
      // The descent compares the key with a stored one before anything is changed.
      var stored := Walk(root);
      if stored != [] && !Comparable(stored[0].key, key) {
        return Raised(TypeFault);
      }
      r := InsertEntry(Entry(key, pointer, sequence));
    }

    /** Inserts an entry that can be compared with those stored and persists the tree. */
    method InsertEntry(entry: Entry) returns (r: Outcome<()>)
      requires ValidRoot(root, order) && Homogeneous(Walk(root)) && Takes(Walk(root), entry.key)
      requires SequencesBelow(Walk(root), entry.sequence) && nextSequence == entry.sequence + 1
      requires generation == Generation(Latest(storage.pages, name))
      requires ValidImages(storage.pages) && storage.Clean()
      modifies this`root, this`generation, storage`pages, storage`log
      ensures Walk(root) == Inserted(old(Walk(root)), entry) && Valid() && ValidImages(storage.pages)
      ensures r == if storage.limits.pageFits(CurrentPage()) then Ok(()) else Raised(StorageFault)
      ensures r.Ok? ==> storage.pages == old(storage.pages) + [CurrentPage()]
      ensures r.Ok? ==> Fresh() && AppendedImage(old(storage.pages), storage.pages, name)
      ensures r.Raised? ==> storage.pages == old(storage.pages)
      ensures storage.Traced() && (r.Ok? ==> storage.Clean())
      ensures r == Raised(StorageFault) ==> !storage.Unrefused()
    {
      StaysHomogeneous(Walk(root), entry);
      var newRoot := InsertAtRoot(root, entry, order);
      r := Persist(newRoot);
    }

    method NumberEntries(pairs: seq<(Value, Pointer)>) returns (r: Outcome<seq<Entry>>)
      requires Valid()
      modifies this`nextSequence
      ensures Valid()
      ensures r.Ok? <==> NoNulls(pairs)
      ensures r.Ok? ==> r.value == Numbered(pairs, old(nextSequence)) && nextSequence == old(nextSequence) + |pairs|
    {
      var built: seq<Entry> := [];
      for i := 0 to |pairs|
        invariant Valid() && |built| == i && nextSequence == old(nextSequence) + i
        invariant forall j :: 0 <= j < i ==> pairs[j].0 != Null
        invariant forall j :: 0 <= j < i ==> built[j] == Entry(pairs[j].0, pairs[j].1, old(nextSequence) + j)
      {
        if pairs[i].0 == Null {
          return Raised(TypeFault);
        }
        var sequence := NextSequence();
        built := built + [Entry(pairs[i].0, pairs[i].1, sequence)];
      }
      assert built == Numbered(pairs, old(nextSequence));
      r := Ok(built);
    }

    /** Replaces the content by the given pairs, numbered on from the last sequence and sorted. */
    method Build(pairs: seq<(Value, Pointer)>) returns (r: Outcome<()>)
      requires Valid() && Fresh() && ValidImages(storage.pages) && storage.Clean()
      modifies this, storage`pages, storage`log
      ensures storage.Traced() && (r.Ok? ==> storage.Clean())
      ensures r == Raised(StorageFault) ==> !storage.Unrefused()
      ensures Valid() && ValidImages(storage.pages)
      ensures r.Ok? ==> storage.pages == old(storage.pages) + [CurrentPage()]
      ensures r.Ok? ==> Fresh() && AppendedImage(old(storage.pages), storage.pages, name)
      ensures r.Ok? ==> NoNulls(pairs) && order == old(order) && nextSequence == old(nextSequence) + |pairs|
      ensures r.Ok? ==> multiset(Walk(root)) == multiset(Numbered(pairs, old(nextSequence)))
      ensures r.Raised? ==> storage.pages == old(storage.pages) && r.error in {TypeFault, StorageFault}
      ensures r == Raised(TypeFault) <==> !(NoNulls(pairs) && Homogeneous(Numbered(pairs, old(nextSequence))))
      ensures r == Raised(StorageFault) <==>
        && NoNulls(pairs) && Homogeneous(Numbered(pairs, old(nextSequence)))
        && !storage.limits.pageFits(CurrentPage())
    {
      var numbered := NumberEntries(pairs);
      if numbered.Raised? {
        return Raised(TypeFault);
      }
      var built := numbered.value;
      var sorted := SortEntries(built);
      if sorted.Raised? {
        return Raised(TypeFault);
      }
      SameEntries(built, sorted.value, nextSequence);
      var newRoot := BulkLoadEntries(sorted.value, order);
      r := Persist(newRoot);
    }

    /** Removing nothing persists nothing. */
    method Delete(key: Value, pointer: Option<Pointer>) returns (r: Outcome<()>)
      requires Valid() && Fresh() && ValidImages(storage.pages) && storage.Clean()
      modifies this, storage`pages, storage`log
      ensures storage.Traced() && (r.Ok? ==> storage.Clean())
      ensures r == Raised(StorageFault) ==> !storage.Unrefused()
      ensures Valid() && ValidImages(storage.pages)
      ensures r.Ok? ==>
        Fresh() && (storage.pages == old(storage.pages) || AppendedImage(old(storage.pages), storage.pages, name))
      ensures r.Ok? ==> key != Null && Walk(root) == Kept(old(Walk(root)), key, pointer)
      ensures r.Ok? && AnyDoomed(old(Walk(root)), key, pointer) ==>
        storage.pages == old(storage.pages) + [CurrentPage()]
      ensures r.Ok? && !AnyDoomed(old(Walk(root)), key, pointer) ==>
        storage.pages == old(storage.pages) && root == old(root)
      ensures order == old(order) && nextSequence == old(nextSequence)
      ensures r.Raised? ==> storage.pages == old(storage.pages) && r.error in {TypeFault, StorageFault}
      ensures r == Raised(TypeFault) <==> key == Null || !Takes(old(Walk(root)), key)
      ensures r == Raised(StorageFault) <==>
        && key != Null && Takes(old(Walk(root)), key)
        && AnyDoomed(old(Walk(root)), key, pointer) && !storage.limits.pageFits(CurrentPage())
    {
      if key == Null {
        return Raised(TypeFault);
      }
      var stored := Walk(root);
      if stored != [] && !Comparable(stored[0].key, key) {
        return Raised(TypeFault);
      }
      var newRoot, removed := DeleteAtRoot(root, key, pointer, order);
      if !removed {
        KeptSame(stored, key, pointer);
        return Ok(());
      }
      KeptSubset(stored, key, pointer, nextSequence);
      r := Persist(newRoot);
    }

    /** Pointers of the entries a lookup selects, or the type error of a comparison. */
    method Matches(lookup: IndexLookup) returns (r: Outcome<seq<Pointer>>)
      requires Valid()
      ensures r.Ok? ==> r.value == Found(Walk(root), lookup)
      ensures r.Raised? <==> lookup == Equal(Null) || SomeProbeRaises(Walk(root), lookup)
      ensures r.Raised? ==> r.error == TypeFault && (lookup == Equal(Null) || LookupRaises(Walk(root), lookup))
      ensures |Bounds(lookup)| == 1 && LookupRaises(Walk(root), lookup) ==> r.Raised?
    {
      if lookup.Equal? && lookup.key == Null {
        return Raised(TypeFault);
      }
      r := SelectEntries(Walk(root), lookup);
      OneBoundRaises(Walk(root), lookup);
    }
  }

  ghost predicate NoNulls(pairs: seq<(Value, Pointer)>) {
    forall i :: 0 <= i < |pairs| ==> pairs[i].0 != Null
  }

  function Numbered(pairs: seq<(Value, Pointer)>, first: nat): seq<Entry>
    requires NoNulls(pairs)
  {
    seq(|pairs|, i requires 0 <= i < |pairs| => Entry(pairs[i].0, pairs[i].1, first + i))
  }

  /** Sorting numbered entries; comparing keys of different kinds raises. */
  method SortEntries(entries: seq<Entry>) returns (r: Outcome<seq<Entry>>)
    requires forall i, j :: 0 <= i < j < |entries| ==> entries[i].sequence < entries[j].sequence
    ensures r.Ok? ==> Sorted(r.value) && multiset(r.value) == multiset(entries) && Homogeneous(r.value)
    ensures r.Raised? <==> !Homogeneous(entries)
  {
    var sorted: seq<Entry> := [];
    for i := 0 to |entries|
      invariant Sorted(sorted) && Homogeneous(sorted) && multiset(sorted) == multiset(entries[..i])
    {
      var entry := entries[i];
      SortStep(sorted, entries, i);
      if sorted != [] && !Comparable(sorted[0].key, entry.key) {
        return Raised(TypeFault);
      }
      sorted := Inserted(sorted, entry);
    }
    assert entries[..|entries|] == entries;
    SameHomogeneous(sorted, entries);
    r := Ok(sorted);
  }

  lemma SortStep(sorted: seq<Entry>, entries: seq<Entry>, i: nat)
    requires i < |entries|
    requires forall j, k :: 0 <= j < k < |entries| ==> entries[j].sequence < entries[k].sequence
    requires Sorted(sorted) && Homogeneous(sorted) && multiset(sorted) == multiset(entries[..i])
    ensures var fits := sorted == [] || Comparable(sorted[0].key, entries[i].key);
      && (!fits ==> !Homogeneous(entries))
      && var next := Inserted(sorted, entries[i]);
        fits ==> Sorted(next) && Homogeneous(next) && multiset(next) == multiset(entries[..i + 1])
  {
    var entry := entries[i];
    assert entries[..i + 1] == entries[..i] + [entry];
    SameEntries(entries[..i], sorted, entry.sequence);
    InsertedSorted(sorted, entry);
    InsertedMultiset(sorted, entry);
    if sorted != [] && !Comparable(sorted[0].key, entry.key) {
      assert sorted[0] in multiset(sorted);
      assert sorted[0] in entries[..i];
      var k :| 0 <= k < i && entries[..i][k] == sorted[0];
      assert !Comparable(entries[k].key, entries[i].key);
    } else {
      StaysHomogeneous(sorted, entry);
    }
  }

  lemma SameHomogeneous(s: seq<Entry>, t: seq<Entry>)
    requires multiset(s) == multiset(t) && Homogeneous(s)
    ensures Homogeneous(t)
  {
    forall i, j | 0 <= i < |t| && 0 <= j < |t| ensures Comparable(t[i].key, t[j].key) {
      assert t[i] in multiset(t) && t[j] in multiset(t);
      assert t[i] in s && t[j] in s;
    }
  }

  lemma SameEntries(s: seq<Entry>, t: seq<Entry>, next: nat)
    requires multiset(s) == multiset(t) && SequencesBelow(s, next)
    ensures SequencesBelow(t, next)
  {
    forall i | 0 <= i < |t| ensures t[i].sequence < next {
      assert t[i] in multiset(t);
      assert t[i] in s;
    }
  }

  /** The comparisons of one entry: a failed lower bound leaves the upper one unread. */
  method Probe(key: Key, lookup: IndexLookup) returns (raises: bool, selected: bool)
    ensures raises <==> ProbeRaises(key, lookup)
    ensures raises ==> exists i :: 0 <= i < |Bounds(lookup)| && !Comparable(key, Bounds(lookup)[i])
    ensures |Bounds(lookup)| == 1 ==> (raises <==> !Comparable(key, Bounds(lookup)[0]))
    ensures !raises ==> (selected <==> Selects(lookup, key))
  {
    match lookup
    case Equal(k) =>
      assert Bounds(lookup)[0] == k;
      if !Comparable(key, k) {
        return true, false;
      }
      return false, !Less(key, k) && !Less(k, key);
    case Range(start, end, includeStart, includeEnd) =>
      if start.Some? {
        assert Bounds(lookup)[0] == start.value;
        if !Comparable(key, start.value) {
          return true, false;
        }
        if Less(key, start.value) || (!Less(start.value, key) && !includeStart) {
          return false, false;
        }
      }
      if end.Some? {
        assert Bounds(lookup)[|Bounds(lookup)| - 1] == end.value;
        if !Comparable(key, end.value) {
          return true, false;
        }
        if Less(end.value, key) || (!Less(key, end.value) && !includeEnd) {
          return false, false;
        }
      }
      return false, true;
  }

  /** The loop over the entries of the index, up to the first comparison that raises. */
  method SelectEntries(s: seq<Entry>, lookup: IndexLookup) returns (r: Outcome<seq<Pointer>>)
    requires Homogeneous(s)
    ensures r.Ok? ==> r.value == Found(s, lookup)
    ensures r.Raised? <==> SomeProbeRaises(s, lookup)
    ensures r.Raised? ==> r.error == TypeFault && LookupRaises(s, lookup)
  {
    var pointers: seq<Pointer> := [];
    for i := 0 to |s|
      invariant pointers == Found(s[..i], lookup)
      invariant forall j :: 0 <= j < i ==> !ProbeRaises(s[j].key, lookup)
    {
      var raises, selected := Probe(s[i].key, lookup);
      if raises {
        RaisesAnywhere(s, i, lookup);
        return Raised(TypeFault);
      }
      FoundSnoc(s, i, lookup);
      if selected {
        pointers := pointers + [s[i].pointer];
      }
    }
    assert s[..|s|] == s;
    r := Ok(pointers);
  }

  /** With a single bound the first entry decides whether a lookup raises. */
  lemma OneBoundRaises(s: seq<Entry>, lookup: IndexLookup)
    ensures |Bounds(lookup)| == 1 && LookupRaises(s, lookup) ==> SomeProbeRaises(s, lookup)
  {
    if |Bounds(lookup)| == 1 && LookupRaises(s, lookup) {
      assert ProbeRaises(s[0].key, lookup);
    }
  }

  lemma FoundSnoc(s: seq<Entry>, i: nat, lookup: IndexLookup)
    requires i < |s|
    ensures Found(s[..i + 1], lookup)
         == Found(s[..i], lookup) + if Selects(lookup, s[i].key) then [s[i].pointer] else []
  {
    assert s[..i + 1] == s[..i] + [s[i]];
    FoundConcat(s[..i], [s[i]], lookup);
    assert [s[i]][1..] == [];
  }

  lemma RaisesAnywhere(s: seq<Entry>, i: nat, lookup: IndexLookup)
    requires i < |s| && Homogeneous(s)
    requires exists j :: 0 <= j < |Bounds(lookup)| && !Comparable(s[i].key, Bounds(lookup)[j])
    ensures LookupRaises(s, lookup)
  {
    var j :| 0 <= j < |Bounds(lookup)| && !Comparable(s[i].key, Bounds(lookup)[j]);
    assert Comparable(s[0].key, s[i].key);
    assert !Comparable(s[0].key, Bounds(lookup)[j]);
  }

  lemma FoundFirst(e: Entry, rest: seq<Entry>, lookup: IndexLookup)
    ensures Found([e] + rest, lookup)
         == (if Selects(lookup, e.key) then [e.pointer] else []) + Found(rest, lookup)
  {
    assert ([e] + rest)[1..] == rest;
  }

  lemma {:induction false} FoundConcat(s: seq<Entry>, t: seq<Entry>, lookup: IndexLookup)
    ensures Found(s + t, lookup) == Found(s, lookup) + Found(t, lookup)
  {
    if s == [] {
      assert s + t == t;
    } else {
      FoundConcat(s[1..], t, lookup);
      FoundFirst(s[0], s[1..] + t, lookup);
      Uncons(s, t);
      Append(if Selects(lookup, s[0].key) then [s[0].pointer] else [], Found(s[1..], lookup), Found(t, lookup));
    }
  }

  // ---------------------------------------------------------------- what a change does to the pages

  /** `now` is `before` plus one image of the index that outranks all its earlier ones. */
  ghost predicate AppendedImage(before: seq<Page>, now: seq<Page>, name: string) {
    && |now| == |before| + 1 && now[..|before|] == before
    && now[|before|].IndexPage? && now[|before|].image.name == name
    && now[|before|].image.generation == Generation(Latest(before, name)) + 1
  }

  lemma AppendImage(pages: seq<Page>, image: Image)
    requires ValidImages(pages) && ValidImage(image)
    requires image.generation == Generation(Latest(pages, image.name)) + 1
    ensures var now := pages + [IndexPage(image)];
      && ValidImages(now)
      && AppendedImage(pages, now, image.name)
      && Generation(Latest(now, image.name)) == image.generation
      && Stored(now, image.name) == Walk(image.root)
  {
    LatestAppend(pages, IndexPage(image), image.name);
  }

  /** The appended image is the one loaded next, and no other index is touched. */
  lemma FreshAfter(before: seq<Page>, now: seq<Page>, name: string)
    ensures AppendedImage(before, now, name) ==>
      && Latest(now, name) == Some(now[|before|].image)
      && forall other :: other != name ==> Latest(now, other) == Latest(before, other)
  {
    if AppendedImage(before, now, name) {
      assert now == before + [now[|before|]];
      forall other {
        LatestAppend(before, now[|before|], other);
      }
    }
  }

  lemma LikeFirst(s: seq<Entry>, x: Entry)
    requires Homogeneous(s) && x in s
    ensures Comparable(s[0].key, x.key)
  {
    var i :| 0 <= i < |s| && s[i] == x;
    assert Comparable(s[0].key, s[i].key);
  }

  lemma StaysHomogeneous(s: seq<Entry>, e: Entry)
    requires Homogeneous(s) && (s == [] || Comparable(s[0].key, e.key))
    ensures Homogeneous(Inserted(s, e))
    ensures SequencesBelow(s, e.sequence) ==> SequencesBelow(Inserted(s, e), e.sequence + 1) && Newest(s, e)
  {
    var t := Inserted(s, e);
    assert forall x :: x in t ==> x in s || x == e;
    forall i | 0 <= i < |t| ensures Comparable(t[i].key, e.key) {
      assert t[i] in t;
      if t[i] in s {
        LikeFirst(s, t[i]);
      }
    }
    forall i, j | 0 <= i < |t| && 0 <= j < |t| ensures Comparable(t[i].key, t[j].key) {
      assert Comparable(t[i].key, e.key) && Comparable(t[j].key, e.key);
    }
    forall i | 0 <= i < |t| && SequencesBelow(s, e.sequence) ensures t[i].sequence < e.sequence + 1 {
      assert t[i] in t;
    }
  }

  lemma KeptSubset(s: seq<Entry>, key: Key, pointer: Option<Pointer>, next: nat)
    requires Homogeneous(s) && SequencesBelow(s, next)
    ensures Homogeneous(Kept(s, key, pointer)) && SequencesBelow(Kept(s, key, pointer), next)
  {
    var t := Kept(s, key, pointer);
    forall x | x in t ensures x in s {
      KeptCounts(s, key, pointer, x);
      assert x in multiset(t);
      assert x in multiset(s);
    }
    forall i, j | 0 <= i < |t| && 0 <= j < |t| ensures Comparable(t[i].key, t[j].key) {
      assert t[i] in t && t[j] in t;
    }
    forall i | 0 <= i < |t| ensures t[i].sequence < next {
      assert t[i] in t;
    }
  }

  // ---------------------------------------------------------------- newest image wins, over whole runs

  /** What can happen to the pages between two loads of an index. */
  datatype Event =
    | Persisted(image: Image)               // some index appends its next generation
    | Appended(page: Page)                  // a row or snapshot page is appended
    | Overwritten(pageId: nat, page: Page)  // a row page is rewritten

  ghost predicate Enabled(pages: seq<Page>, e: Event) {
    match e
    case Persisted(image) => image.generation == Generation(Latest(pages, image.name)) + 1
    case Appended(page) => !page.IndexPage?
    case Overwritten(i, page) => i < |pages| && !pages[i].IndexPage? && !page.IndexPage?
  }

  function After(pages: seq<Page>, e: Event): seq<Page> {
    match e
    case Persisted(image) => pages + [IndexPage(image)]
    case Appended(page) => pages + [page]
    case Overwritten(i, page) => if i < |pages| then pages[i := page] else pages
  }

  ghost predicate Runs(pages: seq<Page>, events: seq<Event>, end: seq<Page>)
    decreases |events|
  {
    if events == [] then end == pages
    else Enabled(pages, events[0]) && Runs(After(pages, events[0]), events[1..], end)
  }

  /** The last image of the index persisted by the events, if any. */
  function LastPersisted(events: seq<Event>, name: string): Option<Image> {
    if events == [] then None
    else
      var later := LastPersisted(events[1..], name);
      if later.Some? then later
      else if events[0].Persisted? && events[0].image.name == name then Some(events[0].image) else None
  }

  /** After any run, a load finds the image persisted last, however other pages interleave. */
  lemma {:induction false} NewestImageWins(pages: seq<Page>, events: seq<Event>, end: seq<Page>, name: string)
    requires Runs(pages, events, end)
    ensures Latest(end, name) ==
      if LastPersisted(events, name).Some? then LastPersisted(events, name) else Latest(pages, name)
    decreases |events|
  {
    if events != [] {
      var next := After(pages, events[0]);
      match events[0] {
        case Persisted(image) => LatestAppend(pages, IndexPage(image), name);
        case Appended(page) => LatestAppend(pages, page, name);
        case Overwritten(i, page) => LatestOverwrite(pages, i, page, name);
      }
      NewestImageWins(next, events[1..], end, name);
    }
  }
}

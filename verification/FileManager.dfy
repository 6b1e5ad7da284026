/** The storage manager over the bytes of one file. */
module FileManager {
  import opened Values
  import opened Catalog
  import opened Pages
  import opened FileStore
  import opened Recovery
  import opened Sequences

  // ---------------------------------------------------------------- chunk boundaries

  /** The chunk of a file that starts at an offset; slicing stops at the end of the file. */
  function ChunkFrom(s: Bytes, offset: nat): Bytes
    requires offset <= |s|
  {
    s[offset..if offset + CHUNK_SIZE < |s| then offset + CHUNK_SIZE else |s|]
  }

  lemma {:induction false} ChunkAt(s: Bytes, k: nat, offset: nat)
    requires offset == k * CHUNK_SIZE
    ensures s != [] ==> (k < |Chunks(s)| <==> offset < |s|)
    ensures k < |Chunks(s)| ==> offset <= |s| && Chunks(s)[k] == ChunkFrom(s, offset)
    decreases k
  {
    if |s| > CHUNK_SIZE {
      var rest := s[CHUNK_SIZE..];
      assert Chunks(s) == [s[..CHUNK_SIZE]] + Chunks(rest);
      if k > 0 {
        ChunkAt(rest, k - 1, offset - CHUNK_SIZE);
        if k < |Chunks(s)| {
          assert Chunks(s)[k] == Chunks(rest)[k - 1];
          DropSlice(s, CHUNK_SIZE, offset, if offset + CHUNK_SIZE < |s| then offset + CHUNK_SIZE else |s|);
        }
      }
    }
  }

  lemma DropSlice(s: Bytes, d: nat, i: nat, j: nat)
    requires d <= i <= j <= |s|
    ensures s[d..][i - d..j - d] == s[i..j]
  {
    forall k | 0 <= k < j - i ensures s[d..][i - d..j - d][k] == s[i..j][k] {
    }
  }

  class StorageManager {
    const codec: Codec
    var file: Bytes
    var state: State

    function Contents(): Store
      reads this
    {
      Store(file, state)
    }

    ghost predicate Valid()
      reads this
    {
      Aligned(file)
    }

    constructor (codec: Codec, file: Bytes, state: State)
      ensures this.codec == codec && Contents() == Store(file, state)
    {
      this.codec, this.file, this.state := codec, file, state;
    }

    /** A new database: only a header page, holding the empty state. */
    static method Create(codec: Codec) returns (r: Outcome<StorageManager>)
      requires RoundTrips(codec)
      ensures r.Ok? <==> HeaderPage(codec, EMPTY_STATE).Ok?
      ensures r.Ok? ==>
        fresh(r.value) && r.value.codec == codec && AtRest(codec, r.value.Contents()) && r.value.state == EMPTY_STATE
      ensures r.Ok? ==> |r.value.file| == PAGE_SIZE
    {
      var page := HeaderPage(codec, EMPTY_STATE);
      if page.Raised? {
        return Raised(StorageFault);
      }
      HeaderRoundTrip(codec, EMPTY_STATE, []);
      var s := DecodeHeader(codec, WithHeader([], page.value));
      var manager := new StorageManager(codec, WithHeader([], page.value), s.value);
      r := Ok(manager);
    }

    /** Opening an existing file recovers it first when it holds a pending transaction. */
    static method Open(codec: Codec, existing: Bytes) returns (r: Outcome<StorageManager>)
      ensures r.Ok? <==> Reopen(codec, existing).Ok?
      ensures r.Ok? ==> fresh(r.value) && r.value.codec == codec
      ensures r.Ok? ==> r.value.file == Reopen(codec, existing).value
      ensures r.Ok? ==> Ok(r.value.state) == DecodeHeader(codec, r.value.file)
    {
      var s := DecodeHeader(codec, existing);
      if s.Raised? {
        return Raised(s.error);
      }
      var manager := new StorageManager(codec, existing, s.value);
      var recovered := manager.RecoverIncompleteTransaction();
      if recovered.Raised? {
        return Raised(recovered.error);
      }
      r := Ok(manager);
    }

    method RecoverIncompleteTransaction() returns (r: Outcome<()>)
      requires DecodeHeader(codec, file) == Ok(state)
      modifies this
      ensures r.Ok? <==> Reopen(codec, old(file)).Ok?
      ensures r.Ok? ==> file == Reopen(codec, old(file)).value && DecodeHeader(codec, file) == Ok(state)
    {
      if state.marker.None? {
        return Ok(());
      }
      if !state.marker.value.pending {
        return Raised(StorageFault);
      }
      var snapshot := ReadSnapshot(file, state.marker.value);
      if snapshot.Raised? {
        return Raised(snapshot.error);
      }
      r := RestoreFileSnapshot(snapshot.value);
    }

    // -------------------------------------------------------------- pages

    method AllocatePage(data: Bytes) returns (r: Outcome<nat>)
      requires Valid()
      modifies this`file
      ensures Valid() && Contents() == Apply(codec, old(Contents()), Allocate(data)).store
      ensures r.Ok? <==> Apply(codec, old(Contents()), Allocate(data)).ok
      ensures r.Ok? ==>
        && r.value == PageCount(old(file)) && PageCount(file) == r.value + 1
        && PageAt(file, r.value) == NormalizePageData(data).value
    {
      var pageId := PageCount(file);
      var page := NormalizePageData(data);
      if page.Raised? {
        return Raised(StorageFault);
      }
      AppendKeepsPages(file, page.value);
      file := file + page.value;
      r := Ok(pageId);
    }

    method ReadPage(pageId: nat) returns (r: Outcome<Bytes>)
      requires Valid()
      ensures r.Ok? <==> pageId < PageCount(file)
      ensures r.Ok? ==> |r.value| == PAGE_SIZE && r.value == PageAt(file, pageId)
    {
      if pageId >= PageCount(file) {
        return Raised(StorageFault);
      }
      r := Ok(PageAt(file, pageId));
    }

    method WritePage(pageId: nat, data: Bytes) returns (r: Outcome<()>)
      requires Valid()
      modifies this`file
      ensures Valid() && Contents() == Apply(codec, old(Contents()), WriteRow(pageId, data)).store
      ensures r.Ok? <==> Apply(codec, old(Contents()), WriteRow(pageId, data)).ok
    {
      if pageId >= PageCount(file) {
        return Raised(StorageFault);
      }
      var page := NormalizePageData(data);
      if page.Raised? {
        return Raised(StorageFault);
      }
      WithPageKeepsPages(file, pageId, page.value, pageId);
      file := WithPage(file, pageId, page.value);
      r := Ok(());
    }

    // -------------------------------------------------------------- header state

    method PersistState() returns (r: Outcome<()>)
      requires Valid()
      modifies this`file
      ensures Valid() && Contents() == Persist(codec, old(Contents())).store
      ensures r == if Persist(codec, old(Contents())).ok then Ok(()) else Raised(StorageFault)
    {
      var page := HeaderPage(codec, state);
      if page.Raised? {
        return Raised(StorageFault);
      }
      HeaderLength(file, page.value);
      file := WithHeader(file, page.value);
      r := Ok(());
    }

    method WriteCatalog(catalog: Tables) returns (r: Outcome<()>)
      requires Valid()
      modifies this
      ensures Valid() && Contents() == Apply(codec, old(Contents()), SetCatalog(catalog)).store
      ensures r.Ok? <==> Apply(codec, old(Contents()), SetCatalog(catalog)).ok
    {
      state := state.(catalog := catalog);
      r := PersistState();
    }

    method WriteTableRecords(table: string, records: seq<Record>) returns (r: Outcome<()>)
      requires Valid()
      modifies this
      ensures Valid() && Contents() == Apply(codec, old(Contents()), SetRecords(table, records)).store
      ensures r.Ok? <==> Apply(codec, old(Contents()), SetRecords(table, records)).ok
    {
      state := state.(records := state.records[table := records]);
      r := PersistState();
    }

    /** Reading leaves an empty record list behind in memory, but not in the file. */
    method ReadTableRecords(table: string) returns (records: seq<Record>)
      modifies this`state
      ensures records == if table in old(state).records then old(state).records[table] else []
      ensures state == old(state).(records := old(state).records[table := records])
    {
      if table !in state.records {
        state := state.(records := state.records[table := []]);
      }
      records := state.records[table];
    }

    /** Opening a table without records writes an empty list. */
    method OpenTable(table: string) returns (r: Outcome<()>)
      requires Valid()
      modifies this
      ensures Valid() && Result(Contents(), r.Ok?) == Opened(codec, old(Contents()), table)
    {
      var records := ReadTableRecords(table);
      if records == [] {
        r := WriteTableRecords(table, []);
        assert state.records == old(state).records[table := []];
      } else {
        r := Ok(());
      }
    }

    /** What a SELECT does to file and memory: it opens its tables, if the catalog has them. */
    method OpenTables(tables: seq<string>) returns (ok: bool)
      requires Valid()
      modifies this
      ensures Valid() && Result(Contents(), ok) == Look(codec, old(Contents()), tables)
    {
      for i := 0 to |tables|
        invariant Valid() && Look(codec, old(Contents()), tables) == Look(codec, Contents(), tables[i..])
      {
        assert tables[i..][0] == tables[i] && tables[i..][1..] == tables[i + 1..];
        if tables[i] !in state.catalog {
          return false;
        }
        var opening := OpenTable(tables[i]);
        if opening.Raised? {
          return false;
        }
      }
      ok := true;
    }

    // -------------------------------------------------------------- snapshots

    method SnapshotFile() returns (snapshot: Bytes)
      ensures snapshot == file
    {
      snapshot := file;
    }

    method RestoreFileSnapshot(snapshot: Bytes) returns (r: Outcome<()>)
      modifies this
      ensures file == snapshot
      ensures r.Ok? <==> DecodeHeader(codec, snapshot).Ok?
      ensures Contents() == Restored(codec, old(Contents()), snapshot)
    {
      file := snapshot;
      var s := DecodeHeader(codec, file);
      if s.Raised? {
        return Raised(s.error);
      }
      state := s.value;
      r := Ok(());
    }

    /** Appends the snapshot in page-sized chunks and returns where they are. */
    method AppendSnapshotPages(snapshot: Bytes) returns (pageIds: seq<nat>)
      requires Valid()
      modifies this`file
      ensures Valid() && file == old(file) + PackedAll(Chunks(snapshot))
      ensures pageIds == Ids(PageCount(old(file)), |Chunks(snapshot)|)
    {
      pageIds := [];
      ghost var chunks, k := Chunks(snapshot), 0;
      AppendNone(file, chunks);
      var offset := 0;
      while offset < |snapshot|
        invariant offset == k * CHUNK_SIZE && Appended(old(file), file, chunks, k, pageIds)
        decreases |snapshot| - offset
      {
        ChunkAt(snapshot, k, offset);
        AppendStep(old(file), file, chunks, k, pageIds);
        var pageId := AppendRawPage(Packed(ChunkFrom(snapshot, offset)));
        pageIds := pageIds + [pageId];
        offset, k := offset + CHUNK_SIZE, k + 1;
      }
      ChunkAt(snapshot, k, offset);
      if pageIds == [] {
        AppendStep(old(file), file, chunks, k, pageIds);
        var pageId := AppendRawPage(Packed([]));
        pageIds, k := pageIds + [pageId], k + 1;
      }
      assert k == |chunks| && chunks[..k] == chunks;
    }

    method AppendRawPage(page: Bytes) returns (pageId: nat)
      requires Valid() && |page| == PAGE_SIZE
      modifies this`file
      ensures Valid() && file == old(file) + page && pageId == PageCount(old(file))
    {
      pageId := PageCount(file);
      AppendKeepsPages(file, page);
      file := file + page;
    }

    /** Publishes a pending marker; one already in memory is refused. */
    method BeginTransactionRecoverySnapshot() returns (r: Outcome<()>)
      requires Valid()
      modifies this
      ensures Valid()
      ensures old(state).marker.Some? ==> r == Raised(TransactionFault) && Contents() == old(Contents())
      ensures old(state).marker.None? ==> Contents() == Published(codec, old(Contents())).store
      ensures old(state).marker.None? ==>
        r == if Published(codec, old(Contents())).ok then Ok(()) else Raised(StorageFault)
    {
      if state.marker.Some? {
        return Raised(TransactionFault);
      }
      var snapshot := SnapshotFile();
      var pageIds := AppendSnapshotPages(snapshot);
      assert Chunks(snapshot)[..|Chunks(snapshot)|] == Chunks(snapshot);
      state := state.(marker := Some(Marker(1, true, |snapshot|, pageIds)));
      r := PersistState();
    }

    method ClearTransactionRecoverySnapshot() returns (r: Outcome<()>)
      requires Valid()
      modifies this
      ensures Valid()
      ensures old(state).marker.Some? ==>
        Contents() == Cleared(codec, old(Contents())).store && (r.Ok? <==> Cleared(codec, old(Contents())).ok)
      ensures old(state).marker.None? ==> r.Ok? && Contents() == old(Contents())
    {
      if state.marker.None? {
        return Ok(());
      }
      state := state.(marker := None);
      r := PersistState();
    }

    /** The writes of a statement, one after another until one is refused. */
    method Perform(ops: seq<Op>) returns (ok: bool)
      requires Valid()
      modifies this
      ensures Valid() && Result(Contents(), ok) == RunOps(codec, old(Contents()), ops)
    {
      for i := 0 to |ops|
        invariant Valid() && RunOps(codec, old(Contents()), ops) == RunOps(codec, Contents(), ops[i..])
      {
        assert ops[i..][0] == ops[i] && ops[i..][1..] == ops[i + 1..];
        ok := PerformOne(ops[i]);
        if !ok {
          return;
        }
      }
      ok := true;
    }

    method PerformOne(op: Op) returns (ok: bool)
      requires Valid()
      modifies this
      ensures Valid() && Result(Contents(), ok) == Apply(codec, old(Contents()), op)
    {
      match op
      case Allocate(data) => var r := AllocatePage(data); ok := r.Ok?;
      case WriteRow(pageId, data) => var r := WritePage(pageId, data); ok := r.Ok?;
      case SetCatalog(catalog) => var r := WriteCatalog(catalog); ok := r.Ok?;
      case SetRecords(table, records) => var r := WriteTableRecords(table, records); ok := r.Ok?;
    }
  }

  /** The first `k` chunks have been appended, on the pages listed. */
  ghost predicate Appended(orig: Bytes, file: Bytes, chunks: seq<Bytes>, k: nat, pageIds: seq<nat>) {
    && Aligned(orig) && Aligned(file) && k <= |chunks|
    && (forall i :: 0 <= i < |chunks| ==> |chunks[i]| <= CHUNK_SIZE)
    && file == orig + PackedAll(chunks[..k])
    && pageIds == Ids(PageCount(orig), k)
  }

  lemma AppendNone(orig: Bytes, chunks: seq<Bytes>)
    requires Aligned(orig) && forall i :: 0 <= i < |chunks| ==> |chunks[i]| <= CHUNK_SIZE
    ensures Appended(orig, orig, chunks, 0, [])
  {
    assert orig + PackedAll(chunks[..0]) == orig;
  }

  lemma AppendStep(orig: Bytes, file: Bytes, chunks: seq<Bytes>, k: nat, pageIds: seq<nat>)
    requires Appended(orig, file, chunks, k, pageIds) && k < |chunks|
    ensures PageCount(file) >= 0
    ensures Appended(orig, file + Packed(chunks[k]), chunks, k + 1, pageIds + [PageCount(file)])
  {
    PackedPages(orig, chunks, k);
    PackedSnoc(chunks, k);
    AppendKeepsPages(file, Packed(chunks[k]));
    Append(orig, PackedAll(chunks[..k]), Packed(chunks[k]));
    NextId(PageCount(orig), k);
  }

  lemma NextId(first: nat, k: nat)
    ensures Ids(first, k) + [first + k] == Ids(first, k + 1)
  {
  }

  lemma PackedSnoc(chunks: seq<Bytes>, k: nat)
    requires k < |chunks| && forall i :: 0 <= i < |chunks| ==> |chunks[i]| <= CHUNK_SIZE
    ensures PackedAll(chunks[..k + 1]) == PackedAll(chunks[..k]) + Packed(chunks[k])
  {
    assert chunks[..k + 1][..k] == chunks[..k];
  }
}

/** Atomic file steps, transactions made of them, and what a crash between any two of them leaves. */
module Recovery {
  import opened Values
  import opened Catalog
  import opened Pages
  import opened FileStore
  import opened Sequences

  /** The file and the header state held in memory. */
  datatype Store = Store(file: Bytes, state: State)

  datatype Result = Result(store: Store, ok: bool)

  /** The writes of statements. Each changes the file by at most one page write. */
  datatype Op =
    | Allocate(data: Bytes)
    | WriteRow(pageId: nat, data: Bytes)
    | SetCatalog(catalog: Tables)
    | SetRecords(table: string, records: seq<Record>)

  function Persist(codec: Codec, st: Store): Result {
    var page := HeaderPage(codec, st.state);
    if page.Ok? then Result(st.(file := WithHeader(st.file, page.value)), true) else Result(st, false)
  }

  /** A change of the header state stays in memory even when it is too large to be written. */
  function Apply(codec: Codec, st: Store, op: Op): Result {
    match op
    case Allocate(data) =>
      var page := NormalizePageData(data);
      if page.Ok? then Result(st.(file := st.file + page.value), true) else Result(st, false)
    case WriteRow(pageId, data) =>
      var page := NormalizePageData(data);
      if page.Ok? && pageId < PageCount(st.file) then Result(st.(file := WithPage(st.file, pageId, page.value)), true)
      else Result(st, false)
    case SetCatalog(catalog) => Persist(codec, st.(state := st.state.(catalog := catalog)))
    case SetRecords(table, records) =>
      Persist(codec, st.(state := st.state.(records := st.state.records[table := records])))
  }

  /** Memory is what the header decodes to. */
  ghost predicate Synced(codec: Codec, st: Store) {
    Aligned(st.file) && DecodeHeader(codec, st.file) == Ok(st.state)
  }

  /** Pages that hold rows. */
  ghost predicate RecordPage(s: State, pageId: nat) {
    exists t, i :: t in s.records && 0 <= i < |s.records[t]| && s.records[t][i].pageId == pageId
  }

  /** Every row page lies in the file. */
  ghost predicate InRange(s: State, file: Bytes) {
    forall p: nat :: RecordPage(s, p) ==> p < PageCount(file)
  }

  /** A database at rest. */
  ghost predicate AtRest(codec: Codec, st: Store) {
    Synced(codec, st) && st.state.marker.None? && InRange(st.state, st.file)
  }

  // ---------------------------------------------------------------- one step

  lemma PersistFacts(codec: Codec, st: Store)
    requires RoundTrips(codec) && Aligned(st.file)
    ensures var r := Persist(codec, st);
      && Aligned(r.store.file) && |r.store.file| == |st.file| && r.store.state == st.state
      && (forall i :: 0 <= i < PageCount(st.file) ==> PageAt(r.store.file, i) == PageAt(st.file, i))
      && (r.ok ==> DecodeHeader(codec, r.store.file) == Ok(st.state))
      && (!r.ok ==> r.store == st)
  {
    if Persist(codec, st).ok {
      HeaderRoundTrip(codec, st.state, st.file);
      forall i | 0 <= i < PageCount(st.file) ensures PageAt(Persist(codec, st).store.file, i) == PageAt(st.file, i) {
        HeaderKeepsPages(st.file, HeaderPage(codec, st.state).value, i);
      }
      HeaderLength(st.file, HeaderPage(codec, st.state).value);
    }
  }

  lemma HeaderLength(file: Bytes, page: Bytes)
    requires Aligned(file) && |page| == PAGE_SIZE
    ensures |WithHeader(file, page)| == |file|
  {
  }

  /** Appending and row writes leave the header page alone. */
  lemma DataKeepsHeader(codec: Codec, st: Store, op: Op)
    requires Aligned(st.file) && (op.Allocate? || op.WriteRow?)
    ensures var r := Apply(codec, st, op);
      && Aligned(r.store.file) && |r.store.file| >= |st.file| && r.store.state == st.state
      && DecodeHeader(codec, r.store.file) == DecodeHeader(codec, st.file)
      && (!r.ok ==> r.store == st)
      && (forall i :: 0 <= i < PageCount(st.file) && (op.WriteRow? ==> i != op.pageId) ==>
           PageAt(r.store.file, i) == PageAt(st.file, i))
  {
    var r := Apply(codec, st, op);
    if r.ok {
      match op {
        case Allocate(data) =>
          AppendKeepsPages(st.file, NormalizePageData(data).value);
        case WriteRow(pageId, data) =>
          forall i | 0 <= i < PageCount(st.file) && i != pageId ensures PageAt(r.store.file, i) == PageAt(st.file, i) {
            WithPageKeepsPages(st.file, pageId, NormalizePageData(data).value, i);
          }
          WithPageKeepsPages(st.file, pageId, NormalizePageData(data).value, pageId);
      }
      assert r.store.file[..PAGE_SIZE] == st.file[..PAGE_SIZE];
      SameHeader(codec, r.store.file, st.file);
    }
  }

  lemma ApplyKeepsSynced(codec: Codec, st: Store, op: Op)
    requires RoundTrips(codec) && Synced(codec, st)
    ensures var r := Apply(codec, st, op); Aligned(r.store.file) && (r.ok ==> Synced(codec, r.store))
  {
    match op
    case SetCatalog(catalog) => PersistFacts(codec, st.(state := st.state.(catalog := catalog)));
    case SetRecords(table, records) =>
      PersistFacts(codec, st.(state := st.state.(records := st.state.records[table := records])));
    case _ => DataKeepsHeader(codec, st, op);
  }

  // ---------------------------------------------------------------- begin and commit

  function MarkerFor(file: Bytes): Marker {
    Marker(1, true, |file|, Ids(if PageCount(file) > 0 then PageCount(file) else 0, |Chunks(file)|))
  }

  /** The file after the first `k` pages of its own snapshot were appended. */
  function Appending(file: Bytes, k: nat): Bytes
    requires k <= |Chunks(file)|
  {
    file + PackedAll(Chunks(file)[..k])
  }

  /** Beginning a transaction: all snapshot pages, then the marker in the header. */
  function Published(codec: Codec, st: Store): Result {
    Persist(codec, Store(Appending(st.file, |Chunks(st.file)|), st.state.(marker := Some(MarkerFor(st.file)))))
  }

  /** Committing: the header without the marker. */
  function Cleared(codec: Codec, st: Store): Result {
    Persist(codec, st.(state := st.state.(marker := None)))
  }

  /** Putting saved bytes back; the memory is decoded from them. */
  function Restored(codec: Codec, st: Store, saved: Bytes): Store {
    Store(saved, if DecodeHeader(codec, saved).Ok? then DecodeHeader(codec, saved).value else st.state)
  }

  lemma HoldsAppended(file: Bytes, more: Bytes, pageId: nat, chunk: Bytes)
    requires Aligned(file) && |more| == PAGE_SIZE && |chunk| <= CHUNK_SIZE && HoldsChunk(file, pageId, chunk)
    ensures HoldsChunk(file + more, pageId, chunk)
  {
    AppendKeepsPages(file, more);
  }

  lemma PackedSnoc(chunks: seq<Bytes>, k: nat)
    requires k < |chunks| && forall i :: 0 <= i < |chunks| ==> |chunks[i]| <= CHUNK_SIZE
    ensures PackedAll(chunks[..k + 1]) == PackedAll(chunks[..k]) + Packed(chunks[k])
  {
    assert chunks[..k + 1][..k] == chunks[..k];
  }

  lemma {:induction false} PackedHolds(file: Bytes, chunks: seq<Bytes>, k: nat, i: nat)
    requires Aligned(file) && i < k <= |chunks|
    requires forall i :: 0 <= i < |chunks| ==> |chunks[i]| <= CHUNK_SIZE
    ensures HoldsChunk(file + PackedAll(chunks[..k]), PageCount(file) + i, chunks[i])
    decreases k
  {
    var before := file + PackedAll(chunks[..k - 1]);
    PackedMore(file, chunks, k - 1);
    if i < k - 1 {
      PackedHolds(file, chunks, k - 1, i);
    }
    HoldsNext(before, chunks[k - 1], file + PackedAll(chunks[..k]), PageCount(file) + i, chunks[i]);
  }

  lemma HoldsNext(before: Bytes, last: Bytes, now: Bytes, pageId: nat, chunk: Bytes)
    requires Aligned(before) && |last| <= CHUNK_SIZE && |chunk| <= CHUNK_SIZE && now == before + Packed(last)
    requires HoldsChunk(before, pageId, chunk) || (pageId == PageCount(before) && chunk == last)
    ensures HoldsChunk(now, pageId, chunk)
  {
    if HoldsChunk(before, pageId, chunk) {
      HoldsAppended(before, Packed(last), pageId, chunk);
    } else {
      HoldsLast(before, last);
    }
  }

  lemma PackedMore(file: Bytes, chunks: seq<Bytes>, k: nat)
    requires Aligned(file) && k < |chunks| && forall i :: 0 <= i < |chunks| ==> |chunks[i]| <= CHUNK_SIZE
    ensures var before := file + PackedAll(chunks[..k]);
      && file + PackedAll(chunks[..k + 1]) == before + Packed(chunks[k])
      && Aligned(before) && PageCount(before) == PageCount(file) + k
  {
    PackedSnoc(chunks, k);
    Append(file, PackedAll(chunks[..k]), Packed(chunks[k]));
    AppendKeepsPages(file, PackedAll(chunks[..k]));
  }

  lemma HoldsLast(file: Bytes, chunk: Bytes)
    requires Aligned(file) && |chunk| <= CHUNK_SIZE
    ensures HoldsChunk(file + Packed(chunk), PageCount(file), chunk)
  {
    AppendKeepsPages(file, Packed(chunk));
  }

  lemma PackedPages(file: Bytes, chunks: seq<Bytes>, k: nat)
    requires Aligned(file) && k <= |chunks|
    requires forall i :: 0 <= i < |chunks| ==> |chunks[i]| <= CHUNK_SIZE
    ensures Aligned(file + PackedAll(chunks[..k])) && PageCount(file + PackedAll(chunks[..k])) == PageCount(file) + k
    ensures forall i :: 0 <= i < PageCount(file) ==> PageAt(file + PackedAll(chunks[..k]), i) == PageAt(file, i)
    ensures forall i :: 0 <= i < k ==> HoldsChunk(file + PackedAll(chunks[..k]), PageCount(file) + i, chunks[i])
  {
    AppendKeepsPages(file, PackedAll(chunks[..k]));
    forall i | 0 <= i < k ensures HoldsChunk(file + PackedAll(chunks[..k]), PageCount(file) + i, chunks[i]) {
      PackedHolds(file, chunks, k, i);
    }
  }

  /** A crash before the marker is written: the header still decodes to the same state, every page
      is where it was, and opening changes nothing. */
  lemma CrashBeforeMarker(codec: Codec, st: Store, k: nat)
    requires AtRest(codec, st) && k <= |Chunks(st.file)|
    ensures DecodeHeader(codec, Appending(st.file, k)) == Ok(st.state)
    ensures forall i :: 0 <= i < PageCount(st.file) ==>
      (i + 2) * PAGE_SIZE <= |Appending(st.file, k)| && PageAt(Appending(st.file, k), i) == PageAt(st.file, i)
    ensures Reopen(codec, Appending(st.file, k)) == Ok(Appending(st.file, k))
  {
    PackedPages(st.file, Chunks(st.file), k);
    assert Appending(st.file, k)[..PAGE_SIZE] == st.file[..PAGE_SIZE];
    SameHeader(codec, Appending(st.file, k), st.file);
  }

  /** Once the marker is written, the file is recoverable. */
  lemma PublishedIsRecoverable(codec: Codec, st: Store)
    requires RoundTrips(codec) && AtRest(codec, st) && Published(codec, st).ok
    ensures var r := Published(codec, st);
      && Recoverable(codec, r.store.file, st.file, MarkerFor(st.file))
      && Synced(codec, r.store) && r.store.state == st.state.(marker := Some(MarkerFor(st.file)))
      && PageCount(r.store.file) >= PageCount(st.file)
  {
    var m := MarkerFor(st.file);
    var whole := Store(Appending(st.file, |Chunks(st.file)|), st.state.(marker := Some(m)));
    AppendingHolds(st.file);
    HoldsPageIds(whole.file, m, st.file);
    PersistFacts(codec, whole);
    HoldsKept(whole.file, Published(codec, st).store.file, m, st.file);
  }

  lemma AppendingHolds(file: Bytes)
    requires Aligned(file)
    ensures var now := Appending(file, |Chunks(file)|);
      Aligned(now) && PageCount(now) >= PageCount(file) && Holds(now, MarkerFor(file), file)
  {
    var n := |Chunks(file)|;
    forall k | 0 <= k < n ensures |MarkerFor(file).pageIds| == n && MarkerFor(file).pageIds[k] == PageCount(file) + k {
      IdAt(PageCount(file), n, k);
    }
    PackedAtIds(file, Chunks(file), MarkerFor(file).pageIds);
  }

  lemma PackedAtIds(file: Bytes, chunks: seq<Bytes>, ids: seq<nat>)
    requires Aligned(file) && |ids| == |chunks|
    requires forall k :: 0 <= k < |ids| ==> ids[k] == PageCount(file) + k
    requires forall i :: 0 <= i < |chunks| ==> |chunks[i]| <= CHUNK_SIZE
    ensures var now := file + PackedAll(chunks[..|chunks|]);
      && Aligned(now) && PageCount(now) >= PageCount(file)
      && forall k :: 0 <= k < |ids| ==> HoldsChunk(now, ids[k], chunks[k])
  {
    PackedPages(file, chunks, |chunks|);
  }

  lemma IdAt(first: nat, count: nat, k: nat)
    requires k < count
    ensures |Ids(first, count)| == count && Ids(first, count)[k] == first + k
  {
  }

  /** Longer files with the same snapshot pages still hold the snapshot. */
  lemma HoldsKept(before: Bytes, now: Bytes, m: Marker, orig: Bytes)
    requires Holds(before, m, orig) && Aligned(before) && Aligned(now) && |now| >= |before|
    requires forall k :: 0 <= k < |m.pageIds| ==> PageAt(now, m.pageIds[k]) == PageAt(before, m.pageIds[k])
    ensures Holds(now, m, orig)
  {
    forall k | 0 <= k < |m.pageIds| ensures HoldsChunk(now, m.pageIds[k], Chunks(orig)[k]) {
      assert HoldsChunk(before, m.pageIds[k], Chunks(orig)[k]);
    }
  }

  lemma HoldsPageIds(file: Bytes, m: Marker, orig: Bytes)
    requires Holds(file, m, orig)
    ensures forall k :: 0 <= k < |m.pageIds| ==> m.pageIds[k] < PageCount(file)
  {
    forall k | 0 <= k < |m.pageIds| ensures m.pageIds[k] < PageCount(file) {
      assert HoldsChunk(file, m.pageIds[k], Chunks(orig)[k]);
    }
  }

  // ---------------------------------------------------------------- runs inside a transaction

  datatype Event = Do(op: Op) | Save | Restore

  /** `own` are the pages the current statement has allocated itself. */
  datatype Txn = Txn(store: Store, own: set<nat>, saved: Option<Bytes>)

  /** Row writes go to recorded pages; record lists name recorded or freshly allocated pages. */
  ghost predicate Enabled(t: Txn, e: Event) {
    match e
    case Do(WriteRow(pageId, _)) => RecordPage(t.store.state, pageId)
    case Do(SetRecords(_, records)) =>
      forall i :: 0 <= i < |records| ==> RecordPage(t.store.state, records[i].pageId) || records[i].pageId in t.own
    case Do(_) => true
    case Save => true
    case Restore => t.saved.Some?
  }

  function Next(codec: Codec, t: Txn, e: Event): Txn {
    match e
    case Do(op) =>
      var r := Apply(codec, t.store, op);
      var count := PageCount(t.store.file);
      var own := if op.Allocate? && r.ok && count >= 0 then t.own + {count} else t.own;
      t.(store := r.store, own := own)
    case Save => t.(saved := Some(t.store.file), own := {})
    case Restore => if t.saved.Some? then t.(store := Restored(codec, t.store, t.saved.value), own := {}) else t
  }

  function RunEvents(codec: Codec, t: Txn, events: seq<Event>): Txn
    decreases |events|
  {
    if events == [] then t else RunEvents(codec, Next(codec, t, events[0]), events[1..])
  }

  ghost predicate AllEnabled(codec: Codec, t: Txn, events: seq<Event>)
    decreases |events|
  {
    events != [] ==> Enabled(t, events[0]) && AllEnabled(codec, Next(codec, t, events[0]), events[1..])
  }

  /** Rows and snapshot live on different pages. */
  ghost predicate Apart(s: State, m: Marker, file: Bytes) {
    InRange(s, file) && forall k :: 0 <= k < |m.pageIds| ==> !RecordPage(s, m.pageIds[k])
  }

  /** A file from which the transaction can be undone, with a header that names no snapshot page. */
  ghost predicate Undoable(codec: Codec, file: Bytes, orig: Bytes, m: Marker) {
    Recoverable(codec, file, orig, m) && Apart(DecodeHeader(codec, file).value, m, file)
  }

  ghost predicate TxnOk(codec: Codec, t: Txn, orig: Bytes, m: Marker) {
    && Undoable(codec, t.store.file, orig, m)
    && t.store.state.marker == Some(m) && Apart(t.store.state, m, t.store.file)
    && (forall p :: p in t.own ==> p < PageCount(t.store.file) && p !in m.pageIds)
    && (t.saved.Some? ==> Undoable(codec, t.saved.value, orig, m))
  }

  lemma DataStepOk(codec: Codec, t: Txn, op: Op, orig: Bytes, m: Marker)
    requires TxnOk(codec, t, orig, m) && Enabled(t, Do(op)) && (op.Allocate? || op.WriteRow?)
    ensures TxnOk(codec, Next(codec, t, Do(op)), orig, m)
  {
    var file, now := t.store.file, Apply(codec, t.store, op).store.file;
    DataKeepsHeader(codec, t.store, op);
    HoldsPageIds(file, m, orig);
    HoldsKept(file, now, m, orig);
    LongerInRange(t.store.state, file, now);
    LongerInRange(DecodeHeader(codec, file).value, file, now);
    AllocatedAtEnd(codec, t.store, op);
  }

  lemma LongerInRange(s: State, file: Bytes, now: Bytes)
    requires InRange(s, file) && |now| >= |file|
    ensures InRange(s, now)
  {
  }

  lemma AllocatedAtEnd(codec: Codec, st: Store, op: Op)
    requires Aligned(st.file)
    ensures op.Allocate? && Apply(codec, st, op).ok ==>
      PageCount(Apply(codec, st, op).store.file) == PageCount(st.file) + 1
  {
    if op.Allocate? && Apply(codec, st, op).ok {
      AppendKeepsPages(st.file, NormalizePageData(op.data).value);
    }
  }

  lemma SetRecordsApart(s: State, table: string, records: seq<Record>, own: set<nat>, m: Marker, file: Bytes)
    requires Apart(s, m, file)
    requires forall p :: p in own ==> p < PageCount(file) && p !in m.pageIds
    requires forall i :: 0 <= i < |records| ==> RecordPage(s, records[i].pageId) || records[i].pageId in own
    ensures Apart(s.(records := s.records[table := records]), m, file)
  {
    var now := s.(records := s.records[table := records]);
    forall p: nat | RecordPage(now, p) ensures RecordPage(s, p) || p in own {
      var t, i :| t in now.records && 0 <= i < |now.records[t]| && now.records[t][i].pageId == p;
      assert t != table ==> s.records[t][i].pageId == p;
    }
  }

  /** Persisting a state that keeps the marker and names no snapshot page. */
  lemma HeaderStepOk(codec: Codec, st: Store, orig: Bytes, m: Marker)
    requires RoundTrips(codec) && Undoable(codec, st.file, orig, m)
    requires st.state.marker == Some(m) && Apart(st.state, m, st.file)
    ensures Undoable(codec, Persist(codec, st).store.file, orig, m)
    ensures |Persist(codec, st).store.file| == |st.file|
  {
    PersistFacts(codec, st);
    HoldsPageIds(st.file, m, orig);
    HoldsKept(st.file, Persist(codec, st).store.file, m, orig);
  }

  lemma SameRecordPages(a: State, b: State, m: Marker, file: Bytes)
    requires a.records == b.records && Apart(a, m, file)
    ensures Apart(b, m, file)
  {
    assert forall p: nat :: RecordPage(b, p) ==> RecordPage(a, p);
  }

  lemma StepOk(codec: Codec, t: Txn, e: Event, orig: Bytes, m: Marker)
    requires RoundTrips(codec) && TxnOk(codec, t, orig, m) && Enabled(t, e)
    ensures TxnOk(codec, Next(codec, t, e), orig, m)
  {
    match e
    case Do(SetCatalog(catalog)) =>
      var st := t.store.(state := t.store.state.(catalog := catalog));
      SameRecordPages(t.store.state, st.state, m, st.file);
      HeaderStepOk(codec, st, orig, m);
    case Do(SetRecords(table, records)) =>
      var st := t.store.(state := t.store.state.(records := t.store.state.records[table := records]));
      SetRecordsApart(t.store.state, table, records, t.own, m, st.file);
      HeaderStepOk(codec, st, orig, m);
      LongerInRange(st.state, st.file, Persist(codec, st).store.file);
    case Do(op) => DataStepOk(codec, t, op, orig, m);
    case Save =>
    case Restore =>
  }

  lemma {:induction false} RunOk(codec: Codec, t: Txn, events: seq<Event>, orig: Bytes, m: Marker)
    requires RoundTrips(codec) && TxnOk(codec, t, orig, m) && AllEnabled(codec, t, events)
    ensures TxnOk(codec, RunEvents(codec, t, events), orig, m)
    decreases |events|
  {
    if events != [] {
      StepOk(codec, t, events[0], orig, m);
      RunOk(codec, Next(codec, t, events[0]), events[1..], orig, m);
    }
  }

  /** The transaction just begun. */
  function Begun(codec: Codec, st: Store): Txn {
    Txn(Published(codec, st).store, {}, None)
  }

  lemma BegunIsOk(codec: Codec, st: Store)
    requires RoundTrips(codec) && AtRest(codec, st) && Published(codec, st).ok
    ensures TxnOk(codec, Begun(codec, st), st.file, MarkerFor(st.file))
  {
    var m := MarkerFor(st.file);
    PublishedIsRecoverable(codec, st);
    forall p: nat | RecordPage(st.state, p) ensures p !in m.pageIds {
    }
    SameRecordPages(st.state, Published(codec, st).store.state, m, st.file);
    LongerInRange(Published(codec, st).store.state, st.file, Published(codec, st).store.file);
  }

  /** Crash recovery: whatever a transaction has written between its marker and its commit, and
      wherever in between it crashes, opening the file gives the bytes from before it began. */
  lemma CrashInTransaction(codec: Codec, st: Store, events: seq<Event>)
    requires RoundTrips(codec) && AtRest(codec, st) && Published(codec, st).ok
    requires AllEnabled(codec, Begun(codec, st), events)
    ensures Reopen(codec, RunEvents(codec, Begun(codec, st), events).store.file) == Ok(st.file)
  {
    BegunIsOk(codec, st);
    RunOk(codec, Begun(codec, st), events, st.file, MarkerFor(st.file));
    RecoverableReopens(codec, RunEvents(codec, Begun(codec, st), events).store.file, st.file, MarkerFor(st.file));
  }

  /** A crash after the commit header keeps the new state and every page; one whose header did not
      fit has written nothing and is still undone. */
  lemma CrashAfterCommit(codec: Codec, st: Store, events: seq<Event>)
    requires RoundTrips(codec) && AtRest(codec, st) && Published(codec, st).ok
    requires AllEnabled(codec, Begun(codec, st), events)
    ensures var last := RunEvents(codec, Begun(codec, st), events).store;
      var r := Cleared(codec, last);
      && (r.ok ==> AtRest(codec, r.store) && r.store.state == last.state.(marker := None))
      && (r.ok ==> Reopen(codec, r.store.file) == Ok(r.store.file))
      && (r.ok ==>
           && |r.store.file| == |last.file|
           && forall i :: 0 <= i < PageCount(last.file) ==> PageAt(r.store.file, i) == PageAt(last.file, i))
      && (!r.ok ==> r.store.file == last.file && Reopen(codec, r.store.file) == Ok(st.file))
  {
    var last := RunEvents(codec, Begun(codec, st), events).store;
    BegunIsOk(codec, st);
    RunOk(codec, Begun(codec, st), events, st.file, MarkerFor(st.file));
    var cleared := last.(state := last.state.(marker := None));
    PersistFacts(codec, cleared);
    CrashInTransaction(codec, st, events);
    assert forall p: nat :: RecordPage(cleared.state, p) ==> RecordPage(last.state, p);
    LongerInRange(cleared.state, last.file, Cleared(codec, last).store.file);
  }

  // ---------------------------------------------------------------- statements under savepoints

  /** What a statement does, given what it finds: its writes in order, and whether it then raises
      by itself. */
  datatype Script = Script(ops: seq<Op>, raises: bool)

  type Body = Store -> Script

  /** The writes up to the first that is refused. */
  function RunOps(codec: Codec, st: Store, ops: seq<Op>): Result
    decreases |ops|
  {
    if ops == [] then Result(st, true)
    else
      var r := Apply(codec, st, ops[0]);
      if r.ok then RunOps(codec, r.store, ops[1..]) else r
  }

  /** A statement inside a transaction: a failure puts the savepoint back. */
  function RunStatement(codec: Codec, st: Store, body: Body): Result {
    var r := RunOps(codec, st, body(st).ops);
    if r.ok && !body(st).raises then r else Result(Restored(codec, r.store, st.file), false)
  }

  lemma {:induction false} RunOpsKeepsSynced(codec: Codec, st: Store, ops: seq<Op>)
    requires RoundTrips(codec) && Synced(codec, st) && RunOps(codec, st, ops).ok
    ensures Synced(codec, RunOps(codec, st, ops).store)
    decreases |ops|
  {
    if ops != [] {
      ApplyKeepsSynced(codec, st, ops[0]);
      RunOpsKeepsSynced(codec, Apply(codec, st, ops[0]).store, ops[1..]);
    }
  }

  /** A statement has its whole effect or none, and memory follows the header. */
  lemma StatementAtomic(codec: Codec, st: Store, body: Body)
    requires RoundTrips(codec) && Synced(codec, st)
    ensures var r := RunStatement(codec, st, body);
      && Synced(codec, r.store)
      && (r.ok ==> r.store == RunOps(codec, st, body(st).ops).store)
      && (!r.ok ==> r.store == st)
  {
    if RunOps(codec, st, body(st).ops).ok {
      RunOpsKeepsSynced(codec, st, body(st).ops);
    }
  }

  // ---------------------------------------------------------------- queries inside a transaction

  /** The header page is the encoding of the state in memory. */
  ghost predicate Exact(codec: Codec, st: Store) {
    && Aligned(st.file) && HeaderPage(codec, st.state).Ok?
    && st.file[..PAGE_SIZE] == HeaderPage(codec, st.state).value
  }

  /** Every table of the catalog has a record list, if only an empty one. */
  ghost predicate Listed(s: State) {
    forall t :: t in s.catalog ==> t in s.records
  }

  lemma SameHeaderPage(file: Bytes, page: Bytes)
    requires |file| >= PAGE_SIZE && |page| == PAGE_SIZE
    ensures WithHeader(file, page)[..PAGE_SIZE] == page
    ensures file[..PAGE_SIZE] == page ==> WithHeader(file, page) == file
  {
    assert file == file[..PAGE_SIZE] + file[PAGE_SIZE..];
  }

  lemma ExactIsSynced(codec: Codec, st: Store)
    requires RoundTrips(codec) && Exact(codec, st)
    ensures Synced(codec, st)
  {
    SameHeaderPage(st.file, HeaderPage(codec, st.state).value);
    HeaderRoundTrip(codec, st.state, st.file);
  }

  lemma PersistedIsExact(codec: Codec, st: Store)
    requires RoundTrips(codec) && Aligned(st.file) && Persist(codec, st).ok
    ensures Exact(codec, Persist(codec, st).store)
  {
    PersistFacts(codec, st);
    SameHeaderPage(st.file, HeaderPage(codec, st.state).value);
  }

  lemma ApplyKeepsExact(codec: Codec, st: Store, op: Op)
    requires RoundTrips(codec) && Exact(codec, st) && Apply(codec, st, op).ok
    ensures Exact(codec, Apply(codec, st, op).store)
  {
    match op
    case SetCatalog(catalog) => PersistedIsExact(codec, st.(state := st.state.(catalog := catalog)));
    case SetRecords(table, records) =>
      PersistedIsExact(codec, st.(state := st.state.(records := st.state.records[table := records])));
    case _ =>
      DataKeepsHeader(codec, st, op);
      assert Apply(codec, st, op).store.file[..PAGE_SIZE] == st.file[..PAGE_SIZE];
  }

  lemma {:induction false} RunOpsKeepsExact(codec: Codec, st: Store, ops: seq<Op>)
    requires RoundTrips(codec) && Exact(codec, st) && RunOps(codec, st, ops).ok
    ensures Exact(codec, RunOps(codec, st, ops).store)
    decreases |ops|
  {
    if ops != [] {
      ApplyKeepsExact(codec, st, ops[0]);
      RunOpsKeepsExact(codec, Apply(codec, st, ops[0]).store, ops[1..]);
    }
  }

  lemma StatementKeepsExact(codec: Codec, st: Store, body: Body)
    requires RoundTrips(codec) && Exact(codec, st)
    ensures Exact(codec, RunStatement(codec, st, body).store)
  {
    ExactIsSynced(codec, st);
    StatementAtomic(codec, st, body);
    if RunStatement(codec, st, body).ok {
      RunOpsKeepsExact(codec, st, body(st).ops);
    }
  }

  /** Opening a table for reading: a missing record list appears in memory, and an empty one is
      written to the header, under no savepoint. */
  function Opened(codec: Codec, st: Store, table: string): Result {
    var records := if table in st.state.records then st.state.records[table] else [];
    var read := st.(state := st.state.(records := st.state.records[table := records]));
    if records == [] then Persist(codec, read) else Result(read, true)
  }

  /** What a SELECT over some tables does to file and memory. */
  function Look(codec: Codec, st: Store, tables: seq<string>): Result
    decreases |tables|
  {
    if tables == [] then Result(st, true)
    else if tables[0] !in st.state.catalog then Result(st, false)
    else
      var r := Opened(codec, st, tables[0]);
      if r.ok then Look(codec, r.store, tables[1..]) else r
  }

  /** In a transaction a SELECT changes neither file nor memory, and its header writes are never
      refused. */
  lemma {:induction false} LookChangesNothing(codec: Codec, st: Store, tables: seq<string>)
    requires Exact(codec, st) && Listed(st.state)
    ensures Look(codec, st, tables).store == st
    ensures Look(codec, st, tables).ok <==> forall i :: 0 <= i < |tables| ==> tables[i] in st.state.catalog
    decreases |tables|
  {
    if tables != [] && tables[0] in st.state.catalog {
      var t := tables[0];
      assert st.state.records[t := st.state.records[t]] == st.state.records;
      SameHeaderPage(st.file, HeaderPage(codec, st.state).value);
      LookChangesNothing(codec, st, tables[1..]);
      assert forall i :: 0 <= i < |tables| ==> tables[i] == if i == 0 then t else tables[1..][i - 1];
    }
  }

  // ---------------------------------------------------------------- runs of statements and queries

  datatype Command = Change(body: Body) | Select(tables: seq<string>)

  function RunCommand(codec: Codec, st: Store, command: Command): Result {
    match command
    case Change(body) => RunStatement(codec, st, body)
    case Select(tables) => Look(codec, st, tables)
  }

  function RunAll(codec: Codec, st: Store, commands: seq<Command>): Store
    decreases |commands|
  {
    if commands == [] then st else RunAll(codec, RunCommand(codec, st, commands[0]).store, commands[1..])
  }

  /** The commands of the run that succeed. */
  function Succeeded(codec: Codec, st: Store, commands: seq<Command>): seq<Command>
    decreases |commands|
  {
    if commands == [] then []
    else
      var r := RunCommand(codec, st, commands[0]);
      (if r.ok then [commands[0]] else []) + Succeeded(codec, r.store, commands[1..])
  }

  /** Between any two commands every table has a record list: CREATE TABLE writes one. */
  ghost predicate StaysListed(codec: Codec, st: Store, commands: seq<Command>)
    decreases |commands|
  {
    && Listed(st.state)
    && (commands != [] ==> StaysListed(codec, RunCommand(codec, st, commands[0]).store, commands[1..]))
  }

  lemma CommandAtomic(codec: Codec, st: Store, command: Command)
    requires RoundTrips(codec) && Exact(codec, st) && Listed(st.state)
    ensures Exact(codec, RunCommand(codec, st, command).store)
    ensures !RunCommand(codec, st, command).ok || command.Select? ==> RunCommand(codec, st, command).store == st
  {
    match command
    case Change(body) =>
      StatementKeepsExact(codec, st, body);
      ExactIsSynced(codec, st);
      StatementAtomic(codec, st, body);
    case Select(tables) => LookChangesNothing(codec, st, tables);
  }

  /** Nested atomicity: a run of statements and queries, some of which fail, ends exactly where the run
      of the successful ones alone ends, and none of those fails then. */
  lemma {:induction false} NestedAtomicity(codec: Codec, st: Store, commands: seq<Command>)
    requires RoundTrips(codec) && Exact(codec, st) && StaysListed(codec, st, commands)
    ensures RunAll(codec, st, commands) == RunAll(codec, st, Succeeded(codec, st, commands))
    ensures Succeeded(codec, st, Succeeded(codec, st, commands)) == Succeeded(codec, st, commands)
    ensures Exact(codec, RunAll(codec, st, commands)) && Synced(codec, RunAll(codec, st, commands))
    decreases |commands|
  {
    if commands == [] {
      ExactIsSynced(codec, st);
    } else {
      var r, rest := RunCommand(codec, st, commands[0]), commands[1..];
      CommandAtomic(codec, st, commands[0]);
      NestedAtomicity(codec, r.store, rest);
      var good := Succeeded(codec, r.store, rest);
      if r.ok {
        assert Succeeded(codec, st, commands) == [commands[0]] + good;
        assert ([commands[0]] + good)[1..] == good;
      } else {
        assert Succeeded(codec, st, commands) == good;
      }
    }
  }

  // ---------------------------------------------------------------- statements as atomic steps

  /** The writes a statement attempts: all up to and including the first that is refused. */
  function Attempted(codec: Codec, st: Store, ops: seq<Op>): seq<Event>
    decreases |ops|
  {
    if ops == [] then []
    else
      var r := Apply(codec, st, ops[0]);
      [Do(ops[0])] + (if r.ok then Attempted(codec, r.store, ops[1..]) else [])
  }

  function StatementEvents(codec: Codec, st: Store, body: Body): seq<Event> {
    [Save] + Attempted(codec, st, body(st).ops) + (if RunStatement(codec, st, body).ok then [] else [Restore])
  }

  /** The header writes of a SELECT. */
  function LookEvents(codec: Codec, st: Store, tables: seq<string>): seq<Event>
    decreases |tables|
  {
    if tables == [] || tables[0] !in st.state.catalog then []
    else
      var t, r := tables[0], Opened(codec, st, tables[0]);
      var more := if r.ok then LookEvents(codec, r.store, tables[1..]) else [];
      if t in st.state.records && st.state.records[t] != [] then more else [Do(SetRecords(t, []))] + more
  }

  function CommandEvents(codec: Codec, st: Store, command: Command): seq<Event> {
    match command
    case Change(body) => StatementEvents(codec, st, body)
    case Select(tables) => LookEvents(codec, st, tables)
  }

  function AllEvents(codec: Codec, st: Store, commands: seq<Command>): seq<Event>
    decreases |commands|
  {
    if commands == [] then []
    else
      CommandEvents(codec, st, commands[0])
      + AllEvents(codec, RunCommand(codec, st, commands[0]).store, commands[1..])
  }

  lemma {:induction false} RunEventsConcat(codec: Codec, t: Txn, a: seq<Event>, b: seq<Event>)
    ensures RunEvents(codec, t, a + b) == RunEvents(codec, RunEvents(codec, t, a), b)
    ensures AllEnabled(codec, t, a + b) <==> AllEnabled(codec, t, a) && AllEnabled(codec, RunEvents(codec, t, a), b)
    decreases |a|
  {
    if a == [] {
      assert a + b == b;
    } else {
      assert (a + b)[0] == a[0] && (a + b)[1..] == a[1..] + b;
      RunEventsConcat(codec, Next(codec, t, a[0]), a[1..], b);
    }
  }

  lemma {:induction false} AttemptedRuns(codec: Codec, t: Txn, ops: seq<Op>)
    ensures var u := RunEvents(codec, t, Attempted(codec, t.store, ops));
      u.store == RunOps(codec, t.store, ops).store && u.saved == t.saved
    decreases |ops|
  {
    if ops != [] {
      var next := Next(codec, t, Do(ops[0]));
      var more := if Apply(codec, t.store, ops[0]).ok then Attempted(codec, next.store, ops[1..]) else [];
      assert Attempted(codec, t.store, ops) == [Do(ops[0])] + more;
      assert ([Do(ops[0])] + more)[1..] == more;
      if Apply(codec, t.store, ops[0]).ok {
        AttemptedRuns(codec, next, ops[1..]);
      }
    }
  }

  /** A statement is its atomic steps. */
  lemma StatementIsEvents(codec: Codec, t: Txn, body: Body)
    ensures RunEvents(codec, t, StatementEvents(codec, t.store, body)).store == RunStatement(codec, t.store, body).store
  {
    var ops, r := Attempted(codec, t.store, body(t.store).ops), RunStatement(codec, t.store, body);
    var tail := if r.ok then [] else [Restore];
    var saved := Next(codec, t, Save);
    RunEventsConcat(codec, t, [Save] + ops, tail);
    RunEventsConcat(codec, t, [Save], ops);
    assert RunEvents(codec, t, [Save]) == saved by {
      assert [Save][1..] == [];
    }
    AttemptedRuns(codec, saved, body(t.store).ops);
    assert [Restore][1..] == [];
  }

  lemma {:induction false} LookIsEvents(codec: Codec, t: Txn, tables: seq<string>)
    ensures RunEvents(codec, t, LookEvents(codec, t.store, tables)).store == Look(codec, t.store, tables).store
    decreases |tables|
  {
    if tables != [] && tables[0] in t.store.state.catalog {
      var s, table, r := t.store.state, tables[0], Opened(codec, t.store, tables[0]);
      var more := if r.ok then LookEvents(codec, r.store, tables[1..]) else [];
      if table in s.records && s.records[table] != [] {
        assert s.records[table := s.records[table]] == s.records;
        LookIsEvents(codec, t, tables[1..]);
      } else {
        var write := Do(SetRecords(table, []));
        assert Next(codec, t, write).store == r.store;
        assert ([write] + more)[1..] == more;
        if r.ok {
          LookIsEvents(codec, Next(codec, t, write), tables[1..]);
        }
      }
    }
  }

  lemma {:induction false} CommandsAreEvents(codec: Codec, t: Txn, commands: seq<Command>)
    ensures RunEvents(codec, t, AllEvents(codec, t.store, commands)).store == RunAll(codec, t.store, commands)
    decreases |commands|
  {
    if commands != [] {
      var first := CommandEvents(codec, t.store, commands[0]);
      var u := RunEvents(codec, t, first);
      match commands[0] {
        case Change(body) => StatementIsEvents(codec, t, body);
        case Select(tables) => LookIsEvents(codec, t, tables);
      }
      RunEventsConcat(codec, t, first, AllEvents(codec, u.store, commands[1..]));
      CommandsAreEvents(codec, u, commands[1..]);
    }
  }

  /** A transaction whose statements write only to recorded and their own new pages. */
  ghost predicate ProperTransaction(codec: Codec, st: Store, commands: seq<Command>) {
    && RoundTrips(codec) && AtRest(codec, st) && Published(codec, st).ok
    && AllEnabled(codec, Begun(codec, st), AllEvents(codec, Published(codec, st).store, commands))
  }

  /** Crashing after any number of the steps of its commands gives back the file before BEGIN. */
  lemma CrashDuringStatements(codec: Codec, st: Store, commands: seq<Command>, k: nat)
    requires ProperTransaction(codec, st, commands)
    requires k <= |AllEvents(codec, Published(codec, st).store, commands)|
    ensures var events := AllEvents(codec, Published(codec, st).store, commands);
      Reopen(codec, RunEvents(codec, Begun(codec, st), events[..k]).store.file) == Ok(st.file)
  {
    CrashAt(codec, st, AllEvents(codec, Published(codec, st).store, commands), k);
  }

  lemma CrashAt(codec: Codec, st: Store, events: seq<Event>, k: nat)
    requires RoundTrips(codec) && AtRest(codec, st) && Published(codec, st).ok
    requires AllEnabled(codec, Begun(codec, st), events) && k <= |events|
    ensures Reopen(codec, RunEvents(codec, Begun(codec, st), events[..k]).store.file) == Ok(st.file)
  {
    RunEventsConcat(codec, Begun(codec, st), events[..k], events[k..]);
    assert events[..k] + events[k..] == events;
    CrashInTransaction(codec, st, events[..k]);
  }

  lemma PublishedIsExact(codec: Codec, st: Store)
    requires RoundTrips(codec) && AtRest(codec, st) && Published(codec, st).ok
    ensures Exact(codec, Published(codec, st).store)
  {
    AppendingHolds(st.file);
    var marked := st.state.(marker := Some(MarkerFor(st.file)));
    PersistedIsExact(codec, Store(Appending(st.file, |Chunks(st.file)|), marked));
  }

  /** COMMIT keeps exactly what the successful commands alone would have done, durably. */
  lemma CommitKeepsSuccessful(codec: Codec, st: Store, commands: seq<Command>)
    requires ProperTransaction(codec, st, commands) && StaysListed(codec, Published(codec, st).store, commands)
    ensures var start := Published(codec, st).store;
      var good := Succeeded(codec, start, commands);
      var r := Cleared(codec, RunAll(codec, start, commands));
      && r == Cleared(codec, RunAll(codec, start, good))
      && (r.ok ==> AtRest(codec, r.store) && Reopen(codec, r.store.file) == Ok(r.store.file))
      && (r.ok ==> r.store.state == RunAll(codec, start, good).state.(marker := None))
      && (!r.ok ==> Reopen(codec, r.store.file) == Ok(st.file))
  {
    var start := Published(codec, st).store;
    PublishedIsExact(codec, st);
    NestedAtomicity(codec, start, commands);
    CommandsAreEvents(codec, Begun(codec, st), commands);
    CrashAfterCommit(codec, st, AllEvents(codec, start, commands));
  }

  /** ROLLBACK, or closing, puts back file and memory as they were. */
  lemma RollbackRestoresAll(codec: Codec, st: Store, later: Store)
    requires Synced(codec, st)
    ensures Restored(codec, later, st.file) == st
  {
  }

  // ---------------------------------------------------------------- a statement on its own

  /** A statement outside any transaction runs in one of its own. */
  function Standalone(codec: Codec, st: Store, body: Body): Result {
    var p := Published(codec, st);
    if !p.ok then Result(p.store, false)
    else
      var r := RunOps(codec, p.store, body(p.store).ops);
      if r.ok && !body(p.store).raises then Cleared(codec, r.store)
      else Result(Restored(codec, r.store, st.file), false)
  }

  /** The writes of such a statement keep to recorded and new pages. */
  ghost predicate ProperStatement(codec: Codec, st: Store, body: Body) {
    var start := Published(codec, st).store;
    Published(codec, st).ok ==> AllEnabled(codec, Begun(codec, st), Attempted(codec, start, body(start).ops))
  }

  /** Crashing after any number of its writes gives back the file before it. */
  lemma CrashDuringStandalone(codec: Codec, st: Store, body: Body, k: nat)
    requires RoundTrips(codec) && AtRest(codec, st) && Published(codec, st).ok && ProperStatement(codec, st, body)
    requires var start := Published(codec, st).store; k <= |Attempted(codec, start, body(start).ops)|
    ensures var start := Published(codec, st).store;
      var events := Attempted(codec, start, body(start).ops);
      Reopen(codec, RunEvents(codec, Begun(codec, st), events[..k]).store.file) == Ok(st.file)
  {
    var start := Published(codec, st).store;
    CrashAt(codec, st, Attempted(codec, start, body(start).ops), k);
  }

  /** All its outcomes. It succeeds exactly if its marker, all its writes and the cleared header fit and
      it does not raise, and is then durable; once begun, it otherwise leaves the old file, at the
      latest when that is opened again; refused at its begin, it leaves the old state and pages under
      unreferenced new ones. */
  lemma StandaloneAtomic(codec: Codec, st: Store, body: Body)
    requires RoundTrips(codec) && AtRest(codec, st) && ProperStatement(codec, st, body)
    ensures var r, p := Standalone(codec, st, body), Published(codec, st);
      var done := RunOps(codec, p.store, body(p.store).ops);
      var failed := body(p.store).raises || !done.ok;
      && (r.ok <==> p.ok && !failed && Cleared(codec, done.store).ok)
      && (r.ok ==> AtRest(codec, r.store) && r.store.state == done.store.state.(marker := None))
      && (r.ok ==> Reopen(codec, r.store.file) == Ok(r.store.file))
      && (!p.ok ==> r.store.file == Appending(st.file, |Chunks(st.file)|))
      && (!p.ok ==> Reopen(codec, r.store.file) == Ok(r.store.file))
      && (!p.ok ==> DecodeHeader(codec, r.store.file) == Ok(st.state))
      && (p.ok && failed ==> r.store == st)
      && (p.ok && !failed && !r.ok ==> r.store.file == done.store.file && Reopen(codec, r.store.file) == Ok(st.file))
  {
    var p := Published(codec, st);
    if p.ok {
      var ops := body(p.store).ops;
      AttemptedRuns(codec, Begun(codec, st), ops);
      CrashAfterCommit(codec, st, Attempted(codec, p.store, ops));
    } else {
      CrashBeforeMarker(codec, st, |Chunks(st.file)|);
    }
  }
}

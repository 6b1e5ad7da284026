/** The database file as bytes: a header page holding the encoded state, then data pages. A pending
    transaction is a marker in the header that points to pages holding a copy of the earlier file. */
module FileStore {
  import opened Values
  import opened Catalog
  import opened Pages
  import Storage

  type Record = Storage.Record

  datatype Marker = Marker(version: int, pending: bool, snapshotSize: int, pageIds: seq<nat>)

  datatype State = State(catalog: Tables, records: map<string, seq<Record>>, marker: Option<Marker>)

  const EMPTY_STATE := State(map[], map[], None)

  /** The encoding of header states. */
  datatype Codec = Codec(encode: State -> Bytes, decode: Bytes -> Option<State>)

  ghost predicate RoundTrips(codec: Codec) {
    forall s :: codec.encode(s) != [] && codec.decode(codec.encode(s)) == Some(s)
  }

  const MAGIC: Bytes := [84, 73, 78, 89, 68, 66, 0]

  const FORMAT_VERSION := 1

  const FIXED_SIZE := 15

  // ---------------------------------------------------------------- header

  function HeaderPage(codec: Codec, s: State): (r: Outcome<Bytes>)
    ensures r.Ok? <==> |codec.encode(s)| <= PAGE_SIZE - FIXED_SIZE
    ensures r.Ok? ==> |r.value| == PAGE_SIZE
  {
    var raw := codec.encode(s);
    if |raw| > PAGE_SIZE - FIXED_SIZE then Raised(StorageFault)
    else NormalizePageData(MAGIC + Be32(FORMAT_VERSION) + Be32(|raw|) + raw)
  }

  function DecodeHeader(codec: Codec, file: Bytes): Outcome<State> {
    if |file| < PAGE_SIZE || file[..7] != MAGIC || FromBe32(file[7..11]) != FORMAT_VERSION then Raised(StorageFault)
    else
      var size := FromBe32(file[11..FIXED_SIZE]);
      if size > PAGE_SIZE - FIXED_SIZE then Raised(StorageFault)
      else if size == 0 then Ok(EMPTY_STATE)
      else
        var s := codec.decode(file[FIXED_SIZE..FIXED_SIZE + size]);
        if s.Some? then Ok(s.value) else Raised(StorageFault)
  }

  /** The file with its first page replaced. */
  function WithHeader(file: Bytes, page: Bytes): Bytes
    requires |page| == PAGE_SIZE
  {
    page + (if |file| >= PAGE_SIZE then file[PAGE_SIZE..] else [])
  }

  /** The header page: the magic bytes, the format version 1 and the size of the state in four bytes each,
      the state, and zeros. */
  lemma HeaderLayout(codec: Codec, s: State)
    requires HeaderPage(codec, s).Ok?
    ensures var page, raw := HeaderPage(codec, s).value, codec.encode(s);
      && |page| == PAGE_SIZE && page[..7] == [84, 73, 78, 89, 68, 66, 0] && FromBe32(page[7..11]) == 1
      && FromBe32(page[11..15]) == |raw| && page[15..15 + |raw|] == raw
      && forall i :: 15 + |raw| <= i < PAGE_SIZE ==> page[i] == 0
  {
    var page, raw := HeaderPage(codec, s).value, codec.encode(s);
    var head := MAGIC + Be32(FORMAT_VERSION) + Be32(|raw|) + raw;
    assert page[..|head|] == head;
    HeadParts(raw, page);
    Be32RoundTrip(FORMAT_VERSION);
    Be32RoundTrip(|raw|);
  }

  /** A header that was written decodes to the state it was written from. */
  lemma HeaderRoundTrip(codec: Codec, s: State, file: Bytes)
    requires RoundTrips(codec) && HeaderPage(codec, s).Ok?
    ensures DecodeHeader(codec, WithHeader(file, HeaderPage(codec, s).value)) == Ok(s)
  {
    var raw, page := codec.encode(s), HeaderPage(codec, s).value;
    var head := MAGIC + Be32(FORMAT_VERSION) + Be32(|raw|) + raw;
    var now := WithHeader(file, page);
    assert now[..|head|] == page[..|head|] == head;
    HeadParts(raw, now);
    Be32RoundTrip(FORMAT_VERSION);
    Be32RoundTrip(|raw|);
    assert codec.decode(raw) == Some(s);
  }

  lemma HeadParts(raw: Bytes, file: Bytes)
    requires |raw| <= PAGE_SIZE - FIXED_SIZE && |file| >= PAGE_SIZE
    requires file[..FIXED_SIZE + |raw|] == MAGIC + Be32(FORMAT_VERSION) + Be32(|raw|) + raw
    ensures file[..7] == MAGIC && file[7..11] == Be32(FORMAT_VERSION) && file[11..FIXED_SIZE] == Be32(|raw|)
    ensures file[FIXED_SIZE..FIXED_SIZE + |raw|] == raw
  {
    var head := MAGIC + Be32(FORMAT_VERSION) + Be32(|raw|) + raw;
    assert file[..7] == head[..7];
    assert file[7..11] == head[7..11];
    assert file[11..FIXED_SIZE] == head[11..FIXED_SIZE];
    assert file[FIXED_SIZE..FIXED_SIZE + |raw|] == head[FIXED_SIZE..];
  }

  // ---------------------------------------------------------------- data pages

  ghost predicate Aligned(file: Bytes) {
    |file| >= PAGE_SIZE && |file| % PAGE_SIZE == 0
  }

  function PageCount(file: Bytes): int {
    |file| / PAGE_SIZE - 1
  }

  function PageAt(file: Bytes, pageId: nat): Bytes
    requires (pageId + 2) * PAGE_SIZE <= |file|
  {
    file[(pageId + 1) * PAGE_SIZE..(pageId + 2) * PAGE_SIZE]
  }

  function WithPage(file: Bytes, pageId: nat, page: Bytes): Bytes
    requires (pageId + 2) * PAGE_SIZE <= |file|
  {
    file[..(pageId + 1) * PAGE_SIZE] + page + file[(pageId + 2) * PAGE_SIZE..]
  }

  lemma HeaderKeepsPages(file: Bytes, page: Bytes, i: nat)
    requires Aligned(file) && |page| == PAGE_SIZE && i < PageCount(file)
    ensures Aligned(WithHeader(file, page)) && |WithHeader(file, page)| == |file|
    ensures PageAt(WithHeader(file, page), i) == PageAt(file, i)
  {
    var now := WithHeader(file, page);
    var from, to := (i + 1) * PAGE_SIZE, (i + 2) * PAGE_SIZE;
    assert now[PAGE_SIZE..] == file[PAGE_SIZE..];
    assert now[from..to] == now[PAGE_SIZE..][from - PAGE_SIZE..to - PAGE_SIZE];
    assert file[from..to] == file[PAGE_SIZE..][from - PAGE_SIZE..to - PAGE_SIZE];
  }

  lemma AppendKeepsPages(file: Bytes, more: Bytes)
    requires Aligned(file) && |more| % PAGE_SIZE == 0
    ensures Aligned(file + more) && PageCount(file + more) == PageCount(file) + |more| / PAGE_SIZE
    ensures forall i :: 0 <= i < PageCount(file) ==> PageAt(file + more, i) == PageAt(file, i)
    ensures |more| == PAGE_SIZE ==> PageAt(file + more, PageCount(file)) == more
  {
    var now := file + more;
    forall i | 0 <= i < PageCount(file) ensures PageAt(now, i) == PageAt(file, i) {
      assert (i + 2) * PAGE_SIZE <= |file|;
    }
  }

  lemma WithPageKeepsPages(file: Bytes, pageId: nat, page: Bytes, i: nat)
    requires Aligned(file) && |page| == PAGE_SIZE && pageId < PageCount(file) && i < PageCount(file)
    ensures Aligned(WithPage(file, pageId, page)) && |WithPage(file, pageId, page)| == |file|
    ensures PageAt(WithPage(file, pageId, page), i) == if i == pageId then page else PageAt(file, i)
  {
    var now := WithPage(file, pageId, page);
    var a, b := (pageId + 1) * PAGE_SIZE, (pageId + 2) * PAGE_SIZE;
    var from, to := (i + 1) * PAGE_SIZE, (i + 2) * PAGE_SIZE;
    if i < pageId {
      assert now[..a] == file[..a];
      assert now[from..to] == now[..a][from..to] == file[..a][from..to] == file[from..to];
    } else if i > pageId {
      assert now[b..] == file[b..];
      assert now[from..to] == now[b..][from - b..to - b] == file[b..][from - b..to - b] == file[from..to];
    } else {
      assert now[a..b] == page;
    }
  }

  /** The header is decoded from the first page alone. */
  lemma SameHeader(codec: Codec, a: Bytes, b: Bytes)
    requires |a| >= PAGE_SIZE && |b| >= PAGE_SIZE && a[..PAGE_SIZE] == b[..PAGE_SIZE]
    ensures DecodeHeader(codec, a) == DecodeHeader(codec, b)
  {
    SamePart(a, b, 0, 7);
    SamePart(a, b, 7, 11);
    SamePart(a, b, 11, FIXED_SIZE);
    var size := FromBe32(a[11..FIXED_SIZE]);
    if size <= PAGE_SIZE - FIXED_SIZE {
      SamePart(a, b, FIXED_SIZE, FIXED_SIZE + size);
    }
  }

  lemma SamePart(a: Bytes, b: Bytes, i: nat, j: nat)
    requires i <= j <= PAGE_SIZE && |a| >= PAGE_SIZE && |b| >= PAGE_SIZE && a[..PAGE_SIZE] == b[..PAGE_SIZE]
    ensures a[i..j] == b[i..j]
  {
    forall k | 0 <= k < j - i ensures a[i..j][k] == b[i..j][k] {
      assert a[..PAGE_SIZE][i + k] == b[..PAGE_SIZE][i + k];
    }
  }

  // ---------------------------------------------------------------- snapshots

  /** A file cut into payloads of one page each; an empty file is one empty payload. */
  function Chunks(s: Bytes): (r: seq<Bytes>)
    ensures r != [] && forall i :: 0 <= i < |r| ==> |r[i]| <= CHUNK_SIZE
    decreases |s|
  {
    if |s| <= CHUNK_SIZE then [s] else [s[..CHUNK_SIZE]] + Chunks(s[CHUNK_SIZE..])
  }

  function Join(chunks: seq<Bytes>): Bytes {
    if chunks == [] then [] else chunks[0] + Join(chunks[1..])
  }

  lemma {:induction false} JoinChunks(s: Bytes)
    ensures Join(Chunks(s)) == s
    decreases |s|
  {
    if |s| > CHUNK_SIZE {
      JoinChunks(s[CHUNK_SIZE..]);
      assert Chunks(s)[1..] == Chunks(s[CHUNK_SIZE..]);
    } else {
      assert Chunks(s)[1..] == [];
    }
  }

  function Packed(chunk: Bytes): (r: Bytes)
    requires |chunk| <= CHUNK_SIZE
    ensures |r| == PAGE_SIZE
  {
    PackPayload(chunk).value
  }

  /** The pages appended for a snapshot. */
  function PackedAll(chunks: seq<Bytes>): (r: Bytes)
    requires forall i :: 0 <= i < |chunks| ==> |chunks[i]| <= CHUNK_SIZE
    ensures |r| == |chunks| * PAGE_SIZE
  {
    if chunks == [] then [] else PackedAll(chunks[..|chunks| - 1]) + Packed(chunks[|chunks| - 1])
  }

  function Ids(first: nat, count: nat): seq<nat> {
    seq(count, i requires 0 <= i < count => first + i)
  }

  /** Reading the pages a marker lists. */
  function ReadChunks(file: Bytes, pageIds: seq<nat>): Outcome<Bytes> {
    if pageIds == [] then Ok([])
    else if pageIds[0] >= PageCount(file) then Raised(StorageFault)
    else
      var chunk := UnpackPayload(PageAt(file, pageIds[0]));
      if chunk.Raised? then chunk
      else
        var rest := ReadChunks(file, pageIds[1..]);
        if rest.Raised? then rest else Ok(chunk.value + rest.value)
  }

  function ReadSnapshot(file: Bytes, m: Marker): Outcome<Bytes> {
    if m.version != 1 || m.snapshotSize < 0 then Raised(StorageFault)
    else
      var joined := ReadChunks(file, m.pageIds);
      if joined.Raised? then joined
      else if |joined.value| < m.snapshotSize then Raised(StorageFault)
      else Ok(joined.value[..m.snapshotSize])
  }

  /** The marker's pages hold the chunks of `orig`. */
  ghost predicate Holds(file: Bytes, m: Marker, orig: Bytes) {
    && m.version == 1 && m.pending && m.snapshotSize == |orig|
    && |m.pageIds| == |Chunks(orig)|
    && forall k :: 0 <= k < |m.pageIds| ==> HoldsChunk(file, m.pageIds[k], Chunks(orig)[k])
  }

  ghost predicate HoldsChunk(file: Bytes, pageId: nat, chunk: Bytes)
    requires |chunk| <= CHUNK_SIZE
  {
    pageId < PageCount(file) && PageAt(file, pageId) == Packed(chunk)
  }

  lemma {:induction false} ReadsChunks(file: Bytes, pageIds: seq<nat>, chunks: seq<Bytes>)
    requires |pageIds| == |chunks|
    requires forall k :: 0 <= k < |chunks| ==> |chunks[k]| <= CHUNK_SIZE
    requires forall k :: 0 <= k < |pageIds| ==> HoldsChunk(file, pageIds[k], chunks[k])
    ensures ReadChunks(file, pageIds) == Ok(Join(chunks))
  {
    if pageIds != [] {
      assert HoldsChunk(file, pageIds[0], chunks[0]);
      PayloadRoundTrip(chunks[0]);
      forall k | 0 <= k < |pageIds| - 1 ensures HoldsChunk(file, pageIds[1..][k], chunks[1..][k]) {
        assert HoldsChunk(file, pageIds[k + 1], chunks[k + 1]);
      }
      ReadsChunks(file, pageIds[1..], chunks[1..]);
    }
  }

  /** The chunks rejoin to the snapshot at its original length. */
  lemma SnapshotReadsBack(file: Bytes, m: Marker, orig: Bytes)
    requires Holds(file, m, orig)
    ensures ReadSnapshot(file, m) == Ok(orig)
  {
    ReadsChunks(file, m.pageIds, Chunks(orig));
    JoinChunks(orig);
    assert orig[..|orig|] == orig;
  }

  // ---------------------------------------------------------------- opening a file

  /** What opening the file leaves as its bytes: a pending marker puts the snapshot back. */
  function Reopen(codec: Codec, file: Bytes): Outcome<Bytes> {
    var s := DecodeHeader(codec, file);
    if s.Raised? then Raised(s.error)
    else if s.value.marker.None? then Ok(file)
    else if !s.value.marker.value.pending then Raised(StorageFault)
    else
      var snapshot := ReadSnapshot(file, s.value.marker.value);
      if snapshot.Raised? then snapshot
      else if DecodeHeader(codec, snapshot.value).Raised? then Raised(StorageFault)
      else snapshot
  }

  /** A file in the middle of a transaction that began at `orig`. */
  ghost predicate Recoverable(codec: Codec, file: Bytes, orig: Bytes, m: Marker) {
    && Aligned(file)
    && DecodeHeader(codec, file).Ok? && DecodeHeader(codec, file).value.marker == Some(m)
    && Holds(file, m, orig)
  }

  /** Such a file opens as the file before the transaction, byte for byte. */
  lemma RecoverableReopens(codec: Codec, file: Bytes, orig: Bytes, m: Marker)
    requires Recoverable(codec, file, orig, m) && DecodeHeader(codec, orig).Ok?
    ensures Reopen(codec, file) == Ok(orig)
  {
    SnapshotReadsBack(file, m, orig);
  }
}

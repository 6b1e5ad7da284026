/** Fixed-size pages and length-prefixed payloads. */
module Pages {
  import opened Catalog

  type Byte = x: int | 0 <= x < 256

  type Bytes = seq<Byte>

  const PAGE_SIZE := 4096

  const PREFIX_SIZE := 4

  /** Largest payload of a page; also the size of a snapshot chunk. */
  const CHUNK_SIZE := PAGE_SIZE - PREFIX_SIZE

  function Zeros(n: nat): Bytes {
    seq(n, _ => 0)
  }

  /** Big-endian 32-bit number. */
  function Be32(n: nat): (r: Bytes)
    requires n < 0x1_0000_0000
    ensures |r| == 4
  {
    [n / 0x100_0000, n / 0x1_0000 % 0x100, n / 0x100 % 0x100, n % 0x100]
  }

  function FromBe32(b: Bytes): (n: nat)
    requires |b| == 4
    ensures n < 0x1_0000_0000
  {
    b[0] as int * 0x100_0000 + b[1] as int * 0x1_0000 + b[2] as int * 0x100 + b[3] as int
  }

  lemma Be32RoundTrip(n: nat)
    requires n < 0x1_0000_0000
    ensures FromBe32(Be32(n)) == n
  {
    var a := n / 0x100;
    var b := a / 0x100;
    assert n / 0x1_0000 == b;
    assert n / 0x100_0000 == b / 0x100;
  }

  /** The first byte counts most. */
  lemma BigEndian(b: Bytes)
    requires |b| == 4
    ensures FromBe32(b) == ((b[0] as int * 256 + b[1] as int) * 256 + b[2] as int) * 256 + b[3] as int
    ensures Be32(FromBe32(b)) == b
  {
    var n := FromBe32(b);
    assert n / 0x100 == (b[0] as int * 256 + b[1] as int) * 256 + b[2] as int;
    assert n / 0x1_0000 == b[0] as int * 256 + b[1] as int;
    assert n / 0x100_0000 == b[0] as int;
  }

  /** Pads to a page; longer data is refused. */
  function NormalizePageData(data: Bytes): (r: Outcome<Bytes>)
    ensures r.Ok? <==> |data| <= PAGE_SIZE
    ensures r.Ok? ==> |r.value| == PAGE_SIZE && r.value[..|data|] == data
    ensures r.Ok? ==> forall i :: |data| <= i < PAGE_SIZE ==> r.value[i] == 0
  {
    if |data| > PAGE_SIZE then Raised(StorageFault) else Ok(data + Zeros(PAGE_SIZE - |data|))
  }

  function PackPayload(payload: Bytes): (r: Outcome<Bytes>)
    ensures r.Ok? <==> |payload| <= CHUNK_SIZE
    ensures r.Ok? ==> |r.value| == PAGE_SIZE
  {
    if |payload| > CHUNK_SIZE then Raised(StorageFault) else NormalizePageData(Be32(|payload|) + payload)
  }

  function UnpackPayload(data: Bytes): Outcome<Bytes> {
    if |data| < PREFIX_SIZE then Raised(StorageFault)
    else
      var size := FromBe32(data[..PREFIX_SIZE]);
      if size > CHUNK_SIZE || |data| < PREFIX_SIZE + size then Raised(StorageFault)
      else Ok(data[PREFIX_SIZE..PREFIX_SIZE + size])
  }

  /** A packed page: the size of the payload in four bytes, the payload, and zeros. */
  lemma PackedLayout(payload: Bytes)
    requires |payload| <= CHUNK_SIZE
    ensures var page := PackPayload(payload).value;
      && |page| == PAGE_SIZE && FromBe32(page[..4]) == |payload|
      && page[4..4 + |payload|] == payload
      && forall i :: 4 + |payload| <= i < PAGE_SIZE ==> page[i] == 0
  {
    var page, head := PackPayload(payload).value, Be32(|payload|) + payload;
    Be32RoundTrip(|payload|);
    assert page[..|head|] == head;
    assert page[..4] == head[..4] && page[4..4 + |payload|] == head[4..];
  }

  /** A payload survives packing; one too long for a page is refused. */
  lemma PayloadRoundTrip(payload: Bytes)
    requires |payload| <= CHUNK_SIZE
    ensures UnpackPayload(PackPayload(payload).value) == Ok(payload)
  {
    var prefix := Be32(|payload|);
    var page := PackPayload(payload).value;
    Be32RoundTrip(|payload|);
    assert page[..|prefix + payload|] == prefix + payload;
    assert page[..PREFIX_SIZE] == (prefix + payload)[..PREFIX_SIZE] == prefix;
    assert page[PREFIX_SIZE..PREFIX_SIZE + |payload|] == (prefix + payload)[PREFIX_SIZE..] == payload;
  }
}

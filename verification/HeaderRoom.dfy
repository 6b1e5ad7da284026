/** The header page has room for the pending markers of some file sizes only, so BEGIN is refused on
    others, whatever the encoding of header states is. */
module HeaderRoom {
  import opened Values
  import opened Catalog
  import opened Pages
  import opened FileStore
  import opened Recovery

  /** An empty database whose file has been grown by `n` pages. */
  function Blank(codec: Codec, n: nat): Store
    requires HeaderPage(codec, EMPTY_STATE).Ok?
  {
    Store(HeaderPage(codec, EMPTY_STATE).value + Zeros(n * PAGE_SIZE), EMPTY_STATE)
  }

  /** The state that BEGIN would write there. */
  function Marked(codec: Codec, n: nat): State
    requires HeaderPage(codec, EMPTY_STATE).Ok?
  {
    EMPTY_STATE.(marker := Some(MarkerFor(Blank(codec, n).file)))
  }

  lemma BlankAtRest(codec: Codec, n: nat)
    requires RoundTrips(codec) && HeaderPage(codec, EMPTY_STATE).Ok?
    ensures AtRest(codec, Blank(codec, n))
    ensures Published(codec, Blank(codec, n)).ok <==> HeaderPage(codec, Marked(codec, n)).Ok?
  {
    var page, file := HeaderPage(codec, EMPTY_STATE).value, Blank(codec, n).file;
    assert |file| == (n + 1) * PAGE_SIZE;
    SameHeaderPage(file, page);
    assert file[..PAGE_SIZE] == page;
    HeaderRoundTrip(codec, EMPTY_STATE, file);
  }

  /** Two of these states are encoded differently: their markers name different sizes. */
  lemma MarkedDiffer(codec: Codec, m: nat, n: nat)
    requires RoundTrips(codec) && HeaderPage(codec, EMPTY_STATE).Ok? && m != n
    ensures codec.encode(Marked(codec, m)) != codec.encode(Marked(codec, n))
  {
    assert |Blank(codec, m).file| == (m + 1) * PAGE_SIZE && |Blank(codec, n).file| == (n + 1) * PAGE_SIZE;
    assert Marked(codec, m) != Marked(codec, n);
    assert codec.decode(codec.encode(Marked(codec, m))) == Some(Marked(codec, m));
  }

  // ---------------------------------------------------------------- counting

  ghost function Headed(k: nat, tails: set<Bytes>): set<Bytes>
    requires k <= 256
  {
    if k == 0 then {} else Headed(k - 1, tails) + set s | s in tails :: [(k - 1) as Byte] + s
  }

  /** All byte sequences up to a length. */
  ghost function AllBytes(length: nat): set<Bytes> {
    if length == 0 then {[]} else {[]} + Headed(256, AllBytes(length - 1))
  }

  lemma {:induction false} IsHeaded(k: nat, tails: set<Bytes>, b: Byte, s: Bytes)
    requires b < k <= 256 && s in tails
    ensures [b] + s in Headed(k, tails)
  {
    if b < k - 1 {
      IsHeaded(k - 1, tails, b, s);
    }
  }

  lemma {:induction false} ShortIsAmongAll(s: Bytes, length: nat)
    requires |s| <= length
    ensures s in AllBytes(length)
  {
    if s != [] {
      ShortIsAmongAll(s[1..], length - 1);
      IsHeaded(256, AllBytes(length - 1), s[0], s[1..]);
      assert s == [s[0]] + s[1..];
    }
  }

  lemma {:induction false} DistinctCount<T>(s: seq<T>)
    requires forall i, j :: 0 <= i < j < |s| ==> s[i] != s[j]
    ensures |set x | x in s| == |s|
  {
    if s != [] {
      var n := |s| - 1;
      DistinctCount(s[..n]);
      assert s == s[..n] + [s[n]];
      assert (set x | x in s) == (set x | x in s[..n]) + {s[n]};
    }
  }

  lemma {:induction false} SubsetIsNotLarger<T>(a: set<T>, b: set<T>)
    requires a <= b
    ensures |a| <= |b|
  {
    if x :| x in a {
      SubsetIsNotLarger(a - {x}, b - {x});
    }
  }

  /** More distinct sequences than there are short ones cannot all be short. */
  lemma OneIsLonger(all: seq<Bytes>, length: nat) returns (n: nat)
    requires forall i, j :: 0 <= i < j < |all| ==> all[i] != all[j]
    requires |all| > |AllBytes(length)|
    ensures n < |all| && |all[n]| > length
  {
    if forall i :: 0 <= i < |all| ==> |all[i]| <= length {
      forall s | s in all ensures s in AllBytes(length) {
        ShortIsAmongAll(s, length);
      }
      DistinctCount(all);
      SubsetIsNotLarger((set s | s in all), AllBytes(length));
    }
    n :| n < |all| && |all[n]| > length;
  }

  // ---------------------------------------------------------------- the refused BEGIN

  /** Every encoding of headers that reads back leaves some database at rest on which BEGIN is refused,
      though no writer is active, the lock is free and no marker is pending. */
  lemma SomeBeginIsRefused(codec: Codec) returns (st: Store)
    requires RoundTrips(codec) && HeaderPage(codec, EMPTY_STATE).Ok?
    ensures AtRest(codec, st) && st.state == EMPTY_STATE && !Published(codec, st).ok
  {
    var count := |AllBytes(PAGE_SIZE - FIXED_SIZE)| + 1;
    var all := seq(count, i requires 0 <= i < count => codec.encode(Marked(codec, i)));
    forall i, j | 0 <= i < j < count ensures all[i] != all[j] {
      MarkedDiffer(codec, i, j);
    }
    var n := OneIsLonger(all, PAGE_SIZE - FIXED_SIZE);
    BlankAtRest(codec, n);
    st := Blank(codec, n);
  }
}

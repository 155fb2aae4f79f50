/** What the encoder writes in front of and around the partitions of a lossy frame, and
    what the decoder finds there: the partitions that were written. */
module PartitionLayout {
  import opened IncrementalBuffer

  const MAX_PARTITION0_SIZE := 0x8_0000
  const MAX_PARTITION_SIZE := 0x100_0000

  /** PutVP8FrameHeader, section 9.1 of RFC 6386. */
  function FrameHeader(profile: nat, size0: nat, width: nat, height: nat): seq<byte>
    requires profile <= 3 && size0 < MAX_PARTITION0_SIZE && width < 0x1_0000 && height < 0x1_0000
  {
    var bits := 2 * profile + 16 + 32 * size0;
    [bits % 256, bits / 256 % 256, bits / 65536 % 256, 0x9d, 0x01, 0x2a, width % 256, width / 256, height % 256, height / 256]
  }

  /** All partitions behind each other. */
  function Flat(parts: seq<seq<byte>>): seq<byte> {
    if parts == [] then [] else Flat(parts[..|parts| - 1]) + parts[|parts| - 1]
  }

  /** EmitPartitionsSize: three bytes for each partition but the last. */
  function Sizes(parts: seq<seq<byte>>): (s: seq<byte>)
    requires parts != []
    ensures |s| == 3 * (|parts| - 1)
  {
    seq(3 * (|parts| - 1), j requires 0 <= j < 3 * (|parts| - 1) => SizeByte(|parts[j / 3]|, j % 3))
  }

  function SizeByte(size: nat, k: nat): byte {
    if k == 0 then size % 256 else if k == 1 then size / 256 % 256 else size / 65536 % 256
  }

  /** Sizes that fit their fields. */
  predicate Fit(parts: seq<seq<byte>>) {
    1 <= |parts| <= MAX_NUM_PARTITIONS && forall p <- parts :: |p| < MAX_PARTITION_SIZE
  }

  function Tokens(parts: seq<seq<byte>>): seq<byte>
    requires parts != []
  {
    Sizes(parts) + Flat(parts)
  }

  function Frame(profile: nat, part0: seq<byte>, width: nat, height: nat, parts: seq<seq<byte>>): seq<byte>
    requires profile <= 3 && |part0| < MAX_PARTITION0_SIZE && width < 0x1_0000 && height < 0x1_0000 && parts != []
  {
    FrameHeader(profile, |part0|, width, height) + part0 + Tokens(parts)
  }

  lemma {:induction false} FlatSplit(parts: seq<seq<byte>>, p: nat)
    requires p <= |parts|
    ensures |Flat(parts[..p])| <= |Flat(parts)|
    ensures Flat(parts)[..|Flat(parts[..p])|] == Flat(parts[..p])
    decreases |parts| - p
  {
    if p == |parts| {
      assert parts[..p] == parts;
    } else {
      FlatSplit(parts, p + 1);
      assert parts[..p + 1][..p] == parts[..p];
      var a, b := Flat(parts[..p]), Flat(parts[..p + 1]);
      assert b == a + parts[p];
      assert Flat(parts)[..|a|] == Flat(parts)[..|b|][..|a|] == a;
    }
  }

  /** Partition p lies where the partitions before it end. */
  lemma FlatSlice(parts: seq<seq<byte>>, p: nat)
    requires p < |parts|
    ensures |Flat(parts[..p + 1])| == |Flat(parts[..p])| + |parts[p]| <= |Flat(parts)|
    ensures Flat(parts)[|Flat(parts[..p])|..|Flat(parts[..p])| + |parts[p]|] == parts[p]
  {
    FlatSplit(parts, p + 1);
    assert parts[..p + 1][..p] == parts[..p];
    var a, b := Flat(parts[..p]), Flat(parts[..p + 1]);
    assert b == a + parts[p];
    assert Flat(parts)[|a|..|b|] == Flat(parts)[..|b|][|a|..] == b[|a|..] == parts[p];
  }

  lemma BytesOfSize(size: nat)
    requires size < MAX_PARTITION_SIZE
    ensures SizeByte(size, 0) + SizeByte(size, 1) * 0x100 + SizeByte(size, 2) * 0x1_0000 == size
  {
    ThreeBytes(size);
  }

  lemma SizeWritten(parts: seq<seq<byte>>, p: nat)
    requires Fit(parts) && p + 1 < |parts|
    ensures SizeField(Tokens(parts), p) == |parts[p]|
  {
    var data := Tokens(parts);
    assert (3 * p) / 3 == p && (3 * p + 1) / 3 == p && (3 * p + 2) / 3 == p;
    assert data[3 * p] == Sizes(parts)[3 * p] == SizeByte(|parts[p]|, 0);
    assert data[3 * p + 1] == Sizes(parts)[3 * p + 1] == SizeByte(|parts[p]|, 1);
    assert data[3 * p + 2] == Sizes(parts)[3 * p + 2] == SizeByte(|parts[p]|, 2);
    assert parts[p] in parts;
    BytesOfSize(|parts[p]|);
  }

  lemma {:induction false} StartWritten(parts: seq<seq<byte>>, p: nat)
    requires Fit(parts) && p < |parts|
    ensures PartStart(Tokens(parts), |parts|, p) == 3 * (|parts| - 1) + |Flat(parts[..p])|
  {
    hide Tokens, SizeField, Flat, Fit;
    FitCount(parts);
    TokensLength(parts);
    if p > 0 {
      StartWritten(parts, p - 1);
      SizeWritten(parts, p - 1);
      FlatSlice(parts, p - 1);
    } else {
      assert parts[..0] == [];
      NothingFlat();
    }
  }

  lemma TokensLength(parts: seq<seq<byte>>)
    requires parts != []
    ensures |Tokens(parts)| == 3 * (|parts| - 1) + |Flat(parts)|
  {
  }

  lemma NothingFlat()
    ensures Flat([]) == []
  {
  }

  lemma FitCount(parts: seq<seq<byte>>)
    requires Fit(parts)
    ensures 1 <= |parts| <= MAX_NUM_PARTITIONS
  {
  }

  lemma SliceOfTokens(parts: seq<seq<byte>>, lo: nat, hi: nat)
    requires parts != [] && lo <= hi <= |Flat(parts)|
    ensures |Tokens(parts)| == 3 * (|parts| - 1) + |Flat(parts)|
    ensures 3 * (|parts| - 1) + hi <= |Tokens(parts)|
    ensures Tokens(parts)[3 * (|parts| - 1) + lo..3 * (|parts| - 1) + hi] == Flat(parts)[lo..hi]
  {
    hide Sizes, Flat;
    var n := |Sizes(parts)|;
    assert Tokens(parts)[n..] == Flat(parts);
    assert Tokens(parts)[n + lo..n + hi] == Tokens(parts)[n..][lo..hi];
  }

  /** The bounds that the decoder finds enclose the partitions that were written. */
  lemma PartitionsReadBack(parts: seq<seq<byte>>, p: nat)
    requires Fit(parts) && p < |parts|
    ensures var data, n := Tokens(parts), |parts|;
            && Bound(data, n, p) == 3 * (n - 1) + |Flat(parts[..p])|
            && Bound(data, n, p + 1) == Bound(data, n, p) + |parts[p]|
            && data[Bound(data, n, p)..Bound(data, n, p + 1)] == parts[p]
  {
    hide Tokens, Flat, PartStart, Fit;
    var data, n := Tokens(parts), |parts|;
    FitCount(parts);
    TokensLength(parts);
    StartWritten(parts, p);
    FlatSlice(parts, p);
    if p + 1 < n {
      StartWritten(parts, p + 1);
    } else {
      assert parts[..n] == parts;
    }
    SliceOfTokens(parts, |Flat(parts[..p])|, |Flat(parts[..p])| + |parts[p]|);
  }

  lemma ThreeBytes(n: nat)
    requires n < 0x100_0000
    ensures n % 256 + n / 256 % 256 * 0x100 + n / 65536 % 256 * 0x1_0000 == n
  {
    var high := n / 256;
    assert high / 256 == n / 65536 < 256;
    assert n == 256 * high + n % 256 && high == 256 * (high / 256) + high % 256;
  }

  /** The size of partition #0 fills the upper bits of the first three bytes. */
  lemma HeaderBits(profile: nat, size0: nat, bits: nat)
    requires profile <= 3 && size0 < MAX_PARTITION0_SIZE && bits == 2 * profile + 16 + 32 * size0
    ensures bits % 256 + bits / 256 % 256 * 0x100 + bits / 65536 % 256 * 0x1_0000 == bits
    ensures bits % 2 == 0 && bits / 2 % 8 == profile && bits / 16 % 2 == 1 && bits / 32 == size0
  {
    ThreeBytes(bits);
    assert bits / 2 == profile + 8 * (1 + 2 * size0);
    assert bits / 16 == 1 + 2 * size0;
  }

  /** A frame as the encoder writes it: the decoder finds partition #0 and each token
      partition where they were put. */
  lemma FrameReadBack(profile: nat, part0: seq<byte>, width: nat, height: nat, parts: seq<seq<byte>>)
    requires profile <= 3 && |part0| < MAX_PARTITION0_SIZE && width < 0x1_0000 && height < 0x1_0000
    requires Fit(parts) && parts[|parts| - 1] != []
    ensures var d := Frame(profile, part0, width, height, parts);
            && MemBuffer.KeyFrameThere(d) && MemBuffer.FirstPartSize(d) == |part0|
            && d[10..10 + |part0|] == part0 && d[10 + |part0|..] == Tokens(parts)
            && MemBuffer.PartitionsThere(d, |parts|)
  {
    hide Tokens, PartStart, Flat, FrameHeader, Fit;
    FitCount(parts);
    var d := Frame(profile, part0, width, height, parts);
    var header := FrameHeader(profile, |part0|, width, height);
    HeaderReadBack(profile, |part0|, width, height, part0 + Tokens(parts));
    assert d == header + (part0 + Tokens(parts));
    assert d[10..] == part0 + Tokens(parts);
    assert d[10..10 + |part0|] == part0;
    assert d[10 + |part0|..] == Tokens(parts);
    TokensLength(parts);
    StartWritten(parts, |parts| - 1);
    FlatSlice(parts, |parts| - 1);
  }

  lemma HeaderReadBack(profile: nat, size0: nat, width: nat, height: nat, rest: seq<byte>)
    requires profile <= 3 && size0 < MAX_PARTITION0_SIZE && width < 0x1_0000 && height < 0x1_0000 && size0 <= |rest|
    ensures var d := FrameHeader(profile, size0, width, height) + rest;
            |d| == 10 + |rest| && MemBuffer.KeyFrameThere(d) && MemBuffer.FirstPartSize(d) == size0
  {
    HeaderBits(profile, size0, 2 * profile + 16 + 32 * size0);
  }
}

/** The input buffer of the incremental decoder (idec->mem) and the pointers into
    it that stay alive between calls: the partition readers, the compressed alpha
    data, the reader of partition #0.

    Pointers are addresses. The ghost `stream` is everything the caller supplied
    so far and `base` the stream offset of the first byte of the buffer, so that
    pointer p denotes stream offset p - addr + base, wherever the buffer lives. */
module IncrementalBuffer {
  import opened Options

  type byte = x: int | 0 <= x < 256

  const CHUNK_SIZE := 4096
  const MAX_NUM_PARTITIONS := 8
  const MAX_CHUNK_PAYLOAD := 0xffff_ffff - 8 - 1

  /** The pointers of a VP8BitReader: next byte and end of its data. */
  datatype Reader = Reader(buf: int, end: int) {
    function Moved(offset: int): Reader { Reader(buf + offset, end + offset) }
  }

  type Readers = s: seq<Option<Reader>> | |s| == MAX_NUM_PARTITIONS witness seq(MAX_NUM_PARTITIONS, i => None)

  const NO_PARTS: Readers := seq(MAX_NUM_PARTITIONS, i => None)

  datatype Mode = Unset | Append | Map

  /** A caller keeps to one way of supplying data. */
  predicate ModeFits(mode: Mode, expected: Mode) { mode == Unset || mode == expected }

  datatype Status = Ok | Suspended | NotEnoughData | BitstreamError | UnsupportedFeature | OutOfMemory

  /** A multiple of CHUNK_SIZE that holds n bytes, and the smallest. */
  function RoundUp(n: nat): (r: nat)
    ensures n <= r < n + CHUNK_SIZE && r % CHUNK_SIZE == 0
  {
    (n + CHUNK_SIZE - 1) / CHUNK_SIZE * CHUNK_SIZE
  }

  // ---- partition readers as values ----

  /** The first n readers may be set, and stay between lo and hi. */
  ghost predicate Within(parts: Readers, n: nat, lo: int, hi: int) {
    forall p :: 0 <= p < |parts| && parts[p].Some? ==>
      p < n && lo <= parts[p].value.buf <= parts[p].value.end <= hi
  }

  /** The reader of the last partition reads on to the end of the data. */
  ghost predicate LastReaches(parts: Readers, n: nat, end: int) {
    0 < n <= |parts| && (parts[n - 1].Some? ==> parts[n - 1].value.end == end)
  }

  /** Each reader of `before` stands at the same place of data that moved by
      `offset`; the last one now reads on to `last`. */
  ghost predicate Followed(before: Readers, after: Readers, n: nat, offset: int, last: int) {
    forall p :: 0 <= p < |after| ==>
      after[p] ==
        if before[p].None? || p >= n then before[p]
        else if p + 1 == n then Some(Reader(before[p].value.buf + offset, last))
        else Some(before[p].value.Moved(offset))
  }

  lemma FollowedStaysWithin(before: Readers, after: Readers, n: nat, offset: int, last: int, lo: int, hi: int)
    requires Within(before, n, lo, hi) && Followed(before, after, n, offset, last) && hi + offset <= last
    ensures Within(after, n, lo + offset, last)
    ensures 0 < n <= |after| ==> LastReaches(after, n, last)
  {
  }

  /** Two moves are one. */
  lemma FollowedTwice(a: Readers, b: Readers, c: Readers, n: nat, o1: int, l1: int, o2: int, l2: int)
    requires Followed(a, b, n, o1, l1) && Followed(b, c, n, o2, l2)
    ensures Followed(a, c, n, o1 + o2, l2)
  {
  }

  lemma NotMoved(parts: Readers, n: nat, last: int)
    requires LastReaches(parts, n, last)
    ensures Followed(parts, parts, n, 0, last)
  {
  }

  // ---- ParsePartitions: where the token partitions lie ----

  function LittleEndian24(data: seq<byte>, at: nat): nat
    requires at + 3 <= |data|
  {
    var b0: int, b1: int, b2: int := data[at], data[at + 1], data[at + 2];
    b0 + b1 * 0x100 + b2 * 0x10000
  }

  /** The size field of partition p, three bytes each at the front of the data. */
  function SizeField(data: seq<byte>, p: nat): nat
    requires 3 * p + 3 <= |data|
  {
    LittleEndian24(data, 3 * p)
  }

  /** The offset at which partition p starts when the data is not cut short. */
  function PartStart(data: seq<byte>, n: nat, p: nat): nat
    requires 1 <= n && p < n && 3 * (n - 1) <= |data|
  {
    if p == 0 then 3 * (n - 1) else PartStart(data, n, p - 1) + SizeField(data, p - 1)
  }

  lemma {:induction false} PartStartsGrow(data: seq<byte>, n: nat, p: nat, q: nat)
    requires 1 <= n && p <= q < n && 3 * (n - 1) <= |data|
    ensures PartStart(data, n, p) <= PartStart(data, n, q)
  {
    if p < q {
      PartStartsGrow(data, n, p, q - 1);
    }
  }

  /** More data does not move a partition. */
  lemma {:induction false} PartStartOfPrefix(data: seq<byte>, more: seq<byte>, n: nat, p: nat)
    requires 1 <= n && p < n && 3 * (n - 1) <= |data|
    ensures PartStart(data + more, n, p) == PartStart(data, n, p)
  {
    if p > 0 {
      PartStartOfPrefix(data, more, n, p - 1);
    }
  }

  /** VP8InitBitReader and VP8LoadNewBytes. */
  function Init(start: int, size: nat): (r: Reader) {
    if start < BufMax(start, size) then Reader(start + 7, start + size)
    else if size > 0 then Reader(start + 1, start + size)
    else Reader(start, start + size)
  }

  /** VP8BitReaderSetBuffer: below buf_max eight bytes can be read at once. */
  function BufMax(start: int, size: nat): int {
    if size >= 8 then start + size - 8 + 1 else start
  }

  /** A new reader has loaded seven bytes if there are eight, otherwise one if there is
      one. */
  lemma InitLoads(start: int, size: nat)
    ensures Init(start, size).end == start + size
    ensures Init(start, size).buf == start + if size >= 8 then 7 else if size >= 1 then 1 else 0
  {
  }

  /** Where partition p starts when sizes are cut to the data at hand, and for
      p == n where the last one ends. */
  function Bound(data: seq<byte>, n: nat, p: nat): (b: nat)
    requires 1 <= n && p <= n && 3 * (n - 1) <= |data|
    ensures b <= |data|
  {
    if p < n && PartStart(data, n, p) <= |data| then PartStart(data, n, p) else |data|
  }

  lemma {:induction false} BoundsGrow(data: seq<byte>, n: nat, p: nat)
    requires 1 <= n && p < n && 3 * (n - 1) <= |data|
    ensures Bound(data, n, p) <= Bound(data, n, p + 1)
  {
    if p + 1 < n {
      PartStartsGrow(data, n, p, p + 1);
    }
  }

  lemma BoundOfFirst(data: seq<byte>, n: nat)
    requires 1 <= n && 3 * (n - 1) <= |data|
    ensures Bound(data, n, 0) == 3 * (n - 1)
  {
  }

  /** The next boundary, from the size field cut to what is left. */
  lemma BoundStep(data: seq<byte>, n: nat, p: nat)
    requires 1 <= n && p + 1 < n && 3 * (n - 1) <= |data|
    ensures Bound(data, n, p + 1) ==
              Bound(data, n, p) + if SizeField(data, p) > |data| - Bound(data, n, p) then |data| - Bound(data, n, p) else SizeField(data, p)
  {
  }

  /** Once the last partition has begun, no boundary between partitions moves when
      more data arrives: parsing the partitions of a prefix of the file found the
      partitions of the file. */
  lemma {:induction false} BoundsAreFinal(data: seq<byte>, more: seq<byte>, n: nat, p: nat)
    requires 1 <= n && p < n && 3 * (n - 1) <= |data|
    requires PartStart(data, n, n - 1) < |data|
    ensures Bound(data + more, n, p) == Bound(data, n, p) == PartStart(data, n, p)
  {
    PartStartOfPrefix(data, more, n, p);
    PartStartsGrow(data, n, p, n - 1);
  }

  /** The first k readers are those of the n partitions of data that lies at address `at`. */
  ghost predicate AreThePartitions(parts: Readers, data: seq<byte>, n: nat, at: int, k: nat)
    requires k <= n && 1 <= n <= MAX_NUM_PARTITIONS && 3 * (n - 1) <= |data|
  {
    forall p :: 0 <= p < k ==>
      && Bound(data, n, p) <= Bound(data, n, p + 1)
      && parts[p] == Some(Init(at + Bound(data, n, p), Bound(data, n, p + 1) - Bound(data, n, p)))
  }

  lemma NoPartitionsYet(parts: Readers, data: seq<byte>, n: nat, at: int)
    requires 1 <= n <= MAX_NUM_PARTITIONS && 3 * (n - 1) <= |data|
    ensures AreThePartitions(parts, data, n, at, 0)
  {
  }

  lemma OnePartitionMore(parts: Readers, data: seq<byte>, n: nat, at: int, k: nat)
    requires k < n <= MAX_NUM_PARTITIONS && 3 * (n - 1) <= |data|
    requires AreThePartitions(parts, data, n, at, k) && Bound(data, n, k) <= Bound(data, n, k + 1)
    ensures var r := Init(at + Bound(data, n, k), Bound(data, n, k + 1) - Bound(data, n, k));
            AreThePartitions(parts[k := Some(r)], data, n, at, k + 1)
  {
  }

  /** Each reader stands inside its own partition of data that lies, or would lie, at
      address `at`, and reads on to the end of that partition. */
  ghost predicate InTheirPartitions(parts: Readers, n: nat, data: seq<byte>, at: int) {
    && 1 <= n <= MAX_NUM_PARTITIONS && 3 * (n - 1) <= |data| && PartStart(data, n, n - 1) < |data|
    && forall p :: 0 <= p < n ==>
         && parts[p].Some? && at + Bound(data, n, p) <= parts[p].value.buf
         && parts[p].value.end == at + Bound(data, n, p + 1)
  }

  lemma ParsedInTheirPartitions(parts: Readers, n: nat, data: seq<byte>, at: int)
    requires 1 <= n <= MAX_NUM_PARTITIONS && 3 * (n - 1) <= |data| && PartStart(data, n, n - 1) < |data|
    requires AreThePartitions(parts, data, n, at, n)
    ensures InTheirPartitions(parts, n, data, at)
  {
    hide Bound, PartStart;
    forall p | 0 <= p < n
      ensures parts[p].Some? && at + Bound(data, n, p) <= parts[p].value.buf && parts[p].value.end == at + Bound(data, n, p + 1)
    {
      InitLoads(at + Bound(data, n, p), Bound(data, n, p + 1) - Bound(data, n, p));
    }
  }

  /** More data, wherever the buffer moves: the partitions of what was there before are
      the partitions of all of it. */
  lemma AppendKeepsPartitions(before: Readers, after: Readers, n: nat, data: seq<byte>, more: seq<byte>, at: int, offset: int)
    requires InTheirPartitions(before, n, data, at)
    requires Followed(before, after, n, offset, at + offset + |data| + |more|)
    ensures InTheirPartitions(after, n, data + more, at + offset)
  {
    hide PartStart;
    PartStartOfPrefix(data, more, n, n - 1);
    forall p | 0 <= p < n
      ensures && after[p].Some? && at + offset + Bound(data + more, n, p) <= after[p].value.buf
              && after[p].value.end == at + offset + Bound(data + more, n, p + 1)
    {
      BoundsAreFinal(data, more, n, p);
      if p + 1 < n {
        BoundsAreFinal(data, more, n, p + 1);
      }
    }
  }

  lemma ReadKeepsPartitions(parts: Readers, n: nat, data: seq<byte>, at: int, p: nat, count: nat)
    requires InTheirPartitions(parts, n, data, at) && p < n
    ensures InTheirPartitions(parts[p := Some(Reader(parts[p].value.buf + count, parts[p].value.end))], n, data, at)
  {
  }

  /** Where partition p of those that begin at stream offset `at` ends: where the next
      one starts, or at the end of the data. */
  ghost function EndOf(stream: seq<byte>, at: nat, n: nat, p: nat): int {
    if p + 1 == n then |stream|
    else if at <= |stream| && p + 1 < n && 3 * (n - 1) <= |stream| - at then at + PartStart(stream[at..], n, p + 1)
    else 0
  }

  /** One call of WebPIAppend, with what malloc answers if it is asked. */
  datatype Piece = Piece(data: seq<byte>, newAddr: int, mallocOk: bool)

  function Concat(pieces: seq<Piece>): seq<byte> {
    if pieces == [] then [] else Concat(pieces[..|pieces| - 1]) + pieces[|pieces| - 1].data
  }

  /** What can happen between two looks at the buffer while the rows are decoded: data
      arrives, `count` bytes of a macroblock of a row are asked for, or the last alpha
      row is decoded. */
  datatype Event = Data(piece: Piece) | Row(row: nat, count: nat) | AlphaDone

  /** The data of the appends that succeeded. */
  function Fed(events: seq<Event>, done: seq<bool>): seq<byte>
    requires |events| == |done|
  {
    if events == [] then []
    else
      var n := |events| - 1;
      Fed(events[..n], done[..n]) + if events[n].Data? && done[n] then events[n].piece.data else []
  }

  /** Bytes of partition p that an event reads. */
  function ReadOf(event: Event, ok: bool, numParts: nat, p: nat): nat
    requires numParts > 0
  {
    if event.Row? && ok && event.row % numParts == p then event.count else 0
  }

  function ReadOfAll(events: seq<Event>, done: seq<bool>, numParts: nat, p: nat): nat
    requires |events| == |done| && numParts > 0
  {
    if events == [] then 0
    else
      var n := |events| - 1;
      ReadOfAll(events[..n], done[..n], numParts, p) + ReadOf(events[n], done[n], numParts, p)
  }

  class MemBuffer {
    var mode: Mode
    var buf: array?<byte>     // mem.buf
    var addr: int             // its address
    var start: nat
    var end: nat
    var hasDec: bool          // idec->dec != NULL
    var isLossless: bool
    var numParts: nat         // num_parts_minus_one + 1
    var parts: Readers
    var part0: Option<Reader> // dec->br
    var part0Copy: Option<seq<byte>>   // mem.part0_buf
    var vp8l: Option<Reader>  // data of the lossless decoder's reader
    var alphaData: Option<int>
    var alphaSize: nat
    var isAlphaDecoded: bool
    var alphaReader: Option<Reader>   // data of the alpha decoder's lossless reader
    ghost var stream: seq<byte>
    ghost var base: nat

    // ---- what the buffer and the pointers mean ----

    /** The bytes kept are the tail of the stream; start .. end is what the
        decoder has not consumed. */
    ghost predicate Holds()
      reads `mode, `buf, `start, `end, `stream, `base, buf
    {
      && start <= end && base + end == |stream|
      && (buf == null ==> end == 0 && base == 0)
      && (buf != null ==> end <= buf.Length && buf[..end] == stream[base..])
      && (mode == Map ==> base == 0 && (buf != null ==> end == buf.Length))
      && (mode == Unset ==> buf == null)
    }

    /** Address of stream offset 0, were it still in memory: pointer p denotes
        stream offset p - Origin(). */
    ghost function Origin(): int
      reads `addr, `base
    {
      addr - base
    }

    predicate NeedCompressedAlpha()
      reads `hasDec, `isLossless, `alphaData, `isAlphaDecoded
    {
      hasDec && !isLossless && alphaData.Some? && !isAlphaDecoded
    }

    /** The alpha chunk lies before the unconsumed data and is still kept. */
    ghost predicate AlphaKept()
      reads `addr, `start, `hasDec, `isLossless, `alphaData, `alphaSize, `isAlphaDecoded, `alphaReader
    {
      NeedCompressedAlpha() ==>
        && addr <= alphaData.value <= alphaData.value + alphaSize <= addr + start
        && (alphaReader.Some? ==> 1 <= alphaSize && alphaReader.value == Reader(alphaData.value + 1, alphaData.value + alphaSize))
    }

    /** Live pointers stay inside the kept bytes. */
    ghost predicate Cursors()
      reads this
    {
      && 1 <= numParts <= MAX_NUM_PARTITIONS
      && Within(parts, numParts, addr + start, addr + end) && LastReaches(parts, numParts, addr + end)
      && AlphaKept()
      && (mode == Map && part0.Some? ==> addr <= part0.value.buf <= part0.value.end <= addr + end)
      && (!hasDec || isLossless ==> parts == NO_PARTS)
      && (!hasDec || isLossless ==> part0 == None)
      && (hasDec ==> buf != null)
    }

    ghost predicate Valid()
      reads this, buf
    {
      Holds() && Cursors()
    }

    /** Bytes not consumed yet. */
    ghost function Unconsumed(): seq<byte>
      requires Holds()
      reads `mode, `buf, `start, `end, `stream, `base, buf
    {
      stream[base + start..]
    }

    lemma UnconsumedIsSuffix()
      requires Holds()
      ensures base + start <= |stream| && Unconsumed() == stream[base + start..]
    {
    }

    /** They are what lies between start and end in the buffer. */
    lemma UnconsumedIsBuffer()
      requires Holds() && buf != null
      ensures buf[start..end] == Unconsumed()
    {
      var held, part := buf[..end], buf[start..end];
      forall k | 0 <= k < end - start
        ensures part[k] == Unconsumed()[k]
      {
        assert part[k] == held[start + k] == stream[base..][start + k];
      }
    }

    constructor ()
      ensures Valid() && stream == [] && mode == Unset && !hasDec
    {
      mode, buf, addr, start, end := Unset, null, 0, 0, 0;
      hasDec, isLossless, numParts, parts := false, false, 1, NO_PARTS;
      part0, part0Copy, vp8l, alphaData, alphaSize := None, None, None, None, 0;
      isAlphaDecoded, alphaReader := false, None;
      stream, base := [], 0;
    }

    /** CheckMemBufferMode: the first call settles the mode. */
    method CheckMemBufferMode(expected: Mode) returns (ok: bool)
      requires expected != Unset && Valid()
      modifies `mode
      ensures ok <==> ModeFits(old(mode), expected)
      ensures mode == if ok then expected else old(mode)
      ensures Valid()
    {
      if mode == Unset {
        mode := expected;
      } else if mode != expected {
        return false;
      }
      return true;
    }

    // ---- reallocation ----

    /** The partition readers' part of DoRemap. */
    method RemapParts(offset: int)
      requires 1 <= numParts <= MAX_NUM_PARTITIONS
      modifies `parts
      ensures Followed(old(parts), parts, numParts, offset, addr + end)
    {
      if offset != 0 {
        var p := 0;
        while p < numParts
          modifies `parts
          invariant p <= numParts
          invariant forall q :: 0 <= q < |parts| ==>
                      parts[q] == if q < p && old(parts)[q].Some? then Some(old(parts)[q].value.Moved(offset)) else old(parts)[q]
        {
          if parts[p].Some? {
            parts := parts[p := Some(parts[p].value.Moved(offset))];
          }
          p := p + 1;
        }
      }
      var last := parts[numParts - 1];
      if last.Some? {
        parts := parts[numParts - 1 := Some(Reader(last.value.buf, addr + end))];
      }
    }

    /** DoRemap: after the buffer moved by `offset`, every live pointer moves along. */
    method DoRemap(offset: int)
      requires 1 <= numParts <= MAX_NUM_PARTITIONS
      requires !hasDec || isLossless ==> parts == NO_PARTS
      modifies `parts, `part0, `vp8l, `alphaData, `alphaReader
      ensures hasDec ==> Followed(old(parts), parts, numParts, offset, addr + end)
      ensures !hasDec || isLossless ==> parts == NO_PARTS
      ensures part0 == if hasDec && !isLossless && mode == Map && old(part0).Some? then Some(old(part0).value.Moved(offset))
                       else old(part0)
      ensures NeedCompressedAlpha() == old(NeedCompressedAlpha())
      ensures NeedCompressedAlpha() ==> alphaData == Some(old(alphaData).value + offset)
      ensures NeedCompressedAlpha() && old(alphaReader).Some? ==>
                alphaReader == Some(Reader(alphaData.value + 1, alphaData.value + alphaSize))
      ensures !NeedCompressedAlpha() || old(alphaReader).None? ==> alphaReader == old(alphaReader)
      ensures hasDec && isLossless ==> vp8l == Some(Reader(addr + start, addr + end))
    {
      if hasDec {
        if !isLossless {
          RemapParts(offset);
          if offset != 0 && mode == Map && part0.Some? {
            part0 := Some(part0.value.Moved(offset));
          }
          if NeedCompressedAlpha() {
            alphaData := Some(alphaData.value + offset);
            if alphaReader.Some? {
              alphaReader := Some(Reader(alphaData.value + 1, alphaData.value + alphaSize));
            }
          }
        } else {
          vp8l := Some(Reader(addr + start, addr + end));
        }
      }
    }

    /** memcpy of the bytes to keep. */
    method CopyTail(newBuf: array<byte>, from: nat, size: nat)
      requires buf != null && newBuf != buf && size <= newBuf.Length && from + size == end <= buf.Length
      modifies newBuf
      ensures newBuf[..size] == buf[..end][from..]
    {
      for i := 0 to size
        modifies newBuf
        invariant newBuf[..i] == buf[from..from + i]
      {
        newBuf[i] := buf[from + i];
      }
      assert buf[from..from + size] == buf[..end][from..];
    }

    /** Where the kept bytes begin: at the alpha chunk while it is needed, else at start. */
    function OldestNeeded(): int
      reads `addr, `start, `hasDec, `isLossless, `alphaData, `isAlphaDecoded
    {
      if NeedCompressedAlpha() then alphaData.value else addr + start
    }

    lemma OldestIsHeld()
      requires AlphaKept()
      ensures addr <= OldestNeeded() <= addr + start
    {
    }

    /** WebPSafeMalloc and the memcpy of the bytes to keep. */
    method NewBuffer(from: nat, kept: nat, length: nat) returns (newBuf: array<byte>)
      requires Holds() && from + kept == end && kept <= length
      ensures fresh(newBuf) && newBuf.Length == length && newBuf[..kept] == stream[base + from..]
    {
      hide Holds;
      Ends();
      newBuf := new byte[length](i => 0);
      if buf != null {
        CopyTail(newBuf, from, kept);
        TailOfHeld(from);
      }
    }

    lemma TailOfHeld(from: nat)
      requires Holds() && buf != null && from <= end
      ensures buf[..end][from..] == stream[base + from..]
    {
    }

    /** The new buffer takes the place of the old one, `skip` bytes shorter in front. */
    method Replace(newBuf: array<byte>, newAddr: int, skip: nat)
      requires Holds() && mode == Append && skip <= start
      requires end - skip <= newBuf.Length && newBuf[..end - skip] == stream[base + skip..]
      modifies `buf, `addr, `start, `end, `base
      ensures Holds() && buf == newBuf && addr == newAddr
      ensures start == old(start) - skip && end == old(end) - skip && base == old(base) + skip
    {
      base := base + skip;
      buf, addr, start, end := newBuf, newAddr, start - skip, end - skip;
    }

    /** AppendToMemBuffer, when the data does not fit: a new buffer that starts at
        the oldest byte still needed. `newAddr` is where malloc puts it. */
    method Grow(size: nat, newAddr: int)
      requires Holds() && AlphaKept() && mode == Append
      modifies `buf, `addr, `start, `end, `base
      ensures Holds() && buf != null && fresh(buf) && addr == newAddr && end + size <= buf.Length
      ensures buf.Length == RoundUp(end + size)
      ensures base + start == old(base + start)
      ensures base == old(base) + if NeedCompressedAlpha() then alphaData.value - old(addr) else old(start)
    {
      hide Holds, RoundUp, MemBuffer.AlphaKept, MemBuffer.NeedCompressedAlpha;
      Ends();
      OldestIsHeld();
      var oldStart := addr + start;
      var oldBase := OldestNeeded();
      var newMemStart := oldStart - oldBase;
      var currentSize := end - start + newMemStart;
      var newBuf := NewBuffer(oldBase - addr, currentSize, RoundUp(currentSize + size));
      Replace(newBuf, newAddr, oldBase - addr);
    }

    /** memcpy of the new bytes behind the kept ones. */
    method Write(data: seq<byte>)
      requires Holds() && (buf == null ==> data == []) && (buf != null ==> end + |data| <= buf.Length) && mode == Append
      modifies `end, `stream, buf
      ensures Holds() && end == old(end) + |data| && stream == old(stream) + data
    {
      ghost var before := stream;
      if buf != null {
        for i := 0 to |data|
          modifies buf
          invariant buf[..end] == before[base..]
          invariant buf[end..end + i] == data[..i]
        {
          buf[end + i] := data[i];
        }
        assert buf[..end + |data|] == buf[..end] + buf[end..end + |data|];
        assert data[..|data|] == data;
        SuffixGrows(before, data, base);
      }
      end := end + |data|;
      stream := stream + data;
    }

    /** Every live pointer follows when the buffer moved by `offset`: the lemma that
        both ways of supplying data share. */
    method FollowMove(offset: int, ghost oldStart: int, ghost oldEnd: int)
      requires Holds() && (hasDec ==> buf != null)
      requires 1 <= numParts <= MAX_NUM_PARTITIONS && (!hasDec || isLossless ==> parts == NO_PARTS && part0 == None)
      requires hasDec ==> addr + start == oldStart + offset && oldEnd + offset <= addr + end
      requires Within(parts, numParts, oldStart, oldEnd)
      requires NeedCompressedAlpha() ==> addr <= alphaData.value + offset <= alphaData.value + alphaSize + offset <= addr + start
      requires NeedCompressedAlpha() && alphaReader.Some? ==> 1 <= alphaSize
      requires hasDec && mode == Map && part0.Some? && !isLossless ==> addr <= part0.value.buf + offset <= part0.value.end + offset <= addr + end
      modifies `parts, `part0, `vp8l, `alphaData, `alphaReader
      ensures Valid()
      ensures hasDec ==> Followed(old(parts), parts, numParts, offset, addr + end)
      ensures NeedCompressedAlpha() == old(NeedCompressedAlpha())
      ensures NeedCompressedAlpha() ==> alphaData == Some(old(alphaData).value + offset)
      ensures part0 == if hasDec && mode == Map && old(part0).Some? then Some(old(part0).value.Moved(offset)) else old(part0)
      ensures hasDec && isLossless ==> vp8l == Some(Reader(addr + start, addr + end))
    {
      hide Holds, Within, Followed, LastReaches;
      DoRemap(offset);
      if hasDec {
        FollowedStaysWithin(old(parts), parts, numParts, offset, addr + end, oldStart, oldEnd);
      } else {
        NoPartsWithin(numParts, addr + start, addr + end);
      }
    }

    static lemma NoPartsWithin(n: nat, lo: int, hi: int)
      requires 1 <= n <= MAX_NUM_PARTITIONS
      ensures Within(NO_PARTS, n, lo, hi) && LastReaches(NO_PARTS, n, hi)
    {
    }

    // ---- the two ways of supplying data ----

    /** AppendToMemBuffer up to DoRemap: room for the data if need be, and the copy. */
    method Supply(data: seq<byte>, newAddr: int, allocOk: bool) returns (ok: bool)
      requires Holds() && AlphaKept() && mode == Append && |data| <= MAX_CHUNK_PAYLOAD
      modifies `buf, `addr, `start, `end, `base, `stream, buf
      ensures Holds()
      ensures ok ==> stream == old(stream) + data && base + start == old(base + start) && (old(buf) != null ==> buf != null)
      ensures ok ==> buf == old(buf) || fresh(buf)
      ensures ok && NeedCompressedAlpha() ==> alphaData.value - old(addr) + old(base) >= base
      ensures !ok ==> unchanged(this) && !allocOk && (buf != null ==> buf[..] == old(buf[..]))
    {
      hide Holds, MemBuffer.AlphaKept, RoundUp;
      Ends();
      AlphaEnds();
      var bufSize := if buf == null then 0 else buf.Length;
      if end + |data| > bufSize {
        if !allocOk {
          return false;
        }
        Grow(|data|, newAddr);
      }
      Write(data);
      return true;
    }

    /** AppendToMemBuffer: the unconsumed bytes grow by `data`, and every live
        pointer denotes the same stream offset, whether or not the buffer moved.
        `allocOk` and `newAddr` are malloc's answer. */
    method AppendToMemBuffer(data: seq<byte>, newAddr: int, allocOk: bool) returns (ok: bool)
      requires Valid() && mode == Append
      modifies `buf, `addr, `start, `end, `base, `stream, `parts, `part0, `vp8l, `alphaData, `alphaReader, buf
      ensures Valid()
      ensures ok ==> stream == old(stream) + data && base + start == old(base + start)
      ensures ok ==> Unconsumed() == old(Unconsumed()) + data && (buf == old(buf) || fresh(buf))
      ensures ok && hasDec ==> Followed(old(parts), parts, numParts, Origin() - old(Origin()), addr + end)
      ensures ok ==> NeedCompressedAlpha() == old(NeedCompressedAlpha())
      ensures ok && NeedCompressedAlpha() ==> alphaData.value - Origin() == old(alphaData.value - Origin())
      ensures ok && hasDec && isLossless ==> vp8l == Some(Reader(addr + start, addr + end))
      ensures !ok ==> unchanged(this) && (|data| > MAX_CHUNK_PAYLOAD || !allocOk)
      ensures !ok && buf != null ==> buf[..] == old(buf[..])
    {
      hide Within, Followed, Holds, LastReaches, MemBuffer.Unconsumed;
      if |data| > MAX_CHUNK_PAYLOAD {
        return false;
      }
      Ends();
      var oldStart := if buf == null then 0 else addr + start;
      ghost var oldLo, oldHi, before := addr + start, addr + end, stream;
      UnconsumedIsSuffix();
      ok := Supply(data, newAddr, allocOk);
      if ok {
        Ends();
        UnconsumedIsSuffix();
        SuffixGrows(before, data, base + start);
        FollowMove(if buf == null then 0 else addr + start - oldStart, oldLo, oldHi);
      }
    }

    /** The plain arithmetic in Holds. */
    lemma Ends()
      requires Holds()
      ensures buf != null ==> end <= buf.Length
      ensures start <= end && base + end == |stream| && (buf == null ==> end == 0)
    {
    }

    lemma AlphaEnds()
      requires AlphaKept()
      ensures NeedCompressedAlpha() ==> addr <= alphaData.value <= addr + start
    {
    }

    /** Any number of appends: the data adds up, the consumed part is the same, and each
        partition reader denotes the stream offset it denoted before all of them. */
    method AppendAll(pieces: seq<Piece>) returns (ok: bool)
      requires Valid() && mode == Append
      modifies `buf, `addr, `start, `end, `base, `stream, `parts, `part0, `vp8l, `alphaData, `alphaReader, buf
      ensures Valid()
      ensures ok ==> stream == old(stream) + Concat(pieces) && base + start == old(base + start)
      ensures ok && hasDec ==> Followed(old(parts), parts, numParts, Origin() - old(Origin()), addr + end)
      ensures ok ==> NeedCompressedAlpha() == old(NeedCompressedAlpha())
      ensures ok && NeedCompressedAlpha() ==> alphaData.value - Origin() == old(alphaData.value - Origin())
    {
      hide Within, Followed, Holds, LastReaches, MemBuffer.AlphaKept;
      ok := true;
      NotMoved(parts, numParts, addr + end);
      ConcatNothing(stream, pieces);
      for i := 0 to |pieces|
        modifies `buf, `addr, `start, `end, `base, `stream, `parts, `part0, `vp8l, `alphaData, `alphaReader, buf
        invariant ok && Valid() && (buf == old(buf) || fresh(buf))
        invariant stream == old(stream) + Concat(pieces[..i]) && base + start == old(base + start)
        invariant hasDec ==> Followed(old(parts), parts, numParts, Origin() - old(Origin()), addr + end)
        invariant NeedCompressedAlpha() == old(NeedCompressedAlpha())
        invariant NeedCompressedAlpha() ==> alphaData.value - Origin() == old(alphaData.value - Origin())
      {
        ghost var before, origin, last := parts, Origin(), addr + end;
        ok := AppendToMemBuffer(pieces[i].data, pieces[i].newAddr, pieces[i].mallocOk);
        if !ok {
          return;
        }
        ConcatOneMore(old(stream), pieces, i);
        if hasDec {
          FollowedTwice(old(parts), before, parts, numParts, origin - old(Origin()), last, Origin() - origin, addr + end);
        }
      }
      assert pieces[..|pieces|] == pieces;
    }

    static lemma ConcatNothing(s: seq<byte>, pieces: seq<Piece>)
      ensures s + Concat(pieces[..0]) == s
    {
    }

    static lemma ConcatOneMore(s: seq<byte>, pieces: seq<Piece>, i: nat)
      requires i < |pieces|
      ensures s + Concat(pieces[..i]) + pieces[i].data == s + Concat(pieces[..i + 1])
    {
      assert pieces[..i + 1][..i] == pieces[..i];
    }

    static lemma SuffixGrows(s: seq<byte>, data: seq<byte>, at: nat)
      requires at <= |s|
      ensures (s + data)[at..] == s[at..] + data
    {
    }

    /** RemapMemBuffer: the caller's new buffer holds what the old one held, and
        then more; a shorter one is refused. */
    method RemapMemBuffer(data: array<byte>, newAddr: int) returns (ok: bool)
      requires Valid() && mode == Map
      requires buf != null && buf.Length <= data.Length ==> buf[..] == data[..buf.Length]
      modifies `buf, `addr, `end, `stream, `parts, `part0, `vp8l, `alphaData, `alphaReader
      ensures ok <==> old(buf) == null || old(buf.Length) <= data.Length
      ensures Valid()
      ensures ok ==> buf == data && stream == data[..] && old(stream) <= stream && base + start == old(base + start)
      ensures ok && hasDec ==> Followed(old(parts), parts, numParts, Origin() - old(Origin()), addr + end)
      ensures ok ==> NeedCompressedAlpha() == old(NeedCompressedAlpha())
      ensures ok && NeedCompressedAlpha() ==> alphaData.value - Origin() == old(alphaData.value - Origin())
      ensures ok && hasDec && old(part0).Some? ==> part0 == Some(old(part0).value.Moved(Origin() - old(Origin())))
      ensures ok && hasDec && isLossless ==> vp8l == Some(Reader(addr + start, addr + end))
      ensures !ok ==> unchanged(this)
    {
      hide Within, Followed, LastReaches;
      var oldStart := if buf == null then 0 else addr + start;
      ghost var oldLo, oldHi := addr + start, addr + end;
      if buf != null && data.Length < buf.Length {
        return false;
      }
      buf, addr, end := data, newAddr, data.Length;
      stream := data[..];
      FollowMove(addr + start - oldStart, oldLo, oldHi);
      return true;
    }

    // ---- headers and partitions ----

    /** mem.start += n: the decoder is done with the next n bytes. */
    method Advance(n: nat)
      requires Holds() && start + n <= end
      modifies `start
      ensures Holds() && start == old(start) + n && Unconsumed() == old(Unconsumed())[n..]
      ensures old(AlphaKept()) ==> AlphaKept()
    {
      start := start + n;
    }

    /** The new decoder of DecodeWebPHeaders, with the alpha chunk it was given. */
    method NewDecoder(lossless: bool, alphaAt: Option<nat>, size: nat)
      requires !hasDec && (alphaAt.Some? ==> alphaAt.value + size <= start)
      modifies `hasDec, `isLossless, `alphaData, `alphaSize, `isAlphaDecoded, `alphaReader
      ensures hasDec && isLossless == lossless && AlphaKept()
      ensures NeedCompressedAlpha() <==> !lossless && alphaAt.Some?
      ensures NeedCompressedAlpha() ==> alphaData.value == addr + alphaAt.value
    {
      hasDec, isLossless := true, lossless;
      isAlphaDecoded, alphaReader := false, None;
      if !lossless {
        alphaData := if alphaAt.Some? then Some(addr + alphaAt.value) else None;
        alphaSize := size;
      }
    }

    /** DecodeWebPHeaders once WebPParseHeaders has found the VP8 or VP8L chunk
        `offset` bytes into the unconsumed data, the alpha chunk before it. */
    method TakeHeaders(lossless: bool, offset: nat, alphaAt: Option<nat>, size: nat)
      requires Valid() && !hasDec && start < end && offset <= end - start
      requires alphaAt.Some? ==> alphaAt.value + size <= offset
      modifies `hasDec, `isLossless, `alphaData, `alphaSize, `isAlphaDecoded, `alphaReader, `start
      ensures Valid() && hasDec && isLossless == lossless
      ensures start == old(start) + offset && Unconsumed() == old(Unconsumed())[offset..]
      ensures NeedCompressedAlpha() <==> !lossless && alphaAt.Some?
      ensures NeedCompressedAlpha() ==> alphaData.value - Origin() == old(base + start) + alphaAt.value
    {
      hide Holds, MemBuffer.Cursors, MemBuffer.Unconsumed, MemBuffer.AlphaKept, MemBuffer.NeedCompressedAlpha;
      Ends();
      NoDecoderYet();
      var from := start;
      Advance(offset);
      NewDecoder(lossless, if alphaAt.Some? then Some(from + alphaAt.value) else None, size);
      NoReadersYet();
    }

    lemma NoDecoderYet()
      requires Cursors() && !hasDec
      ensures 1 <= numParts <= MAX_NUM_PARTITIONS && parts == NO_PARTS && part0 == None
    {
    }

    lemma NoReadersYet()
      requires 1 <= numParts <= MAX_NUM_PARTITIONS && parts == NO_PARTS && part0 == None && AlphaKept() && buf != null
      ensures Cursors()
    {
      NoPartsWithin(numParts, addr + start, addr + end);
    }

    /** ParsePartitions on the bytes `data` that lie at address `at`. */
    method ParsePartitions(data: seq<byte>, at: int, n: nat) returns (status: Status)
      requires 1 <= n <= MAX_NUM_PARTITIONS
      modifies `numParts, `parts
      ensures numParts == n
      ensures status == NotEnoughData <==> |data| < 3 * (n - 1)
      ensures status == NotEnoughData ==> parts == old(parts)
      ensures status != NotEnoughData ==>
                && AreThePartitions(parts, data, n, at, n)
                && forall p :: n <= p < |parts| ==> parts[p] == old(parts)[p]
      ensures status == Ok <==> 3 * (n - 1) <= |data| && PartStart(data, n, n - 1) < |data|
      ensures status == Ok || status == Suspended || status == NotEnoughData
    {
      hide PartStart, AreThePartitions, SizeField, Init;
      numParts := n;
      if |data| < 3 * (n - 1) {
        return NotEnoughData;
      }
      NoPartitionsYet(parts, data, n, at);
      var partStart := 3 * (n - 1);
      var sizeLeft := |data| - partStart;
      BoundOfFirst(data, n);
      var p := 0;
      while p < n - 1
        modifies `parts
        invariant p <= n - 1
        invariant partStart == Bound(data, n, p) && sizeLeft == |data| - partStart
        invariant AreThePartitions(parts, data, n, at, p)
        invariant forall q :: n <= q < |parts| ==> parts[q] == old(parts)[q]
      {
        var size := SizeField(data, p);
        BoundStep(data, n, p);
        if size > sizeLeft {
          size := sizeLeft;
        }
        OnePartitionMore(parts, data, n, at, p);
        parts := parts[p := Some(Init(at + partStart, size))];
        partStart := partStart + size;
        sizeLeft := sizeLeft - size;
        p := p + 1;
      }
      BoundsGrow(data, n, n - 1);
      OnePartitionMore(parts, data, n, at, n - 1);
      parts := parts[n - 1 := Some(Init(at + partStart, sizeLeft))];
      return if partStart < |data| then Ok else Suspended;
    }

    /** The start of VP8GetHeaders: where partition #0 lies in the data, if the frame
        header is sound and all of the partition is there. */
    static method FrameHeader(d: seq<byte>) returns (status: Status, at: nat, size: nat, keyFrame: bool)
      ensures status == Ok ==> 4 <= |d| && size == FirstPartSize(d) && at + size <= |d|
      ensures status == Ok ==> at == if keyFrame then 10 else 3
      ensures status == Ok && keyFrame <==> KeyFrameThere(d)
      ensures status == NotEnoughData <==>
                |d| < 4 ||
                var bits := LittleEndian24(d, 0);
                && bits / 2 % 8 <= 3 && bits / 16 % 2 == 1
                && if bits % 2 == 1 then bits / 32 > |d| - 3
                   else |d| < 10 || (d[3] == 0x9d && d[4] == 0x01 && d[5] == 0x2a && bits / 32 > |d| - 10)
      ensures status == UnsupportedFeature <==>
                |d| >= 4 && var bits := LittleEndian24(d, 0); bits / 2 % 8 <= 3 && bits / 16 % 2 == 0
      ensures status == BitstreamError <==>
                |d| >= 4 &&
                var bits := LittleEndian24(d, 0);
                || bits / 2 % 8 > 3
                || (bits / 16 % 2 == 1 && bits % 2 == 0 && |d| >= 10 && !(d[3] == 0x9d && d[4] == 0x01 && d[5] == 0x2a))
      ensures status == Ok || status == NotEnoughData || status == BitstreamError || status == UnsupportedFeature
    {
      hide LittleEndian24, KeyFrameThere;
      at, size, keyFrame := 0, 0, false;
      KeyFrameIs(d);
      if |d| < 4 {
        return NotEnoughData, at, size, keyFrame;
      }
      var bits := LittleEndian24(d, 0);
      keyFrame := bits % 2 == 0;
      if bits / 2 % 8 > 3 {
        return BitstreamError, at, size, keyFrame;
      }
      if bits / 16 % 2 == 0 {
        return UnsupportedFeature, at, size, keyFrame;
      }
      at, size := 3, bits / 32;
      if keyFrame {
        if |d| - at < 7 {
          return NotEnoughData, at, size, keyFrame;
        }
        if !(d[3] == 0x9d && d[4] == 0x01 && d[5] == 0x2a) {
          return BitstreamError, at, size, keyFrame;
        }
        at := 10;
      }
      return if size > |d| - at then NotEnoughData else Ok, at, size, keyFrame;
    }

    /** A key frame with a sound header, all of whose partition #0 is there. */
    static predicate KeyFrameThere(d: seq<byte>) {
      && |d| >= 10
      && var bits := d[0] as int + d[1] as int * 0x100 + d[2] as int * 0x1_0000;
         && bits % 2 == 0 && bits / 2 % 8 <= 3 && bits / 16 % 2 == 1
         && d[3] == 0x9d && d[4] == 0x01 && d[5] == 0x2a && 10 + bits / 32 <= |d|
    }

    static lemma KeyFrameIs(d: seq<byte>)
      ensures KeyFrameThere(d) <==>
                |d| >= 10 &&
                var bits := LittleEndian24(d, 0);
                && bits % 2 == 0 && bits / 2 % 8 <= 3 && bits / 16 % 2 == 1
                && d[3] == 0x9d && d[4] == 0x01 && d[5] == 0x2a && bits / 32 <= |d| - 10
    {
    }

    /** The sizes of the n partitions behind partition #0 are there, and some of the last. */
    static predicate PartitionsThere(d: seq<byte>, n: nat)
      requires |d| >= 3
    {
      var first := 10 + FirstPartSize(d);
      && 1 <= n && first + 3 * (n - 1) <= |d| && first + PartStart(d[first..], n, n - 1) < |d|
    }

    /** VP8GetHeaders, as far as the input is concerned: the frame header, then
        dec->br on partition #0 and the partitions behind it. What the boolean
        decoder makes of partition #0 is a parameter: whether its headers are sound,
        how many partitions they announce, how far the reader got. */
    method GetHeaders(headersOk: bool, n: nat, seen: nat) returns (status: Status)
      requires Valid() && hasDec && !isLossless && 1 <= n <= MAX_NUM_PARTITIONS
      requires parts == NO_PARTS || numParts == n
      modifies `part0, `numParts, `parts
      ensures Valid()
      ensures (parts == old(parts) || numParts == n) && (status == Ok ==> numParts == n)
      ensures status == Ok <==> headersOk && KeyFrameThere(buf[start..end]) && PartitionsThere(buf[start..end], n)
      ensures status == Ok ==>
                var d := buf[start..end];
                var size := FirstPartSize(d);
                && part0.Some? && part0.value.end == addr + start + 10 + size <= addr + end
                && part0.value.buf == addr + start + 10 + Smaller((if size >= 8 then 7 else if size >= 1 then 1 else 0) + seen, size)
                && Within(parts, n, part0.value.end, addr + end)
                && AtPartitions(base + start + 10 + size)
                && forall p :: 0 <= p < n ==>
                     var lo, hi := Bound(d[10 + size..], n, p), Bound(d[10 + size..], n, p + 1);
                     Offset(p) == base + start + 10 + size + lo + if hi >= lo + 8 then 7 else if hi >= lo + 1 then 1 else 0
    {
      hide Holds, MemBuffer.Cursors, Within, PartStart, LittleEndian24, MemBuffer.AtPartitions, KeyFrameThere;
      DecoderHasData();
      var d := buf[start..end];
      var at, size, keyFrame;
      status, at, size, keyFrame := FrameHeader(d);
      if status != Ok {
        return;
      }
      var first := at + size;
      OpenPart0(at, size, seen);
      if !headersOk {
        return BitstreamError;
      }
      status := Partitions(d, first, n);
      if status == Ok && !keyFrame {
        return UnsupportedFeature;
      }
    }

    /** VP8InitBitReader on partition #0, and the bits of it that are read. */
    method OpenPart0(at: nat, size: nat, seen: nat)
      requires Valid() && hasDec && !isLossless && at + size <= end - start
      modifies `part0
      ensures Valid() && part0.Some? && part0.value.end == addr + start + at + size <= addr + end
      ensures part0.value.buf == addr + start + at + Smaller((if size >= 8 then 7 else if size >= 1 then 1 else 0) + seen, size)
    {
      hide Holds, Within, LastReaches, Init, MemBuffer.AlphaKept;
      Ends();
      var r := Init(addr + start + at, size);
      InitLoads(addr + start + at, size);
      part0 := Some(Reader(if r.buf + seen <= r.end then r.buf + seen else r.end, r.end));
    }

    /** Where the reader of partition p stands at first, counted from the partition
        sizes on: behind seven bytes of the partition, or one, or at its end. */
    ghost function FirstRead(data: seq<byte>, n: nat, p: nat): nat
      requires 1 <= n && p < n && 3 * (n - 1) <= |data|
    {
      var lo, hi := Bound(data, n, p), Bound(data, n, p + 1);
      lo + if hi >= lo + 8 then 7 else if hi >= lo + 1 then 1 else 0
    }

    lemma OffsetsAtFirst(d: seq<byte>, first: nat, n: nat)
      requires Holds() && first <= |d| && 1 <= n <= MAX_NUM_PARTITIONS && 3 * (n - 1) <= |d| - first
      requires AreThePartitions(parts, d[first..], n, addr + start + first, n)
      ensures forall p :: 0 <= p < n ==> Offset(p) == base + start + first + FirstRead(d[first..], n, p)
    {
      hide Init;
      forall p | 0 <= p < n ensures Offset(p) == base + start + first + FirstRead(d[first..], n, p) {
        InitLoads(addr + start + first + Bound(d[first..], n, p), Bound(d[first..], n, p + 1) - Bound(d[first..], n, p));
      }
    }

    static function Smaller(a: nat, b: nat): nat { if a < b then a else b }

    /** The readers stand in the partitions of the stream that begin at offset `at`. */
    ghost predicate AtPartitions(at: nat)
      reads `parts, `numParts, `stream, `addr, `base
    {
      at <= |stream| && InTheirPartitions(parts, numParts, stream[at..], Origin() + at)
    }

    lemma ParsedAtPartitions(d: seq<byte>, first: nat, n: nat)
      requires Holds() && buf != null && d == buf[start..end] && first <= |d| && n == numParts
      requires 1 <= n <= MAX_NUM_PARTITIONS && 3 * (n - 1) <= |d| - first && PartStart(d[first..], n, n - 1) < |d| - first
      requires AreThePartitions(parts, d[first..], n, addr + start + first, n)
      ensures AtPartitions(base + start + first)
    {
      hide AreThePartitions, PartStart, InTheirPartitions;
      UnconsumedIsBuffer();
      assert d[first..] == stream[base + start + first..];
      ParsedInTheirPartitions(parts, n, d[first..], addr + start + first);
    }

    /** ParsePartitions behind partition #0. */
    method Partitions(d: seq<byte>, first: nat, n: nat) returns (status: Status)
      requires Valid() && hasDec && !isLossless && d == buf[start..end] && first <= |d| && 1 <= n <= MAX_NUM_PARTITIONS
      requires parts == NO_PARTS || numParts == n
      modifies `numParts, `parts
      ensures Valid() && numParts == n
      ensures status == Ok ==>
                && 3 * (n - 1) <= |d| - first && PartStart(d[first..], n, n - 1) < |d| - first
                && Within(parts, n, addr + start + first, addr + end)
                && AtPartitions(base + start + first)
                && forall p :: 0 <= p < n ==> Offset(p) == base + start + first + FirstRead(d[first..], n, p)
      ensures status == Ok <==> 3 * (n - 1) <= |d| - first && PartStart(d[first..], n, n - 1) < |d| - first
      ensures status == Ok || status == Suspended || status == NotEnoughData
    {
      hide Holds, Within, LastReaches, AreThePartitions, PartStart, Init, InTheirPartitions, FirstRead;
      Ends();
      status := ParsePartitions(d[first..], addr + start + first, n);
      if status == Ok {
        ParsedAtPartitions(d, first, n);
        OffsetsAtFirst(d, first, n);
      }
      if status != NotEnoughData {
        PartitionsWithin(parts, old(parts), old(numParts), d[first..], n, addr + start + first, addr + start, addr + end);
      } else {
        NoMoreParts(parts, old(numParts), n, addr + start, addr + end);
      }
    }

    static function FirstPartSize(d: seq<byte>): nat
      requires 3 <= |d|
    {
      LittleEndian24(d, 0) / 32
    }

    static lemma NoMoreParts(parts: Readers, m: nat, n: nat, lo: int, hi: int)
      requires Within(parts, m, lo, hi) && LastReaches(parts, m, hi) && (parts == NO_PARTS || m == n) && 1 <= n <= MAX_NUM_PARTITIONS
      ensures Within(parts, n, lo, hi) && LastReaches(parts, n, hi)
    {
    }

    /** Parsed partitions stay inside the data they were parsed from. */
    static lemma PartitionsWithin(parts: Readers, before: Readers, m: nat, data: seq<byte>, n: nat, at: int, lo: int, hi: int)
      requires 1 <= n <= MAX_NUM_PARTITIONS && 3 * (n - 1) <= |data| && lo <= at && at + |data| == hi
      requires AreThePartitions(parts, data, n, at, n)
      requires before == NO_PARTS || m == n
      requires Within(before, m, lo, hi)
      requires forall p :: n <= p < |parts| ==> parts[p] == before[p]
      ensures Within(parts, n, at, hi)
      ensures Within(parts, n, lo, hi) && LastReaches(parts, n, hi)
    {
      forall p | n <= p < |parts|
        ensures parts[p].None?
      {
        assert parts[p] == before[p];
      }
      forall p | 0 <= p < n
        ensures parts[p].Some? && at <= parts[p].value.buf <= parts[p].value.end <= hi
      {
        var lower, upper := Bound(data, n, p), Bound(data, n, p + 1);
        InitLoads(at + lower, upper - lower);
      }
      assert parts[n - 1].value.end == at + Bound(data, n, n);
    }

    /** CopyParts0Data: partition #0 moves to memory of its own in append mode, so
        that dec->br, which reads it during the whole decoding, needs no remapping. */
    method CopyParts0Data(allocOk: bool) returns (status: Status)
      requires Valid() && hasDec && !isLossless && mode != Unset && part0.Some? && part0Copy == None
      requires addr + start <= part0.value.buf <= part0.value.end <= addr + end
      requires Within(parts, numParts, part0.value.end, addr + end)
      modifies `part0, `part0Copy, `start
      ensures Valid()
      ensures status == BitstreamError <==> old(part0).value.buf == old(part0).value.end
      ensures status == OutOfMemory <==> old(part0).value.buf < old(part0).value.end && mode == Append && !allocOk
      ensures status == Ok || status == BitstreamError || status == OutOfMemory
      ensures status != Ok ==> unchanged(this)
      ensures status == Ok ==> start == old(start) + old(part0).value.end - old(part0).value.buf
      ensures status == Ok && mode == Map ==> part0 == old(part0)
      ensures status == Ok && mode == Append ==>
                part0Copy == Some(stream[old(part0).value.buf - Origin()..old(part0).value.end - Origin()])
    {
      hide Holds, Within, MemBuffer.Cursors;
      var size := part0.value.end - part0.value.buf;
      if size == 0 {
        return BitstreamError;
      }
      if mode == Append && !allocOk {
        return OutOfMemory;
      }
      CursorsBehind(size);
      if mode == Append {
        GrabPart0(size);
      }
      ReleasePart0(size);
      return Ok;
    }

    lemma DecoderHasData()
      requires Valid() && hasDec
      ensures buf != null && start <= end <= buf.Length
    {
    }

    /** DecodePartition0, as far as the input is concerned. A sound file is accepted
        exactly if the reader has left something of partition #0. */
    method TakePartition0(headersOk: bool, n: nat, seen: nat, allocOk: bool) returns (status: Status)
      requires Valid() && hasDec && !isLossless && mode != Unset && 1 <= n <= MAX_NUM_PARTITIONS && part0Copy == None
      requires parts == NO_PARTS || numParts == n
      modifies `part0, `numParts, `parts, `part0Copy, `start
      ensures Valid()
      ensures status == Ok <==>
                && headersOk && KeyFrameThere(old(buf[start..end])) && PartitionsThere(old(buf[start..end]), n)
                && var size := FirstPartSize(old(buf[start..end]));
                   (if size >= 8 then 7 else if size >= 1 then 1 else 0) + seen < size && (mode == Append ==> allocOk)
      ensures status == Ok ==> numParts == n && AtPartitions(old(base + start) + 10 + FirstPartSize(old(buf[start..end])))
    {
      hide Holds, Within, MemBuffer.Cursors, KeyFrameThere, MemBuffer.PartitionsThere, FirstPartSize, Bound;
      DecoderHasData();
      ghost var d := buf[start..end];
      status := GetHeaders(headersOk, n, seen);
      assert buf[start..end] == d;
      if status == Ok {
        status := CopyParts0Data(allocOk);
      }
    }

    /** mem.start moves past partition #0. */
    method ReleasePart0(size: nat)
      requires Holds() && AlphaKept() && hasDec && !isLossless && buf != null && start + size <= end
      requires 1 <= numParts <= MAX_NUM_PARTITIONS
      requires Within(parts, numParts, addr + start + size, addr + end) && LastReaches(parts, numParts, addr + end)
      requires mode == Map && part0.Some? ==> addr <= part0.value.buf <= part0.value.end <= addr + end
      modifies `start
      ensures Valid() && start == old(start) + size
    {
      hide Holds, Within, LastReaches, MemBuffer.AlphaKept, MemBuffer.Unconsumed, MemBuffer.Cursors;
      Advance(size);
      PartsOnly();
    }

    /** Readers inside the unconsumed data and the alpha chunk before it. */
    lemma PartsOnly()
      requires 1 <= numParts <= MAX_NUM_PARTITIONS && hasDec && !isLossless && buf != null && AlphaKept()
      requires Within(parts, numParts, addr + start, addr + end) && LastReaches(parts, numParts, addr + end)
      requires mode == Map && part0.Some? ==> addr <= part0.value.buf <= part0.value.end <= addr + end
      ensures Cursors()
    {
    }

    /** The copy of partition #0, which dec->br reads from then on. */
    method GrabPart0(size: nat)
      requires Holds() && mode == Append && part0.Some? && buf != null
      requires addr <= part0.value.buf && part0.value.end <= addr + end && size == part0.value.end - part0.value.buf
      modifies `part0, `part0Copy
      ensures part0 == None
      ensures part0Copy == Some(stream[old(part0).value.buf - Origin()..old(part0).value.end - Origin()])
    {
      hide Holds;
      Ends();
      var from := part0.value.buf - addr;
      part0Copy := Some(buf[from..from + size]);
      SliceOfHeld(from, from + size);
      part0 := None;
    }

    /** Consuming bytes in front of every live reader leaves all of them live, also
        when partition #0 is read elsewhere. */
    lemma CursorsBehind(size: nat)
      requires Cursors() && part0.Some? && hasDec && !isLossless && addr + start + size <= part0.value.end
      requires Within(parts, numParts, part0.value.end, addr + end)
      ensures buf != null && AlphaKept() && 1 <= numParts <= MAX_NUM_PARTITIONS
      ensures Within(parts, numParts, addr + start + size, addr + end) && LastReaches(parts, numParts, addr + end)
    {
      Narrowed(parts, numParts, part0.value.end, addr + start + size, addr + end);
    }

    lemma SliceOfHeld(i: nat, j: nat)
      requires Holds() && buf != null && i <= j <= end
      ensures buf[i..j] == stream[base + i..base + j]
    {
      var held, part := buf[..end], buf[i..j];
      forall k | 0 <= k < j - i
        ensures part[k] == stream[base + i..base + j][k]
      {
        assert part[k] == held[i + k] == stream[base..][i + k];
      }
    }

    static lemma Narrowed(parts: Readers, n: nat, lo: int, low: int, hi: int)
      requires Within(parts, n, lo, hi) && low <= lo
      ensures Within(parts, n, low, hi)
    {
    }

    // ---- the alpha chunk ----

    /** Whether ALPHInit accepts a header byte: compression method, pre-processing and
        reserved bits; every filter is known. */
    static predicate SoundAlphaHeader(header: byte) {
      header % 4 <= 1 && header / 16 % 4 <= 1 && header / 64 == 0
    }

    /** In all: the headers 0, 1, 4, 5, 8, 9, 12, 13 and these with the bit for reduced
        levels. */
    static lemma AlphaHeaders(header: byte)
      ensures SoundAlphaHeader(header) <==> header < 32 && header % 4 <= 1
    {
      assert header / 16 / 4 == header / 64;
    }

    /** ALPHInit: the header byte is that of the stream at the place of the chunk; raw
        alpha needs a byte for each of the `pixels`, losslessly compressed alpha gets
        a reader behind the header. `headerOk` is VP8LDecodeAlphaHeader's answer. */
    method StartAlpha(pixels: nat, headerOk: bool) returns (ok: bool)
      requires Valid() && NeedCompressedAlpha() && alphaReader == None
      modifies `alphaReader
      ensures Valid()
      ensures ok ==> 2 <= alphaSize && 0 <= alphaData.value - Origin() < |stream|
      ensures ok ==>
                var header := stream[alphaData.value - Origin()];
                && SoundAlphaHeader(header) && (if header % 4 == 0 then pixels <= alphaSize - 1 else headerOk)
                && alphaReader == if header % 4 == 0 then None else Some(Reader(alphaData.value + 1, alphaData.value + alphaSize))
      ensures !ok && 2 <= alphaSize ==>
                && 0 <= alphaData.value - Origin() < |stream|
                && var header := stream[alphaData.value - Origin()];
                   SoundAlphaHeader(header) ==> if header % 4 == 0 then alphaSize - 1 < pixels else !headerOk
      ensures !ok ==> alphaReader == None
    {
      hide Within, LastReaches;
      if alphaSize <= 1 {
        return false;
      }
      AlphaEnds();
      var at := alphaData.value - addr;
      var header := buf[at];
      assert header == buf[..end][at] == stream[base..][at];
      if !SoundAlphaHeader(header) {
        return false;
      }
      if header % 4 == 0 {
        return alphaSize - 1 >= pixels;
      }
      if headerOk {
        alphaReader := Some(Reader(alphaData.value + 1, alphaData.value + alphaSize));
      }
      return headerOk;
    }

    /** The last alpha row is decoded: the chunk need not be kept any longer. */
    method FinishAlpha()
      requires Valid()
      modifies `isAlphaDecoded, `alphaReader
      ensures Valid() && !NeedCompressedAlpha()
    {
      hide Holds, Within, LastReaches;
      isAlphaDecoded, alphaReader := true, None;
    }

    // ---- token partitions ----

    /** One macroblock of DecodeRemaining: VP8DecodeMB moves the token reader of the row,
        that of partition p, to `next`; when it ran out of data RestoreContext puts the
        reader back, and otherwise, with a single partition, the bytes read are released. */
    method DecodeMB(p: nat, next: int, ok: bool)
      requires Valid() && hasDec && !isLossless && p < numParts
      requires parts[p].Some? && parts[p].value.buf <= next <= parts[p].value.end
      modifies `parts, `start
      ensures Valid()
      ensures !ok ==> unchanged(this)
      ensures ok ==> parts == old(parts)[p := Some(Reader(next, old(parts)[p].value.end))]
      ensures ok ==> addr + start == if numParts == 1 then next else addr + old(start)
      ensures base + start >= old(base + start) && old(Unconsumed())[start - old(start)..] == Unconsumed()
    {
      var tokenBr := parts[p].value;
      parts := parts[p := Some(tokenBr.(buf := next))];
      if !ok {
        parts := parts[p := Some(tokenBr)];
        assert parts == old(parts);
        return;
      }
      if numParts == 1 {
        start := parts[p].value.buf - addr;
      }
    }

    // ---- appends mixed with decoding ----

    /** VP8DecodeMB and RestoreContext: `count` bytes of partition p are read, or nothing
        when they are not all there. */
    method Token(p: nat, count: nat) returns (ok: bool)
      requires Valid() && hasDec && !isLossless && p < numParts && p < |parts| && parts[p].Some?
      modifies `parts, `start
      ensures Valid()
      ensures ok <==> old(parts)[p].value.buf + count <= old(parts)[p].value.end
      ensures parts == if ok then old(parts)[p := Some(Reader(old(parts)[p].value.buf + count, old(parts)[p].value.end))] else old(parts)
      ensures base + start >= old(base + start)
    {
      hide Holds, MemBuffer.Cursors, MemBuffer.Unconsumed;
      PartsAreThere();
      var reader := parts[p].value;
      ok := reader.buf + count <= reader.end;
      ReaderIsForward(p);
      var next := if ok then reader.buf + count else reader.end;
      DecodeMB(p, next, ok);
    }

    lemma PartsAreThere()
      requires Cursors()
      ensures 1 <= numParts <= MAX_NUM_PARTITIONS
    {
    }

    lemma ReaderIsForward(p: nat)
      requires Cursors() && p < numParts && parts[p].Some?
      ensures parts[p].value.buf <= parts[p].value.end
    {
    }

    /** An append that keeps every reader in its partition. */
    method AppendPiece(piece: Piece, ghost at: nat) returns (ok: bool)
      requires Valid() && mode == Append && hasDec && !isLossless && AtPartitions(at)
      modifies `buf, `addr, `start, `end, `base, `stream, `parts, `part0, `vp8l, `alphaData, `alphaReader, buf
      ensures Valid() && AtPartitions(at) && (buf == old(buf) || fresh(buf))
      ensures stream == (if ok then old(stream) + piece.data else old(stream)) && base + start == old(base + start)
      ensures forall p :: 0 <= p < numParts ==> Offset(p) == old(Offset(p))
      ensures piece.mallocOk && |piece.data| <= MAX_CHUNK_PAYLOAD ==> ok
      ensures NeedCompressedAlpha() == old(NeedCompressedAlpha())
      ensures NeedCompressedAlpha() ==> alphaData.value - Origin() == old(alphaData.value - Origin())
    {
      hide Holds, MemBuffer.Cursors, Followed, MemBuffer.Unconsumed, Bound, PartStart;
      ok := AppendToMemBuffer(piece.data, piece.newAddr, piece.mallocOk);
      if ok {
        Ends();
        OffsetsFollow(old(parts), parts, numParts, Origin() - old(Origin()), addr + end);
        SuffixGrows(old(stream), piece.data, at);
        AppendKeepsPartitions(old(parts), parts, numParts, old(stream)[at..], piece.data, old(Origin()) + at, Origin() - old(Origin()));
      }
    }

    /** One event of a run. */
    method Handle(event: Event, ghost at: nat) returns (ok: bool)
      requires Valid() && mode == Append && hasDec && !isLossless && AtPartitions(at)
      modifies `buf, `addr, `start, `end, `base, `stream, `parts, `part0, `vp8l, `alphaData, `alphaReader, `isAlphaDecoded, buf
      ensures Valid() && AtPartitions(at) && (buf == old(buf) || fresh(buf))
      ensures stream == old(stream) + Fed([event], [ok]) && base + start >= old(base + start)
      ensures forall p :: 0 <= p < numParts ==> Offset(p) == old(Offset(p)) + ReadOf(event, ok, numParts, p)
      ensures NeedCompressedAlpha() <==> old(NeedCompressedAlpha()) && event != AlphaDone
      ensures NeedCompressedAlpha() ==> alphaData.value - Origin() == old(alphaData.value - Origin())
      ensures ok <== event.Data? && event.piece.mallocOk && |event.piece.data| <= MAX_CHUNK_PAYLOAD
      ensures event.Row? ==>
                (ok <==> old(Offset(event.row % numParts)) + event.count <= EndOf(old(stream), at, numParts, event.row % numParts))
    {
      hide Holds, MemBuffer.Cursors, Bound, PartStart, EndOf, InTheirPartitions;
      FedOne(event, true);
      FedOne(event, false);
      match event {
        case Data(piece) =>
          ok := AppendPiece(piece, at);
          assert !ok ==> stream + [] == stream;
        case Row(row, count) =>
          PartsAreThere();
          var p := row % numParts;
          EndOfReader(at, p);
          ok := Token(p, count);
          if ok {
            ReadKeepsPartitions(old(parts), numParts, stream[at..], Origin() + at, p, count);
          }
          assert stream + [] == stream;
        case AlphaDone =>
          FinishAlpha();
          ok := true;
          assert stream + [] == stream;
      }
    }

    lemma SizesAreThere(at: nat)
      requires AtPartitions(at)
      ensures 1 <= numParts && at <= |stream| && 3 * (numParts - 1) <= |stream| - at
    {
    }

    lemma EndOfReader(at: nat, p: nat)
      requires AtPartitions(at) && p < numParts
      ensures parts[p].Some? && parts[p].value.end - Origin() == EndOf(stream, at, numParts, p)
    {
      hide PartStart;
      var data := stream[at..];
      if p + 1 < numParts {
        PartStartsGrow(data, numParts, p + 1, numParts - 1);
        assert Bound(data, numParts, p + 1) == PartStart(data, numParts, p + 1);
      }
      assert parts[p].value.end == Origin() + at + Bound(data, numParts, p + 1);
    }

    /** Stream offset of the reader of partition p. */
    ghost function Offset(p: nat): int
      requires p < |parts|
      reads `parts, `addr, `base
    {
      if parts[p].Some? then parts[p].value.buf - Origin() else 0
    }

    ghost function Offsets(): (s: seq<int>)
      reads `parts, `addr, `base
      ensures |s| == MAX_NUM_PARTITIONS && forall p :: 0 <= p < |s| ==> s[p] == Offset(p)
    {
      var ps, o := parts, Origin();
      seq(MAX_NUM_PARTITIONS, p requires 0 <= p < MAX_NUM_PARTITIONS => if ps[p].Some? then ps[p].value.buf - o else 0)
    }

    static lemma OffsetsFollow(before: Readers, after: Readers, n: nat, offset: int, last: int)
      requires n <= MAX_NUM_PARTITIONS && Followed(before, after, n, offset, last) && forall p :: 0 <= p < n ==> before[p].Some?
      ensures forall p :: 0 <= p < n ==> after[p].Some? && after[p].value.buf == before[p].value.buf + offset
    {
    }

    /** Any run of appends mixed with macroblocks, in which alpha may be finished: what is
        kept is always the stream's tail, and each partition reader stands exactly as
        many bytes further in the stream as were read of its partition, however often
        the buffer moved, and inside its partition of all the data supplied. A macroblock
        is read exactly when its bytes are there: when they end where the next partition
        starts or before, or, in the last partition, with the data supplied so far. */
    method RunAll(events: seq<Event>, ghost at: nat) returns (done: seq<bool>)
      requires Valid() && mode == Append && hasDec && !isLossless && AtPartitions(at)
      modifies `buf, `addr, `start, `end, `base, `stream, `parts, `part0, `vp8l, `alphaData, `alphaReader, `isAlphaDecoded, buf
      ensures Valid() && AtPartitions(at) && |done| == |events|
      ensures stream == old(stream) + Fed(events, done) && base + start >= old(base + start)
      ensures forall p :: 0 <= p < numParts ==> Offset(p) == old(Offset(p)) + ReadOfAll(events, done, numParts, p)
      ensures forall i :: 0 <= i < |events| && events[i].Row? ==>
                var p := events[i].row % numParts;
                done[i] <==> old(Offset(p)) + ReadOfAll(events[..i], done[..i], numParts, p) + events[i].count
                             <= if p + 1 == numParts then |old(stream)| + |Fed(events[..i], done[..i])| else EndOf(old(stream), at, numParts, p)
      ensures forall i :: 0 <= i < |events| && events[i].Data? ==>
                events[i].piece.mallocOk && |events[i].piece.data| <= MAX_CHUNK_PAYLOAD ==> done[i]
      ensures NeedCompressedAlpha() <==> old(NeedCompressedAlpha()) && AlphaDone !in events
      ensures NeedCompressedAlpha() ==> alphaData.value - Origin() == old(alphaData.value - Origin())
    {
      hide Holds, MemBuffer.Cursors, ReadOf, InTheirPartitions, EndOf, Account, Fed;
      done := [];
      PartsAreThere();
      SizesAreThere(at);
      ghost var first := Offsets();
      AccountOfNothing(events, first, stream, at, numParts);
      for i := 0 to |events|
        modifies `buf, `addr, `start, `end, `base, `stream, `parts, `part0, `vp8l, `alphaData, `alphaReader, `isAlphaDecoded, buf
        invariant Valid() && AtPartitions(at) && |done| == i && (buf == old(buf) || fresh(buf))
        invariant Account(events, done, first, Offsets(), old(stream), stream, at, numParts) && base + start >= old(base + start)
        invariant NeedCompressedAlpha() <==> old(NeedCompressedAlpha()) && AlphaDone !in events[..i]
        invariant NeedCompressedAlpha() ==> alphaData.value - Origin() == old(alphaData.value - Origin())
      {
        ghost var before, offsets := stream, Offsets();
        var ok := Handle(events[i], at);
        AccountGrows(events, done, ok, first, offsets, Offsets(), old(stream), before, stream, at, numParts);
        done := done + [ok];
        assert events[..i + 1] == events[..i] + [events[i]];
      }
      assert events[..|events|] == events;
      AccountOfAll(events, done, first, Offsets(), old(stream), stream, at, numParts);
    }

    /** What holds after the first |done| events: the data has grown from s0 to s, each
        reader has moved from first[p] to now[p], and each answer was right. */
    static ghost predicate Account(events: seq<Event>, done: seq<bool>, first: seq<int>, now: seq<int>,
                                   s0: seq<byte>, s: seq<byte>, at: nat, n: nat)
    {
      && |done| <= |events| && 1 <= n <= |first| && n <= |now| && at <= |s0| && 3 * (n - 1) <= |s0| - at
      && s == s0 + Fed(events[..|done|], done)
      && (forall p :: 0 <= p < n ==> now[p] == first[p] + ReadOfAll(events[..|done|], done, n, p))
      && forall j :: 0 <= j < |done| ==> Answered(events, done, j, first, s0, at, n)
    }

    static lemma AccountOfNothing(events: seq<Event>, first: seq<int>, s: seq<byte>, at: nat, n: nat)
      requires 1 <= n <= |first| && at <= |s| && 3 * (n - 1) <= |s| - at
      ensures Account(events, [], first, first, s, s, at, n)
    {
      NothingDone(s, events, n);
    }

    static lemma AccountGrows(events: seq<Event>, done: seq<bool>, ok: bool, first: seq<int>, before: seq<int>, now: seq<int>,
                              s0: seq<byte>, s1: seq<byte>, s: seq<byte>, at: nat, n: nat)
      requires |done| < |events| && Account(events, done, first, before, s0, s1, at, n) && n <= |now|
      requires s == s1 + Fed([events[|done|]], [ok])
      requires forall p :: 0 <= p < n ==> now[p] == before[p] + ReadOf(events[|done|], ok, n, p)
      requires events[|done|].Row? ==>
                 var p := events[|done|].row % n;
                 ok <==> before[p] + events[|done|].count <= EndOf(s1, at, n, p)
      requires events[|done|].Data? && events[|done|].piece.mallocOk && |events[|done|].piece.data| <= MAX_CHUNK_PAYLOAD ==> ok
      ensures Account(events, done + [ok], first, now, s0, s, at, n)
    {
      hide Fed, ReadOf, EndOf, ReadOfAll;
      var i := |done|;
      OneMoreDone(s0, events, done, i, ok, n);
      EndsOfGrown(s0, Fed(events[..i], done), at, n);
      assert (done + [ok])[..i] == done;
      AnsweredBefore(events, done, ok, first, s0, at, n);
    }

    static lemma AccountOfAll(events: seq<Event>, done: seq<bool>, first: seq<int>, now: seq<int>,
                              s0: seq<byte>, s: seq<byte>, at: nat, n: nat)
      requires |done| == |events| && Account(events, done, first, now, s0, s, at, n)
      ensures 1 <= n && s == s0 + Fed(events, done)
      ensures forall p :: 0 <= p < n ==> now[p] == first[p] + ReadOfAll(events, done, n, p)
      ensures forall i :: 0 <= i < |events| && events[i].Row? ==>
                var p := events[i].row % n;
                done[i] <==> first[p] + ReadOfAll(events[..i], done[..i], n, p) + events[i].count
                             <= if p + 1 == n then |s0| + |Fed(events[..i], done[..i])| else EndOf(s0, at, n, p)
      ensures forall i :: 0 <= i < |events| && events[i].Data? ==>
                events[i].piece.mallocOk && |events[i].piece.data| <= MAX_CHUNK_PAYLOAD ==> done[i]
    {
      hide Fed, ReadOf, EndOf, ReadOfAll;
      assert events[..|events|] == events;
      forall i | 0 <= i < |events| && events[i].Row?
        ensures var p := events[i].row % n;
                done[i] <==> first[p] + ReadOfAll(events[..i], done[..i], n, p) + events[i].count
                             <= if p + 1 == n then |s0| + |Fed(events[..i], done[..i])| else EndOf(s0, at, n, p)
      {
        assert Answered(events, done, i, first, s0, at, n);
      }
      forall i | 0 <= i < |events| && events[i].Data?
        ensures events[i].piece.mallocOk && |events[i].piece.data| <= MAX_CHUNK_PAYLOAD ==> done[i]
      {
        assert Answered(events, done, i, first, s0, at, n);
      }
    }

    /** Event i had the answer that the data at hand allowed. */
    static ghost predicate Answered(events: seq<Event>, done: seq<bool>, i: nat, first: seq<int>, s: seq<byte>, at: nat, n: nat)
      requires i < |events| && i < |done| && 1 <= n <= |first|
    {
      && (events[i].Row? ==>
            var p := events[i].row % n;
            done[i] <==> first[p] + ReadOfAll(events[..i], done[..i], n, p) + events[i].count
                         <= if p + 1 == n then |s| + |Fed(events[..i], done[..i])| else EndOf(s, at, n, p))
      && (events[i].Data? && events[i].piece.mallocOk && |events[i].piece.data| <= MAX_CHUNK_PAYLOAD ==> done[i])
    }

    static lemma AnsweredBefore(events: seq<Event>, done: seq<bool>, ok: bool, first: seq<int>, s: seq<byte>, at: nat, n: nat)
      requires |done| < |events| && 1 <= n <= |first|
      requires forall j :: 0 <= j < |done| ==> Answered(events, done, j, first, s, at, n)
      ensures forall j :: 0 <= j < |done| ==> Answered(events, done + [ok], j, first, s, at, n)
    {
      forall j | 0 <= j < |done| ensures Answered(events, done + [ok], j, first, s, at, n) {
        assert (done + [ok])[..j] == done[..j];
        assert Answered(events, done, j, first, s, at, n);
      }
    }

    static lemma EndsOfGrown(s: seq<byte>, more: seq<byte>, at: nat, n: nat)
      requires at <= |s| && 1 <= n && 3 * (n - 1) <= |s| - at
      ensures forall p :: 0 <= p < n ==> EndOf(s + more, at, n, p) == if p + 1 == n then |s| + |more| else EndOf(s, at, n, p)
    {
      assert (s + more)[at..] == s[at..] + more;
      forall p | 0 <= p < n ensures EndOf(s + more, at, n, p) == if p + 1 == n then |s| + |more| else EndOf(s, at, n, p) {
        if p + 1 < n {
          PartStartOfPrefix(s[at..], more, n, p + 1);
        }
      }
    }

    static lemma NothingDone(s: seq<byte>, events: seq<Event>, n: nat)
      requires n > 0
      ensures s + Fed(events[..0], []) == s && forall p :: 0 <= p < n ==> ReadOfAll(events[..0], [], n, p) == 0
    {
    }

    static lemma FedOne(event: Event, ok: bool)
      ensures Fed([event], [ok]) == if event.Data? && ok then event.piece.data else []
    {
      assert [event][..0] == [] && [ok][..0] == [];
    }

    static lemma OneMoreDone(s: seq<byte>, events: seq<Event>, done: seq<bool>, i: nat, ok: bool, n: nat)
      requires |done| == i < |events| && n > 0
      ensures s + Fed(events[..i], done) + Fed([events[i]], [ok]) == s + Fed(events[..i + 1], done + [ok])
      ensures forall p :: 0 <= p < n ==>
                ReadOfAll(events[..i + 1], done + [ok], n, p) == ReadOfAll(events[..i], done, n, p) + ReadOf(events[i], ok, n, p)
    {
      FedOne(events[i], ok);
      assert events[..i + 1][..i] == events[..i] && (done + [ok])[..i] == done;
    }
  }
}

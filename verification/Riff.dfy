/** RIFF chunks as bytes, and how webpinfo reads them one by one. */
module Riff {

  type byte = x: int | 0 <= x < 256

  const CHUNK_HEADER_SIZE := 8
  const RIFF_HEADER_SIZE := 12
  const ANMF_CHUNK_SIZE := 16
  const ANIM_CHUNK_SIZE := 6
  const VP8X_CHUNK_SIZE := 10
  const MAX_CHUNK_PAYLOAD := 0xffff_ffff - 8 - 1

  datatype Status = OK | TRUNCATED_DATA | PARSE_ERROR | INVALID_PARAM | BITSTREAM_ERROR | MISSING_DATA

  datatype Id = VP8 | VP8L | VP8X | ALPH | ANIM | ANMF | ICCP | EXIF | XMP | UNKNOWN

  const TAG_RIFF: seq<byte> := [0x52, 0x49, 0x46, 0x46]
  const TAG_WEBP: seq<byte> := [0x57, 0x45, 0x42, 0x50]

  /** The four characters of a known chunk. */
  function Tag(id: Id): seq<byte>
    requires id != UNKNOWN
    ensures |Tag(id)| == 4
  {
    match id
    case VP8 => [0x56, 0x50, 0x38, 0x20]
    case VP8L => [0x56, 0x50, 0x38, 0x4c]
    case VP8X => [0x56, 0x50, 0x38, 0x58]
    case ALPH => [0x41, 0x4c, 0x50, 0x48]
    case ANIM => [0x41, 0x4e, 0x49, 0x4d]
    case ANMF => [0x41, 0x4e, 0x4d, 0x46]
    case ICCP => [0x49, 0x43, 0x43, 0x50]
    case EXIF => [0x45, 0x58, 0x49, 0x46]
    case XMP => [0x58, 0x4d, 0x50, 0x20]
  }

  /** The search of kWebPChunkTags. */
  function IdOf(tag: seq<byte>): Id {
    if tag == Tag(VP8) then VP8 else if tag == Tag(VP8L) then VP8L else if tag == Tag(VP8X) then VP8X
    else if tag == Tag(ALPH) then ALPH else if tag == Tag(ANIM) then ANIM else if tag == Tag(ANMF) then ANMF
    else if tag == Tag(ICCP) then ICCP else if tag == Tag(EXIF) then EXIF else if tag == Tag(XMP) then XMP
    else UNKNOWN
  }

  lemma TagsDiffer(a: Id, b: Id)
    requires a != UNKNOWN && b != UNKNOWN && a != b
    ensures Tag(a) != Tag(b)
  {
    assert Tag(a)[0] != Tag(b)[0] || Tag(a)[1] != Tag(b)[1] || Tag(a)[2] != Tag(b)[2] || Tag(a)[3] != Tag(b)[3];
  }

  lemma IdOfTag(id: Id)
    requires id != UNKNOWN
    ensures IdOf(Tag(id)) == id
  {
    hide Tag;
    forall b | b != UNKNOWN && b != id ensures Tag(b) != Tag(id) {
      TagsDiffer(b, id);
    }
  }

  // ---- little-endian numbers ----

  /** The low `num` bytes of val, the lowest first. */
  function LE(val: nat, num: nat): (s: seq<byte>)
    ensures |s| == num
  {
    if num == 0 then [] else [val % 256] + LE(val / 256, num - 1)
  }

  function GetLE(data: seq<byte>): nat {
    if data == [] then 0 else data[0] as int + 256 * GetLE(data[1..])
  }

  /** Reading back what was written gives the number cut to the width written. */
  lemma GetOfLE24(val: nat)
    ensures GetLE(LE(val, 3)) == val % 0x100_0000
  {
    var v1, v2, v3 := val / 0x100, val / 0x1_0000, val / 0x100_0000;
    assert v1 / 0x100 == v2 && v2 / 0x100 == v3;
    assert LE(v2, 1)[1..] == LE(v3, 0) == [];
    assert GetLE(LE(v2, 1)) == v2 % 0x100;
    assert LE(v1, 2)[1..] == LE(v2, 1);
    assert GetLE(LE(v1, 2)) == v1 % 0x100 + 0x100 * (v2 % 0x100);
    assert LE(val, 3)[1..] == LE(v1, 2);
  }

  lemma GetOfLE32(val: nat)
    ensures GetLE(LE(val, 4)) == val % 0x1_0000_0000
  {
    var low, rest := val % 0x100, val / 0x100;
    assert LE(val, 4) == [low] + LE(rest, 3);
    assert LE(val, 4)[1..] == LE(rest, 3);
    GetOfLE24(rest);
    var mid, top := rest % 0x100_0000, rest / 0x100_0000;
    assert GetLE(LE(val, 4)) == low + 0x100 * mid;
    assert val == low + 0x100 * rest && rest == mid + 0x100_0000 * top;
    LowPart(val, top, low + 0x100 * mid);
  }

  lemma LowPart(n: nat, top: nat, low: nat)
    requires n == 0x1_0000_0000 * top + low && low < 0x1_0000_0000
    ensures n % 0x1_0000_0000 == low
  {
  }

  // ---- chunks ----

  /** A chunk in the file: tag, size, payload, padding to an even length. */
  function Encode(tag: seq<byte>, payload: seq<byte>): seq<byte> {
    tag + LE(|payload|, 4) + payload + (if |payload| % 2 == 1 then [0] else [])
  }

  /** ChunkData: the kind of a chunk and its bytes in the file, header and padding
      included. */
  datatype ChunkData = ChunkData(id: Id, bytes: seq<byte>) {
    predicate Valid() { CHUNK_HEADER_SIZE <= |bytes| }
  }

  datatype Parsed = Bad(status: Status) | Good(chunk: ChunkData, skip: nat)

  /** ParseChunk at the start of the unread bytes: the chunk there and how many bytes
      to skip, which for an ANMF chunk leads to its first sub-chunk. */
  function NextChunk(body: seq<byte>): (r: Parsed)
    ensures r.Bad? ==> r.status != OK
    ensures r.Good? ==> r.chunk.Valid() && |r.chunk.bytes| <= |body| && r.skip > 0
    ensures r.Good? && r.chunk.id != ANMF ==> r.skip == |r.chunk.bytes|
    ensures r.Good? && r.chunk.id == ANMF ==> r.skip == CHUNK_HEADER_SIZE + ANMF_CHUNK_SIZE && |r.chunk.bytes| % 2 == 0
  {
    if |body| < CHUNK_HEADER_SIZE then Bad(TRUNCATED_DATA)
    else
      var payloadSize := GetLE(body[4..8]);
      var padded := payloadSize + payloadSize % 2;
      if payloadSize > MAX_CHUNK_PAYLOAD then Bad(INVALID_PARAM)
      else if padded > |body| - CHUNK_HEADER_SIZE then Bad(TRUNCATED_DATA)
      else
        var id := IdOf(body[..4]);
        if id == ANMF && payloadSize != padded then Bad(PARSE_ERROR)
        else
          Good(ChunkData(id, body[..CHUNK_HEADER_SIZE + padded]),
               CHUNK_HEADER_SIZE + if id == ANMF then ANMF_CHUNK_SIZE else padded)
  }

  /** Reading a chunk that was written gives it back, whatever follows. */
  lemma NextOfEncode(id: Id, payload: seq<byte>, rest: seq<byte>)
    requires id != UNKNOWN && id != ANMF && |payload| <= MAX_CHUNK_PAYLOAD
    ensures |Encode(Tag(id), payload)| == CHUNK_HEADER_SIZE + |payload| + |payload| % 2
    ensures NextChunk(Encode(Tag(id), payload) + rest) ==
              Good(ChunkData(id, Encode(Tag(id), payload)), |Encode(Tag(id), payload)|)
  {
    hide LE, GetLE, IdOf, Tag;
    var e := Encode(Tag(id), payload);
    var body := e + rest;
    assert body[..4] == Tag(id);
    assert body[4..8] == LE(|payload|, 4);
    GetOfLE32(|payload|);
    IdOfTag(id);
    assert body[..|e|] == e;
  }

  /** So is an animation frame, whose sub-chunks are left to be read. */
  lemma NextOfFrame(payload: seq<byte>, rest: seq<byte>)
    requires |payload| <= MAX_CHUNK_PAYLOAD && |payload| % 2 == 0
    ensures NextChunk(Encode(Tag(ANMF), payload) + rest) ==
              Good(ChunkData(ANMF, Encode(Tag(ANMF), payload)), CHUNK_HEADER_SIZE + ANMF_CHUNK_SIZE)
  {
    hide LE, GetLE, IdOf, Tag;
    var e := Encode(Tag(ANMF), payload);
    var body := e + rest;
    assert body[..4] == Tag(ANMF);
    assert body[4..8] == LE(|payload|, 4);
    GetOfLE32(|payload|);
    IdOfTag(ANMF);
    assert body[..|e|] == e;
  }

  /** A chunk that is all there is read the same when more follows. */
  lemma NextOfPrefix(body: seq<byte>, tail: seq<byte>)
    requires NextChunk(body).Good?
    ensures NextChunk(body + tail) == NextChunk(body)
  {
    var all := body + tail;
    assert all[..4] == body[..4] && all[4..8] == body[4..8];
    var n := |NextChunk(body).chunk.bytes|;
    assert all[..n] == body[..n];
  }

  // ---- all chunks of a file ----

  /** The chunks of a body in order, sub-chunks of ANMF after it, until one is bad. */
  function Chunks(body: seq<byte>): (seq<ChunkData>, Status)
    decreases |body|
  {
    if body == [] then ([], OK)
    else
      match NextChunk(body)
      case Bad(status) => ([], status)
      case Good(c, skip) =>
        if skip > |body| then ([c], TRUNCATED_DATA)
        else
          var (rest, status) := Chunks(body[skip..]);
          ([c] + rest, status)
  }

  lemma FirstOfChunks(body: seq<byte>, c: ChunkData, skip: nat)
    requires NextChunk(body) == Good(c, skip) && skip <= |body|
    ensures Chunks(body) == ([c] + Chunks(body[skip..]).0, Chunks(body[skip..]).1)
  {
  }

  lemma FirstIsGood(body: seq<byte>)
    requires body != [] && Chunks(body).1 == OK
    ensures NextChunk(body).Good? && NextChunk(body).skip <= |body|
  {
  }

  lemma NoChunks()
    ensures Chunks([]) == ([], OK)
  {
  }

  lemma {:induction false} ChunksAppend(a: seq<byte>, b: seq<byte>)
    requires Chunks(a).1 == OK
    ensures Chunks(a + b) == (Chunks(a).0 + Chunks(b).0, Chunks(b).1)
    decreases |a|
  {
    hide NextChunk, Chunks;
    if a == [] {
      NoChunks();
      assert a + b == b && [] + Chunks(b).0 == Chunks(b).0;
    } else {
      FirstIsGood(a);
      NextOfPrefix(a, b);
      var c, skip := NextChunk(a).chunk, NextChunk(a).skip;
      FirstOfChunks(a, c, skip);
      FirstOfChunks(a + b, c, skip);
      assert (a + b)[skip..] == a[skip..] + b;
      ChunksAppend(a[skip..], b);
      assert [c] + (Chunks(a[skip..]).0 + Chunks(b).0) == Chunks(a).0 + Chunks(b).0;
    }
  }

  lemma OneChunk(c: ChunkData)
    requires NextChunk(c.bytes) == Good(c, |c.bytes|)
    ensures Chunks(c.bytes) == ([c], OK)
  {
    hide NextChunk;
    FirstOfChunks(c.bytes, c, |c.bytes|);
    assert c.bytes[|c.bytes|..] == [];
    NoChunks();
    assert [c] + [] == [c];
  }

  /** ParseRIFFHeader: the bytes of the chunks, data behind the RIFF payload left out. */
  datatype RiffResult = Malformed(status: Status) | Body(bytes: seq<byte>)

  function ParseRIFF(file: seq<byte>): RiffResult {
    if |file| < RIFF_HEADER_SIZE + CHUNK_HEADER_SIZE then Malformed(TRUNCATED_DATA)
    else if file[..4] != TAG_RIFF || file[8..12] != TAG_WEBP then Malformed(PARSE_ERROR)
    else
      var riffSize := GetLE(file[4..8]);
      if riffSize < CHUNK_HEADER_SIZE || riffSize > MAX_CHUNK_PAYLOAD then Malformed(PARSE_ERROR)
      else if riffSize + CHUNK_HEADER_SIZE > |file| then Malformed(TRUNCATED_DATA)
      else Body(file[RIFF_HEADER_SIZE..riffSize + CHUNK_HEADER_SIZE])
  }

  /** A RIFF file around chunks. */
  function File(body: seq<byte>): seq<byte> {
    TAG_RIFF + LE(|body| + 4, 4) + TAG_WEBP + body
  }

  lemma RiffOfFile(body: seq<byte>)
    requires CHUNK_HEADER_SIZE <= |body| && |body| + 4 <= MAX_CHUNK_PAYLOAD
    ensures ParseRIFF(File(body)) == Body(body)
  {
    hide LE, GetLE;
    var f := File(body);
    assert f[..4] == TAG_RIFF && f[4..8] == LE(|body| + 4, 4) && f[8..12] == TAG_WEBP;
    GetOfLE32(|body| + 4);
    assert f[12..] == body;
  }
}

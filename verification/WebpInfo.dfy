/** webpinfo: the walk over the chunks of a file, what each kind of chunk does to the
    statistics, and the final check; section 2.7 of RFC 9649 in the order in which the
    program asks for it. What WebPGetFeatures and the bitstream header parsers say of
    a chunk is a parameter. */
module WebpInfo {
  import opened Riff

  const ICCP_FLAG := 0x20
  const ALPHA_FLAG := 0x10
  const EXIF_FLAG := 0x08
  const XMP_FLAG := 0x04
  const ANIMATION_FLAG := 0x02
  const MAX_POSITION_OFFSET := 0x100_0000

  datatype Features = Features(ok: bool, width: int, height: int, hasAlpha: bool)

  /** WebPGetFeatures of an image chunk, and the result of parsing its bitstream header
      (always OK unless that was asked for). */
  datatype Oracle = Oracle(features: ChunkData -> Features, bitstream: ChunkData -> Status)

  /** The fields of WebPInfo that the result depends on. */
  datatype Info = Info(
    canvasWidth: int, canvasHeight: int, numFrames: nat,
    vp8: nat, vp8l: nat, vp8x: nat, alph: nat, anim: nat, anmf: nat, iccp: nat, exif: nat, xmp: nat,
    flags: nat, hasAlpha: bool,
    frameWidth: int, frameHeight: int, frameLeft: nat, // anim_frame_data_size
    inFrame: bool, seenAlpha: bool, seenImage: bool)

  const INIT := Info(0, 0, 0, 0, 0, 0, 0, 0, 0, 0, 0, 0, 0, false, 0, 0, 0, false, false, false)

  predicate HasFlag(flags: nat, flag: nat)
    requires flag > 0
  {
    flags / flag % 2 == 1
  }

  predicate IsImage(id: Id) { id == VP8 || id == VP8L }

  // ---- what each chunk does ----

  function ProcessVP8X(i: Info, c: ChunkData): (Info, Status)
    requires c.Valid()
  {
    if i.vp8 > 0 || i.vp8l > 0 || i.vp8x > 0 then (i, PARSE_ERROR)
    else if |c.bytes| != VP8X_CHUNK_SIZE + CHUNK_HEADER_SIZE then (i, PARSE_ERROR)
    else
      (i.(vp8x := i.vp8x + 1, flags := c.bytes[8] as nat,
          canvasWidth := 1 + GetLE(c.bytes[12..15]), canvasHeight := 1 + GetLE(c.bytes[15..18])), OK)
  }

  function ProcessANIM(i: Info, c: ChunkData): (Info, Status)
    requires c.Valid()
  {
    if i.vp8x == 0 then (i, PARSE_ERROR)
    else if |c.bytes| != ANIM_CHUNK_SIZE + CHUNK_HEADER_SIZE then (i, PARSE_ERROR)
    else (i.(anim := i.anim + 1), OK)
  }

  /** A 24-bit duration is never over MAX_DURATION, so that check is left out. */
  function ProcessANMF(i: Info, c: ChunkData): (r: (Info, Status))
    requires c.Valid()
    ensures r.1 == OK ==> !i.inFrame && |c.bytes| > CHUNK_HEADER_SIZE + ANMF_CHUNK_SIZE
  {
    if i.inFrame then (i, PARSE_ERROR)
    else if i.anim == 0 then (i, PARSE_ERROR)
    else if |c.bytes| <= CHUNK_HEADER_SIZE + ANMF_CHUNK_SIZE then (i, TRUNCATED_DATA)
    else
      var x, y := 2 * GetLE(c.bytes[8..11]), 2 * GetLE(c.bytes[11..14]);
      var width, height := 1 + GetLE(c.bytes[14..17]), 1 + GetLE(c.bytes[17..20]);
      var j := i.(anmf := i.anmf + 1);
      if x > MAX_POSITION_OFFSET || y > MAX_POSITION_OFFSET then (j, INVALID_PARAM)
      else if x + width > i.canvasWidth || y + height > i.canvasHeight then (j, INVALID_PARAM)
      else
        (j.(inFrame := true, seenAlpha := false, seenImage := false, frameWidth := width, frameHeight := height,
            frameLeft := |c.bytes| - CHUNK_HEADER_SIZE - ANMF_CHUNK_SIZE), OK)
  }

  /** An image in an animation frame, or the only image of the file. */
  function ProcessImage(i: Info, c: ChunkData, o: Oracle): (Info, Status)
    requires c.Valid() && IsImage(c.id)
  {
    var f := o.features(c);
    if !f.ok then (i, BITSTREAM_ERROR)
    else if i.inFrame && c.id == VP8L && i.seenAlpha then (i, PARSE_ERROR)
    else if i.inFrame && (i.frameWidth != f.width || i.frameHeight != f.height) then (i, PARSE_ERROR)
    else if i.inFrame && i.seenImage then (i, PARSE_ERROR)
    else if !i.inFrame && (i.vp8 > 0 || i.vp8l > 0) then (i, PARSE_ERROR)
    else if !i.inFrame && (i.anim > 0 || i.anmf > 0) then (i, PARSE_ERROR)
    else if !i.inFrame && i.vp8x > 0 && (i.canvasWidth != f.width || i.canvasHeight != f.height) then (i, PARSE_ERROR)
    else
      var j := if i.inFrame then i.(seenImage := true)
               else i.(canvasWidth := f.width, canvasHeight := f.height,
                       vp8 := i.vp8 + (if c.id == VP8 then 1 else 0), vp8l := i.vp8l + (if c.id == VP8L then 1 else 0));
      (j.(numFrames := i.numFrames + 1, hasAlpha := i.hasAlpha || f.hasAlpha), o.bitstream(c))
  }

  function ProcessALPH(i: Info, c: ChunkData, o: Oracle): (Info, Status)
    requires c.Valid()
  {
    if i.inFrame then
      if i.seenAlpha then (i, PARSE_ERROR)
      else if i.seenImage then (i.(seenAlpha := true), PARSE_ERROR)
      else (i.(seenAlpha := true, hasAlpha := true), o.bitstream(c))
    else if i.anim > 0 || i.anmf > 0 || i.vp8x == 0 || i.vp8 > 0 || i.alph > 0 then (i, PARSE_ERROR)
    else (i.(alph := i.alph + 1, hasAlpha := true), o.bitstream(c))
  }

  function ProcessICCP(i: Info): (Info, Status) {
    if i.vp8x == 0 then (i, PARSE_ERROR)
    else if i.vp8 > 0 || i.vp8l > 0 || i.anim > 0 then (i, PARSE_ERROR)
    else (i.(iccp := i.iccp + 1), OK)
  }

  /** The switch of ProcessChunk. */
  function ProcessKind(i: Info, c: ChunkData, o: Oracle): (Info, Status)
    requires c.Valid()
  {
    match c.id
    case VP8 => ProcessImage(i, c, o)
    case VP8L => ProcessImage(i, c, o)
    case VP8X => ProcessVP8X(i, c)
    case ALPH => ProcessALPH(i, c, o)
    case ANIM => ProcessANIM(i, c)
    case ANMF => ProcessANMF(i, c)
    case ICCP => ProcessICCP(i)
    case EXIF => (i.(exif := i.exif + 1), OK)
    case XMP => (i.(xmp := i.xmp + 1), OK)
    case UNKNOWN => (i, OK)
  }

  /** ProcessChunk: the switch, then the account of the open animation frame. */
  function Process(i: Info, c: ChunkData, o: Oracle): (r: (Info, Status))
    requires c.Valid()
    ensures r.1 == OK && c.id == ANMF ==> |c.bytes| > CHUNK_HEADER_SIZE + ANMF_CHUNK_SIZE
  {
    var (j, status) := ProcessKind(i, c, o);
    if j.inFrame && c.id != ANMF then
      if j.frameLeft == |c.bytes| then
        if !j.seenImage then (j, PARSE_ERROR) else (j.(inFrame := false), status)
      else if j.frameLeft > |c.bytes| then (j.(frameLeft := j.frameLeft - |c.bytes|), status)
      else (j, TRUNCATED_DATA)
    else (j, status)
  }

  /** The loop of AnalyzeWebP over the unread bytes. */
  function Walk(body: seq<byte>, i: Info, o: Oracle): (Info, Status)
    decreases |body|
  {
    if body == [] then (i, OK)
    else
      match NextChunk(body)
      case Bad(status) => (i, status)
      case Good(c, skip) =>
        var (j, status) := Process(i, c, o);
        if status != OK then (j, status) else Walk(body[skip..], j, o)
  }

  function Validate(i: Info): Status {
    if i.numFrames < 1 then MISSING_DATA
    else if i.vp8x == 0 then OK
    else
      var iccp, exif, xmp := HasFlag(i.flags, ICCP_FLAG), HasFlag(i.flags, EXIF_FLAG), HasFlag(i.flags, XMP_FLAG);
      var animation, alpha := HasFlag(i.flags, ANIMATION_FLAG), HasFlag(i.flags, ALPHA_FLAG);
      if !alpha && i.hasAlpha then PARSE_ERROR
      else if iccp && i.iccp == 0 then MISSING_DATA
      else if exif && i.exif == 0 then MISSING_DATA
      else if xmp && i.xmp == 0 then MISSING_DATA
      else if !iccp && i.iccp > 0 then PARSE_ERROR
      else if !exif && i.exif > 0 then PARSE_ERROR
      else if !xmp && i.xmp > 0 then PARSE_ERROR
      else if i.inFrame then MISSING_DATA
      else if !animation && i.numFrames > 1 then PARSE_ERROR
      else if animation && (i.anim == 0 || i.anmf == 0) then PARSE_ERROR
      else OK
  }

  /** AnalyzeWebP. */
  function Analyze(file: seq<byte>, o: Oracle): (Info, Status) {
    match ParseRIFF(file)
    case Malformed(status) => (INIT, status)
    case Body(body) =>
      var (i, status) := Walk(body, INIT, o);
      (i, if status != OK then status else Validate(i))
  }

  // ---- the grammar of animation frames ----

  /** Sub-chunks so far: at most one image, at most one ALPH, the ALPH before the
      image, and no ALPH beside a lossless image. */
  ghost predicate InOrder(ids: seq<Id>) {
    forall j, k :: 0 <= j < k < |ids| ==>
      && !(IsImage(ids[j]) && IsImage(ids[k]))
      && !(IsImage(ids[j]) && ids[k] == ALPH)
      && !(ids[j] == ALPH && (ids[k] == ALPH || ids[k] == VP8L))
  }

  /** A whole frame has its image. */
  ghost predicate WholeFrame(ids: seq<Id>) {
    InOrder(ids) && exists k :: 0 <= k < |ids| && IsImage(ids[k])
  }

  /** The two flags remember what the sub-chunks were. */
  ghost predicate Tracks(ids: seq<Id>, seenImage: bool, seenAlpha: bool) {
    && InOrder(ids)
    && (seenImage <==> exists k :: 0 <= k < |ids| && IsImage(ids[k]))
    && (seenAlpha <==> exists k :: 0 <= k < |ids| && ids[k] == ALPH)
  }

  lemma TracksGrow(ids: seq<Id>, seenImage: bool, seenAlpha: bool, id: Id)
    requires Tracks(ids, seenImage, seenAlpha)
    requires IsImage(id) ==> !seenImage && !(id == VP8L && seenAlpha)
    requires id == ALPH ==> !seenAlpha && !seenImage
    ensures Tracks(ids + [id], seenImage || IsImage(id), seenAlpha || id == ALPH)
    ensures seenImage || IsImage(id) ==> WholeFrame(ids + [id])
  {
    var now := ids + [id];
    assert forall k :: 0 <= k < |ids| ==> now[k] == ids[k];
    assert now[|ids|] == id;
    if seenImage {
      var k :| 0 <= k < |ids| && IsImage(ids[k]);
      assert IsImage(now[k]);
    }
    if seenAlpha {
      var k :| 0 <= k < |ids| && ids[k] == ALPH;
      assert now[k] == ALPH;
    }
  }

  /** What the statistics say while the status is OK: `at` is the position of the walk,
      `frameEnd` the end of the open frame's payload, `open` the sub-chunks read of it. */
  ghost predicate Inv(i: Info, at: int, frameEnd: int, open: seq<Id>) {
    && i.numFrames + (if i.inFrame && !i.seenImage then 1 else 0) == i.vp8 + i.vp8l + i.anmf
    && i.vp8 + i.vp8l <= 1
    && (i.inFrame ==>
          && i.anmf > 0 && at + i.frameLeft == frameEnd && i.frameLeft > 0
          && Tracks(open, i.seenImage, i.seenAlpha))
    && (i.anmf > 0 ==> i.anim > 0) && (i.anim > 0 ==> i.vp8x > 0) && i.vp8x <= 1
  }

  lemma InitInv(at: int)
    ensures Inv(INIT, at, 0, [])
  {
  }

  /** A chunk outside a frame. */
  lemma StepOutside(i: Info, c: ChunkData, o: Oracle, at: int, frameEnd: int, open: seq<Id>)
    requires c.Valid() && Inv(i, at, frameEnd, open) && !i.inFrame && Process(i, c, o).1 == OK
    ensures Process(i, c, o).0.anmf == i.anmf + (if c.id == ANMF then 1 else 0)
    ensures c.id != ANMF ==> !Process(i, c, o).0.inFrame && Inv(Process(i, c, o).0, at + |c.bytes|, frameEnd, open)
    ensures c.id == ANMF ==>
              && Process(i, c, o).0.inFrame
              && Inv(Process(i, c, o).0, at + CHUNK_HEADER_SIZE + ANMF_CHUNK_SIZE, at + |c.bytes|, [])
  {
    hide GetLE;
    if IsImage(c.id) {
      assert ProcessKind(i, c, o) == ProcessImage(i, c, o);
      hide ProcessVP8X, ProcessANMF, ProcessALPH;
    } else if c.id == ANMF {
      hide ProcessVP8X, ProcessImage, ProcessALPH;
      NothingOpen();
    } else {
      hide ProcessANMF, ProcessImage;
    }
  }

  lemma NothingOpen()
    ensures Tracks([], false, false)
  {
  }

  /** A sub-chunk of a frame: the frame stays open, or it ends where its payload ends
      and is whole. */
  lemma StepInside(i: Info, c: ChunkData, o: Oracle, at: int, frameEnd: int, open: seq<Id>)
    requires c.Valid() && Inv(i, at, frameEnd, open) && i.inFrame && Process(i, c, o).1 == OK
    ensures Process(i, c, o).0.anmf == i.anmf
    ensures c.id != ANMF && Inv(Process(i, c, o).0, at + |c.bytes|, frameEnd, open + [c.id])
    ensures !Process(i, c, o).0.inFrame ==> WholeFrame(open + [c.id]) && at + |c.bytes| == frameEnd
  {
    hide Tracks, WholeFrame;
    TracksGrow(open, i.seenImage, i.seenAlpha, c.id);
  }

  lemma SliceOfSlice(s: seq<byte>, a: nat, b: nat, i: nat, j: nat)
    requires a <= b <= |s| && i <= j <= b - a
    ensures s[a..b][i..j] == s[a + i..a + j]
  {
    var t, u := s[a..b][i..j], s[a + i..a + j];
    forall k | 0 <= k < j - i
      ensures t[k] == u[k]
    {
      assert t[k] == s[a..b][i + k];
    }
  }

  /** The program itself: a position in the file and the statistics. */
  class Analyzer {
    const buf: seq<byte>
    const o: Oracle
    var start: nat
    var end: nat
    var info: Info
    ghost var frameEnd: int           // end of the open frame's payload
    ghost var open: seq<Id>           // its sub-chunks so far
    ghost var closed: seq<seq<Id>>    // the sub-chunks of each frame that is complete

    constructor (file: seq<byte>, o: Oracle)
      ensures buf == file && this.o == o && start == 0 && end == |file| && info == INIT && closed == []
    {
      buf, this.o := file, o;
      start, end, info := 0, |file|, INIT;
      frameEnd, open, closed := 0, [], [];
    }

    method ParseRIFFHeader() returns (status: Status)
      requires start == 0 && end == |buf|
      modifies `start, `end
      ensures match ParseRIFF(buf)
              case Malformed(s) => status == s != OK
              case Body(bytes) => status == OK && start == RIFF_HEADER_SIZE <= end <= |buf| && buf[start..end] == bytes
    {
      if end - start < RIFF_HEADER_SIZE + CHUNK_HEADER_SIZE {
        return TRUNCATED_DATA;
      }
      if buf[..4] != TAG_RIFF || buf[8..12] != TAG_WEBP {
        return PARSE_ERROR;
      }
      var riffSize := GetLE(buf[4..8]);
      if riffSize < CHUNK_HEADER_SIZE {
        return PARSE_ERROR;
      }
      if riffSize > MAX_CHUNK_PAYLOAD {
        return PARSE_ERROR;
      }
      riffSize := riffSize + CHUNK_HEADER_SIZE;
      if riffSize < end {
        end := riffSize;
      } else if riffSize > end {
        return TRUNCATED_DATA;
      }
      start := start + RIFF_HEADER_SIZE;
      return OK;
    }

    /** ParseChunk: `start` may pass `end` behind the header of an ANMF chunk that is
        too short, which ProcessANMFChunk then refuses. */
    method ParseChunk() returns (status: Status, c: ChunkData)
      requires start <= end <= |buf|
      modifies `start
      ensures match NextChunk(old(buf[start..end]))
              case Bad(s) => status == s != OK
              case Good(chunk, skip) => status == OK && c == chunk && start == old(start) + skip
    {
      c := ChunkData(UNKNOWN, []);
      if end - start < CHUNK_HEADER_SIZE {
        return TRUNCATED_DATA, c;
      }
      var chunkStart := start;
      var fourcc := buf[start..start + 4];
      start := start + 4;
      var payloadSize := GetLE(buf[start..start + 4]);
      start := start + 4;
      var padded := payloadSize + payloadSize % 2;
      SliceOfSlice(buf, chunkStart, end, 0, 4);
      SliceOfSlice(buf, chunkStart, end, 4, 8);
      if payloadSize > MAX_CHUNK_PAYLOAD {
        return INVALID_PARAM, c;
      }
      if padded > end - start {
        return TRUNCATED_DATA, c;
      }
      SliceOfSlice(buf, chunkStart, end, 0, CHUNK_HEADER_SIZE + padded);
      c := ChunkData(IdOf(fourcc), buf[chunkStart..start + padded]);
      if c.id == ANMF {
        if payloadSize != padded {
          return PARSE_ERROR, c;
        }
        start := start + ANMF_CHUNK_SIZE;
      } else {
        start := start + padded;
      }
      return OK, c;
    }

    method ProcessVP8XChunk(c: ChunkData) returns (status: Status)
      requires c.Valid()
      modifies `info
      ensures (info, status) == ProcessVP8X(old(info), c)
    {
      if info.vp8 > 0 || info.vp8l > 0 || info.vp8x > 0 {
        return PARSE_ERROR;
      }
      if |c.bytes| != VP8X_CHUNK_SIZE + CHUNK_HEADER_SIZE {
        return PARSE_ERROR;
      }
      info := info.(vp8x := info.vp8x + 1);
      info := info.(flags := c.bytes[8] as nat);
      info := info.(canvasWidth := 1 + GetLE(c.bytes[12..15]));
      info := info.(canvasHeight := 1 + GetLE(c.bytes[15..18]));
      return OK;
    }

    method ProcessANMFChunk(c: ChunkData) returns (status: Status)
      requires c.Valid()
      modifies `info
      ensures (info, status) == ProcessANMF(old(info), c)
    {
      if info.inFrame {
        return PARSE_ERROR;
      }
      if info.anim == 0 {
        return PARSE_ERROR;
      }
      if |c.bytes| <= CHUNK_HEADER_SIZE + ANMF_CHUNK_SIZE {
        return TRUNCATED_DATA;
      }
      var offsetX, offsetY := 2 * GetLE(c.bytes[8..11]), 2 * GetLE(c.bytes[11..14]);
      var width, height := 1 + GetLE(c.bytes[14..17]), 1 + GetLE(c.bytes[17..20]);
      info := info.(anmf := info.anmf + 1);
      if offsetX > MAX_POSITION_OFFSET || offsetY > MAX_POSITION_OFFSET {
        return INVALID_PARAM;
      }
      if offsetX + width > info.canvasWidth || offsetY + height > info.canvasHeight {
        return INVALID_PARAM;
      }
      info := info.(inFrame := true, seenAlpha := false, seenImage := false);
      info := info.(frameWidth := width, frameHeight := height);
      info := info.(frameLeft := |c.bytes| - CHUNK_HEADER_SIZE - ANMF_CHUNK_SIZE);
      return OK;
    }

    method ProcessImageChunk(c: ChunkData) returns (status: Status)
      requires c.Valid() && IsImage(c.id)
      modifies `info
      ensures (info, status) == ProcessImage(old(info), c, o)
    {
      var f := o.features(c);
      if !f.ok {
        return BITSTREAM_ERROR;
      }
      if info.inFrame {
        if c.id == VP8L && info.seenAlpha {
          return PARSE_ERROR;
        }
        if info.frameWidth != f.width || info.frameHeight != f.height {
          return PARSE_ERROR;
        }
        if info.seenImage {
          return PARSE_ERROR;
        }
        info := info.(seenImage := true);
      } else {
        if info.vp8 > 0 || info.vp8l > 0 {
          return PARSE_ERROR;
        }
        if info.anim > 0 || info.anmf > 0 {
          return PARSE_ERROR;
        }
        if info.vp8x > 0 {
          if info.canvasWidth != f.width || info.canvasHeight != f.height {
            return PARSE_ERROR;
          }
        } else {
          info := info.(canvasWidth := f.width, canvasHeight := f.height);
        }
        if c.id == VP8 {
          info := info.(vp8 := info.vp8 + 1);
        } else {
          info := info.(vp8l := info.vp8l + 1);
        }
      }
      info := info.(numFrames := info.numFrames + 1);
      info := info.(hasAlpha := info.hasAlpha || f.hasAlpha);
      return o.bitstream(c);
    }

    method ProcessALPHChunk(c: ChunkData) returns (status: Status)
      requires c.Valid()
      modifies `info
      ensures (info, status) == ProcessALPH(old(info), c, o)
    {
      if info.inFrame {
        if info.seenAlpha {
          return PARSE_ERROR;
        }
        info := info.(seenAlpha := true);
        if info.seenImage {
          return PARSE_ERROR;
        }
      } else {
        if info.anim > 0 || info.anmf > 0 || info.vp8x == 0 || info.vp8 > 0 || info.alph > 0 {
          return PARSE_ERROR;
        }
        info := info.(alph := info.alph + 1);
      }
      info := info.(hasAlpha := true);
      return o.bitstream(c);
    }

    method ProcessChunk(c: ChunkData) returns (status: Status)
      requires c.Valid()
      modifies `info
      ensures (info, status) == Process(old(info), c, o)
    {
      hide ProcessImage, ProcessVP8X, ProcessALPH, ProcessANMF;
      status := OK;
      match c.id {
        case VP8 => status := ProcessImageChunk(c);
        case VP8L => status := ProcessImageChunk(c);
        case VP8X => status := ProcessVP8XChunk(c);
        case ALPH => status := ProcessALPHChunk(c);
        case ANIM =>
          if info.vp8x == 0 || |c.bytes| != ANIM_CHUNK_SIZE + CHUNK_HEADER_SIZE {
            status := PARSE_ERROR;
          } else {
            info := info.(anim := info.anim + 1);
          }
        case ANMF => status := ProcessANMFChunk(c);
        case ICCP =>
          if info.vp8x == 0 || info.vp8 > 0 || info.vp8l > 0 || info.anim > 0 {
            status := PARSE_ERROR;
          } else {
            info := info.(iccp := info.iccp + 1);
          }
        case EXIF => info := info.(exif := info.exif + 1);
        case XMP => info := info.(xmp := info.xmp + 1);
        case UNKNOWN =>
      }
      if info.inFrame && c.id != ANMF {
        if info.frameLeft == |c.bytes| {
          if !info.seenImage {
            return PARSE_ERROR;
          }
          info := info.(inFrame := false);
        } else if info.frameLeft > |c.bytes| {
          info := info.(frameLeft := info.frameLeft - |c.bytes|);
        } else {
          return TRUNCATED_DATA;
        }
      }
    }

    /** ProcessChunk with the account of frames kept beside it. */
    method Count(c: ChunkData, ghost at: int) returns (status: Status)
      requires c.Valid() && Inv(info, at, frameEnd, open)
      requires |closed| == info.anmf - (if info.inFrame then 1 else 0)
      requires forall ids <- closed :: WholeFrame(ids)
      modifies `info, `frameEnd, `open, `closed
      ensures (info, status) == Process(old(info), c, o)
      ensures status == OK ==>
                && Inv(info, at + (if c.id == ANMF then CHUNK_HEADER_SIZE + ANMF_CHUNK_SIZE else |c.bytes|), frameEnd, open)
                && |closed| == info.anmf - (if info.inFrame then 1 else 0)
      ensures forall ids <- closed :: WholeFrame(ids)
    {
      hide Tracks, WholeFrame, Process, Inv;
      ghost var before := info;
      status := ProcessChunk(c);
      if status == OK {
        if before.inFrame {
          StepInside(before, c, o, at, frameEnd, open);
          open := open + [c.id];
          if !info.inFrame {
            closed := closed + [open];
          }
        } else {
          StepOutside(before, c, o, at, frameEnd, open);
          if c.id == ANMF {
            frameEnd, open := at + |c.bytes|, [];
          }
        }
      }
    }

    /** AnalyzeWebP. */
    method AnalyzeWebP() returns (status: Status)
      requires start == 0 && end == |buf| && info == INIT && closed == []
      modifies this
      ensures (info, status) == Analyze(buf, o)
      ensures forall ids <- closed :: WholeFrame(ids)
      ensures status == OK ==> |closed| == info.anmf && info.numFrames == info.vp8 + info.vp8l + |closed|
    {
      hide NextChunk, Process, Inv, WholeFrame, ParseRIFF;
      status := ParseRIFFHeader();
      if status != OK {
        return;
      }
      ghost var body := buf[start..end];
      InitInv(start);
      frameEnd, open := 0, [];
      while status == OK && start < end
        invariant start <= end <= |buf| || status != OK
        invariant end <= |buf|
        invariant status == OK ==> Walk(body, INIT, o) == Walk(buf[start..end], info, o)
        invariant status != OK ==> Walk(body, INIT, o) == (info, status)
        invariant status == OK ==> Inv(info, start, frameEnd, open) && |closed| == info.anmf - (if info.inFrame then 1 else 0)
        invariant forall ids <- closed :: WholeFrame(ids)
        decreases if status == OK then 1 else 0, end - start
      {
        ghost var rest := buf[start..end];
        ghost var at := start;
        var c;
        status, c := ParseChunk();
        if status != OK {
          return;
        }
        status := Count(c, at);
        if status == OK {
          assert buf[start..end] == rest[start - at..];
        }
      }
      if status != OK {
        return;
      }
      status := Validate(info);
      if status == OK {
        AllFramesClosed(info, start, frameEnd, open);
      }
    }

    /** The final check lets no file end inside a frame. */
    static lemma AllFramesClosed(i: Info, at: int, frameEnd: int, open: seq<Id>)
      requires Inv(i, at, frameEnd, open) && Validate(i) == OK
      ensures !i.inFrame && i.numFrames == i.vp8 + i.vp8l + i.anmf
    {
    }
  }

  // ---- a still image and an animation in one file ----

  /** The kinds of all chunks, sub-chunks of animation frames after the frame. */
  function Ids(body: seq<byte>): seq<Id>
    decreases |body|
  {
    if body == [] || NextChunk(body).Bad? || NextChunk(body).skip > |body| then []
    else [NextChunk(body).chunk.id] + Ids(body[NextChunk(body).skip..])
  }

  ghost predicate HasAnim(ids: seq<Id>) { exists k :: 0 <= k < |ids| && ids[k] == ANIM }

  /** No ANIM among the first k. */
  ghost predicate AnimFree(ids: seq<Id>, k: int) { forall j :: 0 <= j < k && j < |ids| ==> ids[j] != ANIM }

  /** An image comes before the first ANIM, and there is an ANIM. */
  ghost predicate ImageThenAnim(ids: seq<Id>) {
    exists k, m :: 0 <= k < m < |ids| && IsImage(ids[k]) && ids[m] == ANIM && AnimFree(ids, k)
  }

  lemma HasAnimFirst(id: Id, rest: seq<Id>)
    ensures HasAnim([id] + rest) <==> id == ANIM || HasAnim(rest)
  {
    var ids := [id] + rest;
    if HasAnim(rest) {
      var k :| 0 <= k < |rest| && rest[k] == ANIM;
      assert ids[k + 1] == ANIM;
    }
    if HasAnim(ids) && id != ANIM {
      var k :| 0 <= k < |ids| && ids[k] == ANIM;
      assert rest[k - 1] == ANIM;
    }
    assert ids[0] == id;
  }

  lemma AnimFreeFirst(id: Id, rest: seq<Id>, k: nat)
    requires id != ANIM
    ensures AnimFree([id] + rest, k + 1) <==> AnimFree(rest, k)
  {
    var ids := [id] + rest;
    assert forall j :: 0 <= j < |rest| ==> rest[j] == ids[j + 1];
    if AnimFree(ids, k + 1) {
      forall j | 0 <= j < k && j < |rest| ensures rest[j] != ANIM {
        assert ids[j + 1] != ANIM;
      }
    }
  }

  lemma ImageThenAnimFirst(id: Id, rest: seq<Id>)
    ensures ImageThenAnim([id] + rest) <==> id != ANIM && if IsImage(id) then HasAnim(rest) else ImageThenAnim(rest)
  {
    hide AnimFree;
    var ids := [id] + rest;
    assert AnimFree(ids, 0) by { NothingBefore(ids); }
    if ImageThenAnim(ids) {
      var k, m :| 0 <= k < m < |ids| && IsImage(ids[k]) && ids[m] == ANIM && AnimFree(ids, k);
      assert rest[m - 1] == ANIM;
      if k > 0 {
        assert id != ANIM by { FirstIsFree(ids, k); }
        AnimFreeFirst(id, rest, k - 1);
        assert IsImage(rest[k - 1]);
      }
    }
    if id != ANIM && IsImage(id) && HasAnim(rest) {
      var m :| 0 <= m < |rest| && rest[m] == ANIM;
      assert IsImage(ids[0]) && ids[m + 1] == ANIM;
    }
    if id != ANIM && ImageThenAnim(rest) {
      var k, m :| 0 <= k < m < |rest| && IsImage(rest[k]) && rest[m] == ANIM && AnimFree(rest, k);
      AnimFreeFirst(id, rest, k);
      assert IsImage(ids[k + 1]) && ids[m + 1] == ANIM && rest[m] == ANIM;
    }
  }

  lemma NothingBefore(ids: seq<Id>)
    ensures AnimFree(ids, 0)
  {
  }

  lemma FirstIsFree(ids: seq<Id>, k: int)
    requires 0 < k <= |ids| && AnimFree(ids, k)
    ensures ids[0] != ANIM
  {
  }

  predicate Still(i: Info) { i.vp8 + i.vp8l > 0 }

  lemma CountsOfKind(i: Info, c: ChunkData, o: Oracle)
    requires c.Valid() && (i.inFrame ==> i.anim > 0) && ProcessKind(i, c, o).1 == OK
    ensures var j := ProcessKind(i, c, o).0;
            && j.anim == i.anim + (if c.id == ANIM then 1 else 0) && (j.inFrame ==> j.anim > 0)
            && (Still(j) <==> Still(i) || (i.anim == 0 && IsImage(c.id)))
  {
    hide GetLE;
    if IsImage(c.id) {
      assert ProcessKind(i, c, o) == ProcessImage(i, c, o);
    } else if c.id == ANMF {
      assert ProcessKind(i, c, o) == ProcessANMF(i, c);
    }
  }

  /** What a chunk that is accepted adds: frames are open only behind an ANIM, and
      behind an ANIM no still image is counted. */
  lemma CountsOfStep(i: Info, c: ChunkData, o: Oracle)
    requires c.Valid() && (i.inFrame ==> i.anim > 0) && Process(i, c, o).1 == OK
    ensures var j := Process(i, c, o).0;
            && j.anim == i.anim + (if c.id == ANIM then 1 else 0) && (j.inFrame ==> j.anim > 0)
            && (Still(j) <==> Still(i) || (i.anim == 0 && IsImage(c.id)))
  {
    hide ProcessKind;
    CountsOfKind(i, c, o);
  }

  /** What a walk without an error has counted. */
  lemma {:induction false} CountsOfWalk(body: seq<byte>, i: Info, o: Oracle)
    requires (i.inFrame ==> i.anim > 0) && Walk(body, i, o).1 == OK
    ensures var j := Walk(body, i, o).0;
            Still(j) && j.anim > 0 <==>
              if Still(i) then i.anim > 0 || HasAnim(Ids(body)) else i.anim == 0 && ImageThenAnim(Ids(body))
    decreases |body|
  {
    hide NextChunk, Process, HasAnim, ImageThenAnim;
    if body != [] {
      var c, skip := NextChunk(body).chunk, NextChunk(body).skip;
      CountsOfStep(i, c, o);
      CountsOfWalk(body[skip..], Process(i, c, o).0, o);
      HasAnimFirst(c.id, Ids(body[skip..]));
      ImageThenAnimFirst(c.id, Ids(body[skip..]));
    } else {
      NoIds();
    }
  }

  lemma NoIds()
    ensures Ids([]) == [] && !HasAnim([]) && !ImageThenAnim([])
  {
  }

  /** Whether a file is a still image or an animation is checked in one direction only.
      An accepted file has both a still image and an ANIM chunk exactly when an image
      comes before the first ANIM. */
  lemma StillAndAnimation(body: seq<byte>, o: Oracle)
    requires Walk(body, INIT, o).1 == OK
    ensures Still(Walk(body, INIT, o).0) && Walk(body, INIT, o).0.anim > 0 <==> ImageThenAnim(Ids(body))
  {
    hide Walk, Ids, ImageThenAnim;
    CountsOfWalk(body, INIT, o);
  }

  /** Such a file: VP8X with the animation flag and a canvas of one pixel, the image,
      ANIM, and a frame that holds the image again. */
  function StillAndFrame(image: seq<byte>): seq<byte> {
    Encode(Tag(VP8X), [ANIMATION_FLAG, 0, 0, 0, 0, 0, 0, 0, 0, 0])
    + (Encode(Tag(VP8), image)
    + (Encode(Tag(ANIM), [0, 0, 0, 0, 0, 0])
    + Encode(Tag(ANMF), seq(ANMF_CHUNK_SIZE, i => 0) + Encode(Tag(VP8), image))))
  }

  lemma WalkChunk(id: Id, payload: seq<byte>, rest: seq<byte>, i: Info, o: Oracle)
    requires id != UNKNOWN && id != ANMF && |payload| <= MAX_CHUNK_PAYLOAD
    ensures CHUNK_HEADER_SIZE <= |Encode(Tag(id), payload)|
    ensures var (j, status) := Process(i, ChunkData(id, Encode(Tag(id), payload)), o);
            Walk(Encode(Tag(id), payload) + rest, i, o) == if status != OK then (j, status) else Walk(rest, j, o)
  {
    hide NextChunk, Encode, Process;
    var e := Encode(Tag(id), payload);
    NextOfEncode(id, payload, rest);
    assert (e + rest)[|e|..] == rest;
  }

  /** The statistics of that file, chunk by chunk. */
  const AFTER_VP8X := INIT.(vp8x := 1, flags := ANIMATION_FLAG, canvasWidth := 1, canvasHeight := 1)
  const AFTER_IMAGE := AFTER_VP8X.(vp8 := 1, numFrames := 1)
  const AFTER_ANIM := AFTER_IMAGE.(anim := 1)

  function InFrame(left: nat): Info {
    AFTER_ANIM.(anmf := 1, inFrame := true, frameWidth := 1, frameHeight := 1, frameLeft := left)
  }

  lemma ZeroBytes(c: ChunkData, from: nat)
    requires from + 3 <= |c.bytes| && c.bytes[from] == c.bytes[from + 1] == c.bytes[from + 2] == 0
    ensures GetLE(c.bytes[from..from + 3]) == 0
  {
    var b := c.bytes[from..from + 3];
    assert b == [0, 0, 0];
    assert b[1..] == [0, 0] && b[1..][1..] == [0] && b[1..][1..][1..] == [];
    assert GetLE(b[1..][1..]) == 0;
    assert GetLE(b[1..]) == 0;
  }

  lemma TheVp8x(o: Oracle)
    ensures var payload := [ANIMATION_FLAG, 0, 0, 0, 0, 0, 0, 0, 0, 0];
            Process(INIT, ChunkData(VP8X, Encode(Tag(VP8X), payload)), o) == (AFTER_VP8X, OK)
  {
    hide LE, GetLE;
    var c := ChunkData(VP8X, Encode(Tag(VP8X), [ANIMATION_FLAG, 0, 0, 0, 0, 0, 0, 0, 0, 0]));
    assert c.bytes[8] as nat == ANIMATION_FLAG;
    ZeroBytes(c, 12);
    ZeroBytes(c, 15);
  }

  lemma TheFrame(sub: seq<byte>, o: Oracle)
    requires sub != [] && |sub| % 2 == 0
    ensures var payload := seq(ANMF_CHUNK_SIZE, i => 0) + sub;
            Process(AFTER_ANIM, ChunkData(ANMF, Encode(Tag(ANMF), payload)), o) == (InFrame(|sub|), OK)
  {
    hide LE, GetLE;
    var c := ChunkData(ANMF, Encode(Tag(ANMF), seq(ANMF_CHUNK_SIZE, i => 0) + sub));
    assert forall k :: 8 <= k < 8 + ANMF_CHUNK_SIZE ==> c.bytes[k] == 0;
    ZeroBytes(c, 8);
    ZeroBytes(c, 11);
    ZeroBytes(c, 14);
    ZeroBytes(c, 17);
  }

  /** It is accepted, for every image of one pixel. */
  lemma StillAndFrameAccepted(image: seq<byte>, o: Oracle)
    requires |StillAndFrame(image)| + 4 <= MAX_CHUNK_PAYLOAD
    requires var c := ChunkData(VP8, Encode(Tag(VP8), image));
             o.features(c) == Features(true, 1, 1, false) && o.bitstream(c) == OK
    ensures Analyze(File(StillAndFrame(image)), o) == (AFTER_ANIM.(anmf := 1, numFrames := 2, inFrame := false,
              frameWidth := 1, frameHeight := 1, frameLeft := |Encode(Tag(VP8), image)|, seenImage := true), OK)
  {
    hide NextChunk, Process, Walk, Encode, ParseRIFF, File;
    var sub := Encode(Tag(VP8), image);
    var c := ChunkData(VP8, sub);
    var head := seq(ANMF_CHUNK_SIZE, i => 0);
    var frame := Encode(Tag(ANMF), head + sub);
    var anim := Encode(Tag(ANIM), [0, 0, 0, 0, 0, 0]) + frame;
    EncodeSize(VP8, image);
    TheVp8x(o);
    WalkChunk(VP8X, [ANIMATION_FLAG, 0, 0, 0, 0, 0, 0, 0, 0, 0], sub + anim, INIT, o);
    TheImages(c, o);
    WalkChunk(VP8, image, anim, AFTER_VP8X, o);
    EncodeSize(ANIM, [0, 0, 0, 0, 0, 0]);
    TheAnim(o);
    WalkChunk(ANIM, [0, 0, 0, 0, 0, 0], frame, AFTER_IMAGE, o);
    TheFrame(sub, o);
    WalkFrame(head, sub, AFTER_ANIM, InFrame(|sub|), o);
    WalkChunk(VP8, image, [], InFrame(|sub|), o);
    assert sub + [] == sub;
    WalkEnd(Process(InFrame(|sub|), c, o).0, o);
    EncodeSize(VP8X, [ANIMATION_FLAG, 0, 0, 0, 0, 0, 0, 0, 0, 0]);
    EncodeSize(ANMF, head + sub);
    RiffOfFile(StillAndFrame(image));
    Flags();
  }

  lemma EncodeSize(id: Id, payload: seq<byte>)
    requires id != UNKNOWN
    ensures |Encode(Tag(id), payload)| == CHUNK_HEADER_SIZE + |payload| + |payload| % 2
  {
  }

  lemma Flags()
    ensures HasFlag(ANIMATION_FLAG, ANIMATION_FLAG) && !HasFlag(ANIMATION_FLAG, ICCP_FLAG)
    ensures !HasFlag(ANIMATION_FLAG, EXIF_FLAG) && !HasFlag(ANIMATION_FLAG, XMP_FLAG)
  {
  }

  lemma WalkEnd(i: Info, o: Oracle)
    ensures Walk([], i, o) == (i, OK)
  {
  }

  lemma TheAnim(o: Oracle)
    ensures Process(AFTER_IMAGE, ChunkData(ANIM, Encode(Tag(ANIM), [0, 0, 0, 0, 0, 0])), o) == (AFTER_ANIM, OK)
  {
    hide LE;
  }

  lemma TheImages(c: ChunkData, o: Oracle)
    requires c.Valid() && c.id == VP8 && o.features(c) == Features(true, 1, 1, false) && o.bitstream(c) == OK
    ensures Process(AFTER_VP8X, c, o) == (AFTER_IMAGE, OK)
    ensures Process(InFrame(|c.bytes|), c, o) ==
              (InFrame(|c.bytes|).(numFrames := 2, seenImage := true, inFrame := false), OK)
  {
  }

  lemma WalkFrame(head: seq<byte>, sub: seq<byte>, i: Info, j: Info, o: Oracle)
    requires |head| == ANMF_CHUNK_SIZE && sub != [] && |sub| % 2 == 0 && |head + sub| <= MAX_CHUNK_PAYLOAD
    requires Process(i, ChunkData(ANMF, Encode(Tag(ANMF), head + sub)), o) == (j, OK)
    ensures Walk(Encode(Tag(ANMF), head + sub), i, o) == Walk(sub, j, o)
  {
    hide NextChunk, Process, LE;
    var e := Encode(Tag(ANMF), head + sub);
    NextOfFrame(head + sub, []);
    assert e + [] == e;
    assert e[CHUNK_HEADER_SIZE + ANMF_CHUNK_SIZE..] == sub;
  }

  /** A lossy bitstream of one pixel. */
  const ONE_PIXEL: seq<byte> := [0x30, 0x01, 0x00, 0x9d, 0x01, 0x2a, 0x01, 0x00, 0x01, 0x00, 0x0e,
                                 0xc0, 0xfe, 0x25, 0xa4, 0x00, 0x03, 0x70, 0x00, 0x00, 0x00, 0x00]

  /** One such file, byte by byte. */
  lemma AcceptedStillAndFrame(o: Oracle)
    requires var c := ChunkData(VP8, Encode(Tag(VP8), ONE_PIXEL));
             o.features(c) == Features(true, 1, 1, false) && o.bitstream(c) == OK
    ensures Analyze(File(StillAndFrame(ONE_PIXEL)), o).1 == OK
    ensures var i := Analyze(File(StillAndFrame(ONE_PIXEL)), o).0; i.vp8 == i.anim == i.anmf == 1 && i.numFrames == 2
  {
    StillAndFrameAccepted(ONE_PIXEL, o);
  }
}

/** cwebp: writing an encoded image together with metadata chunks, byte by byte, and
    what webpinfo makes of the file. */
module MetadataWriter {
  import opened Riff
  import opened WebpInfo

  datatype Metadata = Metadata(exif: seq<byte>, iccp: seq<byte>, xmp: seq<byte>)

  /** keep_metadata. */
  datatype Keep = Keep(exif: bool, icc: bool, xmp: bool)

  const VP8X_HEADER: seq<byte> := [0x56, 0x50, 0x38, 0x58, 0x0a, 0x00, 0x00, 0x00]
  const VP8X_SIZE := 18   // kVP8XChunkSize

  // ---- what is written ----

  /** The part of the metadata that is kept and there. */
  function Kept(m: Metadata, keep: Keep): (r: Metadata)
    ensures r.exif != [] <==> keep.exif && m.exif != []
    ensures r.iccp != [] <==> keep.icc && m.iccp != []
    ensures r.xmp != [] <==> keep.xmp && m.xmp != []
    ensures (r.exif == [] || r.exif == m.exif) && (r.iccp == [] || r.iccp == m.iccp) && (r.xmp == [] || r.xmp == m.xmp)
  {
    Metadata(if keep.exif then m.exif else [], if keep.icc then m.iccp else [], if keep.xmp then m.xmp else [])
  }

  function SetFlag(flags: nat, flag: nat, on: bool): nat
    requires flag > 0
  {
    if on && !HasFlag(flags, flag) then flags + flag else flags
  }

  /** flags |= those of the metadata. */
  function OrFlags(flags: nat, m: Metadata): nat {
    SetFlag(SetFlag(SetFlag(flags, EXIF_FLAG, m.exif != []), ICCP_FLAG, m.iccp != []), XMP_FLAG, m.xmp != [])
  }

  function ChunkOf(id: Id, payload: seq<byte>): seq<byte>
    requires id != UNKNOWN
  {
    if payload == [] then [] else Encode(Tag(id), payload)
  }

  function MetadataSize(m: Metadata): nat {
    |ChunkOf(EXIF, m.exif)| + |ChunkOf(ICCP, m.iccp)| + |ChunkOf(XMP, m.xmp)|
  }

  predicate HasVp8x(body: seq<byte>) { |body| >= 4 && body[..4] == Tag(VP8X) }

  /** The VP8X chunk for an image without one. A lossless image carries its alpha bit
      as the 37th bit of its data. */
  function NewVp8x(body: seq<byte>, width: nat, height: nat, m: Metadata): seq<byte>
    requires width > 0 && height > 0
  {
    var alpha := |body| > 12 && body[..4] == Tag(VP8L) && HasFlag(body[12] as nat, 0x10);
    VP8X_HEADER + LE(SetFlag(OrFlags(0, m), ALPHA_FLAG, alpha), 4) + LE(width - 1, 3) + LE(height - 1, 3)
  }

  /** The chunks of the file written for the chunks of the encoded image. */
  function NewBody(body: seq<byte>, width: nat, height: nat, m: Metadata): seq<byte>
    requires width > 0 && height > 0
    requires HasVp8x(body) ==> VP8X_SIZE <= |body| && OrFlags(body[8] as nat, m) < 256
  {
    (if HasVp8x(body) then body[..VP8X_SIZE][8 := OrFlags(body[8] as nat, m)] else NewVp8x(body, width, height, m))
    + ChunkOf(ICCP, m.iccp)
    + (if HasVp8x(body) then body[VP8X_SIZE..] else body)
    + ChunkOf(EXIF, m.exif) + ChunkOf(XMP, m.xmp)
  }

  lemma FlagsStayBytes(flags: nat, m: Metadata)
    requires flags < 256
    ensures OrFlags(flags, m) < 256
    ensures HasFlag(OrFlags(flags, m), EXIF_FLAG) <==> HasFlag(flags, EXIF_FLAG) || m.exif != []
    ensures HasFlag(OrFlags(flags, m), ICCP_FLAG) <==> HasFlag(flags, ICCP_FLAG) || m.iccp != []
    ensures HasFlag(OrFlags(flags, m), XMP_FLAG) <==> HasFlag(flags, XMP_FLAG) || m.xmp != []
    ensures HasFlag(OrFlags(flags, m), ALPHA_FLAG) <==> HasFlag(flags, ALPHA_FLAG)
    ensures HasFlag(OrFlags(flags, m), ANIMATION_FLAG) <==> HasFlag(flags, ANIMATION_FLAG)
  {
    var f1 := SetFlag(flags, EXIF_FLAG, m.exif != []);
    var f2 := SetFlag(f1, ICCP_FLAG, m.iccp != []);
    SetOneFlag(flags, EXIF_FLAG, m.exif != []);
    SetOneFlag(f1, ICCP_FLAG, m.iccp != []);
    SetOneFlag(f2, XMP_FLAG, m.xmp != []);
  }

  predicate IsFlag(flag: nat) {
    flag == ICCP_FLAG || flag == ALPHA_FLAG || flag == EXIF_FLAG || flag == XMP_FLAG || flag == ANIMATION_FLAG
  }

  lemma SetOneFlag(flags: nat, flag: nat, on: bool)
    requires flags < 256 && IsFlag(flag)
    ensures SetFlag(flags, flag, on) < 256
    ensures forall g :: IsFlag(g) ==> (HasFlag(SetFlag(flags, flag, on), g) <==> HasFlag(flags, g) || (on && g == flag))
  {
    hide HasFlag;
    forall g | IsFlag(g)
      ensures HasFlag(SetFlag(flags, flag, on), g) <==> HasFlag(flags, g) || (on && g == flag)
    {
      if on && !HasFlag(flags, flag) {
        AddFlag(flags, flag, g);
      }
    }
    if on && !HasFlag(flags, flag) {
      AddFlag(flags, flag, flag);
    }
  }

  lemma AddFlag(flags: nat, flag: nat, g: nat)
    requires flags < 256 && IsFlag(flag) && IsFlag(g) && !HasFlag(flags, flag)
    ensures flags + flag < 256 && (HasFlag(flags + flag, g) <==> HasFlag(flags, g) || g == flag)
  {
    hide HasFlag;
    var b0, b1, b2, b3, b4, b5, r :=
      flags % 2, flags / 2 % 2, flags / 4 % 2, flags / 8 % 2, flags / 16 % 2, flags / 32 % 2, flags / 64;
    FlagBits(flags);
    FlagBits(flags + flag);
    assert flags == b0 + 2 * b1 + 4 * b2 + 8 * b3 + 16 * b4 + 32 * b5 + 64 * r by { SumOfBits(flags); }
    if flag == ANIMATION_FLAG {
      Bits(flags + 2, b0, 1, b2, b3, b4, b5, r);
    } else if flag == XMP_FLAG {
      Bits(flags + 4, b0, b1, 1, b3, b4, b5, r);
    } else if flag == EXIF_FLAG {
      Bits(flags + 8, b0, b1, b2, 1, b4, b5, r);
    } else if flag == ALPHA_FLAG {
      Bits(flags + 16, b0, b1, b2, b3, 1, b5, r);
    } else {
      Bits(flags + 32, b0, b1, b2, b3, b4, 1, r);
    }
  }

  lemma FlagBits(n: nat)
    ensures HasFlag(n, ICCP_FLAG) <==> n / 32 % 2 == 1
    ensures HasFlag(n, ALPHA_FLAG) <==> n / 16 % 2 == 1
    ensures HasFlag(n, EXIF_FLAG) <==> n / 8 % 2 == 1
    ensures HasFlag(n, XMP_FLAG) <==> n / 4 % 2 == 1
    ensures HasFlag(n, ANIMATION_FLAG) <==> n / 2 % 2 == 1
  {
  }

  lemma SumOfBits(n: nat)
    ensures n == n % 2 + 2 * (n / 2 % 2) + 4 * (n / 4 % 2) + 8 * (n / 8 % 2) + 16 * (n / 16 % 2) + 32 * (n / 32 % 2) + 64 * (n / 64)
  {
    var n1 := n / 2;
    var n2 := n1 / 2;
    var n3 := n2 / 2;
    var n4 := n3 / 2;
    var n5 := n4 / 2;
    assert n / 4 == n2 && n / 8 == n3 && n / 16 == n4 && n / 32 == n5 && n / 64 == n5 / 2;
  }

  lemma Bits(n: nat, b0: nat, b1: nat, b2: nat, b3: nat, b4: nat, b5: nat, r: nat)
    requires b0 < 2 && b1 < 2 && b2 < 2 && b3 < 2 && b4 < 2 && b5 < 2
    requires n == b0 + 2 * b1 + 4 * b2 + 8 * b3 + 16 * b4 + 32 * b5 + 64 * r
    ensures n / 2 % 2 == b1 && n / 4 % 2 == b2 && n / 8 % 2 == b3 && n / 16 % 2 == b4 && n / 32 % 2 == b5 && n / 64 == r
  {
    var n5 := b5 + 2 * r;
    var n4 := b4 + 2 * n5;
    var n3 := b3 + 2 * n4;
    var n2 := b2 + 2 * n3;
    var n1 := b1 + 2 * n2;
    Half(n, b0, n1);
    Half(n1, b1, n2);
    Half(n2, b2, n3);
    Half(n3, b3, n4);
    Half(n4, b4, n5);
    Half(n5, b5, r);
  }

  lemma Half(n: nat, b: nat, q: nat)
    requires b < 2 && n == b + 2 * q
    ensures n / 2 == q && n % 2 == b
    ensures n / 4 == q / 2 && n / 8 == q / 4 && n / 16 == q / 8 && n / 32 == q / 16 && n / 64 == q / 32
  {
  }

  // ---- webpinfo on the file with metadata ----

  /** The statistics of the file with metadata while those of the bare file are i: an
      extra VP8X chunk (v of them), other flags, k more ICCP chunks. */
  function Shift(i: Info, v: nat, flags: nat, k: nat): Info {
    i.(vp8x := i.vp8x + v, flags := flags, iccp := i.iccp + k)
  }

  /** Either the bare file had its VP8X chunk, or it has shown its only image. */
  predicate PastStart(i: Info, v: nat) {
    if v == 0 then i.vp8x > 0 else i.vp8x == 0 && i.vp8 + i.vp8l > 0 && !i.inFrame && i.anim == 0 && i.numFrames == 1
  }

  lemma ShiftKind(i: Info, c: ChunkData, o: Oracle, v: nat, flags: nat, k: nat)
    requires c.Valid() && PastStart(i, v) && ProcessKind(i, c, o).1 == OK
    ensures ProcessKind(Shift(i, v, flags, k), c, o) == (Shift(ProcessKind(i, c, o).0, v, flags, k), OK)
    ensures ProcessKind(i, c, o).0.flags == i.flags
    ensures PastStart(ProcessKind(i, c, o).0, v) && (v > 0 ==> ProcessKind(i, c, o).0.hasAlpha == i.hasAlpha)
  {
    hide GetLE;
    if c.id == ANMF {
      hide ProcessImage, ProcessALPH;
      assert ProcessANMF(Shift(i, v, flags, k), c) == (Shift(ProcessANMF(i, c).0, v, flags, k), OK);
    } else if IsImage(c.id) {
      hide ProcessANMF, ProcessALPH;
      assert ProcessImage(Shift(i, v, flags, k), c, o) == (Shift(ProcessImage(i, c, o).0, v, flags, k), OK);
    } else if c.id == ALPH {
      hide ProcessANMF, ProcessImage;
      assert ProcessALPH(Shift(i, v, flags, k), c, o) == (Shift(ProcessALPH(i, c, o).0, v, flags, k), OK);
    }
  }

  lemma ShiftStep(i: Info, c: ChunkData, o: Oracle, v: nat, flags: nat, k: nat)
    requires c.Valid() && PastStart(i, v) && Process(i, c, o).1 == OK
    ensures Process(Shift(i, v, flags, k), c, o) == (Shift(Process(i, c, o).0, v, flags, k), OK)
    ensures Process(i, c, o).0.flags == i.flags
    ensures PastStart(Process(i, c, o).0, v) && (v > 0 ==> Process(i, c, o).0.hasAlpha == i.hasAlpha)
  {
    hide ProcessKind;
    ShiftKind(i, c, o, v, flags, k);
  }

  /** Chunks that the bare file passes are passed with metadata around them too. */
  lemma {:induction false} ShiftWalk(body: seq<byte>, tail: seq<byte>, i: Info, o: Oracle, v: nat, flags: nat, k: nat)
    requires PastStart(i, v) && Walk(body, i, o).1 == OK
    ensures Walk(body + tail, Shift(i, v, flags, k), o) == Walk(tail, Shift(Walk(body, i, o).0, v, flags, k), o)
    ensures Walk(body, i, o).0.flags == i.flags
    ensures PastStart(Walk(body, i, o).0, v) && (v > 0 ==> Walk(body, i, o).0.hasAlpha == i.hasAlpha)
    decreases |body|
  {
    hide NextChunk, Process, Shift, PastStart;
    if body == [] {
      assert body + tail == tail;
    } else {
      NextOfPrefix(body, tail);
      var c, skip := NextChunk(body).chunk, NextChunk(body).skip;
      ShiftStep(i, c, o, v, flags, k);
      assert (body + tail)[skip..] == body[skip..] + tail;
      ShiftWalk(body[skip..], tail, Process(i, c, o).0, o, v, flags, k);
    }
  }

  /** A metadata chunk, if there is one, adds to its count. */
  lemma WalkMetadata(id: Id, payload: seq<byte>, rest: seq<byte>, i: Info, o: Oracle)
    requires id == EXIF || id == XMP || id == ICCP
    requires |payload| <= MAX_CHUNK_PAYLOAD && !i.inFrame
    requires id == ICCP ==> i.vp8x > 0 && i.vp8 == 0 && i.vp8l == 0 && i.anim == 0
    ensures Walk(ChunkOf(id, payload) + rest, i, o) ==
              Walk(rest, var n := if payload == [] then 0 else 1;
                         if id == EXIF then i.(exif := i.exif + n) else if id == XMP then i.(xmp := i.xmp + n)
                         else i.(iccp := i.iccp + n), o)
  {
    hide NextChunk, Encode;
    if payload == [] {
      assert ChunkOf(id, payload) + rest == rest;
    } else {
      var e := Encode(Tag(id), payload);
      NextOfEncode(id, payload, rest);
      assert (e + rest)[|e|..] == rest;
    }
  }

  /** EXIF and XMP behind everything else. */
  lemma WalkTail(m: Metadata, i: Info, o: Oracle)
    requires |m.exif| <= MAX_CHUNK_PAYLOAD && |m.xmp| <= MAX_CHUNK_PAYLOAD && !i.inFrame
    ensures Walk(ChunkOf(EXIF, m.exif) + ChunkOf(XMP, m.xmp), i, o) ==
              (i.(exif := i.exif + (if m.exif == [] then 0 else 1), xmp := i.xmp + (if m.xmp == [] then 0 else 1)), OK)
  {
    hide Walk, ChunkOf;
    var x := ChunkOf(XMP, m.xmp);
    var j := i.(exif := i.exif + (if m.exif == [] then 0 else 1));
    var l := j.(xmp := j.xmp + (if m.xmp == [] then 0 else 1));
    WalkMetadata(EXIF, m.exif, x, i, o);
    assert x == x + [];
    WalkMetadata(XMP, m.xmp, [], j, o);
    WalkNothing(l, o);
  }

  lemma WalkNothing(i: Info, o: Oracle)
    ensures Walk([], i, o) == (i, OK)
  {
  }

  // ---- the chunks that a reader finds ----

  function ChunkIf(id: Id, payload: seq<byte>): seq<ChunkData>
    requires id != UNKNOWN
  {
    if payload == [] then [] else [ChunkData(id, Encode(Tag(id), payload))]
  }

  lemma ChunksOfMetadata(id: Id, payload: seq<byte>)
    requires id != UNKNOWN && id != ANMF && |payload| <= MAX_CHUNK_PAYLOAD
    ensures Chunks(ChunkOf(id, payload)) == (ChunkIf(id, payload), OK)
  {
    if payload != [] {
      OneChunk(ChunkData(id, Encode(Tag(id), payload))) by {
        NextOfEncode(id, payload, []);
        assert Encode(Tag(id), payload) + [] == Encode(Tag(id), payload);
      }
    }
  }

  /** The fresh VP8X chunk is a chunk. */
  lemma NewVp8xIsChunk(body: seq<byte>, width: nat, height: nat, m: Metadata)
    requires width > 0 && height > 0
    ensures |NewVp8x(body, width, height, m)| == VP8X_SIZE
    ensures NewVp8x(body, width, height, m) == Encode(Tag(VP8X), NewVp8x(body, width, height, m)[8..])
  {
    hide SetFlag, OrFlags, HasFlag;
    assert LE(10, 4) == [10, 0, 0, 0] by {
      assert LE(10, 4) == [10] + LE(0, 3) && LE(0, 3) == [0] + LE(0, 2) && LE(0, 2) == [0] + LE(0, 1) && LE(0, 1) == [0] + LE(0, 0);
    }
  }

  /** What a reader finds in the new chunk: the size of the canvas, a flag for each kind
      of metadata that is there and for the alpha of a lossless image, and no others. */
  lemma NewVp8xReadBack(body: seq<byte>, width: nat, height: nat, m: Metadata)
    requires 0 < width <= 0x100_0000 && 0 < height <= 0x100_0000
    ensures var c := NewVp8x(body, width, height, m);
            && |c| == VP8X_SIZE && c[..4] == Tag(VP8X) && GetLE(c[4..8]) == |c| - 8
            && 1 + GetLE(c[12..15]) == width && 1 + GetLE(c[15..18]) == height
            && (HasFlag(c[8] as nat, EXIF_FLAG) <==> m.exif != []) && (HasFlag(c[8] as nat, ICCP_FLAG) <==> m.iccp != [])
            && (HasFlag(c[8] as nat, XMP_FLAG) <==> m.xmp != []) && !HasFlag(c[8] as nat, ANIMATION_FLAG)
            && (HasFlag(c[8] as nat, ALPHA_FLAG) <==> |body| > 12 && body[..4] == Tag(VP8L) && HasFlag(body[12] as nat, 0x10))
  {
    hide SetFlag, OrFlags, HasFlag, LE, GetLE;
    var alpha := |body| > 12 && body[..4] == Tag(VP8L) && HasFlag(body[12] as nat, 0x10);
    var flags := SetFlag(OrFlags(0, m), ALPHA_FLAG, alpha);
    var c := NewVp8x(body, width, height, m);
    FlagsStayBytes(0, m);
    SetOneFlag(OrFlags(0, m), ALPHA_FLAG, alpha);
    FlagBits(0);
    FirstByte(flags);
    assert c[4..8] == [0x0a, 0, 0, 0];
    ChunkSizeTen();
    assert c[8] == LE(flags, 4)[0];
    assert |c| == VP8X_SIZE && c[12..15] == LE(width - 1, 3);
    assert c[15..] == LE(height - 1, 3);
    assert c[15..18] == c[15..];
    GetOfLE24(width - 1);
    GetOfLE24(height - 1);
  }

  lemma ChunkSizeTen()
    ensures GetLE([0x0a, 0, 0, 0]) == 10
  {
    var s: seq<byte> := [0x0a, 0, 0, 0];
    assert s[1..] == [0, 0, 0] && s[1..][1..] == [0, 0] && s[1..][1..][1..] == [0] && s[1..][1..][1..][1..] == [];
  }

  /** The first chunk of a body that starts with a sound VP8X chunk, whatever its flags. */
  lemma FirstIsVp8x(body: seq<byte>, flags: byte, rest: seq<byte>)
    requires HasVp8x(body) && NextChunk(body).Good? && NextChunk(body).skip == VP8X_SIZE
    ensures |body| >= VP8X_SIZE && NextChunk(body) == Good(ChunkData(VP8X, body[..VP8X_SIZE]), VP8X_SIZE)
    ensures NextChunk(body[..VP8X_SIZE][8 := flags] + rest) == Good(ChunkData(VP8X, body[..VP8X_SIZE][8 := flags]), VP8X_SIZE)
  {
    hide GetLE;
    IdOfTag(VP8X);
    var new_ := body[..VP8X_SIZE][8 := flags] + rest;
    assert new_[..4] == body[..4] && new_[4..8] == body[4..8];
    assert new_[..VP8X_SIZE] == body[..VP8X_SIZE][8 := flags];
  }

  /** The start of a bare image that the writer's has_vp8x test takes for a VP8X chunk
      must be a whole one. */
  predicate SoundStart(body: seq<byte>) {
    HasVp8x(body) ==> NextChunk(body).Good? && NextChunk(body).skip == VP8X_SIZE
  }

  /** The image chunks, without the VP8X chunk that the file may have had. */
  function ImageChunks(body: seq<byte>): seq<ChunkData> {
    if HasVp8x(body) && |body| >= VP8X_SIZE then Chunks(body[VP8X_SIZE..]).0 else Chunks(body).0
  }

  /** Reading the file with metadata gives the VP8X chunk, then ICCP, the image chunks
      of the bare file, EXIF and XMP, each if there is one, with their payloads. */
  lemma RoundTrip(body: seq<byte>, width: nat, height: nat, m: Metadata)
    requires width > 0 && height > 0 && SoundStart(body) && Chunks(body).1 == OK
    requires |m.exif| <= MAX_CHUNK_PAYLOAD && |m.iccp| <= MAX_CHUNK_PAYLOAD && |m.xmp| <= MAX_CHUNK_PAYLOAD
    ensures HasVp8x(body) ==> VP8X_SIZE <= |body| && OrFlags(body[8] as nat, m) < 256
    ensures var vp8x := if HasVp8x(body) then body[..VP8X_SIZE][8 := OrFlags(body[8] as nat, m)] else NewVp8x(body, width, height, m);
            Chunks(NewBody(body, width, height, m)) ==
              ([ChunkData(VP8X, vp8x)] + ChunkIf(ICCP, m.iccp) + ImageChunks(body) + ChunkIf(EXIF, m.exif) + ChunkIf(XMP, m.xmp), OK)
  {
    hide NextChunk, OrFlags, NewVp8x, ChunkOf, ChunkIf, Chunks;
    var rest := body;
    var vp8x: seq<byte>;
    if HasVp8x(body) {
      FirstIsVp8x(body, 0, []);
      FlagsStayBytes(body[8] as nat, m);
      rest := body[VP8X_SIZE..];
      FirstOfChunks(body, NextChunk(body).chunk, VP8X_SIZE);
      vp8x := body[..VP8X_SIZE][8 := OrFlags(body[8] as nat, m)];
      FirstIsVp8x(body, OrFlags(body[8] as nat, m), []);
    } else {
      NewVp8xIsChunk(body, width, height, m);
      vp8x := NewVp8x(body, width, height, m);
      NextOfEncode(VP8X, vp8x[8..], []);
    }
    assert vp8x + [] == vp8x;
    OneChunk(ChunkData(VP8X, vp8x));
    var iccp, exif, xmp := ChunkOf(ICCP, m.iccp), ChunkOf(EXIF, m.exif), ChunkOf(XMP, m.xmp);
    ChunksOfMetadata(ICCP, m.iccp);
    ChunksOfMetadata(EXIF, m.exif);
    ChunksOfMetadata(XMP, m.xmp);
    ChunksOfFive(vp8x, iccp, rest, exif, xmp);
  }

  lemma ChunksOfFive(a: seq<byte>, b: seq<byte>, c: seq<byte>, d: seq<byte>, e: seq<byte>)
    requires Chunks(a).1 == Chunks(b).1 == Chunks(c).1 == Chunks(d).1 == Chunks(e).1 == OK
    ensures Chunks(a + b + c + d + e) == (Chunks(a).0 + Chunks(b).0 + Chunks(c).0 + Chunks(d).0 + Chunks(e).0, OK)
  {
    hide Chunks;
    ChunksAppend(a, b);
    ChunksAppend(a + b, c);
    ChunksAppend(a + b + c, d);
    ChunksAppend(a + b + c + d, e);
  }

  // ---- webpinfo accepts what cwebp writes ----

  /** What webpinfo must have found in the bare file: nothing wrong, no metadata; and,
      if it is a lone image chunk, the size that cwebp knows, and alpha only where the
      alpha bit of a lossless image says so. */
  ghost predicate BareImage(body: seq<byte>, width: nat, height: nat, o: Oracle) {
    && SoundStart(body) && body != []
    && var (i, status) := Walk(body, INIT, o);
    && status == OK && Validate(i) == OK && i.iccp == i.exif == i.xmp == 0
    && (!HasVp8x(body) ==>
          && NextChunk(body).Good? && IsImage(NextChunk(body).chunk.id)
          && o.features(NextChunk(body).chunk).width == width && o.features(NextChunk(body).chunk).height == height
          && (o.features(NextChunk(body).chunk).hasAlpha ==>
                NextChunk(body).chunk.id == VP8L && |body| > 12 && HasFlag(body[12] as nat, 0x10)))
  }

  /** The flags of the VP8X chunk written. */
  function NewFlags(body: seq<byte>, m: Metadata): nat {
    if HasVp8x(body) then if |body| > 8 then OrFlags(body[8] as nat, m) else 0
    else SetFlag(OrFlags(0, m), ALPHA_FLAG, |body| > 12 && body[..4] == Tag(VP8L) && HasFlag(body[12] as nat, 0x10))
  }

  /** The final statistics of the file with metadata. */
  function WithMetadata(i: Info, v: nat, flags: nat, m: Metadata): Info {
    var n := (s: seq<byte>) => if s == [] then 0 else 1;
    Shift(i, v, flags, n(m.iccp)).(exif := i.exif + n(m.exif), xmp := i.xmp + n(m.xmp))
  }

  lemma FinalCheckOfOld(i: Info, m: Metadata)
    requires Validate(i) == OK && i.iccp == i.exif == i.xmp == 0 && i.vp8x > 0 && i.flags < 256
    ensures Validate(WithMetadata(i, 0, OrFlags(i.flags, m), m)) == OK
  {
    hide HasFlag, OrFlags, SetFlag;
    FlagsStayBytes(i.flags, m);
  }

  lemma FinalCheckOfNew(i: Info, m: Metadata, alpha: bool)
    requires i.iccp == i.exif == i.xmp == 0 && PastStart(i, 1) && (i.hasAlpha ==> alpha)
    ensures Validate(WithMetadata(i, 1, SetFlag(OrFlags(0, m), ALPHA_FLAG, alpha), m)) == OK
  {
    hide HasFlag, OrFlags, SetFlag;
    FlagsStayBytes(0, m);
    SetOneFlag(OrFlags(0, m), ALPHA_FLAG, alpha);
    FlagBits(0);
  }

  /** The statistics behind the VP8X chunk. */
  function AfterVp8x(flags: nat, width: int, height: int): Info {
    INIT.(vp8x := 1, flags := flags, canvasWidth := width, canvasHeight := height)
  }

  lemma WalkOldVp8x(body: seq<byte>, flags: byte, rest: seq<byte>, o: Oracle)
    requires HasVp8x(body) && SoundStart(body) && Walk(body, INIT, o).1 == OK
    ensures |body| >= VP8X_SIZE
    ensures var w, h := 1 + GetLE(body[12..15]), 1 + GetLE(body[15..18]);
            && Walk(body, INIT, o) == Walk(body[VP8X_SIZE..], AfterVp8x(body[8] as nat, w, h), o)
            && Walk(body[..VP8X_SIZE][8 := flags] + rest, INIT, o) == Walk(rest, AfterVp8x(flags as nat, w, h), o)
  {
    hide NextChunk, GetLE;
    FirstIsVp8x(body, flags, rest);
    var b := body[..VP8X_SIZE][8 := flags];
    assert b[12..15] == body[12..15] && b[15..18] == body[15..18];
    assert body[..VP8X_SIZE][12..15] == body[12..15] && body[..VP8X_SIZE][15..18] == body[15..18];
    assert (b + rest)[VP8X_SIZE..] == rest;
  }

  lemma WalkNewVp8x(body: seq<byte>, width: nat, height: nat, m: Metadata, rest: seq<byte>, o: Oracle)
    requires 0 < width <= 0x100_0000 && 0 < height <= 0x100_0000
    ensures var alpha := |body| > 12 && body[..4] == Tag(VP8L) && HasFlag(body[12] as nat, 0x10);
            Walk(NewVp8x(body, width, height, m) + rest, INIT, o) ==
              Walk(rest, AfterVp8x(SetFlag(OrFlags(0, m), ALPHA_FLAG, alpha), width, height), o)
  {
    hide NextChunk, GetLE, HasFlag, OrFlags, SetFlag, LE;
    var alpha := |body| > 12 && body[..4] == Tag(VP8L) && HasFlag(body[12] as nat, 0x10);
    var flags := SetFlag(OrFlags(0, m), ALPHA_FLAG, alpha);
    var b := NewVp8x(body, width, height, m);
    NewVp8xIsChunk(body, width, height, m);
    NextOfEncode(VP8X, b[8..], rest);
    FlagsStayBytes(0, m);
    SetOneFlag(OrFlags(0, m), ALPHA_FLAG, alpha);
    FirstByte(flags);
    assert b[12..15] == LE(width - 1, 3) && b[15..18] == LE(height - 1, 3);
    GetOfLE24(width - 1);
    GetOfLE24(height - 1);
    assert (b + rest)[VP8X_SIZE..] == rest;
  }

  lemma FirstByte(flags: nat)
    requires flags < 256
    ensures LE(flags, 4)[0] as int == flags
  {
  }

  lemma FitChunks(body: seq<byte>, width: nat, height: nat, m: Metadata)
    requires width > 0 && height > 0 && (HasVp8x(body) ==> VP8X_SIZE <= |body| && OrFlags(body[8] as nat, m) < 256)
    ensures |m.exif| <= |NewBody(body, width, height, m)| && |m.iccp| <= |NewBody(body, width, height, m)|
    ensures |m.xmp| <= |NewBody(body, width, height, m)| && VP8X_SIZE <= |NewBody(body, width, height, m)|
  {
    hide LE;
    if !HasVp8x(body) {
      NewVp8xIsChunk(body, width, height, m);
    }
  }

  /** ICCP, the image, EXIF and XMP, behind the VP8X chunk. */
  lemma WalkBehindVp8x(image: seq<byte>, m: Metadata, i: Info, j: Info, o: Oracle, v: nat, flags: nat)
    requires |m.exif| <= MAX_CHUNK_PAYLOAD && |m.iccp| <= MAX_CHUNK_PAYLOAD && |m.xmp| <= MAX_CHUNK_PAYLOAD
    requires i.vp8x > 0 && i.vp8 == i.vp8l == i.anim == 0 && !i.inFrame && i.iccp == 0
    requires var n := if m.iccp == [] then 0 else 1;
             forall tail :: Walk(image + tail, i.(iccp := n), o) == Walk(tail, Shift(j, v, flags, n), o)
    requires !j.inFrame
    ensures Walk(ChunkOf(ICCP, m.iccp) + image + ChunkOf(EXIF, m.exif) + ChunkOf(XMP, m.xmp), i, o) == (WithMetadata(j, v, flags, m), OK)
  {
    hide ChunkOf, Walk;
    var n := if m.iccp == [] then 0 else 1;
    var tail := ChunkOf(EXIF, m.exif) + ChunkOf(XMP, m.xmp);
    assert ChunkOf(ICCP, m.iccp) + image + ChunkOf(EXIF, m.exif) + ChunkOf(XMP, m.xmp) == ChunkOf(ICCP, m.iccp) + (image + tail);
    WalkMetadata(ICCP, m.iccp, image + tail, i, o);
    assert Walk(image + tail, i.(iccp := n), o) == Walk(tail, Shift(j, v, flags, n), o);
    WalkTail(m, Shift(j, v, flags, n), o);
  }

  /** A file that webpinfo accepts without metadata is accepted with metadata, and the
      statistics differ only as the metadata makes them. */
  lemma Accepted(body: seq<byte>, width: nat, height: nat, m: Metadata, o: Oracle)
    requires 0 < width <= 0x100_0000 && 0 < height <= 0x100_0000
    requires BareImage(body, width, height, o)
    ensures HasVp8x(body) ==> VP8X_SIZE <= |body| && OrFlags(body[8] as nat, m) < 256
    ensures |NewBody(body, width, height, m)| + 4 <= MAX_CHUNK_PAYLOAD ==>
              Analyze(File(NewBody(body, width, height, m)), o) ==
                (WithMetadata(Walk(body, INIT, o).0, if HasVp8x(body) then 0 else 1, NewFlags(body, m), m), OK)
  {
    hide NextChunk, Process, HasFlag, OrFlags, SetFlag, GetLE, ChunkOf, Validate, File, ParseRIFF, NewVp8x;
    if HasVp8x(body) {
      FirstIsVp8x(body, 0, []);
      FlagsStayBytes(body[8] as nat, m);
    }
    var new_ := NewBody(body, width, height, m);
    if |new_| + 4 <= MAX_CHUNK_PAYLOAD {
      FitChunks(body, width, height, m);
      RiffOfFile(new_);
      if HasVp8x(body) {
        AcceptedOld(body, width, height, m, o);
      } else {
        AcceptedNew(body, width, height, m, o);
      }
    }
  }

  /** With metadata that fits 32 bits, the only files it refuses are those whose RIFF
      size is among the last few numbers that a chunk size may not be. */
  lemma AcceptedExactly(body: seq<byte>, width: nat, height: nat, m: Metadata, o: Oracle)
    requires 0 < width <= 0x100_0000 && 0 < height <= 0x100_0000
    requires BareImage(body, width, height, o)
    ensures HasVp8x(body) ==> VP8X_SIZE <= |body| && OrFlags(body[8] as nat, m) < 256
    ensures |NewBody(body, width, height, m)| + 4 < 0x1_0000_0000 ==>
              (Analyze(File(NewBody(body, width, height, m)), o).1 == OK <==> |NewBody(body, width, height, m)| + 4 <= MAX_CHUNK_PAYLOAD)
  {
    hide Walk, HasFlag, OrFlags, SetFlag, GetLE, LE, ChunkOf, Validate, NewVp8x, NewBody, BareImage;
    Accepted(body, width, height, m, o);
    var new_ := NewBody(body, width, height, m);
    if MAX_CHUNK_PAYLOAD < |new_| + 4 < 0x1_0000_0000 {
      assert File(new_)[4..8] == LE(|new_| + 4, 4);
      GetOfLE32(|new_| + 4);
    }
  }

  /** Such a file: cwebp writes it without an error, and webpinfo accepts the image alone
      but not with this EXIF chunk. */
  lemma RefusedSize(o: Oracle) returns (body: seq<byte>, m: Metadata)
    requires var c := ChunkData(VP8, Encode(Tag(VP8), ONE_PIXEL));
             o.features(c) == Features(true, 1, 1, false) && o.bitstream(c) == OK
    ensures body == Encode(Tag(VP8), ONE_PIXEL) && m == Metadata(seq(0x1_0000_0000 - 64, i => 0), [], [])
    ensures BareImage(body, 1, 1, o) && Analyze(File(body), o).1 == OK && !TooLarge(|File(body)|, MetadataSize(m))
    ensures !HasVp8x(body) && MAX_CHUNK_PAYLOAD < |NewBody(body, 1, 1, m)| + 4 < 0x1_0000_0000
    ensures Analyze(File(NewBody(body, 1, 1, m)), o).1 != OK
  {
    hide NextChunk, Walk, HasFlag, OrFlags, SetFlag, GetLE, LE, NewVp8x, File, ParseRIFF;
    body := Encode(Tag(VP8), ONE_PIXEL);
    m := Metadata(seq(0x1_0000_0000 - 64, i => 0), [], []);
    assert body[..4] == Tag(VP8);
    TagsDiffer(VP8, VP8X);
    TheBareImage(body, o);
    RiffOfFile(body);
    SizeOfFile(body);
    NewVp8xIsChunk(body, 1, 1, m);
    AcceptedExactly(body, 1, 1, m, o);
  }

  lemma TheBareImage(body: seq<byte>, o: Oracle)
    requires body == Encode(Tag(VP8), ONE_PIXEL) && !HasVp8x(body)
    requires var c := ChunkData(VP8, body); o.features(c) == Features(true, 1, 1, false) && o.bitstream(c) == OK
    ensures BareImage(body, 1, 1, o) && Walk(body, INIT, o).1 == OK && Validate(Walk(body, INIT, o).0) == OK
  {
    hide NextChunk, Encode;
    EncodeSize(VP8, ONE_PIXEL);
    NextOfEncode(VP8, ONE_PIXEL, []);
    assert body + [] == body;
    WalkChunk(VP8, ONE_PIXEL, [], INIT, o);
    WalkNothing(Process(INIT, ChunkData(VP8, body), o).0, o);
  }

  lemma AcceptedOld(body: seq<byte>, width: nat, height: nat, m: Metadata, o: Oracle)
    requires 0 < width <= 0x100_0000 && 0 < height <= 0x100_0000
    requires BareImage(body, width, height, o) && HasVp8x(body) && VP8X_SIZE <= |body| && OrFlags(body[8] as nat, m) < 256
    requires |m.exif| <= MAX_CHUNK_PAYLOAD && |m.iccp| <= MAX_CHUNK_PAYLOAD && |m.xmp| <= MAX_CHUNK_PAYLOAD
    ensures var flags := OrFlags(body[8] as nat, m);
            var i := Walk(body, INIT, o).0;
            && Walk(NewBody(body, width, height, m), INIT, o) == (WithMetadata(i, 0, flags, m), OK)
            && Validate(WithMetadata(i, 0, flags, m)) == OK
  {
    hide NextChunk, Process, HasFlag, OrFlags, SetFlag, GetLE, ChunkOf, Walk;
    var flags := OrFlags(body[8] as nat, m);
    var image := body[VP8X_SIZE..];
    var rest := ChunkOf(ICCP, m.iccp) + image + ChunkOf(EXIF, m.exif) + ChunkOf(XMP, m.xmp);
    var w, h := 1 + GetLE(body[12..15]), 1 + GetLE(body[15..18]);
    WalkOldVp8x(body, flags, rest, o);
    assert NewBody(body, width, height, m) == body[..VP8X_SIZE][8 := flags] + rest;
    var i, j := AfterVp8x(body[8] as nat, w, h), Walk(body, INIT, o).0;
    var n := if m.iccp == [] then 0 else 1;
    forall tail
      ensures Walk(image + tail, AfterVp8x(flags, w, h).(iccp := n), o) == Walk(tail, Shift(j, 0, flags, n), o)
    {
      ShiftWalk(image, tail, i, o, 0, flags, n);
    }
    ShiftWalk(image, [], i, o, 0, flags, n);
    WalkBehindVp8x(image, m, AfterVp8x(flags, w, h), j, o, 0, flags);
    FinalCheckOfOld(j, m);
  }

  /** The lone image chunk, before and behind a VP8X chunk. */
  lemma FirstImage(body: seq<byte>, width: nat, height: nat, o: Oracle, flags: nat, n: nat, tail: seq<byte>)
    requires BareImage(body, width, height, o) && !HasVp8x(body)
    ensures var c, skip := NextChunk(body).chunk, NextChunk(body).skip;
            var i := Process(INIT, c, o).0;
            && skip <= |body| && PastStart(i, 1) && i.hasAlpha == o.features(c).hasAlpha
            && Walk(body, INIT, o) == Walk(body[skip..], i, o)
            && Walk(body + tail, AfterVp8x(flags, width, height).(iccp := n), o)
               == Walk(body[skip..] + tail, Shift(i, 1, flags, n), o)
  {
    hide NextChunk, HasFlag;
    NextOfPrefix(body, tail);
    var skip := NextChunk(body).skip;
    assert (body + tail)[skip..] == body[skip..] + tail;
  }

  lemma AcceptedNew(body: seq<byte>, width: nat, height: nat, m: Metadata, o: Oracle)
    requires 0 < width <= 0x100_0000 && 0 < height <= 0x100_0000
    requires BareImage(body, width, height, o) && !HasVp8x(body)
    requires |m.exif| <= MAX_CHUNK_PAYLOAD && |m.iccp| <= MAX_CHUNK_PAYLOAD && |m.xmp| <= MAX_CHUNK_PAYLOAD
    ensures var alpha := |body| > 12 && body[..4] == Tag(VP8L) && HasFlag(body[12] as nat, 0x10);
            var flags := SetFlag(OrFlags(0, m), ALPHA_FLAG, alpha);
            var i := Walk(body, INIT, o).0;
            && Walk(NewBody(body, width, height, m), INIT, o) == (WithMetadata(i, 1, flags, m), OK)
            && Validate(WithMetadata(i, 1, flags, m)) == OK
  {
    hide Process, HasFlag, OrFlags, SetFlag, GetLE, ChunkOf, Walk, NewVp8x;
    var alpha := |body| > 12 && body[..4] == Tag(VP8L) && HasFlag(body[12] as nat, 0x10);
    var flags := SetFlag(OrFlags(0, m), ALPHA_FLAG, alpha);
    var rest := ChunkOf(ICCP, m.iccp) + body + ChunkOf(EXIF, m.exif) + ChunkOf(XMP, m.xmp);
    WalkNewVp8x(body, width, height, m, rest, o);
    assert NewBody(body, width, height, m) == NewVp8x(body, width, height, m) + rest;
    var c, skip := NextChunk(body).chunk, NextChunk(body).skip;
    var i, j := Process(INIT, c, o).0, Walk(body, INIT, o).0;
    var n := if m.iccp == [] then 0 else 1;
    forall tail
      ensures Walk(body + tail, AfterVp8x(flags, width, height).(iccp := n), o) == Walk(tail, Shift(j, 1, flags, n), o)
    {
      FirstImage(body, width, height, o, flags, n, tail);
      ShiftWalk(body[skip..], tail, i, o, 1, flags, n);
    }
    FirstImage(body, width, height, o, flags, n, []);
    ShiftWalk(body[skip..], [], i, o, 1, flags, n);
    WalkBehindVp8x(body, m, AfterVp8x(flags, width, height), j, o, 1, flags);
    FinalCheckOfNew(j, m, alpha);
  }

  // ---- sizes ----

  /** The RIFF size of a file tells its length exactly when the length fits 32 bits. */
  lemma SizeField(body: seq<byte>)
    ensures |File(body)| == RIFF_HEADER_SIZE + |body|
    ensures GetLE(File(body)[4..8]) + CHUNK_HEADER_SIZE == |File(body)| <==> |File(body)| - CHUNK_HEADER_SIZE < 0x1_0000_0000
  {
    hide LE, GetLE;
    assert File(body)[4..8] == LE(|body| + 4, 4);
    GetOfLE32(|body| + 4);
  }

  /** The writer's check of the size, on a 64-bit machine: ~0 - 8 - 1 is an int, -10,
      that becomes 2^64 - 10. */
  predicate TooLarge(webpSize: nat, metadataSize: nat)
    requires webpSize >= CHUNK_HEADER_SIZE
  {
    (webpSize - CHUNK_HEADER_SIZE + metadataSize) % 0x1_0000_0000_0000_0000 > 0x1_0000_0000_0000_0000 - 10
  }

  /** So the check passes everything that memory can hold, also when the RIFF size of
      the file then does not tell its length. */
  lemma CheckPasses(body: seq<byte>, width: nat, height: nat, m: Metadata)
    requires width > 0 && height > 0 && (HasVp8x(body) ==> VP8X_SIZE <= |body| && OrFlags(body[8] as nat, m) < 256)
    requires |File(body)| + MetadataSize(m) < 0x8000_0000_0000_0000
    ensures !TooLarge(|File(body)|, MetadataSize(m))
    ensures GetLE(File(NewBody(body, width, height, m))[4..8]) + CHUNK_HEADER_SIZE == |File(NewBody(body, width, height, m))|
            <==> |body| + 4 + (if HasVp8x(body) then 0 else VP8X_SIZE) + MetadataSize(m) < 0x1_0000_0000
  {
    hide LE, GetLE, File, ChunkOf, OrFlags, NewVp8x;
    SizeField(body);
    SizeField(NewBody(body, width, height, m));
    NewVp8xIsChunk(body, width, height, m);
  }

  /** Such an image and such metadata: an EXIF payload of 2^32 bytes. */
  lemma SizeCanWrap() returns (body: seq<byte>, m: Metadata)
    ensures body == Encode(Tag(VP8), [0, 0]) && !HasVp8x(body) && m == Metadata(seq(0x1_0000_0000, i => 0), [], [])
    ensures !TooLarge(|File(body)|, MetadataSize(m))
    ensures GetLE(File(NewBody(body, 1, 1, m))[4..8]) + CHUNK_HEADER_SIZE != |File(NewBody(body, 1, 1, m))|
  {
    hide LE, GetLE, File, NewVp8x;
    body := Encode(Tag(VP8), [0, 0]);
    m := Metadata(seq(0x1_0000_0000, i => 0), [], []);
    assert body[..4] == Tag(VP8);
    TagsDiffer(VP8, VP8X);
    SizeField(body);
    CheckPasses(body, 1, 1, m);
  }

  // ---- the program ----

  /** The file written to. A write that does not fit fails. */
  class Output {
    var bytes: seq<byte>
    const room: nat

    constructor (room: nat)
      ensures this.room == room && bytes == []
    {
      this.room, bytes := room, [];
    }

    /** fwrite of all of data. */
    method Write(data: seq<byte>) returns (ok: bool)
      modifies this
      ensures ok <==> old(|bytes|) + |data| <= room
      ensures bytes == if ok then old(bytes) + data else old(bytes)
    {
      if |bytes| + |data| > room {
        return false;
      }
      bytes := bytes + data;
      return true;
    }

    method WriteLE(val: nat, num: nat) returns (ok: bool)
      modifies this
      ensures ok <==> old(|bytes|) + num <= room
      ensures bytes == if ok then old(bytes) + LE(val, num) else old(bytes)
    {
      var buf: seq<byte> := [];
      var v := val;
      for i := 0 to num
        invariant bytes == old(bytes) && |buf| == i
        invariant buf + LE(v, num - i) == LE(val, num)
      {
        ghost var before, was := v, buf;
        buf := buf + [v % 256];
        v := v / 256;
        assert LE(before, num - i) == [before % 256] + LE(v, num - i - 1);
        assert was + LE(before, num - i) == buf + LE(v, num - i - 1);
      }
      assert buf == LE(val, num);
      ok := Write(buf);
    }

    method WriteMetadataChunk(fourcc: seq<byte>, payload: seq<byte>) returns (ok: bool)
      modifies this
      ensures ok <==> old(|bytes|) + |Encode(fourcc, payload)| <= room
      ensures ok ==> bytes == old(bytes) + Encode(fourcc, payload)
      ensures |bytes| <= old(|bytes|) + |Encode(fourcc, payload)|
    {
      hide LE;
      ok := Write(fourcc);
      if ok {
        ok := WriteLE(|payload|, 4);
      }
      if ok {
        ok := Write(payload);
      }
      if ok && |payload| % 2 == 1 {
        ok := Write([0]);
      }
    }
  }

  /** UpdateFlagsAndSize. */
  method UpdateFlagsAndSize(payload: seq<byte>, keep: bool, flag: nat, flags: nat, size: nat)
    returns (write: bool, newFlags: nat, newSize: nat)
    requires flag > 0
    ensures write <==> keep && payload != []
    ensures newFlags == SetFlag(flags, flag, write)
    ensures newSize == size + if write then |Encode([0, 0, 0, 0], payload)| else 0
  {
    if keep && |payload| > 0 {
      return true, SetFlag(flags, flag, true), size + CHUNK_HEADER_SIZE + |payload| + |payload| % 2;
    }
    return false, flags, size;
  }

  /** "RIFF", the size, "WEBP". */
  method WriteRiffHeader(out: Output, webp: seq<byte>, riffSize: nat) returns (ok: bool)
    requires |webp| >= RIFF_HEADER_SIZE
    modifies out
    ensures ok <==> old(|out.bytes|) + RIFF_HEADER_SIZE <= out.room
    ensures ok ==> out.bytes == old(out.bytes) + (webp[..4] + LE(riffSize, 4) + webp[8..12])
  {
    hide LE;
    ok := out.Write(webp[..4]);
    if ok {
      ok := out.WriteLE(riffSize, 4);
    }
    if ok {
      ok := out.Write(webp[8..12]);
    }
  }

  lemma PartsOfVp8x(body: seq<byte>, width: nat, height: nat, m: Metadata)
    requires width > 0 && height > 0 && |body| >= 8 && (body[..4] == Tag(VP8L) ==> |body| > 12)
    ensures var alpha := body[..4] == Tag(VP8L) && HasFlag(body[CHUNK_HEADER_SIZE + 4] as nat, 0x10);
            NewVp8x(body, width, height, m)
            == VP8X_HEADER + LE(SetFlag(OrFlags(0, m), ALPHA_FLAG, alpha), 4) + LE(width - 1, 3) + LE(height - 1, 3)
  {
    hide LE, OrFlags, HasFlag, SetFlag;
  }

  method WriteNewVp8x(out: Output, body: seq<byte>, flags: nat, width: nat, height: nat, ghost m: Metadata) returns (ok: bool)
    requires width > 0 && height > 0 && flags == OrFlags(0, m)
    requires |body| >= 8 && (body[..4] == Tag(VP8L) ==> |body| > 12)
    modifies out
    ensures ok <==> old(|out.bytes|) + VP8X_SIZE <= out.room
    ensures ok ==> out.bytes == old(out.bytes) + NewVp8x(body, width, height, m)
  {
    hide LE, OrFlags, HasFlag, SetFlag, NewVp8x;
    var alpha := body[..4] == Tag(VP8L) && HasFlag(body[CHUNK_HEADER_SIZE + 4] as nat, 0x10);
    var newFlags := SetFlag(flags, ALPHA_FLAG, alpha);
    ghost var before, f, w, h := out.bytes, LE(newFlags, 4), LE(width - 1, 3), LE(height - 1, 3);
    PartsOfVp8x(body, width, height, m);
    ok := out.Write(VP8X_HEADER);
    if ok {
      ok := out.WriteLE(newFlags, 4);
    }
    Regroup(before, VP8X_HEADER, f);
    if ok {
      ok := out.WriteLE(width - 1, 3);
    }
    Regroup(before, VP8X_HEADER + f, w);
    assert ok ==> out.bytes == before + (VP8X_HEADER + f + w);
    if ok {
      ok := out.WriteLE(height - 1, 3);
    }
    Regroup(before, VP8X_HEADER + f + w, h);
  }

  /** webp[kChunkHeaderSize] |= flags, on the chunk at `at`. */
  method UpdateVp8x(webp: array<byte>, at: nat, flags: nat, ghost m: Metadata)
    requires at + VP8X_SIZE <= webp.Length && flags == OrFlags(0, m)
    modifies webp
    ensures OrFlags(old(webp[at + 8]) as nat, m) < 256
    ensures webp[..] == old(webp[..])[at + 8 := OrFlags(old(webp[at + 8]) as nat, m)]
  {
    hide SetFlag, HasFlag, OrFlags;
    var f := webp[at + CHUNK_HEADER_SIZE] as nat;
    OrOfFlags(f, m);
    FlagsStayBytes(f, m);
    webp[at + CHUNK_HEADER_SIZE] := SetFlag(SetFlag(SetFlag(f, EXIF_FLAG, HasFlag(flags, EXIF_FLAG)),
                                                    ICCP_FLAG, HasFlag(flags, ICCP_FLAG)),
                                            XMP_FLAG, HasFlag(flags, XMP_FLAG));
  }

  /** The VP8X chunk, old or new; `at` is where the rest of the image lies. */
  method WriteVp8x(out: Output, webp: array<byte>, flags: nat, width: nat, height: nat, hasVp8x: bool,
                   ghost body: seq<byte>, ghost m: Metadata)
    returns (ok: bool, at: nat)
    requires width > 0 && height > 0 && flags == OrFlags(0, m) && |body| >= 8
    requires webp[..] == File(body) && hasVp8x == HasVp8x(body)
    requires hasVp8x ==> VP8X_SIZE <= |body|
    requires body[..4] == Tag(VP8L) ==> |body| > 12
    modifies out, webp
    ensures hasVp8x ==> OrFlags(body[8] as nat, m) < 256
    ensures ok <==> old(|out.bytes|) + VP8X_SIZE <= out.room
    ensures ok ==> out.bytes == old(out.bytes) +
                     if hasVp8x then body[..VP8X_SIZE][8 := OrFlags(body[8] as nat, m)] else NewVp8x(body, width, height, m)
    ensures at <= webp.Length && webp[at..] == if hasVp8x then body[VP8X_SIZE..] else body
  {
    hide LE, OrFlags, HasFlag, NewVp8x;
    PartsOfFile(body);
    at := RIFF_HEADER_SIZE;
    assert webp[at..] == body;
    if hasVp8x {
      assert webp[at + 8] == webp[at..][8];
      UpdateVp8x(webp, at, flags, m);
      assert webp[at..] == body[8 := OrFlags(body[8] as nat, m)];
      assert webp[at..at + VP8X_SIZE] == webp[at..][..VP8X_SIZE] == body[..VP8X_SIZE][8 := OrFlags(body[8] as nat, m)];
      ok := out.Write(webp[at..at + VP8X_SIZE]);
      at := at + VP8X_SIZE;
      assert webp[at..] == webp[RIFF_HEADER_SIZE..][VP8X_SIZE..] == body[VP8X_SIZE..];
    } else {
      ok := WriteNewVp8x(out, webp[at..], flags, width, height, m);
    }
  }

  /** The image chunks with the metadata chunks around them. */
  method WriteChunks(out: Output, image: seq<byte>, m: Metadata) returns (ok: bool)
    modifies out
    ensures var all := ChunkOf(ICCP, m.iccp) + image + ChunkOf(EXIF, m.exif) + ChunkOf(XMP, m.xmp);
            (ok <==> old(|out.bytes|) + |all| <= out.room) && (ok ==> out.bytes == old(out.bytes) + all)
  {
    hide LE, Encode;
    ghost var before := out.bytes;
    ghost var iccp, exif, xmp := ChunkOf(ICCP, m.iccp), ChunkOf(EXIF, m.exif), ChunkOf(XMP, m.xmp);
    ok := true;
    if m.iccp != [] {
      ok := out.WriteMetadataChunk(Tag(ICCP), m.iccp);
    }
    assert (ok <==> m.iccp == [] || |before| + |iccp| <= out.room) && (ok ==> out.bytes == before + iccp);
    if ok {
      ok := out.Write(image);
    }
    Regroup(before, iccp, image);
    assert (ok <==> |before| + |iccp + image| <= out.room) && (ok ==> out.bytes == before + (iccp + image));
    if ok && m.exif != [] {
      ok := out.WriteMetadataChunk(Tag(EXIF), m.exif);
    }
    Regroup(before, iccp + image, exif);
    assert (ok <==> |before| + |iccp + image + exif| <= out.room) && (ok ==> out.bytes == before + (iccp + image + exif));
    if ok && m.xmp != [] {
      ok := out.WriteMetadataChunk(Tag(XMP), m.xmp);
    }
    Regroup(before, iccp + image + exif, xmp);
  }

  /** WriteWebPWithMetadata behind its checks, when there is metadata to write. */
  method WriteExtended(out: Output, webp: array<byte>, flags: nat, size: nat, width: nat, height: nat, m: Metadata, ghost body: seq<byte>)
    returns (ok: bool)
    requires width > 0 && height > 0 && flags == OrFlags(0, m) && size == MetadataSize(m) && |body| >= 8
    requires webp[..] == File(body) && (HasVp8x(body) ==> VP8X_SIZE <= |body|)
    requires body[..4] == Tag(VP8L) ==> |body| > 12
    modifies out, webp
    ensures HasVp8x(body) ==> OrFlags(body[8] as nat, m) < 256
    ensures var file := File(NewBody(body, width, height, m));
            (ok <==> old(|out.bytes|) + |file| <= out.room) && (ok ==> out.bytes == old(out.bytes) + file)
  {
    hide LE, OrFlags, NewVp8x, ChunkOf, File, NewBody, MetadataSize;
    PartsOfFile(body);
    SizeOfFile(body);
    ExtendedFile(body, width, height, m);
    var hasVp8x := webp[12..16] == Tag(VP8X);
    assert webp[12..16] == webp[..][12..16];
    var riffSize := webp.Length - CHUNK_HEADER_SIZE + (if hasVp8x then 0 else VP8X_SIZE) + size;
    ok := WriteRiffHeader(out, webp[..], riffSize);
    if ok {
      var at;
      ok, at := WriteVp8x(out, webp, flags, width, height, hasVp8x, body, m);
      if ok {
        ok := WriteChunks(out, webp[at..], m);
      }
    }
  }

  /** The three parts of the file with metadata. */
  lemma ExtendedFile(body: seq<byte>, width: nat, height: nat, m: Metadata)
    requires width > 0 && height > 0 && |body| >= 8 && (HasVp8x(body) ==> VP8X_SIZE <= |body|)
    ensures HasVp8x(body) ==> OrFlags(body[8] as nat, m) < 256
    ensures var riffSize := |File(body)| - CHUNK_HEADER_SIZE + (if HasVp8x(body) then 0 else VP8X_SIZE) + MetadataSize(m);
            var vp8x := if HasVp8x(body) then body[..VP8X_SIZE][8 := OrFlags(body[8] as nat, m)] else NewVp8x(body, width, height, m);
            var image := if HasVp8x(body) then body[VP8X_SIZE..] else body;
            && |vp8x| == VP8X_SIZE
            && File(NewBody(body, width, height, m)) ==
                 (File(body)[..4] + LE(riffSize, 4) + File(body)[8..12]) + vp8x
                 + (ChunkOf(ICCP, m.iccp) + image + ChunkOf(EXIF, m.exif) + ChunkOf(XMP, m.xmp))
  {
    hide LE, OrFlags, NewVp8x, ChunkOf, File, NewBody, MetadataSize, HasVp8x;
    if HasVp8x(body) {
      FlagsStayBytes(body[8] as nat, m);
    } else {
      NewVp8xIsChunk(body, width, height, m);
    }
    var vp8x := if HasVp8x(body) then body[..VP8X_SIZE][8 := OrFlags(body[8] as nat, m)] else NewVp8x(body, width, height, m);
    var image := if HasVp8x(body) then body[VP8X_SIZE..] else body;
    PartsOfNewBody(body, width, height, m, vp8x, image);
    SizeOfFile(body);
    FileAround(body, vp8x, ChunkOf(ICCP, m.iccp) + image + ChunkOf(EXIF, m.exif) + ChunkOf(XMP, m.xmp));
  }

  lemma PartsOfNewBody(body: seq<byte>, width: nat, height: nat, m: Metadata, vp8x: seq<byte>, image: seq<byte>)
    requires width > 0 && height > 0 && (HasVp8x(body) ==> VP8X_SIZE <= |body| && OrFlags(body[8] as nat, m) < 256)
    requires |vp8x| == VP8X_SIZE
    requires vp8x == if HasVp8x(body) then body[..VP8X_SIZE][8 := OrFlags(body[8] as nat, m)] else NewVp8x(body, width, height, m)
    requires image == if HasVp8x(body) then body[VP8X_SIZE..] else body
    ensures NewBody(body, width, height, m) == vp8x + (ChunkOf(ICCP, m.iccp) + image + ChunkOf(EXIF, m.exif) + ChunkOf(XMP, m.xmp))
    ensures |NewBody(body, width, height, m)| == |body| + (if HasVp8x(body) then 0 else VP8X_SIZE) + MetadataSize(m)
  {
    hide OrFlags, NewVp8x, ChunkOf, HasVp8x;
    Regroup(vp8x, ChunkOf(ICCP, m.iccp), image);
    Regroup(vp8x, ChunkOf(ICCP, m.iccp) + image, ChunkOf(EXIF, m.exif));
    Regroup(vp8x, ChunkOf(ICCP, m.iccp) + image + ChunkOf(EXIF, m.exif), ChunkOf(XMP, m.xmp));
  }

  lemma FileAround(body: seq<byte>, vp8x: seq<byte>, rest: seq<byte>)
    ensures |File(body)| >= 12
    ensures File(vp8x + rest) == (File(body)[..4] + LE(|vp8x + rest| + 4, 4) + File(body)[8..12]) + vp8x + rest
  {
    hide LE;
    assert File(body)[..4] == TAG_RIFF && File(body)[8..12] == TAG_WEBP;
    Regroup(TAG_RIFF + LE(|vp8x + rest| + 4, 4) + TAG_WEBP, vp8x, rest);
  }

  lemma Regroup(a: seq<byte>, b: seq<byte>, c: seq<byte>)
    ensures a + (b + c) == a + b + c
  {
  }

  /** WriteWebPWithMetadata, for the encoder's output `webp` whose chunks are `body`. */
  method WriteWebPWithMetadata(out: Output, width: nat, height: nat, webp: array<byte>, metadata: Metadata, keep: Keep,
                               ghost body: seq<byte>)
    returns (ok: bool, written: Keep)
    requires width > 0 && height > 0 && webp[..] == File(body)
    requires HasVp8x(body) ==> VP8X_SIZE <= |body|
    requires |body| >= 4 && body[..4] == Tag(VP8L) ==> |body| > 12
    modifies out, webp
    ensures HasVp8x(body) ==> OrFlags(body[8] as nat, Kept(metadata, keep)) < 256
    ensures ok ==> written == Keep(keep.exif && metadata.exif != [], keep.icc && metadata.iccp != [], keep.xmp && metadata.xmp != [])
    ensures var m := Kept(metadata, keep);
            var file := if m == Metadata([], [], []) then File(body) else File(NewBody(body, width, height, m));
            && (ok <==> |File(body)| >= RIFF_HEADER_SIZE + CHUNK_HEADER_SIZE && !TooLarge(|File(body)|, MetadataSize(m))
                        && old(|out.bytes|) + |file| <= out.room)
            && (ok ==> out.bytes == old(out.bytes) + file && written == Keep(m.exif != [], m.iccp != [], m.xmp != []))
  {
    hide LE, SetFlag, HasFlag, Encode, File, NewBody, HasVp8x;
    ghost var m := Kept(metadata, keep);
    if HasVp8x(body) {
      Vp8xFlags(body, m);
    }
    var flags, size, exif, iccp, xmp;
    exif, flags, size := UpdateFlagsAndSize(metadata.exif, keep.exif, EXIF_FLAG, 0, 0);
    iccp, flags, size := UpdateFlagsAndSize(metadata.iccp, keep.icc, ICCP_FLAG, flags, size);
    xmp, flags, size := UpdateFlagsAndSize(metadata.xmp, keep.xmp, XMP_FLAG, flags, size);
    EncodeSizes(metadata);
    SizeOfFile(body);
    assert webp.Length == |webp[..]|;
    written := Keep(false, false, false);
    var webpSize := webp.Length;
    if webpSize < RIFF_HEADER_SIZE + CHUNK_HEADER_SIZE {
      return false, written;
    }
    if (webpSize - CHUNK_HEADER_SIZE + size) % 0x1_0000_0000_0000_0000 > 0x1_0000_0000_0000_0000 - 10 {
      return false, written;
    }
    if size == 0 {
      ok := out.Write(webp[..]);
      return;
    }
    written := Keep(exif, iccp, xmp);
    ok := WriteExtended(out, webp, flags, size, width, height,
                        Metadata(if exif then metadata.exif else [], if iccp then metadata.iccp else [], if xmp then metadata.xmp else []),
                        body);
  }

  lemma SizeOfFile(body: seq<byte>)
    ensures |File(body)| == RIFF_HEADER_SIZE + |body|
  {
  }

  lemma Vp8xFlags(body: seq<byte>, m: Metadata)
    requires VP8X_SIZE <= |body|
    ensures OrFlags(body[8] as nat, m) < 256
  {
    FlagsStayBytes(body[8] as nat, m);
  }

  lemma EncodeSizes(m: Metadata)
    ensures |Encode([0, 0, 0, 0], m.exif)| == |Encode(Tag(EXIF), m.exif)|
    ensures |Encode([0, 0, 0, 0], m.iccp)| == |Encode(Tag(ICCP), m.iccp)|
    ensures |Encode([0, 0, 0, 0], m.xmp)| == |Encode(Tag(XMP), m.xmp)|
    ensures |Encode(Tag(EXIF), m.exif)| > 0 && |Encode(Tag(ICCP), m.iccp)| > 0 && |Encode(Tag(XMP), m.xmp)| > 0
  {
  }

  lemma PartsOfFile(body: seq<byte>)
    requires |body| >= 8
    ensures File(body)[12..16] == body[..4] && File(body)[12..] == body
  {
    hide LE;
  }

  /** or-ing in the collected flags sets each one that is collected. */
  lemma OrOfFlags(f: nat, m: Metadata)
    requires f < 256
    ensures var flags := OrFlags(0, m);
            SetFlag(SetFlag(SetFlag(f, EXIF_FLAG, HasFlag(flags, EXIF_FLAG)), ICCP_FLAG, HasFlag(flags, ICCP_FLAG)),
                    XMP_FLAG, HasFlag(flags, XMP_FLAG)) == OrFlags(f, m)
  {
    hide HasFlag, SetFlag;
    FlagsStayBytes(0, m);
    FlagBits(0);
  }
}

/** Which files webpinfo accepts, said without its counters: the chunks in order are
    grouped into chunks of the file and animation frames with their sub-chunks, each
    chunk must be allowed behind those before it, and the flags of the VP8X chunk must
    tell what is there. Section 2.7 of RFC 9649, as far as the program checks it. */
module ContainerGrammar {
  import opened Riff
  import opened WebpInfo

  /** A chunk of the file, or an animation frame with the sub-chunks read so far. */
  datatype Part = Top(chunk: ChunkData) | Frame(anmf: ChunkData, subs: seq<ChunkData>) {
    /** All of its payload is read. */
    predicate Closed() { Frame? ==> Sum(subs) >= |anmf.bytes| - CHUNK_HEADER_SIZE - ANMF_CHUNK_SIZE }
  }

  function Sum(subs: seq<ChunkData>): nat {
    if subs == [] then 0 else Sum(subs[..|subs| - 1]) + |subs[|subs| - 1].bytes|
  }

  predicate OpenFrame(parts: seq<Part>) { parts != [] && !parts[|parts| - 1].Closed() }

  /** One chunk more. */
  function Add(parts: seq<Part>, c: ChunkData): seq<Part> {
    if OpenFrame(parts) then
      var last := parts[|parts| - 1];
      parts[..|parts| - 1] + [Frame(last.anmf, last.subs + [c])]
    else if c.id == ANMF then parts + [Frame(c, [])]
    else parts + [Top(c)]
  }

  function Group(cs: seq<ChunkData>): seq<Part> {
    if cs == [] then [] else Add(Group(cs[..|cs| - 1]), cs[|cs| - 1])
  }

  // ---- what the file has ----

  /** A chunk of the file, outside frames. */
  ghost predicate Seen(parts: seq<Part>, id: Id) {
    exists k :: 0 <= k < |parts| && parts[k].Top? && parts[k].chunk.id == id
  }

  /** A sub-chunk of this kind. */
  ghost predicate Among(subs: seq<ChunkData>, id: Id) {
    exists j :: 0 <= j < |subs| && subs[j].id == id
  }

  ghost predicate SeenImage(parts: seq<Part>) { Seen(parts, VP8) || Seen(parts, VP8L) }

  ghost predicate ImageAmong(subs: seq<ChunkData>) { Among(subs, VP8) || Among(subs, VP8L) }

  ghost predicate SeenFrame(parts: seq<Part>) {
    exists k :: 0 <= k < |parts| && parts[k].Frame?
  }

  /** A chunk of the file or a sub-chunk of a frame. */
  ghost predicate SeenAnywhere(parts: seq<Part>, id: Id) {
    Seen(parts, id) || exists k :: 0 <= k < |parts| && parts[k].Frame? && Among(parts[k].subs, id)
  }

  /** An ALPH chunk, or an image that says it has alpha. */
  predicate HasAlpha(c: ChunkData, o: Oracle) { c.id == ALPH || (IsImage(c.id) && o.features(c).hasAlpha) }

  ghost predicate PartHasAlpha(p: Part, o: Oracle) {
    match p
    case Top(c) => HasAlpha(c, o)
    case Frame(_, subs) => exists j :: 0 <= j < |subs| && HasAlpha(subs[j], o)
  }

  ghost predicate SeenAlpha(parts: seq<Part>, o: Oracle) {
    exists k :: 0 <= k < |parts| && PartHasAlpha(parts[k], o)
  }

  /** Images and frames with their image. */
  ghost function NumImages(parts: seq<Part>): nat {
    if parts == [] then 0
    else
      var p := parts[|parts| - 1];
      NumImages(parts[..|parts| - 1]) +
        if p.Top? then if IsImage(p.chunk.id) then 1 else 0 else if ImageAmong(p.subs) then 1 else 0
  }

  predicate IsVp8x(p: Part) { p.Top? && p.chunk.id == VP8X }

  /** All VP8X chunks, of which there will be one, give this canvas. */
  ghost predicate CanvasIs(parts: seq<Part>, width: int, height: int) {
    forall k :: 0 <= k < |parts| && IsVp8x(parts[k]) ==>
      && |parts[k].chunk.bytes| >= 18
      && width == 1 + GetLE(parts[k].chunk.bytes[12..15]) && height == 1 + GetLE(parts[k].chunk.bytes[15..18])
  }

  ghost predicate FlagsAre(parts: seq<Part>, flags: nat) {
    forall k :: 0 <= k < |parts| && IsVp8x(parts[k]) ==> |parts[k].chunk.bytes| >= 18 && flags == parts[k].chunk.bytes[8] as nat
  }

  // ---- what may follow ----

  /** A chunk outside frames, behind the parts before it. */
  ghost predicate GoodTop(parts: seq<Part>, c: ChunkData, o: Oracle) {
    match c.id
    case VP8X => |c.bytes| == 18 && !Seen(parts, VP8X) && !SeenImage(parts)
    case ANIM => |c.bytes| == 14 && Seen(parts, VP8X)
    case ICCP => Seen(parts, VP8X) && !SeenImage(parts) && !Seen(parts, ANIM)
    case ALPH => Seen(parts, VP8X) && !Seen(parts, ANIM) && !Seen(parts, VP8) && !Seen(parts, ALPH) && o.bitstream(c) == OK
    case VP8 => GoodImage(parts, c, o)
    case VP8L => GoodImage(parts, c, o)
    case ANMF => false
    case _ => true
  }

  /** The only image outside frames: none before it, no animation, as large as the
      canvas. */
  ghost predicate GoodImage(parts: seq<Part>, c: ChunkData, o: Oracle) {
    && o.features(c).ok && o.bitstream(c) == OK && !SeenImage(parts) && !Seen(parts, ANIM)
    && (Seen(parts, VP8X) ==> CanvasIs(parts, o.features(c).width, o.features(c).height))
  }

  /** The width and height of a frame, and its place. */
  function FrameWidth(a: ChunkData): int
    requires |a.bytes| >= 24
  {
    1 + GetLE(a.bytes[14..17])
  }

  function FrameHeight(a: ChunkData): int
    requires |a.bytes| >= 24
  {
    1 + GetLE(a.bytes[17..20])
  }

  /** An animation frame, behind the parts before it: within the canvas. */
  ghost predicate GoodFrame(parts: seq<Part>, a: ChunkData) {
    && Seen(parts, ANIM) && |a.bytes| > 24
    && var x, y := 2 * GetLE(a.bytes[8..11]), 2 * GetLE(a.bytes[11..14]);
       && x <= 0x100_0000 && y <= 0x100_0000
       && exists w, h :: Canvas(parts, w, h) && x + FrameWidth(a) <= w && y + FrameHeight(a) <= h
  }

  /** There is a canvas, of this size. */
  ghost predicate Canvas(parts: seq<Part>, w: int, h: int) { Seen(parts, VP8X) && CanvasIs(parts, w, h) }

  /** A sub-chunk of frame a, behind those before it: one image as large as the frame,
      at most one ALPH before it and none beside a lossless image; all of it inside the
      frame, which has its image when it ends. */
  ghost predicate GoodSub(a: ChunkData, subs: seq<ChunkData>, c: ChunkData, o: Oracle) {
    && |a.bytes| >= 24 && c.id != VP8X && c.id != ANMF && c.id != ICCP && (c.id == ANIM ==> |c.bytes| == 14)
    && (IsImage(c.id) ==>
          && o.features(c).ok && o.bitstream(c) == OK && !ImageAmong(subs) && !(c.id == VP8L && Among(subs, ALPH))
          && o.features(c).width == FrameWidth(a) && o.features(c).height == FrameHeight(a))
    && (c.id == ALPH ==> o.bitstream(c) == OK && !Among(subs, ALPH) && !ImageAmong(subs))
    && 24 + Sum(subs) + |c.bytes| <= |a.bytes|
    && (24 + Sum(subs) + |c.bytes| == |a.bytes| ==> ImageAmong(subs + [c]))
  }

  ghost predicate Allowed(parts: seq<Part>, c: ChunkData, o: Oracle) {
    if OpenFrame(parts) then GoodSub(parts[|parts| - 1].anmf, parts[|parts| - 1].subs, c, o)
    else if c.id == ANMF then GoodFrame(parts, c)
    else GoodTop(parts, c, o)
  }

  /** Each chunk is allowed behind those before it. */
  ghost predicate AllAllowed(cs: seq<ChunkData>, o: Oracle) {
    forall k :: 0 <= k < |cs| ==> Allowed(Group(cs[..k]), cs[k], o)
  }

  /** At the end: an image; no open frame; and with a VP8X chunk, flags that tell what
      there is. */
  ghost predicate GoodEnd(parts: seq<Part>, flags: nat, o: Oracle) {
    && NumImages(parts) >= 1
    && (Seen(parts, VP8X) ==>
          && !OpenFrame(parts)
          && (SeenAlpha(parts, o) ==> HasFlag(flags, 0x10))
          && (HasFlag(flags, 0x20) <==> Seen(parts, ICCP))
          && (HasFlag(flags, 0x08) <==> SeenAnywhere(parts, EXIF))
          && (HasFlag(flags, 0x04) <==> SeenAnywhere(parts, XMP))
          && (HasFlag(flags, 0x02) ==> Seen(parts, ANIM) && SeenFrame(parts))
          && (!HasFlag(flags, 0x02) ==> NumImages(parts) <= 1))
  }

  // ---- one part more ----

  lemma SeenMore(init: seq<Part>, p: Part, id: Id)
    ensures Seen(init + [p], id) <==> Seen(init, id) || (p.Top? && p.chunk.id == id)
  {
    var parts := init + [p];
    assert parts[|init|] == p;
    if Seen(init, id) {
      var k :| 0 <= k < |init| && init[k].Top? && init[k].chunk.id == id;
      assert parts[k].Top? && parts[k].chunk.id == id;
    }
  }

  lemma SeenAnywhereMore(init: seq<Part>, p: Part, id: Id)
    ensures SeenAnywhere(init + [p], id) <==>
              SeenAnywhere(init, id) || if p.Top? then p.chunk.id == id else Among(p.subs, id)
  {
    hide Among, Seen;
    SeenMore(init, p, id);
    var parts := init + [p];
    assert parts[|init|] == p;
    if exists k :: 0 <= k < |init| && init[k].Frame? && Among(init[k].subs, id) {
      var k :| 0 <= k < |init| && init[k].Frame? && Among(init[k].subs, id);
      assert parts[k].Frame? && Among(parts[k].subs, id);
    }
  }

  lemma SeenFrameMore(init: seq<Part>, p: Part)
    ensures SeenFrame(init + [p]) <==> SeenFrame(init) || p.Frame?
  {
    var parts := init + [p];
    assert parts[|init|] == p;
    if SeenFrame(init) {
      var k :| 0 <= k < |init| && init[k].Frame?;
      assert parts[k].Frame?;
    }
  }

  lemma SeenAlphaMore(init: seq<Part>, p: Part, o: Oracle)
    ensures SeenAlpha(init + [p], o) <==> SeenAlpha(init, o) || PartHasAlpha(p, o)
  {
    hide PartHasAlpha;
    var parts := init + [p];
    assert parts[|init|] == p;
    if SeenAlpha(init, o) {
      var k :| 0 <= k < |init| && PartHasAlpha(init[k], o);
      assert PartHasAlpha(parts[k], o);
    }
  }

  lemma CanvasMore(init: seq<Part>, p: Part, w: int, h: int, flags: nat)
    ensures CanvasIs(init + [p], w, h) <==>
              CanvasIs(init, w, h) && (IsVp8x(p) ==> CanvasIs([p], w, h))
    ensures FlagsAre(init + [p], flags) <==> FlagsAre(init, flags) && (IsVp8x(p) ==> FlagsAre([p], flags))
  {
    hide GetLE;
    var parts := init + [p];
    assert parts[|init|] == p && [p][0] == p;
    assert forall k :: 0 <= k < |init| ==> parts[k] == init[k];
  }

  lemma NumImagesMore(init: seq<Part>, p: Part)
    ensures NumImages(init + [p]) == NumImages(init) + if p.Top? then if IsImage(p.chunk.id) then 1 else 0 else if ImageAmong(p.subs) then 1 else 0
  {
    assert (init + [p])[..|init|] == init;
  }

  lemma AmongMore(subs: seq<ChunkData>, c: ChunkData, id: Id)
    ensures Among(subs + [c], id) <==> Among(subs, id) || c.id == id
  {
    var all := subs + [c];
    assert all[|subs|] == c;
    if Among(subs, id) {
      var k :| 0 <= k < |subs| && subs[k].id == id;
      assert all[k].id == id;
    }
  }

  lemma FrameAlphaMore(a: ChunkData, subs: seq<ChunkData>, c: ChunkData, o: Oracle)
    ensures PartHasAlpha(Frame(a, subs + [c]), o) <==> PartHasAlpha(Frame(a, subs), o) || HasAlpha(c, o)
  {
    hide HasAlpha;
    var all := subs + [c];
    assert all[|subs|] == c;
    if PartHasAlpha(Frame(a, subs), o) {
      var k :| 0 <= k < |subs| && HasAlpha(subs[k], o);
      assert HasAlpha(all[k], o);
    }
  }

  lemma SumMore(subs: seq<ChunkData>, c: ChunkData)
    ensures Sum(subs + [c]) == Sum(subs) + |c.bytes|
  {
    assert (subs + [c])[..|subs|] == subs;
  }

  // ---- the statistics and the parts ----

  /** The counters tell what the parts are. */
  ghost predicate Tells(i: Info, parts: seq<Part>, o: Oracle) {
    && (i.vp8 > 0 <==> Seen(parts, VP8)) && (i.vp8l > 0 <==> Seen(parts, VP8L)) && (i.vp8x > 0 <==> Seen(parts, VP8X))
    && (i.alph > 0 <==> Seen(parts, ALPH)) && (i.iccp > 0 <==> Seen(parts, ICCP)) && (i.anim > 0 <==> Seen(parts, ANIM))
    && (i.anmf > 0 <==> SeenFrame(parts)) && (i.exif > 0 <==> SeenAnywhere(parts, EXIF)) && (i.xmp > 0 <==> SeenAnywhere(parts, XMP))
    && (i.hasAlpha <==> SeenAlpha(parts, o)) && i.numFrames == NumImages(parts)
    && (Seen(parts, VP8X) ==> CanvasIs(parts, i.canvasWidth, i.canvasHeight) && FlagsAre(parts, i.flags))
    && (i.anmf > 0 ==> i.anim > 0) && (i.anim > 0 ==> i.vp8x > 0)
  }

  /** The account of the open frame. */
  ghost predicate Inside(i: Info, p: Part) {
    && p.Frame? && |p.anmf.bytes| > 24 && i.anim > 0
    && i.frameWidth == FrameWidth(p.anmf) && i.frameHeight == FrameHeight(p.anmf)
    && i.frameLeft == |p.anmf.bytes| - 24 - Sum(p.subs)
    && (i.seenImage <==> ImageAmong(p.subs)) && (i.seenAlpha <==> Among(p.subs, ALPH))
  }

  ghost predicate Tracked(i: Info, parts: seq<Part>, o: Oracle) {
    Tells(i, parts, o) && (i.inFrame <==> OpenFrame(parts)) && (i.inFrame ==> Inside(i, parts[|parts| - 1]))
  }

  lemma StartIsTracked(o: Oracle)
    ensures Tracked(INIT, [], o)
  {
    hide *;
    NothingSeen(o);
    StartTells(INIT, [], o);
  }

  lemma StartTells(i: Info, parts: seq<Part>, o: Oracle)
    requires (forall id :: !Seen(parts, id) && !SeenAnywhere(parts, id)) && !OpenFrame(parts)
    requires !SeenFrame(parts) && !SeenAlpha(parts, o) && NumImages(parts) == 0 && i == INIT
    ensures Tracked(i, parts, o)
  {
    hide Seen, SeenAnywhere, SeenFrame, SeenAlpha, NumImages, CanvasIs, FlagsAre, Inside, OpenFrame;
  }

  lemma NothingSeen(o: Oracle)
    ensures forall id :: !Seen([], id) && !SeenAnywhere([], id)
    ensures !SeenFrame([]) && !SeenAlpha([], o) && NumImages([]) == 0 && !OpenFrame([])
  {
  }

  /** All that one part more changes. */
  lemma MorePart(init: seq<Part>, p: Part, o: Oracle)
    ensures forall id :: Seen(init + [p], id) <==> Seen(init, id) || (p.Top? && p.chunk.id == id)
    ensures forall id :: SeenAnywhere(init + [p], id) <==>
              SeenAnywhere(init, id) || if p.Top? then p.chunk.id == id else Among(p.subs, id)
    ensures SeenFrame(init + [p]) <==> SeenFrame(init) || p.Frame?
    ensures SeenAlpha(init + [p], o) <==> SeenAlpha(init, o) || PartHasAlpha(p, o)
    ensures NumImages(init + [p]) == NumImages(init) + if p.Top? then if IsImage(p.chunk.id) then 1 else 0 else if ImageAmong(p.subs) then 1 else 0
    ensures forall w, h :: CanvasIs(init + [p], w, h) <==> CanvasIs(init, w, h) && (IsVp8x(p) ==> CanvasIs([p], w, h))
    ensures forall flags :: FlagsAre(init + [p], flags) <==> FlagsAre(init, flags) && (IsVp8x(p) ==> FlagsAre([p], flags))
    ensures OpenFrame(init + [p]) <==> !p.Closed()
  {
    hide Seen, SeenAnywhere, SeenFrame, SeenAlpha, NumImages, CanvasIs, FlagsAre, Among, PartHasAlpha;
    forall id ensures Seen(init + [p], id) <==> Seen(init, id) || (p.Top? && p.chunk.id == id) { SeenMore(init, p, id); }
    forall id
      ensures SeenAnywhere(init + [p], id) <==> SeenAnywhere(init, id) || if p.Top? then p.chunk.id == id else Among(p.subs, id)
    {
      SeenAnywhereMore(init, p, id);
    }
    SeenFrameMore(init, p);
    SeenAlphaMore(init, p, o);
    NumImagesMore(init, p);
    forall w, h ensures CanvasIs(init + [p], w, h) <==> CanvasIs(init, w, h) && (IsVp8x(p) ==> CanvasIs([p], w, h)) {
      CanvasMore(init, p, w, h, 0);
    }
    forall flags ensures FlagsAre(init + [p], flags) <==> FlagsAre(init, flags) && (IsVp8x(p) ==> FlagsAre([p], flags)) {
      CanvasMore(init, p, 0, 0, flags);
    }
  }

  /** Without a VP8X chunk any canvas fits. */
  lemma NoCanvas(parts: seq<Part>, w: int, h: int, flags: nat)
    requires !Seen(parts, VP8X)
    ensures CanvasIs(parts, w, h) && FlagsAre(parts, flags)
  {
    forall k | 0 <= k < |parts| ensures !IsVp8x(parts[k]) {
    }
  }

  /** There is only one canvas. */
  lemma OneCanvas(parts: seq<Part>, w: int, h: int, w': int, h': int)
    requires Seen(parts, VP8X) && CanvasIs(parts, w, h) && CanvasIs(parts, w', h')
    ensures w == w' && h == h'
  {
    var k :| 0 <= k < |parts| && parts[k].Top? && parts[k].chunk.id == VP8X;
    assert IsVp8x(parts[k]);
  }

  lemma OneFlags(parts: seq<Part>, flags: nat, flags': nat)
    requires Seen(parts, VP8X) && FlagsAre(parts, flags) && FlagsAre(parts, flags')
    ensures flags == flags'
  {
    var k :| 0 <= k < |parts| && parts[k].Top? && parts[k].chunk.id == VP8X;
    assert IsVp8x(parts[k]);
  }

  // ---- one chunk more ----

  /** An image outside frames. */
  lemma ImageStep(i: Info, parts: seq<Part>, c: ChunkData, o: Oracle)
    requires c.Valid() && Tracked(i, parts, o) && !OpenFrame(parts) && IsImage(c.id)
    ensures Process(i, c, o).1 == OK <==> GoodImage(parts, c, o)
    ensures Process(i, c, o).1 == OK ==> Tracked(Process(i, c, o).0, parts + [Top(c)], o)
  {
    hide Seen, SeenAnywhere, SeenFrame, SeenAlpha, NumImages, CanvasIs, FlagsAre, Among, GetLE;
    MorePart(parts, Top(c), o);
    var f := o.features(c);
    if Seen(parts, VP8X) {
      if CanvasIs(parts, f.width, f.height) {
        OneCanvas(parts, f.width, f.height, i.canvasWidth, i.canvasHeight);
      }
    }
    assert Process(i, c, o) == ProcessImage(i, c, o);
  }

  /** Any other chunk outside frames. */
  lemma TopStep(i: Info, parts: seq<Part>, c: ChunkData, o: Oracle)
    requires c.Valid() && Tracked(i, parts, o) && !OpenFrame(parts) && c.id != ANMF && !IsImage(c.id)
    ensures Process(i, c, o).1 == OK <==> GoodTop(parts, c, o)
    ensures Process(i, c, o).1 == OK ==> Tracked(Process(i, c, o).0, parts + [Top(c)], o)
  {
    hide Seen, SeenAnywhere, SeenFrame, SeenAlpha, NumImages, CanvasIs, FlagsAre, Among, GetLE;
    MorePart(parts, Top(c), o);
    if c.id == VP8X && |c.bytes| == 18 && i.vp8x == 0 {
      var w, h := 1 + GetLE(c.bytes[12..15]), 1 + GetLE(c.bytes[15..18]);
      NoCanvas(parts, w, h, c.bytes[8] as nat);
      OwnCanvas(c);
    }
  }

  lemma OwnCanvas(c: ChunkData)
    requires |c.bytes| == 18
    ensures CanvasIs([Top(c)], 1 + GetLE(c.bytes[12..15]), 1 + GetLE(c.bytes[15..18])) && FlagsAre([Top(c)], c.bytes[8] as nat)
  {
  }

  /** The start of an animation frame. */
  lemma FrameStep(i: Info, parts: seq<Part>, c: ChunkData, o: Oracle)
    requires c.Valid() && Tracked(i, parts, o) && !OpenFrame(parts) && c.id == ANMF
    ensures Process(i, c, o).1 == OK <==> GoodFrame(parts, c)
    ensures Process(i, c, o).1 == OK ==> Tracked(Process(i, c, o).0, parts + [Frame(c, [])], o)
  {
    hide Seen, SeenAnywhere, SeenFrame, SeenAlpha, NumImages, CanvasIs, FlagsAre, GetLE;
    MorePart(parts, Frame(c, []), o);
    assert Process(i, c, o) == ProcessANMF(i, c);
    if GoodFrame(parts, c) {
      var w, h :| Canvas(parts, w, h) && 2 * GetLE(c.bytes[8..11]) + FrameWidth(c) <= w && 2 * GetLE(c.bytes[11..14]) + FrameHeight(c) <= h;
      OneCanvas(parts, w, h, i.canvasWidth, i.canvasHeight);
    }
    if Process(i, c, o).1 == OK {
      assert Canvas(parts, i.canvasWidth, i.canvasHeight);
    }
  }

  /** All that one sub-chunk more changes. */
  lemma MoreSub(init: seq<Part>, a: ChunkData, subs: seq<ChunkData>, c: ChunkData, o: Oracle)
    ensures var before, after := init + [Frame(a, subs)], init + [Frame(a, subs + [c])];
            && (forall id :: Seen(after, id) <==> Seen(before, id))
            && (forall id :: SeenAnywhere(after, id) <==> SeenAnywhere(before, id) || c.id == id)
            && SeenFrame(before) && SeenFrame(after)
            && (SeenAlpha(after, o) <==> SeenAlpha(before, o) || HasAlpha(c, o))
            && NumImages(after) == NumImages(before) + (if IsImage(c.id) && !ImageAmong(subs) then 1 else 0)
            && (forall w, h :: CanvasIs(after, w, h) <==> CanvasIs(before, w, h))
            && (forall flags :: FlagsAre(after, flags) <==> FlagsAre(before, flags))
    ensures forall id :: Among(subs + [c], id) <==> Among(subs, id) || c.id == id
    ensures Sum(subs + [c]) == Sum(subs) + |c.bytes|
  {
    hide Seen, SeenAnywhere, SeenFrame, SeenAlpha, NumImages, CanvasIs, FlagsAre, Among, PartHasAlpha, HasAlpha, Sum;
    forall id ensures Among(subs + [c], id) <==> Among(subs, id) || c.id == id { AmongMore(subs, c, id); }
    MorePart(init, Frame(a, subs), o);
    MorePart(init, Frame(a, subs + [c]), o);
    FrameAlphaMore(a, subs, c, o);
    SumMore(subs, c);
  }

  /** An image, an ALPH chunk and any other chunk in the open frame. */
  lemma SubImage(i: Info, init: seq<Part>, a: ChunkData, subs: seq<ChunkData>, c: ChunkData, o: Oracle)
    requires c.Valid() && Tracked(i, init + [Frame(a, subs)], o) && !Frame(a, subs).Closed() && IsImage(c.id)
    ensures Process(i, c, o).1 == OK <==> GoodSub(a, subs, c, o)
    ensures Process(i, c, o).1 == OK ==> Tracked(Process(i, c, o).0, init + [Frame(a, subs + [c])], o)
  {
    hide Seen, SeenAnywhere, SeenFrame, SeenAlpha, NumImages, CanvasIs, FlagsAre, Among, Sum, GetLE, FrameWidth, FrameHeight, Process, GoodSub;
    MoreSub(init, a, subs, c, o);
    ImageAccepted(i, a, subs, c, o);
  }

  /** When the image is accepted, and what it changes. */
  lemma ImageAccepted(i: Info, a: ChunkData, subs: seq<ChunkData>, c: ChunkData, o: Oracle)
    requires c.Valid() && i.inFrame && Inside(i, Frame(a, subs)) && IsImage(c.id)
    ensures Process(i, c, o).1 == OK <==> GoodSub(a, subs, c, o)
    ensures Process(i, c, o).1 == OK ==>
              !ImageAmong(subs) && Process(i, c, o).0 ==
                i.(seenImage := true, numFrames := i.numFrames + 1, hasAlpha := i.hasAlpha || o.features(c).hasAlpha,
                   inFrame := 24 + Sum(subs) + |c.bytes| < |a.bytes|,
                   frameLeft := i.frameLeft - if 24 + Sum(subs) + |c.bytes| < |a.bytes| then |c.bytes| else 0)
  {
    hide Among, Sum, GetLE, FrameWidth, FrameHeight;
    AmongMore(subs, c, VP8);
    AmongMore(subs, c, VP8L);
    assert ProcessKind(i, c, o) == ProcessImage(i, c, o);
  }

  lemma SubAlpha(i: Info, init: seq<Part>, a: ChunkData, subs: seq<ChunkData>, c: ChunkData, o: Oracle)
    requires c.Valid() && Tracked(i, init + [Frame(a, subs)], o) && !Frame(a, subs).Closed() && c.id == ALPH
    ensures Process(i, c, o).1 == OK <==> GoodSub(a, subs, c, o)
    ensures Process(i, c, o).1 == OK ==> Tracked(Process(i, c, o).0, init + [Frame(a, subs + [c])], o)
  {
    hide Seen, SeenAnywhere, SeenFrame, SeenAlpha, NumImages, CanvasIs, FlagsAre, Among, Sum, GetLE, FrameWidth, FrameHeight;
    MoreSub(init, a, subs, c, o);
    assert ProcessKind(i, c, o) == ProcessALPH(i, c, o);
  }

  lemma SubOther(i: Info, init: seq<Part>, a: ChunkData, subs: seq<ChunkData>, c: ChunkData, o: Oracle)
    requires c.Valid() && Tracked(i, init + [Frame(a, subs)], o) && !Frame(a, subs).Closed() && c.id != ALPH && !IsImage(c.id)
    ensures Process(i, c, o).1 == OK <==> GoodSub(a, subs, c, o)
    ensures Process(i, c, o).1 == OK ==> Tracked(Process(i, c, o).0, init + [Frame(a, subs + [c])], o)
  {
    hide Seen, SeenAnywhere, SeenFrame, SeenAlpha, NumImages, CanvasIs, FlagsAre, Among, Sum, GetLE, FrameWidth, FrameHeight;
    MoreSub(init, a, subs, c, o);
  }

  lemma SubStep(i: Info, parts: seq<Part>, c: ChunkData, o: Oracle)
    requires c.Valid() && Tracked(i, parts, o) && OpenFrame(parts)
    ensures Process(i, c, o).1 == OK <==> GoodSub(parts[|parts| - 1].anmf, parts[|parts| - 1].subs, c, o)
    ensures Process(i, c, o).1 == OK ==> Tracked(Process(i, c, o).0, Add(parts, c), o)
  {
    hide Process, Tracked, GoodSub;
    var init, last := parts[..|parts| - 1], parts[|parts| - 1];
    assert parts == init + [Frame(last.anmf, last.subs)];
    assert Add(parts, c) == init + [Frame(last.anmf, last.subs + [c])];
    if IsImage(c.id) {
      SubImage(i, init, last.anmf, last.subs, c, o);
    } else if c.id == ALPH {
      SubAlpha(i, init, last.anmf, last.subs, c, o);
    } else {
      SubOther(i, init, last.anmf, last.subs, c, o);
    }
  }

  /** One chunk: it is accepted exactly when it is allowed behind the parts before it. */
  lemma ChunkStep(i: Info, parts: seq<Part>, c: ChunkData, o: Oracle)
    requires c.Valid() && Tracked(i, parts, o)
    ensures Process(i, c, o).1 == OK <==> Allowed(parts, c, o)
    ensures Process(i, c, o).1 == OK ==> Tracked(Process(i, c, o).0, Add(parts, c), o)
  {
    hide Process, Tracked, GoodImage, GoodSub, GoodFrame;
    if OpenFrame(parts) {
      SubStep(i, parts, c, o);
    } else if c.id == ANMF {
      FrameStep(i, parts, c, o);
    } else if IsImage(c.id) {
      ImageStep(i, parts, c, o);
    } else {
      TopStep(i, parts, c, o);
    }
  }

  // ---- all chunks ----

  lemma GroupMore(cs: seq<ChunkData>, c: ChunkData)
    ensures Group(cs + [c]) == Add(Group(cs), c)
  {
    assert (cs + [c])[..|cs|] == cs;
  }

  lemma AllowedMore(cs: seq<ChunkData>, c: ChunkData, o: Oracle)
    ensures AllAllowed(cs + [c], o) <==> AllAllowed(cs, o) && Allowed(Group(cs), c, o)
  {
    hide Group, Allowed;
    var all := cs + [c];
    assert all[..|cs|] == cs && all[|cs|] == c;
    assert forall k :: 0 <= k < |cs| ==> all[..k] == cs[..k] && all[k] == cs[k];
    if AllAllowed(all, o) {
      assert Allowed(Group(all[..|cs|]), all[|cs|], o);
      forall k | 0 <= k < |cs| ensures Allowed(Group(cs[..k]), cs[k], o) {
        assert Allowed(Group(all[..k]), all[k], o);
      }
    }
  }

  /** A list with a chunk that is not allowed stays so, whatever follows. */
  lemma AllowedPrefix(a: seq<ChunkData>, b: seq<ChunkData>, o: Oracle)
    requires AllAllowed(a + b, o)
    ensures AllAllowed(a, o)
  {
    hide Group, Allowed;
    var all := a + b;
    forall k | 0 <= k < |a| ensures Allowed(Group(a[..k]), a[k], o) {
      assert all[..k] == a[..k] && Allowed(Group(all[..k]), all[k], o);
    }
  }

  /** The walk from the point where the chunks `done` are behind it. */
  lemma {:induction false} WalkIsGrammar(body: seq<byte>, i: Info, done: seq<ChunkData>, o: Oracle)
    requires Tracked(i, Group(done), o) && AllAllowed(done, o)
    ensures var (cs, status) := Chunks(body);
            && (Walk(body, i, o).1 == OK <==> status == OK && AllAllowed(done + cs, o))
            && (Walk(body, i, o).1 == OK ==> Tracked(Walk(body, i, o).0, Group(done + cs), o))
    decreases |body|
  {
    hide NextChunk, Process, Tracked, AllAllowed, Allowed, Group;
    if body == [] {
      assert done + [] == done;
    } else if NextChunk(body).Good? {
      var c, skip := NextChunk(body).chunk, NextChunk(body).skip;
      ChunkStep(i, Group(done), c, o);
      AllowedMore(done, c, o);
      GroupMore(done, c);
      if skip <= |body| {
        var rest := Chunks(body[skip..]).0;
        assert done + [c] + rest == done + ([c] + rest);
        if Process(i, c, o).1 == OK {
          WalkIsGrammar(body[skip..], Process(i, c, o).0, done + [c], o);
        } else if AllAllowed(done + ([c] + rest), o) {
          AllowedPrefix(done + [c], rest, o);
        }
      }
    }
  }

  /** The final check. */
  lemma EndIsGood(i: Info, parts: seq<Part>, flags: nat, o: Oracle)
    requires Tracked(i, parts, o) && FlagsAre(parts, flags)
    ensures Validate(i) == OK <==> GoodEnd(parts, flags, o)
  {
    hide Seen, SeenAnywhere, SeenFrame, SeenAlpha, NumImages, CanvasIs, FlagsAre, HasFlag;
    if Seen(parts, VP8X) {
      OneFlags(parts, flags, i.flags);
    }
  }

  /** The chunks that webpinfo accepts: each allowed behind those before it, and the
      flags of the VP8X chunk, if there is one, right for all of them. */
  ghost predicate Grammatical(cs: seq<ChunkData>, o: Oracle) {
    AllAllowed(cs, o) && exists flags: nat :: FlagsAre(Group(cs), flags) && GoodEnd(Group(cs), flags, o)
  }

  /** The header: "RIFF", a size that the file has room for, "WEBP". */
  lemma HeaderExactly(file: seq<byte>)
    ensures ParseRIFF(file).Body? <==>
              && |file| >= 20 && file[..4] == [0x52, 0x49, 0x46, 0x46] && file[8..12] == [0x57, 0x45, 0x42, 0x50]
              && 8 <= GetLE(file[4..8]) <= 0xffff_fff6 && 8 + GetLE(file[4..8]) <= |file|
    ensures ParseRIFF(file).Body? ==> ParseRIFF(file).bytes == file[12..8 + GetLE(file[4..8])]
  {
    hide GetLE;
  }

  /** A chunk: its header, and a payload that is there with its padding; the payload of
      an animation frame is of even length. */
  lemma ChunkExactly(body: seq<byte>)
    ensures NextChunk(body).Good? <==>
              && |body| >= 8
              && var size := GetLE(body[4..8]);
                 size <= 0xffff_fff6 && 8 + size + size % 2 <= |body| && (body[..4] == [0x41, 0x4e, 0x4d, 0x46] ==> size % 2 == 0)
    ensures NextChunk(body).Good? ==>
              var size := GetLE(body[4..8]);
              && NextChunk(body).chunk == ChunkData(IdOf(body[..4]), body[..8 + size + size % 2])
              && NextChunk(body).skip == if body[..4] == [0x41, 0x4e, 0x4d, 0x46] then 24 else 8 + size + size % 2
  {
    hide GetLE;
    if |body| >= 8 && IdOf(body[..4]) != UNKNOWN {
      TagOfId(body[..4]);
    }
    IdOfTag(ANMF);
  }

  lemma TagOfId(tag: seq<byte>)
    requires IdOf(tag) != UNKNOWN
    ensures tag == Tag(IdOf(tag))
  {
    hide Tag;
  }

  /** For every file: it is accepted if and only if it is a RIFF file of whole chunks
      that are grammatical. */
  lemma AcceptedIsGrammar(file: seq<byte>, o: Oracle)
    ensures Analyze(file, o).1 == OK <==>
              && ParseRIFF(file).Body? && Chunks(ParseRIFF(file).bytes).1 == OK
              && Grammatical(Chunks(ParseRIFF(file).bytes).0, o)
  {
    hide ParseRIFF, Chunks, Walk, Tracked, AllAllowed, Group, FlagsAre, GoodEnd, Validate;
    if ParseRIFF(file).Body? {
      var body := ParseRIFF(file).bytes;
      var cs := Chunks(body).0;
      StartIsTracked(o);
      NothingGrouped(o);
      WalkIsGrammar(body, INIT, [], o);
      assert [] + cs == cs;
      if Walk(body, INIT, o).1 == OK {
        var i := Walk(body, INIT, o).0;
        TrackedFlags(i, Group(cs), o);
        EndIsGood(i, Group(cs), i.flags, o);
        if Grammatical(cs, o) {
          var flags: nat :| FlagsAre(Group(cs), flags) && GoodEnd(Group(cs), flags, o);
          EndIsGood(i, Group(cs), flags, o);
        }
      }
    } else {
      RefusedHeader(file);
    }
  }

  lemma NothingGrouped(o: Oracle)
    ensures Group([]) == [] && AllAllowed([], o)
  {
  }

  lemma RefusedHeader(file: seq<byte>)
    requires ParseRIFF(file).Malformed?
    ensures ParseRIFF(file).status != OK
  {
  }

  lemma TrackedFlags(i: Info, parts: seq<Part>, o: Oracle)
    requires Tracked(i, parts, o)
    ensures FlagsAre(parts, i.flags)
  {
    hide FlagsAre;
    if !Seen(parts, VP8X) {
      NoCanvas(parts, 0, 0, i.flags);
    }
  }
}

/** The in-place canvas operations of gifdec.c and anim_util.c, and the two loops
    that compose an animation with them, against the pixel functions of
    GifCompositors. A canvas is indexed [row, column]. */
module GifCanvases {
  import opened GifCompositors
  import opened Options
  import Interlace

  type Canvas = array2<Pixel>

  type Index = x: int | 0 <= x < 256

  const NO_TRANSPARENT_COLOR := -1

  /** A frame as it lies in the file: its lines of colour indices in the order in which
      they are sent, its colour map and the index that stands for transparent. */
  datatype Image = Image(interlaced: bool, lines: seq<seq<Index>>, cmap: seq<Color>, transparent: int) {
    predicate Fills(r: Rect) {
      |lines| == r.height && forall l <- lines :: |l| == r.width
    }

    /** As what number row y of the picture is sent. */
    function Sent(y: nat): (k: nat)
      requires y < |lines|
      ensures k < |lines|
    {
      Interlace.EachRowOnce(|lines|, y, y);
      if interlaced then Interlace.Position(|lines|, y) else y
    }

    /** Row y of the picture. */
    function Row(y: nat): seq<Index>
      requires y < |lines|
    {
      lines[Sent(y)]
    }

    lemma SentOnce(y: nat, v: nat)
      requires y < |lines| && v < |lines| && Sent(y) == Sent(v)
      ensures y == v
    {
      hide Interlace.Position, Interlace.RowSent;
      Interlace.EachRowOnce(|lines|, y, y);
      Interlace.EachRowOnce(|lines|, v, v);
    }

    /** Every index of the line has a meaning. */
    predicate Known(line: seq<Index>) {
      forall k <- line :: k == transparent || k < |cmap|
    }

    predicate AllKnown() {
      forall l <- lines :: Known(l)
    }

    function Look(k: Index): Option<Color> {
      if k == transparent then None else if k < |cmap| then Some(cmap[k]) else None
    }
  }

  datatype Animation = Animation(gif: Gif, images: seq<Image>) {
    predicate Valid() {
      && gif.Valid() && |images| == |gif.frames|
      && forall i :: 0 <= i < |images| ==>
           && images[i].Fills(gif.frames[i].rect)
           && (gif.frames[i].noTransparent <==> images[i].transparent == NO_TRANSPARENT_COLOR)
    }

    /** No frame is rejected for an index outside its colour map. */
    predicate AllKnown() {
      forall image <- images :: image.AllKnown()
    }

    /** The pixels of the frames. */
    function Px(): Pixels {
      (i: nat, x: int, y: int) =>
        if i < |gif.frames| && i < |images| && images[i].Fills(gif.frames[i].rect) && gif.frames[i].rect.Has(x, y)
        then images[i].Look(images[i].Row(y - gif.frames[i].rect.top)[x - gif.frames[i].rect.left])
        else None
    }
  }

  ghost predicate Sized(c: Canvas, g: Gif) {
    c.Length0 == g.height && c.Length1 == g.width
  }

  predicate Inside(r: Rect, c: Canvas) {
    r.left + r.width <= c.Length1 && r.top + r.height <= c.Length0
  }

  // ---- gifdec.c ----

  method ClearRectangle(c: Canvas, r: Rect)
    requires Inside(r, c)
    modifies c
    ensures forall y, x :: 0 <= y < c.Length0 && 0 <= x < c.Length1 ==>
              c[y, x] == if r.Has(x, y) then TRANSPARENT else old(c[y, x])
  {
    for j := 0 to r.height
      invariant forall y, x :: 0 <= y < c.Length0 && 0 <= x < c.Length1 ==>
                  c[y, x] == if r.Has(x, y) && y < r.top + j then TRANSPARENT else old(c[y, x])
    {
      for i := 0 to r.width
        invariant forall y, x :: 0 <= y < c.Length0 && 0 <= x < c.Length1 ==>
                    c[y, x] == if r.Has(x, y) && (y < r.top + j || (y == r.top + j && x < r.left + i)) then TRANSPARENT
                               else old(c[y, x])
      {
        c[r.top + j, r.left + i] := TRANSPARENT;
      }
    }
  }

  /** WebPCopyPlane of a rectangle, and CopyFrameRectangle. */
  method CopyRectangle(src: Canvas, dst: Canvas, r: Rect)
    requires src != dst && Inside(r, src) && Inside(r, dst)
    modifies dst
    ensures forall y, x :: 0 <= y < dst.Length0 && 0 <= x < dst.Length1 ==>
              dst[y, x] == if r.Has(x, y) then src[y, x] else old(dst[y, x])
  {
    for j := 0 to r.height
      invariant forall y, x :: 0 <= y < dst.Length0 && 0 <= x < dst.Length1 ==>
                  dst[y, x] == if r.Has(x, y) && y < r.top + j then src[y, x] else old(dst[y, x])
    {
      for i := 0 to r.width
        invariant forall y, x :: 0 <= y < dst.Length0 && 0 <= x < dst.Length1 ==>
                    dst[y, x] == if r.Has(x, y) && (y < r.top + j || (y == r.top + j && x < r.left + i)) then src[y, x]
                                 else old(dst[y, x])
      {
        dst[r.top + j, r.left + i] := src[r.top + j, r.left + i];
      }
    }
  }

  /** GIFCopyPixels and CopyCanvas. */
  method CopyPixels(src: Canvas, dst: Canvas)
    requires src != dst && src.Length0 == dst.Length0 && src.Length1 == dst.Length1
    modifies dst
    ensures forall y, x :: 0 <= y < dst.Length0 && 0 <= x < dst.Length1 ==> dst[y, x] == src[y, x]
  {
    CopyRectangle(src, dst, Rect(0, 0, dst.Length1, dst.Length0));
  }

  method GIFDisposeFrame(dispose: Dispose, r: Rect, prev: Canvas, curr: Canvas)
    requires prev != curr && Inside(r, prev) && Inside(r, curr)
    modifies curr
    ensures forall y, x :: 0 <= y < curr.Length0 && 0 <= x < curr.Length1 ==>
              curr[y, x] ==
                if !r.Has(x, y) || dispose == KEEP then old(curr[y, x])
                else if dispose == BACKGROUND then TRANSPARENT else prev[y, x]
  {
    if dispose == BACKGROUND {
      ClearRectangle(curr, r);
    } else if dispose == PREVIOUS {
      CopyRectangle(prev, curr, r);
    }
  }

  method GIFBlendFrames(src: Canvas, r: Rect, dst: Canvas)
    requires src != dst && Inside(r, src) && Inside(r, dst)
    modifies dst
    ensures forall y, x :: 0 <= y < dst.Length0 && 0 <= x < dst.Length1 ==>
              dst[y, x] == if r.Has(x, y) && src[y, x] >= 0x100_0000 then src[y, x] else old(dst[y, x])
  {
    for j := r.top to r.top + r.height
      invariant forall y, x :: 0 <= y < dst.Length0 && 0 <= x < dst.Length1 ==>
                  dst[y, x] == if r.Has(x, y) && y < j && src[y, x] >= 0x100_0000 then src[y, x] else old(dst[y, x])
    {
      for i := r.left to r.left + r.width
        invariant forall y, x :: 0 <= y < dst.Length0 && 0 <= x < dst.Length1 ==>
                    dst[y, x] == if r.Has(x, y) && (y < j || (y == j && x < i)) && src[y, x] >= 0x100_0000 then src[y, x]
                                 else old(dst[y, x])
      {
        var srcAlpha := src[j, i] / 0x100_0000;
        if srcAlpha != 0 {
          dst[j, i] := src[j, i];
        }
      }
    }
  }

  function Value(p: Option<Color>): Pixel {
    match p case None => TRANSPARENT case Some(colour) => colour as int
  }

  /** Remap of one line into row y of the picture; it stops at an unknown index. */
  method Remap(image: Image, line: seq<Index>, c: Canvas, left: nat, y: nat) returns (ok: bool)
    requires y < c.Length0 && left + |line| <= c.Length1
    modifies c
    ensures ok <==> image.Known(line)
    ensures forall v, x :: 0 <= v < c.Length0 && 0 <= x < c.Length1 ==>
              (v == y && left <= x < left + |line|) || c[v, x] == old(c[v, x])
    ensures ok ==> forall x :: left <= x < left + |line| ==> c[y, x] == Value(image.Look(line[x - left]))
  {
    for i := 0 to |line|
      invariant forall k :: 0 <= k < i ==> line[k] == image.transparent || line[k] < |image.cmap|
      invariant forall v, x :: 0 <= v < c.Length0 && 0 <= x < c.Length1 ==>
                  (v == y && left <= x < left + i) || c[v, x] == old(c[v, x])
      invariant forall x :: left <= x < left + i ==> c[y, x] == Value(image.Look(line[x - left]))
    {
      if line[i] == image.transparent {
        c[y, left + i] := TRANSPARENT;
      } else if line[i] < |image.cmap| {
        c[y, left + i] := image.cmap[line[i]] as int;
      } else {
        assert line[i] in line;
        return false;
      }
    }
    return true;
  }

  /** The first n lines sent are in their rows of the frame's sub-picture. */
  ghost predicate RowsRead(c: Canvas, a: Animation, i: nat, n: nat)
    reads c
    requires a.Valid() && i < |a.images|
  {
    var r := a.gif.frames[i].rect;
    && n <= r.height && (forall k :: 0 <= k < n ==> a.images[i].Known(a.images[i].lines[k]))
    && forall v, x :: 0 <= v < c.Length0 && 0 <= x < c.Length1 && r.Has(x, v) && a.images[i].Sent(v - r.top) < n ==>
         c[v, x] == Value(a.Px()(i, x, v))
  }

  /** DGifGetLine and Remap: line n goes to row y of the sub-picture. */
  method ReadLine(a: Animation, i: nat, c: Canvas, n: nat, y: nat) returns (ok: bool)
    requires a.Valid() && i < |a.images| && Sized(c, a.gif) && RowsRead(c, a, i, n)
    requires y < a.gif.frames[i].rect.height && a.images[i].Sent(y) == n
    modifies c
    ensures ok <==> a.images[i].Known(a.images[i].lines[n])
    ensures ok ==> RowsRead(c, a, i, n + 1)
    ensures forall v, x :: 0 <= v < c.Length0 && 0 <= x < c.Length1 && !a.gif.frames[i].rect.Has(x, v) ==> c[v, x] == old(c[v, x])
  {
    hide Animation.Px, Animation.Valid, Image.Sent, Image.Known, Image.Look, Image.Fills, Value;
    FrameFits(a, i);
    var r := a.gif.frames[i].rect;
    var image := a.images[i];
    assert image.Row(y) == image.lines[n];
    ok := Remap(image, image.lines[n], c, r.left, r.top + y);
    if ok {
      forall v, x | 0 <= v < c.Length0 && 0 <= x < c.Length1 && r.Has(x, v) && image.Sent(v - r.top) < n + 1
        ensures c[v, x] == Value(a.Px()(i, x, v))
      {
        if v == r.top + y {
          PixelOf(a, i, x, v);
        } else {
          RowElsewhere(image, y, v - r.top, n);
        }
      }
    }
  }

  /** A frame lies on the canvas and has all its lines. */
  lemma FrameFits(a: Animation, i: nat)
    requires a.Valid() && i < |a.images|
    ensures |a.gif.frames| == |a.images|
    ensures var r := a.gif.frames[i].rect;
            && r.left + r.width <= a.gif.width && r.top + r.height <= a.gif.height
            && |a.images[i].lines| == r.height && forall k :: 0 <= k < r.height ==> |a.images[i].lines[k]| == r.width
  {
    assert a.gif.frames[i] in a.gif.frames;
    forall k | 0 <= k < a.gif.frames[i].rect.height ensures |a.images[i].lines[k]| == a.gif.frames[i].rect.width {
      assert a.images[i].lines[k] in a.images[i].lines;
    }
  }

  lemma RowElsewhere(image: Image, y: nat, v: nat, n: nat)
    requires y < |image.lines| && v < |image.lines| && image.Sent(y) == n && image.Sent(v) < n + 1 && v != y
    ensures image.Sent(v) < n
  {
    hide Image.Sent;
    if image.Sent(v) == n {
      image.SentOnce(y, v);
    }
  }

  lemma PixelOf(a: Animation, i: nat, x: int, v: int)
    requires a.Valid() && i < |a.images| && a.gif.frames[i].rect.Has(x, v)
    ensures var r := a.gif.frames[i].rect;
            && |a.images[i].lines| == r.height && |a.images[i].Row(v - r.top)| == r.width
            && a.Px()(i, x, v) == a.images[i].Look(a.images[i].Row(v - r.top)[x - r.left])
  {
  }

  /** The four passes of an interlaced image. */
  method ReadPasses(a: Animation, i: nat, c: Canvas) returns (ok: bool)
    requires a.Valid() && i < |a.images| && Sized(c, a.gif) && a.images[i].interlaced
    modifies c
    ensures ok ==> RowsRead(c, a, i, a.gif.frames[i].rect.height)
    ensures !ok ==> exists k :: 0 <= k < |a.images[i].lines| && !a.images[i].Known(a.images[i].lines[k])
    ensures forall v, x :: 0 <= v < c.Length0 && 0 <= x < c.Length1 && !a.gif.frames[i].rect.Has(x, v) ==> c[v, x] == old(c[v, x])
  {
    hide Interlace.Position, Interlace.Before, Interlace.PassOf, RowsRead, Image.Known, Animation.Px;
    var h := a.gif.frames[i].rect.height;
    var n := 0;
    Interlace.StartAndEnd(h);
    NothingRead(c, a, i);
    for pass := 0 to 4
      invariant n == Interlace.Before(h, pass) && n <= h && RowsRead(c, a, i, n)
      invariant forall v, x :: 0 <= v < c.Length0 && 0 <= x < c.Length1 && !a.gif.frames[i].rect.Has(x, v) ==> c[v, x] == old(c[v, x])
    {
      var y := Interlace.OFFSETS[pass];
      Interlace.FirstOfPass(h, pass);
      while y < h
        invariant n <= h && Interlace.PassOf(y) == pass && RowsRead(c, a, i, n)
        invariant if y < h then n == Interlace.Position(h, y) else n == Interlace.Before(h, pass + 1)
        invariant forall v, x :: 0 <= v < c.Length0 && 0 <= x < c.Length1 && !a.gif.frames[i].rect.Has(x, v) ==> c[v, x] == old(c[v, x])
      {
        Interlace.EachRowOnce(h, y, y);
        ok := ReadLine(a, i, c, n, y);
        if !ok {
          return;
        }
        n := n + 1;
        Interlace.NextInPass(h, y);
        y := y + Interlace.JUMPS[pass];
      }
    }
    ok := true;
  }

  lemma NothingRead(c: Canvas, a: Animation, i: nat)
    requires a.Valid() && i < |a.images|
    ensures RowsRead(c, a, i, 0)
  {
  }

  /** The rows of an image that is not interlaced. */
  method ReadRows(a: Animation, i: nat, c: Canvas) returns (ok: bool)
    requires a.Valid() && i < |a.images| && Sized(c, a.gif) && !a.images[i].interlaced
    modifies c
    ensures ok ==> RowsRead(c, a, i, a.gif.frames[i].rect.height)
    ensures !ok ==> exists k :: 0 <= k < |a.images[i].lines| && !a.images[i].Known(a.images[i].lines[k])
    ensures forall v, x :: 0 <= v < c.Length0 && 0 <= x < c.Length1 && !a.gif.frames[i].rect.Has(x, v) ==> c[v, x] == old(c[v, x])
  {
    hide RowsRead, Image.Known, Animation.Px;
    NothingRead(c, a, i);
    for y := 0 to a.gif.frames[i].rect.height
      invariant RowsRead(c, a, i, y)
      invariant forall v, x :: 0 <= v < c.Length0 && 0 <= x < c.Length1 && !a.gif.frames[i].rect.Has(x, v) ==> c[v, x] == old(c[v, x])
    {
      ok := ReadLine(a, i, c, y, y);
      if !ok {
        return;
      }
    }
    ok := true;
  }

  /** The row of the frame that shows line k of those sent: the four passes if it is
      interlaced, otherwise top to bottom. */
  lemma LineIsShown(a: Animation, i: nat, k: nat, x: nat)
    requires a.Valid() && i < |a.images| && k < a.gif.frames[i].rect.height && x < a.gif.frames[i].rect.width
    ensures var image, r := a.images[i], a.gif.frames[i].rect;
            var y := if image.interlaced then Interlace.RowSent(r.height, k) else k;
            && y < r.height && k < |image.lines| && x < |image.lines[k]|
            && a.Px()(i, r.left + x, r.top + y) ==
                 if image.lines[k][x] == image.transparent then None
                 else if image.lines[k][x] < |image.cmap| then Some(image.cmap[image.lines[k][x]]) else None
  {
    hide Interlace.RowSent, Interlace.Position, Animation.Px;
    FrameFits(a, i);
    var image, r := a.images[i], a.gif.frames[i].rect;
    Interlace.EachRowOnce(r.height, k, k);
    var y := if image.interlaced then Interlace.RowSent(r.height, k) else k;
    assert image.Row(y) == image.lines[k];
    PixelOf(a, i, r.left + x, r.top + y);
  }

  /** GIFReadFrame: the sub-picture of the frame, line by line in the order in which the
      lines are sent, and nothing beside it. */
  method GIFReadFrame(a: Animation, i: nat, c: Canvas) returns (ok: bool)
    requires a.Valid() && i < |a.images| && Sized(c, a.gif)
    modifies c
    ensures ok <==> a.images[i].AllKnown()
    ensures ok ==> forall y, x :: 0 <= y < c.Length0 && 0 <= x < c.Length1 && a.gif.frames[i].rect.Has(x, y) ==>
                     c[y, x] == Value(a.Px()(i, x, y))
    ensures ok ==> forall k, x :: 0 <= k < a.gif.frames[i].rect.height && 0 <= x < a.gif.frames[i].rect.width ==>
                     ShowsLine(a, i, c, k, x)
    ensures forall v, x :: 0 <= v < c.Length0 && 0 <= x < c.Length1 && !a.gif.frames[i].rect.Has(x, v) ==> c[v, x] == old(c[v, x])
  {
    hide ShowsLine;
    if a.images[i].interlaced {
      ok := ReadPasses(a, i, c);
    } else {
      ok := ReadRows(a, i, c);
    }
    if ok {
      LinesAreShown(a, i, c);
    }
  }

  /** Pixel x of line k is in its place. */
  ghost predicate ShowsLine(a: Animation, i: nat, c: Canvas, k: nat, x: nat)
    reads c
    requires a.Valid() && i < |a.images| && k < a.gif.frames[i].rect.height && x < a.gif.frames[i].rect.width
  {
    var image, r := a.images[i], a.gif.frames[i].rect;
    var y := r.top + if image.interlaced then Interlace.RowSent(r.height, k) else k;
    && k < |image.lines| && x < |image.lines[k]| && y < c.Length0 && r.left + x < c.Length1
    && if image.lines[k][x] == image.transparent then c[y, r.left + x] == TRANSPARENT
       else image.lines[k][x] < |image.cmap| && c[y, r.left + x] == image.cmap[image.lines[k][x]] as int
  }

  lemma LinesAreShown(a: Animation, i: nat, c: Canvas)
    requires a.Valid() && i < |a.images| && Sized(c, a.gif) && a.images[i].AllKnown()
    requires RowsRead(c, a, i, a.gif.frames[i].rect.height)
    ensures forall k, x :: 0 <= k < a.gif.frames[i].rect.height && 0 <= x < a.gif.frames[i].rect.width ==>
              ShowsLine(a, i, c, k, x)
  {
    hide Interlace.RowSent, Animation.Px;
    FrameFits(a, i);
    var image, r := a.images[i], a.gif.frames[i].rect;
    forall k, x | 0 <= k < r.height && 0 <= x < r.width
      ensures ShowsLine(a, i, c, k, x)
    {
      LineIsShown(a, i, k, x);
      assert image.lines[k] in image.lines && image.lines[k][x] in image.lines[k];
    }
  }

  // ---- the loop of gif2webp ----

  ghost predicate IsDisposed(c: Canvas, a: Animation, i: nat)
    reads c
    requires Sized(c, a.gif) && i <= |a.gif.frames|
  {
    forall y, x :: 0 <= y < c.Length0 && 0 <= x < c.Length1 ==> c[y, x] == Disposed(a.gif, a.Px(), i, x, y)
  }

  ghost predicate IsStreamed(c: Canvas, a: Animation, i: nat)
    reads c
    requires Sized(c, a.gif) && i < |a.gif.frames|
  {
    forall y, x :: 0 <= y < c.Length0 && 0 <= x < c.Length1 ==> c[y, x] == Streamed(a.gif, a.Px(), i, x, y)
  }

  /** Blending frame i into the disposed canvas. */
  method BlendFrame(a: Animation, i: nat, frame: Canvas, curr: Canvas) returns (ok: bool)
    requires a.Valid() && i < |a.images| && frame != curr && Sized(frame, a.gif) && Sized(curr, a.gif)
    requires IsDisposed(curr, a, i)
    modifies frame, curr
    ensures ok <==> a.images[i].AllKnown()
    ensures ok ==> IsStreamed(curr, a, i)
  {
    ok := GIFReadFrame(a, i, frame);
    if ok {
      assert a.gif.frames[i] in a.gif.frames;
      GIFBlendFrames(frame, a.gif.frames[i].rect, curr);
    }
  }

  /** Disposing of frame i. */
  method UpdateCanvases(a: Animation, i: nat, prev: Canvas, curr: Canvas)
    requires a.Valid() && i < |a.images| && prev != curr && Sized(prev, a.gif) && Sized(curr, a.gif)
    requires IsStreamed(curr, a, i) && IsDisposed(prev, a, i)
    modifies prev, curr
    ensures IsDisposed(curr, a, i + 1) && IsDisposed(prev, a, i + 1)
  {
    assert a.gif.frames[i] in a.gif.frames;
    GIFDisposeFrame(a.gif.frames[i].dispose, a.gif.frames[i].rect, prev, curr);
    CopyPixels(curr, prev);
  }

  method NewCanvas(g: Gif) returns (c: Canvas)
    ensures fresh(c) && Sized(c, g)
    ensures forall y, x :: 0 <= y < c.Length0 && 0 <= x < c.Length1 ==> c[y, x] == TRANSPARENT
  {
    c := new Pixel[g.height, g.width]((y, x) => TRANSPARENT);
  }

  method Snapshot(a: Animation, i: nat, curr: Canvas) returns (c: Canvas)
    requires i < |a.gif.frames| && Sized(curr, a.gif) && IsStreamed(curr, a, i)
    ensures fresh(c) && Sized(c, a.gif) && IsStreamed(c, a, i)
  {
    c := NewCanvas(a.gif);
    CopyPixels(curr, c);
  }

  method FirstCanvas(a: Animation) returns (c: Canvas)
    ensures fresh(c) && Sized(c, a.gif) && IsDisposed(c, a, 0)
  {
    c := NewCanvas(a.gif);
  }

  /** The canvases that gif2webp gives to the encoder, up to the first frame that
      does not decode. */
  method Stream(a: Animation) returns (out: seq<Canvas>, ok: bool)
    requires a.Valid()
    ensures ok <==> a.AllKnown()
    ensures |out| <= |a.images| && (ok ==> |out| == |a.images|)
    ensures forall i :: 0 <= i < |out| ==> Sized(out[i], a.gif) && IsStreamed(out[i], a, i)
  {
    hide IsDisposed, IsStreamed, Image.AllKnown;
    var curr := FirstCanvas(a);
    var prev := FirstCanvas(a);
    var frame := NewCanvas(a.gif);
    out := [];
    for i := 0 to |a.images|
      modifies frame, curr, prev
      invariant |out| == i
      invariant forall k :: 0 <= k < i ==> fresh(out[k]) && out[k] != curr && out[k] != prev && out[k] != frame
      invariant forall k :: 0 <= k < i ==> Sized(out[k], a.gif) && IsStreamed(out[k], a, k)
      invariant forall k :: 0 <= k < i ==> a.images[k].AllKnown()
      invariant IsDisposed(curr, a, i) && IsDisposed(prev, a, i)
    {
      ok := BlendFrame(a, i, frame, curr);
      if !ok {
        assert a.images[i] in a.images;
        return;
      }
      var added := Snapshot(a, i, curr);
      out := out + [added];
      UpdateCanvases(a, i, prev, curr);
    }
    return out, true;
  }

  // ---- the loop of anim_util ----

  ghost predicate IsComposed(c: Canvas, a: Animation, i: nat)
    reads c
    requires Sized(c, a.gif) && i < |a.gif.frames|
  {
    forall y, x :: 0 <= y < c.Length0 && 0 <= x < c.Length1 ==> c[y, x] == Composed(a.gif, a.Px(), i, x, y)
  }

  ghost predicate IsBase(c: Canvas, a: Animation, i: nat)
    reads c
    requires Sized(c, a.gif) && i < |a.gif.frames|
  {
    forall y, x :: 0 <= y < c.Length0 && 0 <= x < c.Length1 ==> c[y, x] == Base(a.gif, a.Px(), i, x, y)
  }

  /** RemapPixelsGIF of one line: transparent pixels leave the canvas alone. */
  method RemapPixelsGIF(image: Image, line: seq<Index>, c: Canvas, left: nat, y: nat)
    requires y < c.Length0 && left + |line| <= c.Length1 && image.Known(line)
    modifies c
    ensures forall v, x :: 0 <= v < c.Length0 && 0 <= x < c.Length1 ==>
              c[v, x] ==
                if v == y && left <= x < left + |line| && image.Look(line[x - left]).Some? then Value(image.Look(line[x - left]))
                else old(c[v, x])
  {
    for i := 0 to |line|
      invariant forall v, x :: 0 <= v < c.Length0 && 0 <= x < c.Length1 ==>
                  c[v, x] ==
                    if v == y && left <= x < left + i && image.Look(line[x - left]).Some? then Value(image.Look(line[x - left]))
                    else old(c[v, x])
    {
      assert line[i] in line;
      if line[i] != image.transparent {
        c[y, left + i] := image.cmap[line[i]] as int;
      }
    }
  }

  /** Rows above `end` show the frame, the others the canvas it is drawn on. */
  ghost predicate PartlyComposed(c: Canvas, a: Animation, i: nat, end: nat)
    reads c
    requires Sized(c, a.gif) && i < |a.gif.frames|
  {
    forall v, x :: 0 <= v < c.Length0 && 0 <= x < c.Length1 ==>
      c[v, x] == if v < end then Composed(a.gif, a.Px(), i, x, v) else Base(a.gif, a.Px(), i, x, v)
  }

  lemma ComposedPixel(a: Animation, i: nat, x: int, v: int)
    requires a.Valid() && i < |a.images|
    ensures Composed(a.gif, a.Px(), i, x, v) ==
              if a.gif.frames[i].rect.Has(x, v) && a.Px()(i, x, v).Some? then Value(a.Px()(i, x, v)) else Base(a.gif, a.Px(), i, x, v)
  {
    hide Base, Animation.Px;
  }

  /** One row of the frame. giflib hands the rows of an interlaced frame over from top
      to bottom. */
  method ReadRowGIF(a: Animation, i: nat, y: nat, c: Canvas)
    requires a.Valid() && i < |a.images| && a.images[i].AllKnown() && Sized(c, a.gif) && y < a.gif.frames[i].rect.height
    requires PartlyComposed(c, a, i, a.gif.frames[i].rect.top + y)
    modifies c
    ensures PartlyComposed(c, a, i, a.gif.frames[i].rect.top + y + 1)
  {
    hide Base, Composed, Animation.Px;
    var r := a.gif.frames[i].rect;
    var image := a.images[i];
    FrameFits(a, i);
    var line := image.Row(y);
    assert line in image.lines;
    RemapPixelsGIF(image, line, c, r.left, r.top + y);
    forall v, x | 0 <= v < c.Length0 && 0 <= x < c.Length1
      ensures c[v, x] == if v < r.top + y + 1 then Composed(a.gif, a.Px(), i, x, v) else Base(a.gif, a.Px(), i, x, v)
    {
      if v == r.top + y {
        ComposedPixel(a, i, x, v);
        if r.Has(x, v) {
          PixelOf(a, i, x, v);
        }
      }
    }
  }

  lemma NothingComposed(c: Canvas, a: Animation, i: nat)
    requires a.Valid() && i < |a.images| && Sized(c, a.gif) && IsBase(c, a, i)
    ensures PartlyComposed(c, a, i, a.gif.frames[i].rect.top)
  {
    hide Base, Composed;
    forall v, x | 0 <= v < a.gif.frames[i].rect.top && 0 <= x < c.Length1
      ensures Composed(a.gif, a.Px(), i, x, v) == Base(a.gif, a.Px(), i, x, v)
    {
      ComposedPixel(a, i, x, v);
    }
  }

  lemma AllComposed(c: Canvas, a: Animation, i: nat)
    requires a.Valid() && i < |a.images| && Sized(c, a.gif)
    requires PartlyComposed(c, a, i, a.gif.frames[i].rect.top + a.gif.frames[i].rect.height)
    ensures IsComposed(c, a, i)
  {
    hide Base, Composed;
    forall v, x | a.gif.frames[i].rect.top + a.gif.frames[i].rect.height <= v < c.Length0 && 0 <= x < c.Length1
      ensures Composed(a.gif, a.Px(), i, x, v) == Base(a.gif, a.Px(), i, x, v)
    {
      ComposedPixel(a, i, x, v);
    }
  }

  /** ReadFrameGIF onto the base canvas. */
  method ReadFrameGIF(a: Animation, i: nat, c: Canvas)
    requires a.Valid() && i < |a.images| && a.images[i].AllKnown() && Sized(c, a.gif) && IsBase(c, a, i)
    modifies c
    ensures IsComposed(c, a, i)
  {
    hide PartlyComposed, IsBase, IsComposed;
    var r := a.gif.frames[i].rect;
    NothingComposed(c, a, i);
    for y := 0 to r.height
      invariant PartlyComposed(c, a, i, r.top + y)
    {
      ReadRowGIF(a, i, y, c);
    }
    AllComposed(c, a, i);
  }

  /** ZeroFillCanvas for a key frame. */
  method Blank(a: Animation, i: nat, c: Canvas)
    requires i < |a.gif.frames| && Sized(c, a.gif) && IsKeyFrame(a.gif, i)
    modifies c
    ensures IsBase(c, a, i)
  {
    ClearRectangle(c, Rect(0, 0, a.gif.width, a.gif.height));
  }

  /** CopyCanvas of the frame before. */
  method CopyPrevious(a: Animation, i: nat, prev: Canvas, c: Canvas)
    requires prev != c && i < |a.gif.frames| && Sized(prev, a.gif) && Sized(c, a.gif) && IsComposed(prev, a, i)
    modifies c
    ensures IsComposed(c, a, i)
  {
    CopyPixels(prev, c);
  }

  /** The canvas frame i is drawn on, from the canvases composed before it. */
  method PrepareBase(a: Animation, i: nat, frames: seq<Canvas>, wasKey: bool, c: Canvas) returns (isKey: bool)
    requires a.Valid() && 0 < i < |a.images| && |frames| == |a.images| && Sized(c, a.gif)
    requires forall k :: 0 <= k < i ==> frames[k] != c && Sized(frames[k], a.gif) && IsComposed(frames[k], a, k)
    requires wasKey == IsKeyFrame(a.gif, i - 1)
    modifies c
    ensures isKey == IsKeyFrame(a.gif, i) && IsBase(c, a, i)
  {
    hide IsBase, IsComposed, Image.AllKnown, Covers;
    var prev := a.gif.frames[i - 1];
    assert prev in a.gif.frames;
    isKey := prev.dispose == BACKGROUND
             && ((prev.rect.width == a.gif.width && prev.rect.height == a.gif.height) || wasKey);
    if isKey {
      Blank(a, i, c);
    } else {
      CopyPrevious(a, i - 1, frames[i - 1], c);
      var disposed := prev.dispose == BACKGROUND || prev.dispose == PREVIOUS;
      var opaque_ := a.images[i].transparent == NO_TRANSPARENT_COLOR;
      var covered := opaque_ && Covers(a.gif.frames[i].rect, prev.rect);
      if disposed && !covered {
        Undo(a, i, frames, c);
      } else {
        KeptBase(a, i, c);
      }
    }
  }

  /** Without undoing anything, the canvas before is the canvas to draw on. */
  lemma KeptBase(a: Animation, i: nat, c: Canvas)
    requires 0 < i < |a.gif.frames| && Sized(c, a.gif) && IsComposed(c, a, i - 1)
    requires !IsKeyFrame(a.gif, i) && (PreviousCovered(a.gif, i) || a.gif.frames[i - 1].dispose == KEEP)
    ensures IsBase(c, a, i)
  {
  }

  /** Undoing the rectangle of frame i - 1 on a copy of its canvas. */
  method Undo(a: Animation, i: nat, frames: seq<Canvas>, c: Canvas)
    requires a.Valid() && 0 < i < |a.images| && |frames| == |a.images| && Sized(c, a.gif) && IsComposed(c, a, i - 1)
    requires forall k :: 0 <= k < i ==> frames[k] != c && Sized(frames[k], a.gif) && IsComposed(frames[k], a, k)
    requires !IsKeyFrame(a.gif, i) && !PreviousCovered(a.gif, i) && a.gif.frames[i - 1].dispose != KEEP
    modifies c
    ensures IsBase(c, a, i)
  {
    var prev := a.gif.frames[i - 1];
    assert prev in a.gif.frames;
    if prev.dispose == BACKGROUND {
      ClearRectangle(c, prev.rect);
    } else {
      var s: int := i - 2;
      while s >= 0 && a.gif.frames[s].dispose == PREVIOUS
        invariant -1 <= s <= i - 2
        invariant SourceFrame(a.gif, i - 2) == SourceFrame(a.gif, s)
      {
        s := s - 1;
      }
      if s >= 0 {
        CopyRectangle(frames[s], c, prev.rect);
      } else {
        ClearRectangle(c, prev.rect);
      }
    }
  }

  /** AllocateFrames. */
  method AllocateFrames(g: Gif, n: nat) returns (frames: seq<Canvas>)
    ensures |frames| == n
    ensures forall k :: 0 <= k < n ==> fresh(frames[k]) && Sized(frames[k], g)
    ensures forall j, k :: 0 <= j < k < n ==> frames[j] != frames[k]
  {
    frames := [];
    for i := 0 to n
      invariant |frames| == i
      invariant forall k :: 0 <= k < i ==> fresh(frames[k]) && Sized(frames[k], g)
      invariant forall j, k :: 0 <= j < k < i ==> frames[j] != frames[k]
    {
      var c := NewCanvas(g);
      frames := frames + [c];
    }
  }

  /** The canvases of ReadAnimatedGIF. */
  method Compose(a: Animation) returns (frames: seq<Canvas>)
    requires a.Valid() && a.AllKnown()
    ensures |frames| == |a.images|
    ensures forall i :: 0 <= i < |frames| ==> Sized(frames[i], a.gif) && IsComposed(frames[i], a, i)
  {
    hide IsComposed, IsBase, Image.AllKnown;
    frames := AllocateFrames(a.gif, |a.images|);
    var wasKey := true;
    for i := 0 to |a.images|
      modifies set k | 0 <= k < |frames| :: frames[k]
      invariant forall k :: 0 <= k < i ==> IsComposed(frames[k], a, k)
      invariant i > 0 ==> wasKey == IsKeyFrame(a.gif, i - 1)
    {
      assert a.images[i] in a.images;
      if i == 0 {
        Blank(a, 0, frames[0]);
        wasKey := true;
      } else {
        wasKey := PrepareBase(a, i, frames, wasKey, frames[i]);
      }
      ReadFrameGIF(a, i, frames[i]);
    }
  }

  lemma PixelsFit(a: Animation)
    requires a.Valid() && a.AllKnown()
    ensures Fits(a.gif, a.Px())
  {
    hide Image.Sent;
    forall i: nat, x, y | i < |a.gif.frames| && a.gif.frames[i].noTransparent && a.gif.frames[i].rect.Has(x, y)
      ensures a.Px()(i, x, y).Some?
    {
      var image, r := a.images[i], a.gif.frames[i].rect;
      var line := image.Row(y - r.top);
      assert image in a.images && line in image.lines && image.Known(line);
      assert line[x - r.left] in line;
      PixelOf(a, i, x, y);
    }
  }

  ghost predicate SameCanvas(a: Canvas, b: Canvas)
    reads a, b
  {
    && a.Length0 == b.Length0 && a.Length1 == b.Length1
    && forall y, x :: 0 <= y < a.Length0 && 0 <= x < a.Length1 ==> a[y, x] == b[y, x]
  }

  ghost predicate SameCanvases(a: seq<Canvas>, b: seq<Canvas>)
    reads a, b
  {
    |a| == |b| && forall i :: 0 <= i < |a| ==> SameCanvas(a[i], b[i])
  }

  lemma SameCanvasesAgree(a: Animation, streamed: seq<Canvas>, composed: seq<Canvas>)
    requires |streamed| == |composed| == |a.gif.frames|
    requires forall i :: 0 <= i < |streamed| ==> Sized(streamed[i], a.gif) && IsStreamed(streamed[i], a, i)
    requires forall i :: 0 <= i < |composed| ==> Sized(composed[i], a.gif) && IsComposed(composed[i], a, i)
    ensures SameCanvases(streamed, composed) <==> Agree(a.gif, a.Px())
  {
    hide Animation.Px, Streamed, Composed;
    var g, px := a.gif, a.Px();
    if SameCanvases(streamed, composed) {
      forall i, x, y | 0 <= i < |g.frames| && g.Has(x, y)
        ensures Streamed(g, px, i, x, y) == Composed(g, px, i, x, y)
      {
        assert SameCanvas(streamed[i], composed[i]);
        assert streamed[i][y, x] == composed[i][y, x];
      }
    }
    if Agree(g, px) {
      forall i | 0 <= i < |streamed|
        ensures SameCanvas(streamed[i], composed[i])
      {
        forall y, x | 0 <= y < streamed[i].Length0 && 0 <= x < streamed[i].Length1
          ensures streamed[i][y, x] == composed[i][y, x]
        {
          assert g.Has(x, y);
        }
      }
    }
  }

  /** The canvases that gif2webp encodes are the canvases that anim_util composes,
      for every animation that both can decode, exactly when no frame shows the
      restoring fault. */
  method StreamAgainstCompose(a: Animation) returns (streamed: seq<Canvas>, composed: seq<Canvas>)
    requires a.Valid() && a.AllKnown()
    ensures |streamed| == |composed| == |a.images|
    ensures forall i :: 0 <= i < |a.images| ==> Sized(streamed[i], a.gif) && Sized(composed[i], a.gif)
    ensures SameCanvases(streamed, composed)
            <==> forall i, x, y :: 0 <= i < |a.gif.frames| && a.gif.Has(x, y) ==> !Shows(a.gif, a.Px(), i, x, y)
  {
    hide IsStreamed, IsComposed, SameCanvases, Image.AllKnown, Agree, Animation.Px, Fits;
    var ok;
    streamed, ok := Stream(a);
    composed := Compose(a);
    PixelsFit(a);
    AgreeExactly(a.gif, a.Px());
    SameCanvasesAgree(a, streamed, composed);
  }
}

/** What the two GIF compositors mean, pixel by pixel: the streaming one of gif2webp
    (one canvas and the canvas before it) and the one of anim_util that keeps every
    composed frame, with its key-frame and covered-rectangle shortcuts and its search
    for the canvas to restore. And when they agree. */
module GifCompositors {
  import opened Options

  type Pixel = x: int | 0 <= x < 0x1_0000_0000

  const TRANSPARENT: Pixel := 0

  /** A colour from a colour map: alpha is 0xff. */
  newtype Color = x: int | 0xff00_0000 <= x < 0x1_0000_0000 witness 0xff00_0000

  datatype Rect = Rect(left: nat, top: nat, width: nat, height: nat) {
    predicate Has(x: int, y: int) { left <= x < left + width && top <= y < top + height }
  }

  datatype Dispose = KEEP | BACKGROUND | PREVIOUS

  /** A frame without its pixels; `opaque` says that it has no transparent index. */
  datatype Frame = Frame(rect: Rect, dispose: Dispose, noTransparent: bool)

  datatype Gif = Gif(width: nat, height: nat, frames: seq<Frame>) {
    predicate Valid() {
      forall f <- frames ::
        && f.rect.left + f.rect.width <= width && f.rect.top + f.rect.height <= height
        && 0 < f.rect.width && 0 < f.rect.height
    }

    predicate Has(x: int, y: int) { 0 <= x < width && 0 <= y < height }
  }

  /** The pixel of a frame at a place of the canvas, None where it is transparent. */
  type Pixels = (nat, int, int) -> Option<Color>

  ghost predicate Fits(g: Gif, px: Pixels) {
    forall i, x, y :: 0 <= i < |g.frames| && g.frames[i].noTransparent && g.frames[i].rect.Has(x, y) ==> px(i, x, y).Some?
  }

  /** Frame i writes the pixel. */
  predicate Paints(g: Gif, px: Pixels, i: nat, x: int, y: int)
    requires i < |g.frames|
  {
    g.frames[i].rect.Has(x, y) && px(i, x, y).Some?
  }

  function Blend(g: Gif, px: Pixels, i: nat, x: int, y: int, below: Pixel): Pixel
    requires i < |g.frames|
  {
    if Paints(g, px, i, x, y) then px(i, x, y).value as int else below
  }

  // ---- gif2webp: two canvases ----

  /** curr_canvas before frame i is blended in. */
  function Disposed(g: Gif, px: Pixels, i: nat, x: int, y: int): Pixel
    requires i <= |g.frames|
    decreases i, 0
  {
    if i == 0 then TRANSPARENT
    else if !g.frames[i - 1].rect.Has(x, y) then Streamed(g, px, i - 1, x, y)
    else match g.frames[i - 1].dispose
      case KEEP => Streamed(g, px, i - 1, x, y)
      case BACKGROUND => TRANSPARENT
      case PREVIOUS => Disposed(g, px, i - 1, x, y)
  }

  /** curr_canvas as given to the encoder for frame i. */
  function Streamed(g: Gif, px: Pixels, i: nat, x: int, y: int): Pixel
    requires i < |g.frames|
    decreases i, 1
  {
    Blend(g, px, i, x, y, Disposed(g, px, i, x, y))
  }

  /** Frame j leaves a mark on the pixel: it clears it, or paints it for good. */
  predicate Marks(g: Gif, px: Pixels, j: nat, x: int, y: int)
    requires j < |g.frames|
  {
    g.frames[j].rect.Has(x, y) && (g.frames[j].dispose == BACKGROUND || (g.frames[j].dispose == KEEP && px(j, x, y).Some?))
  }

  /** Frame j is the last one before frame i with a mark on the pixel; -1 if there is none. */
  predicate IsLastMark(g: Gif, px: Pixels, i: nat, j: int, x: int, y: int)
    requires i <= |g.frames|
  {
    -1 <= j < i && (j >= 0 ==> Marks(g, px, j, x, y)) && forall k :: j < k < i ==> !Marks(g, px, k, x, y)
  }

  /** The meaning of the canvas without any canvas: before frame i a pixel shows what the
      last frame that left a mark on it left, and nothing if there is none. */
  lemma {:induction false} LastMark(g: Gif, px: Pixels, i: nat, j: int, x: int, y: int)
    requires i <= |g.frames| && IsLastMark(g, px, i, j, x, y)
    ensures Disposed(g, px, i, x, y) ==
              if j < 0 || g.frames[j].dispose == BACKGROUND then TRANSPARENT else px(j, x, y).value as int
  {
    hide Disposed, Streamed, Marks;
    if i == 0 {
      FirstCanvas(g, px, x, y);
    } else if j == i - 1 {
      MarkedStep(g, px, i - 1, x, y);
    } else {
      LastMark(g, px, i - 1, j, x, y);
      UnmarkedStep(g, px, i - 1, x, y);
    }
  }

  lemma FirstCanvas(g: Gif, px: Pixels, x: int, y: int)
    ensures Disposed(g, px, 0, x, y) == TRANSPARENT
  {
  }

  lemma MarkedStep(g: Gif, px: Pixels, i: nat, x: int, y: int)
    requires i < |g.frames| && Marks(g, px, i, x, y)
    ensures g.frames[i].dispose == BACKGROUND ==> Disposed(g, px, i + 1, x, y) == TRANSPARENT
    ensures g.frames[i].dispose != BACKGROUND ==> px(i, x, y).Some? && Disposed(g, px, i + 1, x, y) == px(i, x, y).value as int
  {
  }

  lemma UnmarkedStep(g: Gif, px: Pixels, i: nat, x: int, y: int)
    requires i < |g.frames| && !Marks(g, px, i, x, y)
    ensures Disposed(g, px, i + 1, x, y) == Disposed(g, px, i, x, y)
  {
  }

  /** The canvas given to the encoder: the colour of the frame itself where it has one,
      otherwise what the last mark left. */
  lemma PixelShown(g: Gif, px: Pixels, i: nat, j: int, x: int, y: int)
    requires i < |g.frames| && IsLastMark(g, px, i, j, x, y)
    ensures Streamed(g, px, i, x, y) ==
              if g.frames[i].rect.Has(x, y) && px(i, x, y).Some? then px(i, x, y).value as int
              else if j < 0 || g.frames[j].dispose == BACKGROUND then TRANSPARENT
              else px(j, x, y).value as int
  {
    hide Disposed;
    LastMark(g, px, i, j, x, y);
  }

  // ---- anim_util: all canvases ----

  /** IsKeyFrameGIF. */
  predicate IsKeyFrame(g: Gif, i: nat)
    requires i < |g.frames|
  {
    || i == 0
    || (g.frames[i - 1].dispose == BACKGROUND
        && ((g.frames[i - 1].rect.width == g.width && g.frames[i - 1].rect.height == g.height) || IsKeyFrame(g, i - 1)))
  }

  /** CoversFrameGIF. */
  predicate Covers(target: Rect, covered: Rect) {
    && target.left <= covered.left && covered.left + covered.width <= target.left + target.width
    && target.top <= covered.top && covered.top + covered.height <= target.top + target.height
  }

  /** prev_frame_completely_covered. */
  predicate PreviousCovered(g: Gif, i: nat)
    requires 0 < i < |g.frames|
  {
    g.frames[i].noTransparent && Covers(g.frames[i].rect, g.frames[i - 1].rect)
  }

  /** The search for the frame to restore from: the last one up to i that is not
      itself undone, or -1. */
  function SourceFrame(g: Gif, i: int): (s: int)
    requires -1 <= i < |g.frames|
    ensures -1 <= s <= i
    ensures s >= 0 ==> g.frames[s].dispose != PREVIOUS
    ensures forall k :: s < k <= i ==> g.frames[k].dispose == PREVIOUS
    decreases i + 1
  {
    if i < 0 || g.frames[i].dispose != PREVIOUS then i else SourceFrame(g, i - 1)
  }

  /** The canvas that frame i is drawn on. */
  function Base(g: Gif, px: Pixels, i: nat, x: int, y: int): Pixel
    requires i < |g.frames|
    decreases i, 0
  {
    if IsKeyFrame(g, i) then TRANSPARENT
    else if PreviousCovered(g, i) || !g.frames[i - 1].rect.Has(x, y) then Composed(g, px, i - 1, x, y)
    else match g.frames[i - 1].dispose
      case KEEP => Composed(g, px, i - 1, x, y)
      case BACKGROUND => TRANSPARENT
      case PREVIOUS =>
        var s := SourceFrame(g, i - 2);
        if s >= 0 then Composed(g, px, s, x, y) else TRANSPARENT
  }

  /** frames[i].rgba. */
  function Composed(g: Gif, px: Pixels, i: nat, x: int, y: int): Pixel
    requires i < |g.frames|
    decreases i, 1
  {
    Blend(g, px, i, x, y, Base(g, px, i, x, y))
  }

  // ---- when they agree ----

  ghost predicate Agree(g: Gif, px: Pixels) {
    forall i, x, y :: 0 <= i < |g.frames| && g.Has(x, y) ==> Streamed(g, px, i, x, y) == Composed(g, px, i, x, y)
  }

  /** Frame i - 1 is undone by restoring from frame s, which was itself cleared to
      the background before frame i - 1 was drawn: anim_util restores the pixels of
      frame s as they were before that. Seen at (x, y), unless frame i covers it up. */
  predicate RestoresCleared(g: Gif, i: nat, x: int, y: int)
    requires i < |g.frames|
  {
    && i > 0 && g.frames[i - 1].dispose == PREVIOUS && !PreviousCovered(g, i)
    && var s := SourceFrame(g, i - 2);
    && s >= 0 && g.frames[s].dispose == BACKGROUND
    && g.frames[s].rect.Has(x, y) && g.frames[i - 1].rect.Has(x, y)
  }

  /** For given pixels, the fault shows at (x, y) of frame i. */
  predicate Shows(g: Gif, px: Pixels, i: nat, x: int, y: int)
    requires i < |g.frames|
  {
    && RestoresCleared(g, i, x, y) && !Paints(g, px, i, x, y)
    && Streamed(g, px, SourceFrame(g, i - 2), x, y) != TRANSPARENT
  }

  /** For some pixels it does: a question about the rectangles only. */
  predicate CanShow(g: Gif, i: nat, x: int, y: int)
    requires i < |g.frames|
  {
    RestoresCleared(g, i, x, y) && !(g.frames[i].noTransparent && g.frames[i].rect.Has(x, y))
  }

  /** A key frame is drawn on an empty canvas in the streaming compositor too. */
  lemma {:induction false} KeyFrameIsBlank(g: Gif, px: Pixels, i: nat, x: int, y: int)
    requires g.Valid() && i < |g.frames| && IsKeyFrame(g, i) && g.Has(x, y)
    ensures Disposed(g, px, i, x, y) == TRANSPARENT
  {
    if i > 0 && IsKeyFrame(g, i - 1) {
      KeyFrameIsBlank(g, px, i - 1, x, y);
    }
  }

  /** Frames that are undone leave the canvas as it was before the first of them. */
  lemma {:induction false} UndoneRun(g: Gif, px: Pixels, i: nat, x: int, y: int)
    requires 0 < i <= |g.frames|
    ensures Disposed(g, px, i, x, y) == Disposed(g, px, SourceFrame(g, i - 1) + 1, x, y)
  {
    if g.frames[i - 1].dispose == PREVIOUS && i > 1 {
      UndoneRun(g, px, i - 1, x, y);
    }
  }

  /** A covered frame is painted over wherever it was. */
  lemma CoveredIsPainted(g: Gif, px: Pixels, i: nat, x: int, y: int)
    requires Fits(g, px) && 0 < i < |g.frames| && PreviousCovered(g, i) && g.frames[i - 1].rect.Has(x, y)
    ensures Paints(g, px, i, x, y)
  {
  }

  /** Restoring, where the frame is not painted over: both compositors show what frame s
      left, which differs if frame s was cleared and had painted something. */
  lemma RestoredPixel(g: Gif, px: Pixels, i: nat, x: int, y: int)
    requires g.Valid() && 0 < i < |g.frames| && g.Has(x, y)
    requires !IsKeyFrame(g, i) && !PreviousCovered(g, i) && g.frames[i - 1].dispose == PREVIOUS && g.frames[i - 1].rect.Has(x, y)
    requires forall j :: 0 <= j < i ==> Streamed(g, px, j, x, y) == Composed(g, px, j, x, y)
    ensures var s := SourceFrame(g, i - 2);
            Disposed(g, px, i, x, y) == Base(g, px, i, x, y) <==>
              !(s >= 0 && g.frames[s].dispose == BACKGROUND && g.frames[s].rect.Has(x, y) && Streamed(g, px, s, x, y) != TRANSPARENT)
  {
    var s := SourceFrame(g, i - 2);
    assert SourceFrame(g, i - 1) == s;
    UndoneRun(g, px, i, x, y);
    if s >= 0 {
      assert Base(g, px, i, x, y) == Composed(g, px, s, x, y) == Streamed(g, px, s, x, y);
    }
  }

  /** The canvases under frame i, where it does not paint. */
  lemma BasesAgree(g: Gif, px: Pixels, i: nat, x: int, y: int)
    requires g.Valid() && Fits(g, px) && i < |g.frames| && g.Has(x, y) && !Paints(g, px, i, x, y)
    requires forall j :: 0 <= j < i ==> Streamed(g, px, j, x, y) == Composed(g, px, j, x, y)
    ensures Disposed(g, px, i, x, y) == Base(g, px, i, x, y) <==> !Shows(g, px, i, x, y)
  {
    hide Fits, Streamed, Composed, Paints;
    if IsKeyFrame(g, i) {
      KeyFrameIsBlank(g, px, i, x, y);
    } else if !g.frames[i - 1].rect.Has(x, y) {
      assert Streamed(g, px, i - 1, x, y) == Composed(g, px, i - 1, x, y);
    } else {
      if PreviousCovered(g, i) {
        CoveredIsPainted(g, px, i, x, y);
      }
      match g.frames[i - 1].dispose {
        case KEEP => assert Streamed(g, px, i - 1, x, y) == Composed(g, px, i - 1, x, y);
        case BACKGROUND =>
        case PREVIOUS => RestoredPixel(g, px, i, x, y);
      }
    }
  }

  /** One frame: if the canvases agreed so far, they agree now exactly when the
      fault does not show. */
  lemma FrameAgrees(g: Gif, px: Pixels, i: nat, x: int, y: int)
    requires g.Valid() && Fits(g, px) && i < |g.frames| && g.Has(x, y)
    requires forall j :: 0 <= j < i ==> Streamed(g, px, j, x, y) == Composed(g, px, j, x, y)
    ensures Streamed(g, px, i, x, y) == Composed(g, px, i, x, y) <==> !Shows(g, px, i, x, y)
  {
    hide Fits, Disposed, Base, Paints, RestoresCleared;
    if !Paints(g, px, i, x, y) {
      BasesAgree(g, px, i, x, y);
    }
  }

  lemma {:induction false} AgreeUpTo(g: Gif, px: Pixels, i: nat, x: int, y: int)
    requires g.Valid() && Fits(g, px) && i <= |g.frames| && g.Has(x, y)
    requires forall j :: 0 <= j < i ==> !Shows(g, px, j, x, y)
    ensures forall j :: 0 <= j < i ==> Streamed(g, px, j, x, y) == Composed(g, px, j, x, y)
  {
    if i > 0 {
      AgreeUpTo(g, px, i - 1, x, y);
      FrameAgrees(g, px, i - 1, x, y);
    }
  }

  /** The canvas of anim_util, where the fault has not shown. */
  lemma PixelComposed(g: Gif, px: Pixels, i: nat, j: int, x: int, y: int)
    requires g.Valid() && Fits(g, px) && i < |g.frames| && g.Has(x, y) && IsLastMark(g, px, i, j, x, y)
    requires forall k :: 0 <= k <= i ==> !Shows(g, px, k, x, y)
    ensures Composed(g, px, i, x, y) ==
              if g.frames[i].rect.Has(x, y) && px(i, x, y).Some? then px(i, x, y).value as int
              else if j < 0 || g.frames[j].dispose == BACKGROUND then TRANSPARENT
              else px(j, x, y).value as int
  {
    hide Composed, Streamed, Shows, IsLastMark, Fits;
    AgreeUpTo(g, px, i + 1, x, y);
    PixelShown(g, px, i, j, x, y);
  }

  /** The two compositors emit the same canvases for an animation exactly when no
      frame shows the restoring fault. */
  lemma AgreeExactly(g: Gif, px: Pixels)
    requires g.Valid() && Fits(g, px)
    ensures Agree(g, px) <==> forall i, x, y :: 0 <= i < |g.frames| && g.Has(x, y) ==> !Shows(g, px, i, x, y)
  {
    if Agree(g, px) {
      forall i, x, y | 0 <= i < |g.frames| && g.Has(x, y)
        ensures !Shows(g, px, i, x, y)
      {
        FrameAgrees(g, px, i, x, y);
      }
    } else {
      var i, x, y :| 0 <= i < |g.frames| && g.Has(x, y) && Streamed(g, px, i, x, y) != Composed(g, px, i, x, y);
      if forall j, x, y :: 0 <= j < |g.frames| && g.Has(x, y) ==> !Shows(g, px, j, x, y) {
        AgreeUpTo(g, px, i + 1, x, y);
      }
    }
  }

  /** Frame s full of colour, every other frame transparent where it can be. */
  function Witness(g: Gif, s: int): Pixels {
    (i: nat, x: int, y: int) =>
      if i == s || (i < |g.frames| && g.frames[i].noTransparent) then Some(0xff00_0000) else None
  }

  /** The rectangles and disposal methods alone decide whether the compositors agree
      whatever the pixels are. */
  lemma AgreeForAllPixels(g: Gif)
    requires g.Valid()
    ensures (forall px :: Fits(g, px) ==> Agree(g, px))
            <==> (forall i, x, y :: 0 <= i < |g.frames| && g.Has(x, y) ==> !CanShow(g, i, x, y))
  {
    if forall i, x, y :: 0 <= i < |g.frames| && g.Has(x, y) ==> !CanShow(g, i, x, y) {
      forall px | Fits(g, px)
        ensures Agree(g, px)
      {
        forall i, x, y | 0 <= i < |g.frames| && g.Has(x, y)
          ensures !Shows(g, px, i, x, y)
        {
          assert !CanShow(g, i, x, y);
        }
        AgreeExactly(g, px);
      }
    } else {
      var i, x, y :| 0 <= i < |g.frames| && g.Has(x, y) && CanShow(g, i, x, y);
      var px := Witness(g, SourceFrame(g, i - 2));
      assert Fits(g, px);
      assert Shows(g, px, i, x, y);
      AgreeExactly(g, px);
      assert !Agree(g, px);
    }
  }

  /** In particular they agree when no undone frame follows a cleared one. */
  lemma AgreeWithoutClearedRuns(g: Gif, px: Pixels)
    requires g.Valid() && Fits(g, px)
    requires forall i :: 0 < i < |g.frames| && g.frames[i].dispose == PREVIOUS ==> g.frames[i - 1].dispose != BACKGROUND
    ensures Agree(g, px)
  {
    forall i, x, y | 0 <= i < |g.frames| && g.Has(x, y)
      ensures !Shows(g, px, i, x, y)
    {
      if i > 0 && g.frames[i - 1].dispose == PREVIOUS && SourceFrame(g, i - 2) >= 0 {
        var s := SourceFrame(g, i - 2);
        assert g.frames[s + 1].dispose == PREVIOUS;
      }
    }
    AgreeExactly(g, px);
  }

  /** The fault, in three frames of one pixel: a colour, cleared; nothing, undone;
      nothing. */
  lemma TheyCanDiffer()
    ensures exists g: Gif, px :: g.Valid() && Fits(g, px) && !Agree(g, px)
  {
    var r := Rect(0, 0, 1, 1);
    var g := Gif(1, 1, [Frame(r, BACKGROUND, false), Frame(r, PREVIOUS, false), Frame(r, KEEP, false)]);
    var px := Witness(g, 0);
    assert CanShow(g, 2, 0, 0);
    assert Shows(g, px, 2, 0, 0);
    AgreeExactly(g, px);
    assert Fits(g, px);
  }
}

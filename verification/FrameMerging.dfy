/** Merging of successive frames of an animation that show the same picture. */
module FrameMerging {
  import opened Options

  type byte = x: int | 0 <= x < 256

  const INT_MAX := 0x7fff_ffff

  /** A composed frame: four bytes per pixel, row after row, and how long it is shown. */
  datatype DecodedFrame = DecodedFrame(rgba: seq<byte>, duration: int)

  predicate AdditionWillOverflow(a: int, b: int) { b > 0 && a > INT_MAX - b }

  // ---- similar frames ----

  function Abs(x: int): nat { if x < 0 then -x else x }

  predicate PixelsAreSimilar(src: nat, dst: nat, maxDiff: int) {
    var sa, sr, sg, sb := src / 0x100_0000 % 256, src / 0x1_0000 % 256, src / 0x100 % 256, src % 256;
    var da, dr, dg, db := dst / 0x100_0000 % 256, dst / 0x1_0000 % 256, dst / 0x100 % 256, dst % 256;
    && Abs(sr * sa - dr * da) <= maxDiff * 255 && Abs(sg * sa - dg * da) <= maxDiff * 255
    && Abs(sb * sa - db * da) <= maxDiff * 255 && Abs(sa - da) <= maxDiff
  }

  /** FramesAreSimilar compares, for each row, the first `width` bytes one by one, each
      as if it were a whole pixel. */
  method FramesAreSimilar(rgba1: seq<byte>, rgba2: seq<byte>, width: nat, height: nat, maxDiff: int) returns (similar: bool)
    requires maxDiff > 0 && |rgba1| == |rgba2| == 4 * width * height
    ensures similar
  {
    var offset := 0;
    for j := 0 to height
      invariant offset == 4 * width * j
    {
      assert 4 * width * (j + 1) <= 4 * width * height;
      for i := 0 to width
        invariant offset == 4 * width * j
      {
        var at := offset + i;
        ByteHasNoAlpha(rgba1[at], rgba2[at], maxDiff);
        if !PixelsAreSimilar(rgba1[at], rgba2[at], maxDiff) {
          return false;
        }
      }
      offset := offset + 4 * width;
    }
    return true;
  }

  /** A byte taken for a pixel is transparent, and transparent pixels are all alike. */
  lemma ByteHasNoAlpha(a: byte, b: byte, maxDiff: int)
    requires maxDiff > 0
    ensures PixelsAreSimilar(a, b, maxDiff)
  {
  }

  /** Pixel k of a picture: four bytes read as one number. */
  function PixelAt(rgba: seq<byte>, k: nat): nat
    requires 4 * k + 4 <= |rgba|
  {
    rgba[4 * k] as int + 0x100 * rgba[4 * k + 1] as int + 0x1_0000 * rgba[4 * k + 2] as int + 0x100_0000 * rgba[4 * k + 3] as int
  }

  /** What the comparison is meant to find: every pixel is similar. */
  ghost predicate AllPixelsSimilar(rgba1: seq<byte>, rgba2: seq<byte>, pixels: nat, maxDiff: int)
    requires |rgba1| == |rgba2| == 4 * pixels
  {
    forall k :: 0 <= k < pixels ==> PixelsAreSimilar(PixelAt(rgba1, k), PixelAt(rgba2, k), maxDiff)
  }

  /** The right answer for two pictures of this size is that they are similar. */
  ghost predicate RightlySimilar(rgba1: seq<byte>, rgba2: seq<byte>, pixels: nat, maxDiff: int) {
    |rgba1| == |rgba2| == 4 * pixels ==> AllPixelsSimilar(rgba1, rgba2, pixels, maxDiff)
  }

  /** An opaque black picture and an opaque white one pass for similar, though their
      pixels do not. */
  lemma PixelsCanDiffer()
    ensures var black, white: seq<byte> := [0, 0, 0, 255], [255, 255, 255, 255];
            && |black| == |white| == 4 * 1 * 1
            && PixelAt(black, 0) == 0xff00_0000 && PixelAt(white, 0) == 0xffff_ffff
            && !AllPixelsSimilar(black, white, 1, 1)
  {
    var black, white: seq<byte> := [0, 0, 0, 255], [255, 255, 255, 255];
    assert !PixelsAreSimilar(PixelAt(black, 0), PixelAt(white, 0), 1);
  }

  lemma ProductBound(x: nat, a: nat)
    requires x < 256 && a < 256
    ensures 0 <= x * a <= 255 * 255
  {
    assert x * a <= 255 * a;
  }

  lemma AllAlike(src: nat, dst: nat, maxDiff: int)
    requires maxDiff >= 255
    ensures PixelsAreSimilar(src, dst, maxDiff)
  {
    var sa, da := src / 0x100_0000 % 256, dst / 0x100_0000 % 256;
    ProductBound(src / 0x1_0000 % 256, sa);
    ProductBound(src / 0x100 % 256, sa);
    ProductBound(src % 256, sa);
    ProductBound(dst / 0x1_0000 % 256, da);
    ProductBound(dst / 0x100 % 256, da);
    ProductBound(dst % 256, da);
  }

  /** Finding all pictures of a size similar, as the code does, is right exactly for
      empty pictures and for a tolerance that lets every pixel pass. */
  lemma SimilarExactly(pixels: nat, maxDiff: int)
    requires maxDiff > 0
    ensures (forall rgba1: seq<byte>, rgba2: seq<byte> :: RightlySimilar(rgba1, rgba2, pixels, maxDiff))
            <==> pixels == 0 || maxDiff >= 255
  {
    hide PixelsAreSimilar;
    if pixels > 0 && maxDiff < 255 {
      var black: seq<byte> := seq(4 * pixels, i => if i == 3 then 255 else 0);
      var white: seq<byte> := seq(4 * pixels, i => 255);
      BlackAndWhite(black, white, maxDiff);
      assert !RightlySimilar(black, white, pixels, maxDiff);
    } else {
      forall rgba1: seq<byte>, rgba2: seq<byte> ensures RightlySimilar(rgba1, rgba2, pixels, maxDiff) {
        if |rgba1| == |rgba2| == 4 * pixels {
          forall k | 0 <= k < pixels ensures PixelsAreSimilar(PixelAt(rgba1, k), PixelAt(rgba2, k), maxDiff) {
            AllAlike(PixelAt(rgba1, k), PixelAt(rgba2, k), maxDiff);
          }
        }
      }
    }
  }

  lemma BlackAndWhite(black: seq<byte>, white: seq<byte>, maxDiff: int)
    requires |black| >= 4 && |white| >= 4 && 0 < maxDiff < 255
    requires black[0] == black[1] == black[2] == 0 && black[3] == 255
    requires white[0] == white[1] == white[2] == white[3] == 255
    ensures !PixelsAreSimilar(PixelAt(black, 0), PixelAt(white, 0), maxDiff)
  {
    assert PixelAt(black, 0) == 0xff00_0000 && PixelAt(white, 0) == 0xffff_ffff;
  }

  // ---- the timeline ----

  function Total(frames: seq<DecodedFrame>): int {
    if frames == [] then 0 else frames[0].duration + Total(frames[1..])
  }

  /** What is on the canvas at time t. */
  function CanvasAt(frames: seq<DecodedFrame>, t: int): Option<seq<byte>> {
    if frames == [] then None
    else if t < frames[0].duration then Some(frames[0].rgba)
    else CanvasAt(frames[1..], t - frames[0].duration)
  }

  ghost predicate SameTimeline(a: seq<DecodedFrame>, b: seq<DecodedFrame>) {
    Total(a) == Total(b) && forall t :: 0 <= t ==> CanvasAt(a, t) == CanvasAt(b, t)
  }

  lemma SameAsItself(a: seq<DecodedFrame>)
    ensures SameTimeline(a, a)
  {
  }

  predicate Durations(frames: seq<DecodedFrame>) { forall f <- frames :: 0 <= f.duration <= INT_MAX }

  /** Frames i - 1 and i of the sequence in one, with the picture of the first. */
  function Merge(frames: seq<DecodedFrame>, i: nat): seq<DecodedFrame>
    requires 0 < i < |frames|
  {
    frames[..i - 1] + [DecodedFrame(frames[i - 1].rgba, frames[i - 1].duration + frames[i].duration)] + frames[i + 1..]
  }

  /** The sequence after a merge: its first frame and the rest. */
  lemma MergeShape(frames: seq<DecodedFrame>, i: nat)
    requires 0 < i < |frames|
    ensures i == 1 ==> Merge(frames, i)[0] == DecodedFrame(frames[0].rgba, frames[0].duration + frames[1].duration)
    ensures i == 1 ==> Merge(frames, i)[1..] == frames[1..][1..]
    ensures i > 1 ==> Merge(frames, i)[0] == frames[0] && Merge(frames, i)[1..] == Merge(frames[1..], i - 1)
  {
    var merged := Merge(frames, i);
    if i == 1 {
      assert merged[1..] == frames[2..] == frames[1..][1..];
    } else {
      var tail := frames[1..];
      assert tail[..i - 2] == frames[1..i - 1] && tail[i..] == frames[i + 1..];
      assert frames[..i - 1][1..] == frames[1..i - 1];
    }
  }

  lemma {:induction false} MergeKeepsTotal(frames: seq<DecodedFrame>, i: nat)
    requires 0 < i < |frames|
    ensures |Merge(frames, i)| == |frames| - 1 && Total(Merge(frames, i)) == Total(frames)
  {
    MergeShape(frames, i);
    if i > 1 {
      MergeKeepsTotal(frames[1..], i - 1);
    }
  }

  lemma {:induction false} MergeKeepsCanvas(frames: seq<DecodedFrame>, i: nat, t: int)
    requires 0 < i < |frames| && frames[i - 1].rgba == frames[i].rgba && Durations(frames) && 0 <= t
    ensures |Merge(frames, i)| == |frames| - 1 && CanvasAt(Merge(frames, i), t) == CanvasAt(frames, t)
  {
    MergeShape(frames, i);
    assert frames[1] in frames && frames[0] in frames;
    if i > 1 && t >= frames[0].duration {
      MergeKeepsCanvas(frames[1..], i - 1, t - frames[0].duration);
    }
  }

  lemma MergeFits(frames: seq<DecodedFrame>, i: nat)
    requires 0 < i < |frames| && Durations(frames) && !AdditionWillOverflow(frames[i - 1].duration, frames[i].duration)
    ensures Durations(Merge(frames, i))
  {
    assert frames[i - 1] in frames && frames[i] in frames;
  }

  /** Pair k need not or cannot be merged: the sum would overflow, or (when no
      difference is allowed) the pictures differ. */
  predicate PairDone(frames: seq<DecodedFrame>, k: nat, maxDiff: int)
    requires 0 < k < |frames|
  {
    || AdditionWillOverflow(frames[k - 1].duration, frames[k].duration)
    || (maxDiff <= 0 && frames[k - 1].rgba != frames[k].rgba)
  }

  /** Pairs in front of a merge stay done: a duration in them only grows. */
  lemma StillDone(frames: seq<DecodedFrame>, i: nat, maxDiff: int)
    requires 0 < i < |frames| && Durations(frames)
    requires forall k :: 0 < k < i ==> PairDone(frames, k, maxDiff)
    ensures |Merge(frames, i)| == |frames| - 1 && forall k :: 0 < k < i ==> PairDone(Merge(frames, i), k, maxDiff)
  {
    assert frames[i] in frames && frames[i - 1] in frames;
    var merged := Merge(frames, i);
    forall k | 0 < k < i
      ensures PairDone(merged, k, maxDiff)
    {
      assert PairDone(frames, k, maxDiff);
      assert merged[k - 1] == frames[k - 1];
      assert merged[k].rgba == frames[k].rgba && merged[k].duration >= frames[k].duration;
    }
  }

  /** What a merge keeps of the state of the loop. */
  lemma MergeKeepsAll(frames: seq<DecodedFrame>, i: nat, list: seq<DecodedFrame>, maxDiff: int)
    requires 0 < i < |frames| && Durations(frames) && !AdditionWillOverflow(frames[i - 1].duration, frames[i].duration)
    requires Total(frames) == Total(list)
    requires maxDiff <= 0 ==> SameTimeline(frames, list) && frames[i - 1].rgba == frames[i].rgba
    requires forall k :: 0 < k < i ==> PairDone(frames, k, maxDiff)
    ensures |Merge(frames, i)| == |frames| - 1 && Durations(Merge(frames, i)) && Total(Merge(frames, i)) == Total(list)
    ensures maxDiff <= 0 ==> SameTimeline(Merge(frames, i), list)
    ensures forall k :: 0 < k < i ==> PairDone(Merge(frames, i), k, maxDiff)
  {
    hide Merge, Durations, PairDone, Total, CanvasAt;
    MergeFits(frames, i);
    MergeKeepsTotal(frames, i);
    StillDone(frames, i, maxDiff);
    if maxDiff <= 0 {
      forall t | 0 <= t ensures CanvasAt(Merge(frames, i), t) == CanvasAt(list, t) {
        MergeKeepsCanvas(frames, i, t);
      }
    }
  }

  lemma TotalOfPair(frames: seq<DecodedFrame>)
    requires |frames| > 1 && Durations(frames)
    ensures Total(frames) >= frames[0].duration + frames[1].duration
  {
    assert frames[1..][1..] == frames[2..];
    TotalIsNat(frames[2..]);
  }

  lemma {:induction false} TotalIsNat(frames: seq<DecodedFrame>)
    requires Durations(frames)
    ensures Total(frames) >= 0
  {
    if frames != [] {
      assert frames[0] in frames;
      TotalIsNat(frames[1..]);
    }
  }

  // ---- the loop ----

  class AnimatedImage {
    const frames: array<DecodedFrame>
    var numFrames: nat
    const width: nat
    const height: nat

    constructor (list: seq<DecodedFrame>, width: nat, height: nat)
      requires forall f <- list :: |f.rgba| == 4 * width * height
      ensures fresh(frames) && this.width == width && this.height == height && numFrames == |list| == frames.Length && Frames() == list
    {
      frames := new DecodedFrame[|list|](i requires 0 <= i < |list| => list[i]);
      numFrames, this.width, this.height := |list|, width, height;
    }

    function Frames(): seq<DecodedFrame>
      requires numFrames <= frames.Length
      reads `numFrames, frames
    {
      frames[..numFrames]
    }

    ghost predicate Sized()
      requires numFrames <= frames.Length
      reads `numFrames, frames
    {
      forall k :: 0 <= k < numFrames ==> |frames[k].rgba| == 4 * width * height
    }

    /** The body of the merge: add up, move the rest down. */
    method MergeAt(i: nat)
      requires numFrames <= frames.Length && 0 < i < numFrames && Sized()
      modifies `numFrames, frames
      ensures numFrames == old(numFrames) - 1 && Sized()
      ensures Frames() == Merge(old(Frames()), i)
    {
      ghost var want := Merge(Frames(), i);
      frames[i - 1] := frames[i - 1].(duration := frames[i - 1].duration + frames[i].duration);
      if i + 1 < numFrames {
        forall k | i <= k < numFrames - 1 {
          frames[k] := frames[k + 1];
        }
      }
      numFrames := numFrames - 1;
      assert |want| == numFrames;
      forall k | 0 <= k < numFrames ensures frames[k] == want[k] {
      }
    }

    /** MinimizeAnimationFrames. */
    method MinimizeAnimationFrames(maxDiff: int)
      requires numFrames <= frames.Length && Durations(Frames()) && Sized()
      modifies `numFrames, frames
      ensures numFrames <= old(numFrames) && (old(numFrames) > 0 ==> numFrames > 0)
      ensures Total(Frames()) == Total(old(Frames()))
      ensures maxDiff <= 0 ==> SameTimeline(Frames(), old(Frames()))
      ensures forall k :: 0 < k < numFrames ==> PairDone(Frames(), k, maxDiff)
      ensures maxDiff > 0 && Total(old(Frames())) <= INT_MAX ==> numFrames <= 1
    {
      hide Durations, Merge, SameTimeline, Total, PixelsAreSimilar;
      ghost var list := Frames();
      SameAsItself(list);
      var i := 1;
      while i < numFrames
        invariant 1 <= i && numFrames <= frames.Length && numFrames <= |list| && (|list| > 0 ==> numFrames > 0)
        invariant i <= numFrames || numFrames == 0
        invariant Durations(Frames()) && Sized()
        invariant Total(Frames()) == Total(list)
        invariant maxDiff <= 0 ==> SameTimeline(Frames(), list)
        invariant forall k :: 0 < k < i && k < numFrames ==> PairDone(Frames(), k, maxDiff)
        decreases numFrames - i
      {
        var frame1, frame2 := frames[i - 1], frames[i];
        if AdditionWillOverflow(frame1.duration, frame2.duration) {
          i := i + 1;
          continue;
        }
        var shouldMerge;
        if maxDiff > 0 {
          shouldMerge := FramesAreSimilar(frame1.rgba, frame2.rgba, width, height, maxDiff);
        } else {
          shouldMerge := frame1.rgba == frame2.rgba;
        }
        if shouldMerge {
          MergeKeepsAll(Frames(), i, list, maxDiff);
          MergeAt(i);
          i := i - 1;
        }
        i := i + 1;
      }
      if numFrames > 1 {
        TotalOfPair(Frames());
        assert PairDone(Frames(), 1, maxDiff);
      }
    }
  }
}

/** Output into a bottom-up bitmap: blending a BGRA picture onto a checkerboard, the
    direct path that decodes with a negative stride, and the buffer checks and the
    flipping of libwebp that such a stride goes through. */
module DibWriter {

  type byte = x: int | 0 <= x < 256

  const CHECKER_CELL := 8
  const CHECKER_LIGHT: byte := 224
  const CHECKER_DARK: byte := 192

  // ---- one channel ----

  /** Division by 255 with shifts: (v + 128 + (v >> 8)) >> 8. */
  function Blend(v: nat): nat { (v + 128 + v / 256) / 256 }

  function Mixed(s: byte, a: byte, bg: byte): nat {
    var x: int, y: int, z: int := s, a, bg;
    Convex(x, y, z);
    x * y + z * (255 - y)
  }

  function Nearest(v: nat): nat { (2 * v + 255) / 510 }

  lemma Convex(s: int, a: int, bg: int)
    requires 0 <= a <= 255
    ensures var lo, hi := if s < bg then s else bg, if s < bg then bg else s;
            255 * lo <= s * a + bg * (255 - a) <= 255 * hi
  {
    if s < bg {
      Spread(s, bg - s, 255 - a);
      assert s * a + bg * (255 - a) == 255 * s + (bg - s) * (255 - a);
    } else {
      Spread(bg, s - bg, a);
      assert s * a + bg * (255 - a) == 255 * bg + (s - bg) * a;
    }
  }

  lemma Spread(lo: int, d: int, a: int)
    requires 0 <= a <= 255 && 0 <= d
    ensures 0 <= d * a <= 255 * d
  {
  }

  /** The shifts, in terms of quotient and remainder by 255. */
  lemma BlendIs(v: nat)
    requires v <= 255 * 255
    ensures Blend(v) == v / 255 + if v % 255 > 128 || (v % 255 == 128 && v / 255 <= 128) then 1 else 0
  {
    var q, r := v / 255, v % 255;
    assert v == 255 * q + r;
    if r >= q {
      assert v / 256 == q;
    } else {
      assert v / 256 == q - 1;
    }
  }

  /** The shifts round to nearest exactly when the remainder is not one half more in the
      upper half of the range; there they are one too small. */
  lemma NearestExactly(v: nat)
    requires v <= 255 * 255
    ensures Blend(v) == Nearest(v) <==> !(v % 255 == 128 && v / 255 > 128)
    ensures Blend(v) != Nearest(v) ==> Blend(v) == Nearest(v) - 1
  {
    BlendIs(v);
    var q, r := v / 255, v % 255;
    assert v == 255 * q + r;
    assert Nearest(v) == q + if r >= 128 then 1 else 0;
  }

  /** It does happen: a blend that is not the nearest value. */
  lemma NotAlwaysNearest()
    ensures Blend(Mixed(65, 1, CHECKER_DARK)) != Nearest(Mixed(65, 1, CHECKER_DARK))
  {
    assert Mixed(65, 1, CHECKER_DARK) == 48833;
  }

  /** The blend is off by at most 128 of 255 parts and lies between its two ends. */
  lemma BlendIsClose(s: byte, a: byte, bg: byte)
    ensures var v, out := Mixed(s, a, bg), Blend(Mixed(s, a, bg));
            && -128 <= 255 * out - v <= 128
            && (if s < bg then s <= out <= bg else bg <= out <= s)
  {
    var v := Mixed(s, a, bg);
    Convex(s, a, bg);
    BlendIs(v);
    assert v == 255 * (v / 255) + v % 255;
  }

  function Background(x: nat, y: nat): byte {
    if (x / CHECKER_CELL + y / CHECKER_CELL) % 2 == 1 then CHECKER_DARK else CHECKER_LIGHT
  }

  /** A channel of the output pixel. */
  function Channel(s: byte, a: byte, bg: byte): byte {
    BlendIsClose(s, a, bg);
    if a == 255 then s else if a == 0 then bg else Blend(Mixed(s, a, bg))
  }

  /** The shortcuts for opaque and transparent pixels are what the blend would give. */
  lemma ShortcutsAgree(s: byte, a: byte, bg: byte)
    ensures Channel(s, a, bg) as int == Blend(Mixed(s, a, bg))
  {
    BlendIsClose(s, a, bg);
    if a == 255 {
      assert Mixed(s, a, bg) == 255 * s as int;
      BlendIs(Mixed(s, a, bg));
    } else if a == 0 {
      assert Mixed(s, a, bg) == 255 * bg as int;
      BlendIs(Mixed(s, a, bg));
    }
  }

  // ---- the rows ----

  /** Where row r of a picture with the given bytes per row starts. */
  function RowStart(r: nat, stride: nat): nat { r * stride }

  lemma NextRow(r: nat, stride: nat)
    ensures RowStart(r + 1, stride) == RowStart(r, stride) + stride
  {
  }

  lemma {:induction false} RowsApart(r: nat, s: nat, stride: nat)
    requires r < s
    ensures RowStart(r, stride) + stride <= RowStart(s, stride)
    decreases s
  {
    NextRow(s - 1, stride);
    if r < s - 1 {
      RowsApart(r, s - 1, stride);
    }
  }

  /** Byte j of the output row for source row y, which starts at `at`. */
  function OutByte(src: seq<byte>, at: nat, y: nat, j: nat): byte
    requires at + j / 3 * 4 + 4 <= |src|
  {
    var x := j / 3;
    Channel(src[at + 4 * x + j % 3], src[at + 4 * x + 3], Background(x, y))
  }

  /** One row, at offset `out` of the bitmap. */
  method CompositeRow(src: seq<byte>, at: nat, dst: array<byte>, out: nat, w: nat, y: nat)
    requires at + 4 * w <= |src| && out + 3 * w <= dst.Length
    modifies dst
    ensures forall j :: 0 <= j < 3 * w ==> dst[out + j] == OutByte(src, at, y, j)
    ensures forall k :: 0 <= k < dst.Length && !(out <= k < out + 3 * w) ==> dst[k] == old(dst[k])
  {
    hide OutByte, Channel, Background;
    var sp, dp := at, out;
    for x := 0 to w
      invariant sp == at + 4 * x && dp == out + 3 * x
      invariant forall j :: 0 <= j < 3 * x ==> dst[out + j] == OutByte(src, at, y, j)
      invariant forall k :: 0 <= k < dst.Length && !(out <= k < out + 3 * x) ==> dst[k] == old(dst[k])
    {
      var b, g, r := CompositePixel(src[sp], src[sp + 1], src[sp + 2], src[sp + 3], x, y);
      PixelWritten(src, at, y, x, b, g, r);
      dst[dp], dst[dp + 1], dst[dp + 2] := b, g, r;
      sp, dp := sp + 4, dp + 3;
    }
  }

  /** One pixel. */
  method CompositePixel(sb: byte, sg: byte, sr: byte, a: byte, x: nat, y: nat) returns (b: byte, g: byte, r: byte)
    ensures b == Channel(sb, a, Background(x, y)) && g == Channel(sg, a, Background(x, y)) && r == Channel(sr, a, Background(x, y))
  {
    if a == 255 {
      return sb, sg, sr;
    }
    var bg := if (x / CHECKER_CELL + y / CHECKER_CELL) % 2 == 1 then CHECKER_DARK else CHECKER_LIGHT;
    if a == 0 {
      return bg, bg, bg;
    }
    var b0, b1, b2 := Mixed(sb, a, bg), Mixed(sg, a, bg), Mixed(sr, a, bg);
    BlendIsClose(sb, a, bg);
    BlendIsClose(sg, a, bg);
    BlendIsClose(sr, a, bg);
    return (b0 + 128 + b0 / 256) / 256, (b1 + 128 + b1 / 256) / 256, (b2 + 128 + b2 / 256) / 256;
  }

  lemma PixelWritten(src: seq<byte>, at: nat, y: nat, x: nat, b: byte, g: byte, r: byte)
    requires at + 4 * x + 4 <= |src|
    requires var a, bg := src[at + 4 * x + 3], Background(x, y);
             b == Channel(src[at + 4 * x], a, bg) && g == Channel(src[at + 4 * x + 1], a, bg) && r == Channel(src[at + 4 * x + 2], a, bg)
    ensures OutByte(src, at, y, 3 * x) == b && OutByte(src, at, y, 3 * x + 1) == g && OutByte(src, at, y, 3 * x + 2) == r
  {
    assert (3 * x) / 3 == x && (3 * x + 1) / 3 == x && (3 * x + 2) / 3 == x;
  }

  /** compositeBGRAtoBGR: row y of the picture becomes row h - 1 - y of the bitmap, and
      nothing else of the bitmap changes. */
  method CompositeBGRAtoBGR(src: seq<byte>, dst: array<byte>, stride: nat, w: nat, h: nat)
    requires h > 0 && 3 * w <= stride && |src| == RowStart(h, 4 * w)
    requires RowStart(h - 1, stride) + 3 * w <= dst.Length
    modifies dst
    ensures forall y :: 0 <= y < h ==> RowDone(src, dst[..], stride, w, h, y)
    ensures forall k :: 0 <= k < dst.Length && !Covered(h, stride, w, k) ==> dst[k] == old(dst[k])
  {
    hide RowStart, OutByte, RowDone;
    var out: int := RowStart(h - 1, stride);
    for y := 0 to h
      invariant y < h ==> out == RowStart(h - 1 - y, stride)
      invariant forall v :: 0 <= v < y ==> RowDone(src, dst[..], stride, w, h, v)
      invariant forall k :: 0 <= k < dst.Length && !Covered(h, stride, w, k) ==> dst[k] == old(dst[k])
    {
      RowFits(h, stride, w, dst.Length, y);
      SourceFits(h, w, y);
      ghost var before := dst[..];
      CompositeRow(src, RowStart(y, 4 * w), dst, out, w, y);
      forall v | 0 <= v < y
        ensures RowDone(src, dst[..], stride, w, h, v)
      {
        RowsApart(h - 1 - y, h - 1 - v, stride);
        RowKept(src, before, dst[..], stride, w, h, v, out);
      }
      assert RowDone(src, dst[..], stride, w, h, y) by { RowIsDone(src, dst[..], stride, w, h, y); }
      if y + 1 < h {
        NextRow(h - 2 - y, stride);
      }
      out := out - stride;
    }
  }

  /** Row y of the picture is in its row of the bitmap. */
  ghost predicate RowDone(src: seq<byte>, bitmap: seq<byte>, stride: nat, w: nat, h: nat, y: nat) {
    && IsRow(h, stride, w, |bitmap|, y) && RowStart(y, 4 * w) + 4 * w <= |src|
    && var at := RowStart(h - 1 - y, stride);
    forall j :: 0 <= j < 3 * w ==> bitmap[at + j] == OutByte(src, RowStart(y, 4 * w), y, j)
  }

  /** One pixel of a row that is done, in plain numbers: opaque pixels are copied,
      others blended with a checkerboard of cells of eight pixels, light first. */
  lemma PixelOfRow(src: seq<byte>, bitmap: seq<byte>, stride: nat, w: nat, h: nat, x: nat, y: nat, c: nat)
    requires RowDone(src, bitmap, stride, w, h, y) && x < w && c < 3 && y < h
    ensures var to, from := (h - 1 - y) * stride + 3 * x, y * (4 * w) + 4 * x;
            && 0 <= to && to + 3 <= |bitmap| && 0 <= from && from + 4 <= |src|
            && var s: int, a: int, bg := src[from + c], src[from + 3], if (x / 8 + y / 8) % 2 == 1 then 192 else 224;
               var v := s * a + bg * (255 - a);
               && bitmap[to + c] as int == (v + 128 + v / 256) / 256
               && (a == 255 ==> bitmap[to + c] as int == s) && (a == 0 ==> bitmap[to + c] as int == bg)
  {
    hide Channel, Mixed;
    var j := 3 * x + c;
    assert j / 3 == x && j % 3 == c && j < 3 * w;
    RowBegins(src, bitmap, stride, w, h, y);
    var s, a, bg := src[RowStart(y, 4 * w) + 4 * x + c], src[RowStart(y, 4 * w) + 4 * x + 3], Background(x, y);
    assert bitmap[RowStart(h - 1 - y, stride) + j] == OutByte(src, RowStart(y, 4 * w), y, j) == Channel(s, a, bg);
    ShortcutsAgree(s, a, bg);
    ChannelIs(s, a, bg);
  }

  lemma RowBegins(src: seq<byte>, bitmap: seq<byte>, stride: nat, w: nat, h: nat, y: nat)
    requires RowDone(src, bitmap, stride, w, h, y) && y < h
    ensures RowStart(h - 1 - y, stride) + 3 * w <= |bitmap| && RowStart(y, 4 * w) + 4 * w <= |src|
  {
  }

  lemma ChannelIs(s: byte, a: byte, bg: byte)
    ensures Mixed(s, a, bg) == s * a + bg * (255 - a)
    ensures (a == 255 ==> Channel(s, a, bg) == s) && (a == 0 ==> Channel(s, a, bg) == bg)
  {
  }

  lemma RowIsDone(src: seq<byte>, bitmap: seq<byte>, stride: nat, w: nat, h: nat, y: nat)
    requires IsRow(h, stride, w, |bitmap|, y) && RowStart(y, 4 * w) + 4 * w <= |src|
    requires var at := RowStart(h - 1 - y, stride);
             forall j :: 0 <= j < 3 * w ==> bitmap[at + j] == OutByte(src, RowStart(y, 4 * w), y, j)
    ensures RowDone(src, bitmap, stride, w, h, y)
  {
  }

  /** Writing a row below leaves a finished row alone. */
  lemma RowKept(src: seq<byte>, before: seq<byte>, after: seq<byte>, stride: nat, w: nat, h: nat, y: nat, out: nat)
    requires RowDone(src, before, stride, w, h, y) && |after| == |before|
    requires forall k :: 0 <= k < |after| && !(out <= k < out + 3 * w) ==> after[k] == before[k]
    requires out + 3 * w <= RowStart(h - 1 - y, stride)
    ensures RowDone(src, after, stride, w, h, y)
  {
    hide RowStart, OutByte;
  }

  ghost predicate IsRow(h: nat, stride: nat, w: nat, length: nat, y: nat) {
    y < h && RowStart(h - 1 - y, stride) + 3 * w <= length
  }

  /** Byte k of the bitmap belongs to a pixel. */
  ghost predicate Covered(h: nat, stride: nat, w: nat, k: nat) {
    exists r :: 0 <= r < h && RowStart(r, stride) <= k < RowStart(r, stride) + 3 * w
  }

  lemma RowFits(h: nat, stride: nat, w: nat, length: nat, y: nat)
    requires y < h && 3 * w <= stride && RowStart(h - 1, stride) + 3 * w <= length
    ensures IsRow(h, stride, w, length, y)
    ensures forall k :: RowStart(h - 1 - y, stride) <= k < RowStart(h - 1 - y, stride) + 3 * w ==> Covered(h, stride, w, k)
  {
    if y > 0 {
      RowsApart(h - 1 - y, h - 1, stride);
    }
  }

  lemma SourceFits(h: nat, w: nat, y: nat)
    requires y < h
    ensures RowStart(y, 4 * w) + 4 * w <= RowStart(h, 4 * w)
  {
    RowsApart(y, h, 4 * w);
  }

  /** The padding behind the pixels of a row belongs to no pixel. */
  lemma PaddingIsFree(h: nat, stride: nat, w: nat, r: nat, j: nat)
    requires r < h && 3 * w <= j < stride
    ensures !Covered(h, stride, w, RowStart(r, stride) + j)
  {
    hide RowStart;
    forall s | 0 <= s < h
      ensures !(RowStart(s, stride) <= RowStart(r, stride) + j < RowStart(s, stride) + 3 * w)
    {
      if s < r {
        RowsApart(s, r, stride);
      } else if r < s {
        RowsApart(r, s, stride);
      }
    }
  }

  // ---- the direct path ----

  /** A picture buffer: where its first row starts and how far apart rows are, which is
      negative when rows go upwards in memory. */
  datatype Plane = Plane(start: int, stride: int) {
    function Row(y: int): int { start + y * stride }

    /** WebPFlipBuffer of a plane whose last row is `last`. */
    function Flipped(last: int): Plane { Plane(start + last * stride, -stride) }
  }

  /** The buffer that getFrame decodes into when there is no alpha. */
  function DirectPlane(h: nat, stride: nat): Plane
    requires h > 0
  {
    Plane(RowStart(h - 1, stride), -(stride as int))
  }

  /** The direct path writes row y where the blend writes it, and an opaque picture has
      the same bytes there. */
  lemma DirectIsComposite(src: seq<byte>, at: nat, h: nat, stride: nat, y: nat, j: nat)
    requires y < h && at + j / 3 * 4 + 4 <= |src| && src[at + j / 3 * 4 + 3] == 255
    ensures DirectPlane(h, stride).Row(y) == RowStart(h - 1 - y, stride)
    ensures OutByte(src, at, y, j) == src[at + j / 3 * 4 + j % 3]
  {
    assert (h - 1) * stride - y * stride == (h - 1 - y) * stride;
  }

  /** CheckDecBuffer for RGB modes: rows of `bytes` bytes in `size` bytes of memory, which
      may be absent. */
  predicate CheckDecBuffer(bytes: nat, height: int, stride: int, size: nat, there: bool) {
    var s := if stride < 0 then -stride else stride;
    s * (height - 1) + bytes <= size && s >= bytes && there
  }

  /** The buffer of the direct path passes the check just when a row fits its stride and
      the caller gave memory. */
  lemma DirectPasses(w: nat, h: nat, stride: nat, there: bool)
    requires h > 0
    ensures CheckDecBuffer(3 * w, h, DirectPlane(h, stride).stride, stride * h, there) <==> stride >= 3 * w && there
  {
    assert stride * h == stride * (h - 1) + stride;
  }

  /** Flipping turns row y into row last - y, and flipping again restores the buffer; for
      chroma the last row is (height - 1) / 2, of (height + 1) / 2 rows. */
  lemma FlipTwice(p: Plane, last: int, y: int)
    ensures p.Flipped(last).Row(y) == p.Row(last - y)
    ensures p.Flipped(last).Flipped(last) == p
  {
    assert last * p.stride + y * -p.stride == (last - y) * p.stride;
  }
}

/** One call of a WebPUpsampleLinePairFunc: two RGB rows from their luma rows and the
    chroma row of each. The code keeps u and v in the two halves of one 32-bit word and
    interpolates both at once, in two shifts. The reference is the bilinear weight
    9, 3, 3, 1 of each channel by itself, mirrored at the ends of the row. */
module LineUpsampler {

  const WORD := 0x1_0000_0000

  predicate Bytes(s: seq<int>) { forall x <- s :: 0 <= x < 256 }

  /** LOAD_UV */
  function LoadUV(u: nat, v: nat): nat { u + 0x1_0000 * v }

  // ---- the packed arithmetic, modulo 2^32 ----

  function Avg(tl: nat, t: nat, l: nat, uv: nat): nat { (tl + t + l + uv + 0x0008_0008) % WORD }

  /** diag_12 from the top and left samples, diag_03 from the other two. */
  function Diagonal(avg: nat, a: nat, b: nat): nat { (avg + 2 * (a + b)) % WORD / 8 }

  function Mean(diagonal: nat, a: nat): nat { (diagonal + a) % WORD / 2 }

  /** At the ends of a row. */
  function AtEnd(near: nat, far: nat): nat { (3 * near + far + 0x0002_0002) % WORD / 4 }

  // ---- what it is meant to compute ----

  function Blend(a: nat, b: nat, c: nat, d: nat): nat { (9 * a + 3 * b + 3 * c + d + 8) / 16 }

  /** The chroma column on the other side of luma column x, mirrored at both ends. */
  function Other(x: nat, len: nat): nat
    requires x < len
  {
    if x == 0 then 0
    else if x % 2 == 0 then x / 2 - 1
    else if x + 1 == len then x / 2
    else x / 2 + 1
  }

  /** Chroma column k lies between luma columns 2 * k and 2 * k + 1. The column nearest to
      luma column x is x / 2, a quarter of a chroma column away; the other one is three
      quarters away on the other side, if there is one. */
  lemma OtherIsAcross(x: nat, len: nat)
    requires x < len
    ensures 2 * x - (4 * (x / 2) + 1) == 1 || 2 * x - (4 * (x / 2) + 1) == -1
    ensures forall k :: 0 <= k < (len + 1) / 2 && (2 * x - (4 * k + 1) == 3 || 2 * x - (4 * k + 1) == -3) ==> Other(x, len) == k
    ensures (forall k :: 0 <= k < (len + 1) / 2 ==> 2 * x - (4 * k + 1) != 3 && 2 * x - (4 * k + 1) != -3) ==> Other(x, len) == x / 2
  {
    var k := if x % 2 == 0 then x / 2 - 1 else x / 2 + 1;
    assert 2 * x - (4 * k + 1) == 3 || 2 * x - (4 * k + 1) == -3;
  }

  function Chroma(near: seq<int>, far: seq<int>, x: nat, len: nat): nat
    requires x < len && |near| == |far| == (len + 1) / 2 && Bytes(near) && Bytes(far)
  {
    assert near[x / 2] in near && near[Other(x, len)] in near && far[x / 2] in far && far[Other(x, len)] in far;
    Blend(near[x / 2], near[Other(x, len)], far[x / 2], far[Other(x, len)])
  }

  /** VP8YuvToRgb and the like. */
  type ToRgb = (int, int, int) -> int

  predicate Fits(y: seq<int>, nearU: seq<int>, nearV: seq<int>, farU: seq<int>, farV: seq<int>) {
    && |y| > 0 && |nearU| == |nearV| == |farU| == |farV| == (|y| + 1) / 2
    && Bytes(nearU) && Bytes(nearV) && Bytes(farU) && Bytes(farV)
  }

  /** One RGB row. */
  function Line(rgb: ToRgb, y: seq<int>, nearU: seq<int>, nearV: seq<int>, farU: seq<int>, farV: seq<int>): (row: seq<int>)
    requires Fits(y, nearU, nearV, farU, farV)
    ensures |row| == |y|
  {
    seq(|y|, x requires 0 <= x < |y| => rgb(y[x], Chroma(nearU, farU, x, |y|), Chroma(nearV, farV, x, |y|)))
  }

  // ---- the two halves do not disturb each other ----

  lemma DiagonalOfSums(u: nat, v: nat)
    requires u < 0x1_0000 && v < 0x1_0000
    ensures (u + 0x1_0000 * v) % WORD / 8 == u / 8 + 0x2000 * v
  {
    var q, m := u / 8, u % 8;
    assert u + 0x1_0000 * v == 8 * (q + 0x2000 * v) + m;
  }

  lemma MeanOfSums(eighth: nat, v: nat, a: nat, b: nat)
    requires eighth < 0x1000 && v < 0x1000 && a < 256 && b < 256
    ensures Mean(eighth + 0x2000 * v, LoadUV(a, b)) == (eighth + a) / 2 + 0x1000 * v + 0x8000 * b
  {
    var q, m := (eighth + a) / 2, (eighth + a) % 2;
    assert eighth + 0x2000 * v + LoadUV(a, b) == 2 * (q + 0x1000 * v + 0x8000 * b) + m;
  }

  lemma TwoShifts(sum: nat, a: nat)
    ensures (sum / 8 + a) / 2 == (sum + 8 * a) / 16
  {
    var q, m := sum / 8, sum % 8;
    assert sum + 8 * a == 8 * (q + a) + m;
  }

  lemma Small(n: nat)
    requires n < WORD
    ensures n % WORD == n
  {
  }

  /** The four samples and the rounding, in both halves. */
  lemma AvgOfSums(a: nat, b: nat, c: nat, d: nat, e: nat, f: nat, g: nat, h: nat)
    requires a < 256 && b < 256 && c < 256 && d < 256 && e < 256 && f < 256 && g < 256 && h < 256
    ensures Avg(LoadUV(a, e), LoadUV(b, f), LoadUV(c, g), LoadUV(d, h)) == (a + b + c + d + 8) + 0x1_0000 * (e + f + g + h + 8)
  {
    Small((a + b + c + d + 8) + 0x1_0000 * (e + f + g + h + 8));
  }

  /** One interpolated sample: the low byte is that of u, the high half that of v. */
  lemma PackedIsBlend(tlU: nat, tU: nat, lU: nat, cU: nat, tlV: nat, tV: nat, lV: nat, cV: nat)
    requires tlU < 256 && tU < 256 && lU < 256 && cU < 256 && tlV < 256 && tV < 256 && lV < 256 && cV < 256
    ensures var tl, t, l, uv := LoadUV(tlU, tlV), LoadUV(tU, tV), LoadUV(lU, lV), LoadUV(cU, cV);
            var r := Mean(Diagonal(Avg(tl, t, l, uv), t, l), tl);
            r % 256 == Blend(tlU, tU, lU, cU) && r / 0x1_0000 == Blend(tlV, tV, lV, cV)
  {
    hide Mean, Avg, Diagonal, Blend;
    var tl, t, l, uv := LoadUV(tlU, tlV), LoadUV(tU, tV), LoadUV(lU, lV), LoadUV(cU, cV);
    AvgOfSums(tlU, tU, lU, cU, tlV, tV, lV, cV);
    var sumU, sumV := tlU + 3 * tU + 3 * lU + cU + 8, tlV + 3 * tV + 3 * lV + cV + 8;
    DiagonalIs(Avg(tl, t, l, uv), t, l, sumU, sumV);
    BlendIs(tlU, tU, lU, cU);
    BlendIs(tlV, tV, lV, cV);
    Shifted(sumU, sumV, tlU, tlV);
  }

  lemma DiagonalIs(avg: nat, a: nat, b: nat, u: nat, v: nat)
    requires avg + 2 * (a + b) == u + 0x1_0000 * v
    ensures Diagonal(avg, a, b) == (u + 0x1_0000 * v) % WORD / 8
  {
  }

  lemma BlendIs(a: nat, b: nat, c: nat, d: nat)
    requires a < 256 && b < 256 && c < 256 && d < 256
    ensures Blend(a, b, c, d) == (a + 3 * b + 3 * c + d + 8 + 8 * a) / 16 < 256
  {
  }

  /** The two shifts, on the sums of both halves. */
  lemma Shifted(sumU: nat, sumV: nat, a: nat, b: nat)
    requires sumU < 0x1000 && sumV < 0x1000 && a < 256 && b < 256 && (sumU + 8 * a) / 16 < 256
    ensures var r := Mean((sumU + 0x1_0000 * sumV) % WORD / 8, LoadUV(a, b));
            r % 256 == (sumU + 8 * a) / 16 && r / 0x1_0000 == (sumV + 8 * b) / 16
  {
    hide Mean;
    DiagonalOfSums(sumU, sumV);
    MeanOfSums(sumU / 8, sumV, a, b);
    TwoShifts(sumU, a);
    HalvesApart(Mean(sumU / 8 + 0x2000 * sumV, LoadUV(a, b)), (sumU + 8 * a) / 16, sumV + 8 * b);
  }

  lemma HalvesApart(r: nat, low: nat, high: nat)
    requires low < 256 && r == low + 0x1000 * high
    ensures r % 256 == low && r / 0x1_0000 == high / 16
  {
    var q, m := high / 16, high % 16;
    assert r == 0x1_0000 * q + (0x1000 * m + low);
    assert r == 256 * (16 * high) + low;
  }

  lemma EndOfSums(u: nat, v: nat)
    requires u < 0x1000 && v < 0x1000
    ensures (u + 0x1_0000 * v) % WORD / 4 == u / 4 + 0x4000 * v
  {
    Small(u + 0x1_0000 * v);
    var q, m := u / 4, u % 4;
    assert u + 0x1_0000 * v == 4 * (q + 0x4000 * v) + m;
  }

  lemma Quartered(n: nat)
    ensures 4 * n / 16 == n / 4
  {
  }

  lemma PackedAtEnd(nearU: nat, farU: nat, nearV: nat, farV: nat)
    requires nearU < 256 && farU < 256 && nearV < 256 && farV < 256
    ensures var r := AtEnd(LoadUV(nearU, nearV), LoadUV(farU, farV));
            r % 256 == Blend(nearU, nearU, farU, farU) && r / 0x1_0000 == Blend(nearV, nearV, farV, farV)
  {
    var sumU, sumV := 3 * nearU + farU + 2, 3 * nearV + farV + 2;
    EndOfSums(sumU, sumV);
    HalvesApart(sumU / 4 + 0x4000 * sumV, sumU / 4, 4 * sumV);
    Quartered(sumU);
    Quartered(sumV);
  }

  // ---- the loop ----

  /** One pixel: FUNC on the two halves of the word. */
  function Pixel(rgb: ToRgb, y: int, word: nat): int { rgb(y, word % 256, word / 0x1_0000) }

  /** The two chroma samples of column i in one word. */
  function At(u: seq<int>, v: seq<int>, i: nat): nat
    requires Bytes(u) && Bytes(v) && i < |u| && i < |v|
  {
    assert u[i] in u && v[i] in v;
    LoadUV(u[i], v[i])
  }

  /** The first pixel of a line, and the last of an even one. */
  lemma EndPixel(rgb: ToRgb, y: seq<int>, nearU: seq<int>, nearV: seq<int>, farU: seq<int>, farV: seq<int>, x: nat)
    requires Fits(y, nearU, nearV, farU, farV) && x < |y| && (x == 0 || (x % 2 == 1 && x + 1 == |y|))
    ensures Pixel(rgb, y[x], AtEnd(At(nearU, nearV, x / 2), At(farU, farV, x / 2))) == Line(rgb, y, nearU, nearV, farU, farV)[x]
  {
    hide AtEnd, Blend, LoadUV;
    var c := x / 2;
    assert Other(x, |y|) == c;
    assert nearU[c] in nearU && farU[c] in farU && nearV[c] in nearV && farV[c] in farV;
    PackedAtEnd(nearU[c], farU[c], nearV[c], farV[c]);
    LineAt(rgb, y, nearU, nearV, farU, farV, x);
  }

  lemma LineAt(rgb: ToRgb, y: seq<int>, nearU: seq<int>, nearV: seq<int>, farU: seq<int>, farV: seq<int>, x: nat)
    requires Fits(y, nearU, nearV, farU, farV) && x < |y|
    ensures Line(rgb, y, nearU, nearV, farU, farV)[x] == rgb(y[x], Chroma(nearU, farU, x, |y|), Chroma(nearV, farV, x, |y|))
  {
  }

  /** The two pixels of a line between columns k-1 and k. */
  lemma InnerPixels(rgb: ToRgb, y: seq<int>, nearU: seq<int>, nearV: seq<int>, farU: seq<int>, farV: seq<int>, k: nat)
    requires Fits(y, nearU, nearV, farU, farV) && 1 <= k && 2 * k < |y|
    ensures var n0, n1, f0, f1 := At(nearU, nearV, k - 1), At(nearU, nearV, k), At(farU, farV, k - 1), At(farU, farV, k);
            var line := Line(rgb, y, nearU, nearV, farU, farV);
            && Pixel(rgb, y[2 * k - 1], Mean(Diagonal(Avg(n0, n1, f0, f1), n1, f0), n0)) == line[2 * k - 1]
            && Pixel(rgb, y[2 * k], Mean(Diagonal(Avg(n0, n1, f0, f1), n0, f1), n1)) == line[2 * k]
  {
    hide Mean, Diagonal, Avg, Blend, LoadUV;
    assert (2 * k - 1) / 2 == k - 1 && (2 * k - 1) % 2 == 1 && 2 * k / 2 == k && 2 * k % 2 == 0;
    assert nearU[k - 1] in nearU && nearU[k] in nearU && farU[k - 1] in farU && farU[k] in farU;
    assert nearV[k - 1] in nearV && nearV[k] in nearV && farV[k - 1] in farV && farV[k] in farV;
    PackedIsBlend(nearU[k - 1], nearU[k], farU[k - 1], farU[k], nearV[k - 1], nearV[k], farV[k - 1], farV[k]);
    PackedIsBlend(nearU[k], nearU[k - 1], farU[k], farU[k - 1], nearV[k], nearV[k - 1], farV[k], farV[k - 1]);
    AvgSwaps(At(nearU, nearV, k - 1), At(nearU, nearV, k), At(farU, farV, k - 1), At(farU, farV, k));
    DiagonalSwaps(Avg(At(nearU, nearV, k - 1), At(nearU, nearV, k), At(farU, farV, k - 1), At(farU, farV, k)),
                  At(nearU, nearV, k - 1), At(farU, farV, k));
    LineAt(rgb, y, nearU, nearV, farU, farV, 2 * k - 1);
    LineAt(rgb, y, nearU, nearV, farU, farV, 2 * k);
    assert Other(2 * k - 1, |y|) == k && Other(2 * k, |y|) == k - 1;
  }

  /** The sum of the four samples does not depend on their order. */
  lemma AvgSwaps(a: nat, b: nat, c: nat, d: nat)
    ensures Avg(a, b, c, d) == Avg(b, a, d, c) == Avg(c, d, a, b)
  {
    assert a + b + c + d + 0x0008_0008 == b + a + d + c + 0x0008_0008 == c + d + a + b + 0x0008_0008;
  }

  lemma DiagonalSwaps(avg: nat, a: nat, b: nat)
    ensures Diagonal(avg, a, b) == Diagonal(avg, b, a)
  {
    assert avg + 2 * (a + b) == avg + 2 * (b + a);
  }

  /** The row `dst` holds the first `done` pixels of a line. */
  ghost predicate Begun(line: seq<int>, dst: array<int>, done: nat)
    reads dst
  {
    done <= |line| == dst.Length && forall x :: 0 <= x < done ==> dst[x] == line[x]
  }

  /** UPSAMPLE_FUNC: both lines, each from its own chroma row and the other one; without
      a bottom line (`bottomY` empty) the top line only. */
  method UpsampleLinePair(rgb: ToRgb, topY: seq<int>, bottomY: seq<int>, topU: seq<int>, topV: seq<int>,
                          curU: seq<int>, curV: seq<int>, topDst: array<int>, bottomDst: array<int>)
    requires Fits(topY, topU, topV, curU, curV) && |topY| == topDst.Length && topDst != bottomDst
    requires bottomY != [] ==> |bottomY| == |topY| == bottomDst.Length
    modifies topDst, bottomDst
    ensures topDst[..] == Line(rgb, topY, topU, topV, curU, curV)
    ensures bottomY != [] ==> bottomDst[..] == Line(rgb, bottomY, curU, curV, topU, topV)
    ensures bottomY == [] ==> bottomDst[..] == old(bottomDst[..])
  {
    hide Line, AtEnd, Mean, Diagonal, Avg, Pixel, At;
    var len := |topY|;
    ghost var top := Line(rgb, topY, topU, topV, curU, curV);
    ghost var bottom := if bottomY == [] then [] else Line(rgb, bottomY, curU, curV, topU, topV);
    var tl, l := At(topU, topV, 0), At(curU, curV, 0);
    EndPixel(rgb, topY, topU, topV, curU, curV, 0);
    topDst[0] := Pixel(rgb, topY[0], AtEnd(tl, l));
    if bottomY != [] {
      EndPixel(rgb, bottomY, curU, curV, topU, topV, 0);
      bottomDst[0] := Pixel(rgb, bottomY[0], AtEnd(l, tl));
    }
    for x := 1 to (len - 1) / 2 + 1
      invariant tl == At(topU, topV, x - 1) && l == At(curU, curV, x - 1)
      invariant Begun(top, topDst, 2 * x - 1)
      invariant if bottomY != [] then Begun(bottom, bottomDst, 2 * x - 1) else bottomDst[..] == old(bottomDst[..])
    {
      var t, uv := At(topU, topV, x), At(curU, curV, x);
      var avg := Avg(tl, t, l, uv);
      var diag12, diag03 := Diagonal(avg, t, l), Diagonal(avg, tl, uv);
      InnerPixels(rgb, topY, topU, topV, curU, curV, x);
      topDst[2 * x - 1] := Pixel(rgb, topY[2 * x - 1], Mean(diag12, tl));
      topDst[2 * x] := Pixel(rgb, topY[2 * x], Mean(diag03, t));
      if bottomY != [] {
        AvgSwaps(tl, t, l, uv);
        DiagonalSwaps(avg, t, l);
        DiagonalSwaps(avg, tl, uv);
        InnerPixels(rgb, bottomY, curU, curV, topU, topV, x);
        bottomDst[2 * x - 1] := Pixel(rgb, bottomY[2 * x - 1], Mean(diag03, l));
        bottomDst[2 * x] := Pixel(rgb, bottomY[2 * x], Mean(diag12, uv));
      }
      tl, l := t, uv;
    }
    if len % 2 == 0 {
      EndPixel(rgb, topY, topU, topV, curU, curV, len - 1);
      topDst[len - 1] := Pixel(rgb, topY[len - 1], AtEnd(tl, l));
      if bottomY != [] {
        EndPixel(rgb, bottomY, curU, curV, topU, topV, len - 1);
        bottomDst[len - 1] := Pixel(rgb, bottomY[len - 1], AtEnd(l, tl));
      }
    }
  }
}

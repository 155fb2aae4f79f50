/** The output side of the lossy decoder: CustomPut and the emitters it calls.

    Each put() delivers a band of luma rows and the chroma rows that go with it.
    The fancy upsampler interpolates chroma between rows, so the last row of a
    band has to wait for the next one; alpha must follow the same delay. The
    reference gives every output row by itself, from the whole cropped picture. */
module FancyUpsampler {
  import opened Options
  import opened RowGeometry
  import L = LineUpsampler

  /** Samples of a cropped row. */
  type Span = seq<int>

  /** The `width` samples of a row from sample `left` on; nothing else of it is looked
      at. Rows always reach that far, the other branch is for completeness. */
  function Cut(row: Row, left: nat, width: nat): Span {
    if left + width <= |row| then row[left..left + width] else []
  }

  type OutRow = seq<int>

  /** The DSP kernels. `line` gives one RGB row from its luma row, the nearest
      chroma row and the chroma row on its other side. `sample` point-samples
      the chroma. `multiply` premultiplies by alpha. */
  datatype Kernels = Kernels(
    line: (Span, Span, Span, Span, Span) -> OutRow,
    sample: (Span, Span, Span) -> OutRow,
    multiply: (OutRow, Span) -> OutRow,
    opaqueRow: Span -> bool)
  {
    /** Multiplying by a fully opaque row changes nothing. */
    ghost predicate Valid() {
      forall x: OutRow, a: Span :: opaqueRow(a) ==> multiply(x, a) == x
    }
  }

  /** The cropped picture, row by row. `a` is empty when there is no alpha. */
  datatype Cropped = Cropped(y: seq<Span>, u: seq<Span>, v: seq<Span>, a: seq<Span>) {
    predicate Valid() {
      |y| > 0 && |u| == |v| == (|y| + 1) / 2 && (a == [] || |a| == |y|)
    }

    /** The chroma row nearest to luma row r. */
    function Near(r: nat): nat { r / 2 }

    /** The chroma row on the other side, mirrored at the top and at the bottom. */
    function Far(r: nat): nat
      requires r < |y|
    {
      if r == 0 then 0
      else if r % 2 == 0 then r / 2 - 1
      else if r + 1 == |y| then r / 2
      else r / 2 + 1
    }

    function FancyLine(ks: Kernels, r: nat): OutRow
      requires Valid() && r < |y|
    {
      ks.line(y[r], u[Near(r)], v[Near(r)], u[Far(r)], v[Far(r)])
    }

    function Line(ks: Kernels, fancy: bool, r: nat): OutRow
      requires Valid() && r < |y|
    {
      if fancy then FancyLine(ks, r) else ks.sample(y[r], u[r / 2], v[r / 2])
    }

    /** The finished output row r. */
    function Final(ks: Kernels, fancy: bool, premult: bool, r: nat): OutRow
      requires Valid() && r < |y|
    {
      if a != [] && premult then ks.multiply(Line(ks, fancy, r), a[r]) else Line(ks, fancy, r)
    }
  }

  /** How many output rows are finished once `rows` of the `h` input rows are in. */
  function DoneRows(fancy: bool, h: nat, rows: nat): nat {
    if fancy && 0 < rows < h then rows - 1 else rows
  }

  /** The arguments of one put(): the band starts at cropped row mbY; `a` is the
      row of the alpha plane that belongs to its first row. */
  datatype Io = Io(mbY: nat, y: seq<Span>, u: seq<Span>, v: seq<Span>, a: Option<nat>)

  /** The bands put() accepts: cut from the cropped picture in order, even
      start, even height unless it is the last. */
  ghost predicate BandOf(io: Io, p: Cropped) {
    && p.Valid()
    && io.y != [] && io.mbY + |io.y| <= |p.y|
    && io.mbY % 2 == 0 && (io.mbY + |io.y| < |p.y| ==> |io.y| % 2 == 0)
    && |io.u| == |io.v| == (|io.y| + 1) / 2
    && (forall j :: 0 <= j < |io.y| ==> io.y[j] == p.y[io.mbY + j])
    && (forall c :: 0 <= c < |io.u| ==> io.u[c] == p.u[io.mbY / 2 + c] && io.v[c] == p.v[io.mbY / 2 + c])
    && (io.a == None <==> p.a == [])
  }

  /** Line 2k-1 and line 2k share the chroma rows k-1 and k, in opposite roles. */
  lemma LinePair(p: Cropped, ks: Kernels, k: nat)
    requires p.Valid() && 0 < k && 2 * k < |p.y|
    ensures p.FancyLine(ks, 2 * k - 1) == ks.line(p.y[2 * k - 1], p.u[k - 1], p.v[k - 1], p.u[k], p.v[k])
    ensures p.FancyLine(ks, 2 * k) == ks.line(p.y[2 * k], p.u[k], p.v[k], p.u[k - 1], p.v[k - 1])
  {
    assert (2 * k - 1) / 2 == k - 1 && (2 * k - 1) % 2 == 1;
    assert (2 * k) / 2 == k && (2 * k) % 2 == 0;
  }

  /** `line` is what a WebPUpsampleLinePairFunc computes. */
  ghost predicate Interpolates(ks: Kernels, rgb: L.ToRgb) {
    forall y, nu, nv, fu, fv :: L.Fits(y, nu, nv, fu, fv) ==> ks.line(y, nu, nv, fu, fv) == L.Line(rgb, y, nu, nv, fu, fv)
  }

  /** The same between rows as between columns. */
  lemma FarIsAcross(p: Cropped, r: nat)
    requires p.Valid() && r < |p.y|
    ensures p.Near(r) == r / 2 && p.Far(r) == L.Other(r, |p.y|)
  {
  }

  /** Every pixel of the upsampled picture: each chroma channel by itself is the
      bilinear blend of four samples, mirrored at all four edges of the picture. */
  lemma FancyPixel(p: Cropped, ks: Kernels, rgb: L.ToRgb, r: nat, x: nat)
    requires p.Valid() && Interpolates(ks, rgb) && r < |p.y| && x < |p.y[r]|
    requires forall c :: 0 <= c < |p.u| ==> |p.u[c]| == |p.v[c]| == (|p.y[r]| + 1) / 2 && L.Bytes(p.u[c]) && L.Bytes(p.v[c])
    ensures |p.FancyLine(ks, r)| == |p.y[r]|
    ensures var n, f, c, o := p.Near(r), p.Far(r), x / 2, L.Other(x, |p.y[r]|);
            && 0 <= p.u[n][c] && 0 <= p.u[n][o] && 0 <= p.u[f][c] && 0 <= p.u[f][o]
            && 0 <= p.v[n][c] && 0 <= p.v[n][o] && 0 <= p.v[f][c] && 0 <= p.v[f][o]
            && p.FancyLine(ks, r)[x] == rgb(p.y[r][x], L.Blend(p.u[n][c], p.u[n][o], p.u[f][c], p.u[f][o]),
                                            L.Blend(p.v[n][c], p.v[n][o], p.v[f][c], p.v[f][o]))
  {
    hide L.Blend;
    var n, f := p.Near(r), p.Far(r);
    assert L.Fits(p.y[r], p.u[n], p.v[n], p.u[f], p.v[f]);
    L.LineAt(rgb, p.y[r], p.u[n], p.v[n], p.u[f], p.v[f], x);
    var c, o := x / 2, L.Other(x, |p.y[r]|);
    assert p.u[n][c] in p.u[n] && p.u[n][o] in p.u[n] && p.u[f][c] in p.u[f] && p.u[f][o] in p.u[f];
    assert p.v[n][c] in p.v[n] && p.v[n][o] in p.v[n] && p.v[f][c] in p.v[f] && p.v[f][o] in p.v[f];
  }

  /** The reference rows inside a band, in terms of the band's own rows. */
  lemma BandPairs(io: Io, p: Cropped, ks: Kernels, c: nat)
    requires BandOf(io, p) && 1 <= c < |io.u| && 2 * c < |io.y|
    ensures p.FancyLine(ks, io.mbY + 2 * c - 1) == ks.line(io.y[2 * c - 1], io.u[c - 1], io.v[c - 1], io.u[c], io.v[c])
    ensures p.FancyLine(ks, io.mbY + 2 * c) == ks.line(io.y[2 * c], io.u[c], io.v[c], io.u[c - 1], io.v[c - 1])
  {
    var k := io.mbY / 2;
    LinePair(p, ks, k + c);
    assert 2 * (k + c) == io.mbY + 2 * c;
  }

  /** The reference rows at the top of a band. */
  lemma BandTop(io: Io, p: Cropped, ks: Kernels)
    requires BandOf(io, p)
    ensures io.mbY == 0 ==> p.FancyLine(ks, 0) == ks.line(io.y[0], io.u[0], io.v[0], io.u[0], io.v[0])
    ensures io.mbY > 0 ==> var k := io.mbY / 2;
              && p.FancyLine(ks, io.mbY - 1) == ks.line(p.y[io.mbY - 1], p.u[k - 1], p.v[k - 1], io.u[0], io.v[0])
              && p.FancyLine(ks, io.mbY) == ks.line(io.y[0], io.u[0], io.v[0], p.u[k - 1], p.v[k - 1])
  {
    var k := io.mbY / 2;
    if k > 0 { LinePair(p, ks, k); }
  }

  /** The last reference row of an even-sized picture. */
  lemma BandBottom(io: Io, p: Cropped, ks: Kernels)
    requires BandOf(io, p) && io.mbY + |io.y| == |p.y| && |io.y| % 2 == 0
    ensures var n := |io.y|; var c := n / 2 - 1;
            p.FancyLine(ks, io.mbY + n - 1) == ks.line(io.y[n - 1], io.u[c], io.v[c], io.u[c], io.v[c])
  {
    assert (|p.y| - 1) / 2 == io.mbY / 2 + |io.y| / 2 - 1;
  }

  class RgbEmitter {
    const ks: Kernels
    const fancy: bool
    const premult: bool
    const cropTop: nat
    const cropBottom: nat
    const cropLeft: nat
    const width: nat
    const rgb: array<OutRow>    // output->u.RGBA.rgba, row by row
    const alpha: array<Span>    // its alpha channel
    var tmpY: Span
    var tmpU: Span
    var tmpV: Span
    var lastY: nat              // p->last_y

    ghost predicate Valid() {
      ks.Valid() && cropTop < cropBottom && rgb.Length == alpha.Length == cropBottom - cropTop
    }

    /** What holds between two calls of put(), once `rows` rows are in. */
    ghost predicate Progress(p: Cropped, rows: nat) reads this, rgb, alpha {
      && Delay(p, rows)
      && (forall r :: 0 <= r < lastY ==> rgb[r] == p.Final(ks, fancy, premult, r))
      && (p.a != [] ==> forall r :: 0 <= r < lastY ==> alpha[r] == p.a[r])
    }

    /** The rows counted so far and the unfinished row saved for the next call. */
    ghost predicate Delay(p: Cropped, rows: nat) reads this {
      && Valid() && p.Valid() && |p.y| == rgb.Length && rows <= rgb.Length
      && lastY == DoneRows(fancy, rgb.Length, rows)
      && (fancy && 0 < rows < rgb.Length ==>
            rows % 2 == 0 && tmpY == p.y[rows - 1] && tmpU == p.u[rows / 2 - 1] && tmpV == p.v[rows / 2 - 1])
    }

    constructor (ks: Kernels, fancy: bool, premult: bool, cropTop: nat, cropBottom: nat, cropLeft: nat, width: nat)
      requires ks.Valid() && cropTop < cropBottom
      ensures Valid() && lastY == 0 && fresh(rgb) && fresh(alpha) && rgb != alpha
      ensures this.ks == ks && this.fancy == fancy && this.premult == premult
      ensures this.cropTop == cropTop && this.cropBottom == cropBottom && this.cropLeft == cropLeft && this.width == width
    {
      this.ks, this.fancy, this.premult := ks, fancy, premult;
      this.cropTop, this.cropBottom, this.cropLeft, this.width := cropTop, cropBottom, cropLeft, width;
      rgb := new OutRow[cropBottom - cropTop](i => []);
      alpha := new Span[cropBottom - cropTop](i => []);
      tmpY, tmpU, tmpV := [], [], [];
      lastY := 0;
    }

    /** WebPUpsampleLinePairFunc: each line blends its own chroma row with the other one. */
    method UpsampleLinePair(topY: Span, bottomY: Option<Span>, topU: Span, topV: Span,
                            curU: Span, curV: Span, topDst: nat, bottomDst: nat)
      requires topDst < rgb.Length && (bottomY.Some? ==> topDst < bottomDst < rgb.Length)
      modifies rgb
      ensures rgb[topDst] == ks.line(topY, topU, topV, curU, curV)
      ensures bottomY.Some? ==> rgb[bottomDst] == ks.line(bottomY.value, curU, curV, topU, topV)
      ensures forall r :: 0 <= r < rgb.Length && r != topDst && (bottomY.Some? ==> r != bottomDst) ==> rgb[r] == old(rgb[r])
    {
      rgb[topDst] := ks.line(topY, topU, topV, curU, curV);
      if bottomY.Some? {
        rgb[bottomDst] := ks.line(bottomY.value, curU, curV, topU, topV);
      }
    }

    /** The loop of EmitFancyRGB: writes the rows of the band below its first, two at a time,
        and returns the last chroma row it used. */
    method EmitPairs(io: Io, ghost p: Cropped) returns (cur: nat)
      requires Valid() && BandOf(io, p) && |p.y| == rgb.Length
      modifies rgb
      ensures 2 * cur < |io.y| <= 2 * cur + 2
      ensures forall r :: 0 <= r <= io.mbY ==> rgb[r] == old(rgb[r])
      ensures forall r :: io.mbY < r <= io.mbY + 2 * cur ==> rgb[r] == p.FancyLine(ks, r)
    {
      hide Cropped.FancyLine, Cropped.Near, Cropped.Far;
      var dst, curY, y, yEnd := io.mbY, 0, io.mbY, io.mbY + |io.y|;
      cur := 0;
      while y + 2 < yEnd
        invariant y == dst == io.mbY + curY && curY == 2 * cur && y < yEnd
        invariant forall r :: 0 <= r <= io.mbY ==> rgb[r] == old(rgb[r])
        invariant forall r :: io.mbY < r <= y ==> rgb[r] == p.FancyLine(ks, r)
      {
        var topU, topV := io.u[cur], io.v[cur];
        cur, dst, curY := cur + 1, dst + 2, curY + 2;
        BandPairs(io, p, ks, cur);
        UpsampleLinePair(io.y[curY - 1], Some(io.y[curY]), topU, topV, io.u[cur], io.v[cur], dst - 1, dst);
        y := y + 2;
      }
    }

    /** EmitFancyRGB: finishes the row left over from the previous call, all pairs
        of rows inside the band, and the last row only when it is the picture's. */
    method EmitFancyRGB(io: Io, ghost p: Cropped) returns (numLinesOut: nat)
      requires Delay(p, io.mbY) && BandOf(io, p) && fancy
      modifies rgb, `tmpY, `tmpU, `tmpV
      ensures lastY + numLinesOut == DoneRows(true, rgb.Length, io.mbY + |io.y|)
      ensures forall r :: 0 <= r < lastY ==> rgb[r] == old(rgb[r])
      ensures forall r :: lastY <= r < lastY + numLinesOut ==> rgb[r] == p.FancyLine(ks, r)
      ensures var n := io.mbY + |io.y|; n < rgb.Length ==>
                tmpY == p.y[n - 1] && tmpU == p.u[n / 2 - 1] && tmpV == p.v[n / 2 - 1]
    {
      BandTop(io, p, ks);
      numLinesOut := |io.y|;
      if io.mbY == 0 {
        // First line: the chroma samples are mirrored at the boundary.
        UpsampleLinePair(io.y[0], None, io.u[0], io.v[0], io.u[0], io.v[0], 0, 0);
      } else {
        UpsampleLinePair(tmpY, Some(io.y[0]), tmpU, tmpV, io.u[0], io.v[0], io.mbY - 1, io.mbY);
        numLinesOut := numLinesOut + 1;
      }
      var cur := EmitPairs(io, p);
      var held := EmitLast(io, p, cur);
      if held {
        numLinesOut := numLinesOut - 1;
      }
    }

    /** The end of EmitFancyRGB: the last row is saved for the next call, or
        written when the picture ends here. */
    method EmitLast(io: Io, ghost p: Cropped, cur: nat) returns (held: bool)
      requires Valid() && BandOf(io, p) && |p.y| == rgb.Length && 2 * cur < |io.y| <= 2 * cur + 2
      modifies rgb, `tmpY, `tmpU, `tmpV
      ensures held <==> io.mbY + |io.y| < rgb.Length
      ensures held ==> var n := io.mbY + |io.y|;
                tmpY == p.y[n - 1] && tmpU == p.u[n / 2 - 1] && tmpV == p.v[n / 2 - 1]
      ensures forall r :: 0 <= r <= io.mbY + 2 * cur ==> rgb[r] == old(rgb[r])
      ensures !held ==> forall r :: io.mbY + 2 * cur < r < rgb.Length ==> rgb[r] == p.FancyLine(ks, r)
    {
      var curY, yEnd := 2 * cur + 1, io.mbY + |io.y|;
      held := cropTop + yEnd < cropBottom;
      if held {
        tmpY, tmpU, tmpV := io.y[curY], io.u[cur], io.v[cur];
      } else if yEnd % 2 == 0 {
        BandBottom(io, p, ks);
        UpsampleLinePair(io.y[curY], None, io.u[cur], io.v[cur], io.u[cur], io.v[cur], io.mbY + curY, 0);
      }
    }

    /** EmitSampledRGB: no delay, each row uses the chroma row it falls in. */
    method EmitSampledRGB(io: Io, ghost p: Cropped) returns (numLinesOut: nat)
      requires Delay(p, io.mbY) && BandOf(io, p) && !fancy
      modifies rgb
      ensures lastY + numLinesOut == io.mbY + |io.y|
      ensures forall r :: 0 <= r < lastY ==> rgb[r] == old(rgb[r])
      ensures forall r :: lastY <= r < lastY + numLinesOut ==> rgb[r] == p.Line(ks, false, r)
    {
      for j := 0 to |io.y|
        invariant forall r :: 0 <= r < lastY ==> rgb[r] == old(rgb[r])
        invariant forall r :: lastY <= r < lastY + j ==> rgb[r] == p.Line(ks, false, r)
      {
        rgb[io.mbY + j] := ks.sample(io.y[j], io.u[j / 2], io.v[j / 2]);
      }
      numLinesOut := |io.y|;
    }

    /** GetAlphaSourceRow: the rows whose alpha is due now, and where their alpha starts. */
    method GetAlphaSourceRow(io: Io, alphaRow: nat) returns (startY: nat, numRows: int, source: int)
      requires Valid()
      ensures io.mbY % 2 == 0 && io.y != [] && io.mbY + |io.y| <= rgb.Length && alphaRow == cropTop + io.mbY ==>
                && startY == DoneRows(fancy, rgb.Length, io.mbY)
                && startY + numRows == DoneRows(fancy, rgb.Length, io.mbY + |io.y|)
                && source == cropTop + startY
    {
      startY, numRows, source := io.mbY, |io.y|, alphaRow;
      if fancy {
        if startY == 0 {
          numRows := numRows - 1;
        } else {
          startY := startY - 1;
          source := source - 1;
        }
        if cropTop + io.mbY + |io.y| == cropBottom {
          numRows := cropBottom - cropTop - startY;
        }
      }
    }

    /** WebPDispatchAlpha: stores the alpha of the rows just finished, and says whether
        any of it is not opaque. */
    method DispatchAlpha(ghost p: Cropped, plane: array<Row>, startY: nat, numRows: nat, source: nat) returns (hasAlpha: bool)
      requires startY + numRows <= |p.a| && |p.a| == alpha.Length && alpha as object != plane
      requires source == cropTop + startY && source + numRows <= plane.Length
      requires forall r :: startY <= r < startY + numRows ==> Cut(plane[cropTop + r], cropLeft, width) == p.a[r]
      modifies alpha
      ensures forall r :: 0 <= r < alpha.Length ==> alpha[r] == if startY <= r < startY + numRows then p.a[r] else old(alpha[r])
      ensures hasAlpha <==> exists r :: startY <= r < startY + numRows && !ks.opaqueRow(p.a[r])
    {
      hide Cut;
      hasAlpha := false;
      for j := 0 to numRows
        invariant forall r :: 0 <= r < alpha.Length ==> alpha[r] == if startY <= r < startY + j then p.a[r] else old(alpha[r])
        invariant hasAlpha <==> exists r :: startY <= r < startY + j && !ks.opaqueRow(p.a[r])
      {
        assert source + j == cropTop + (startY + j);
        alpha[startY + j] := Cut(plane[source + j], cropLeft, width);
        hasAlpha := hasAlpha || !ks.opaqueRow(alpha[startY + j]);
      }
    }

    /** WebPApplyAlphaMultiply over the rows just finished. */
    method ApplyAlphaMultiply(startY: nat, numRows: nat)
      requires startY + numRows <= rgb.Length == alpha.Length && rgb as object != alpha
      modifies rgb
      ensures forall r :: 0 <= r < rgb.Length ==>
                rgb[r] == if startY <= r < startY + numRows then ks.multiply(old(rgb[r]), alpha[r]) else old(rgb[r])
    {
      for j := 0 to numRows
        invariant forall r :: 0 <= r < rgb.Length ==>
                    rgb[r] == if startY <= r < startY + j then ks.multiply(old(rgb[r]), alpha[r]) else old(rgb[r])
      {
        rgb[startY + j] := ks.multiply(rgb[startY + j], alpha[startY + j]);
      }
    }

    /** EmitAlphaRGB: stores the alpha of the rows just finished and, unless they
        are all opaque, premultiplies those rows and no others. */
    method EmitAlphaRGB(io: Io, ghost p: Cropped, plane: array<Row>, expectedLines: nat)
      requires Valid() && BandOf(io, p) && io.a.Some? && |p.y| == rgb.Length
      requires io.a.value == cropTop + io.mbY && cropTop + io.mbY + |io.y| <= plane.Length
      requires lastY == DoneRows(fancy, rgb.Length, io.mbY)
      requires lastY + expectedLines == DoneRows(fancy, rgb.Length, io.mbY + |io.y|)
      requires forall r :: 0 <= r < io.mbY + |io.y| ==> Cut(plane[cropTop + r], cropLeft, width) == p.a[r]
      requires rgb as object != alpha && rgb as object != plane && alpha as object != plane
      modifies rgb, alpha
      ensures forall r :: 0 <= r < lastY ==> rgb[r] == old(rgb[r]) && alpha[r] == old(alpha[r])
      ensures forall r :: lastY <= r < lastY + expectedLines ==>
                alpha[r] == p.a[r] && rgb[r] == if premult then ks.multiply(old(rgb[r]), p.a[r]) else old(rgb[r])
    {
      hide Cut;
      var startY, numRows, source := GetAlphaSourceRow(io, io.a.value);
      assert startY == lastY && numRows == expectedLines;
      var hasAlpha := DispatchAlpha(p, plane, startY, numRows, source);
      if hasAlpha && premult {
        ApplyAlphaMultiply(startY, numRows);
      }
    }

    /** CustomPut: after every call the finished rows are exactly those of the
        reference, each written and premultiplied once, and last_y counts them. It
        refuses a band without rows or columns, and no other. */
    method CustomPut(io: Io, ghost p: Cropped, plane: array<Row>) returns (ok: bool)
      requires Progress(p, io.mbY) && BandOf(io, p)
      requires io.a.Some? ==> io.a.value == cropTop + io.mbY && cropTop + io.mbY + |io.y| <= plane.Length
      requires io.a.Some? ==> forall r :: 0 <= r < io.mbY + |io.y| ==> Cut(plane[cropTop + r], cropLeft, width) == p.a[r]
      requires rgb as object != alpha && rgb as object != plane && alpha as object != plane
      modifies this, rgb, alpha
      ensures ok <==> width > 0
      ensures ok ==> Progress(p, io.mbY + |io.y|)
    {
      ok := !(width == 0 || |io.y| == 0);
      if !ok {
        return;
      }
      var numLinesOut;
      if fancy {
        numLinesOut := EmitFancyRGB(io, p);
      } else {
        numLinesOut := EmitSampledRGB(io, p);
      }
      if io.a.Some? {
        EmitAlphaRGB(io, p, plane, numLinesOut);
      }
      lastY := lastY + numLinesOut;
    }
  }
}

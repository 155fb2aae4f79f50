/** The finished picture, pixel by pixel: what the row pipeline has written with the fancy
    upsampler, in terms of the samples of the three planes on which everything is
    filtered and dithered. */
module UpsampledPicture {
  import opened CropFilter
  import opened LoopFilter
  import opened RowGeometry
  import opened RowPipeline
  import F = FancyUpsampler
  import L = LineUpsampler

  ghost predicate ByteRows(rows: seq<Row>) {
    forall y :: 0 <= y < |rows| ==> L.Bytes(rows[y])
  }

  /** Samples are bytes, and filter and dithering make bytes of bytes. */
  ghost predicate ByteValued(p: PlaneWork) {
    && ByteRows(p.recon)
    && (forall s, v, j :: L.Bytes(v) ==> 0 <= p.e.ker(s, v, j) < 256)
    && (forall y, x, v :: 0 <= v < 256 ==> 0 <= p.noise(y, x, v) < 256)
  }

  lemma ByteAt(rows: seq<Row>, y: nat, x: nat)
    requires ByteRows(rows) && y < |rows| && x < |rows[y]|
    ensures 0 <= rows[y][x] < 256
  {
    assert rows[y][x] in rows[y];
  }

  lemma BytesOf(row: Row)
    requires forall x :: 0 <= x < |row| ==> 0 <= row[x] < 256
    ensures L.Bytes(row)
  {
  }

  lemma ApplyKeepsBytes(p: PlaneWork, s: Step, w: seq<Row>, lo: nat)
    requires ByteValued(p) && ByteRows(w) && s.In(p.e.sh, p.e.mbW) && p.e.Covers(s.my, w, lo)
    ensures ByteRows(p.e.Apply(s, w, lo))
  {
    var v, r := p.e.Across(s, w, lo), p.e.Apply(s, w, lo);
    forall j | 0 <= j < |v| ensures 0 <= v[j] < 256 {
      assert v[j] == p.e.Read(s, w, lo, j);
      if s.horizontal {
        ByteAt(w, s.Y(p.e.sh) - p.e.reach + j - lo, s.X(p.e.sh));
      } else {
        ByteAt(w, s.Y(p.e.sh) - lo, s.X(p.e.sh) - p.e.reach + j);
      }
    }
    BytesOf(v);
    forall y | 0 <= y < |r| ensures L.Bytes(r[y]) {
      forall x | 0 <= x < |r[y]| ensures 0 <= r[y][x] < 256 {
        assert r[y][x] == p.e.Pixel(s, w, lo, x, y);
        ByteAt(w, y, x);
      }
      BytesOf(r[y]);
    }
  }

  lemma {:induction false} RunKeepsBytes(p: PlaneWork, steps: seq<Step>, my: nat, w: seq<Row>, lo: nat)
    requires ByteValued(p) && ByteRows(w) && p.e.AllIn(steps, my) && p.e.Covers(my, w, lo)
    ensures ByteRows(p.e.Run(steps, my, w, lo))
  {
    hide EdgeFilter.Apply, ByteRows, ByteValued;
    if steps != [] {
      ApplyKeepsBytes(p, steps[0], w, lo);
      RunKeepsBytes(p, steps[1..], my, p.e.Apply(steps[0], w, lo), lo);
    }
  }

  lemma DitheredKeepsBytes(p: PlaneWork, from: nat, end: nat, my: nat, w: seq<Row>, lo: nat)
    requires ByteValued(p) && ByteRows(w)
    ensures ByteRows(Dithered(p.e.sh, p.noise, from, end, my, w, lo))
  {
    var r := Dithered(p.e.sh, p.noise, from, end, my, w, lo);
    forall y | 0 <= y < |r| ensures L.Bytes(r[y]) {
      forall x | 0 <= x < |r[y]| ensures 0 <= r[y][x] < 256 {
        ByteAt(w, y, x);
        assert r[y][x] == DitheredPixel(p.e.sh, p.noise, from, end, my, w, lo, x, y);
      }
      BytesOf(r[y]);
    }
  }

  /** The planes of the reference hold bytes. */
  lemma {:induction false} WholeIsBytes(p: PlaneWork, n: nat)
    requires p.Valid() && ByteValued(p) && n <= p.w.MbH()
    ensures ByteRows(p.Whole(n))
  {
    hide Dithered, EdgeFilter.Run, RowSteps, ByteRows;
    if n == 0 {
      assert p.Whole(0) == p.recon;
    } else {
      WholeIsBytes(p, n - 1);
      WholeStep(p, n - 1);
      var pic, steps := p.Whole(n - 1), RowSteps(p.e.sh, 0, p.w.MbW(), n - 1);
      RowStepsIn(p.e, 0, p.w.MbW(), n - 1);
      if p.Filters() {
        RunKeepsBytes(p, steps, n - 1, pic, 0);
        pic := p.e.Run(steps, n - 1, pic, 0);
      }
      DitheredKeepsBytes(p, 0, p.w.MbW(), n - 1, pic, 0);
    }
  }

  // ---- one pixel ----

  /** The chroma row on the other side of row r of the window, mirrored. */
  function FarRow(w: Window, r: nat): nat
    requires w.Valid() && r < w.cropBottom - w.cropTop
  {
    L.Other(r, w.cropBottom - w.cropTop)
  }

  /** The 9, 3, 3, 1 blend of four samples of a plane. */
  ghost function Blended(rows: seq<Row>, n: nat, m: nat, c: nat, o: nat): nat
    requires ByteRows(rows) && n < |rows| && m < |rows|
    requires c < |rows[n]| && o < |rows[n]| && c < |rows[m]| && o < |rows[m]|
  {
    ByteAt(rows, n, c);
    ByteAt(rows, n, o);
    ByteAt(rows, m, c);
    ByteAt(rows, m, o);
    L.Blend(rows[n][c], rows[n][o], rows[m][c], rows[m][o])
  }

  /** A chroma plane as the fancy upsampler sees it at row r and column x of the window:
      four samples around, mirrored at all edges of the window. */
  ghost function Upsampled(f: Frame, p: PlaneWork, r: nat, x: nat): nat
    requires f.Valid() && (p == f.u || p == f.v) && ByteValued(p)
    requires r < f.w.cropBottom - f.w.cropTop && x < f.Width()
  {
    var top, left := f.w.cropTop / 2, f.w.cropLeft / 2;
    WholeIsBytes(p, f.w.MbH());
    Blended(p.Whole(f.w.MbH()), top + r / 2, top + FarRow(f.w, r), left + x / 2, left + L.Other(x, f.Width()))
  }

  /** A row of the reference picture is the stretch of the plane's row in the window. */
  lemma LumaRow(f: Frame, alpha: seq<Row>, r: nat)
    requires f.Valid() && (alpha == [] || |alpha| == f.w.cropBottom) && r < f.w.cropBottom - f.w.cropTop
    ensures f.w.cropTop + r < |f.y.Whole(f.w.MbH())| && f.w.cropRight <= |f.y.Whole(f.w.MbH())[f.w.cropTop + r]|
    ensures f.Cropped(alpha).y[r] == f.y.Whole(f.w.MbH())[f.w.cropTop + r][f.w.cropLeft..f.w.cropRight]
  {
    hide PlaneWork.Whole, Frame.Crop;
    var n := f.w.MbH();
    CropRows(f, f.y.Whole(n), f.u.Whole(n), f.v.Whole(n), alpha);
    assert f.Cropped(alpha).y[r] == f.See(f.y, f.y.Whole(n)[f.w.cropTop + r]);
  }

  lemma ChromaRow(f: Frame, alpha: seq<Row>, c: nat)
    requires f.Valid() && (alpha == [] || |alpha| == f.w.cropBottom) && c < (f.w.cropBottom - f.w.cropTop + 1) / 2
    ensures var u, v, at := f.u.Whole(f.w.MbH()), f.v.Whole(f.w.MbH()), f.w.cropTop / 2 + c;
            var left, width := f.w.cropLeft / 2, (f.Width() + 1) / 2;
            && at < |u| == |v| && left + width <= |u[at]| == |v[at]|
            && f.Cropped(alpha).u[c] == u[at][left..left + width] && f.Cropped(alpha).v[c] == v[at][left..left + width]
  {
    hide PlaneWork.Whole, Frame.Crop;
    var n := f.w.MbH();
    CropRows(f, f.y.Whole(n), f.u.Whole(n), f.v.Whole(n), alpha);
    assert f.Cropped(alpha).u[c] == f.See(f.u, f.u.Whole(n)[f.w.cropTop / 2 + c]);
    assert f.Cropped(alpha).v[c] == f.See(f.v, f.v.Whole(n)[f.w.cropTop / 2 + c]);
  }

  lemma ChromaBytes(f: Frame, alpha: seq<Row>, c: nat)
    requires f.Valid() && (alpha == [] || |alpha| == f.w.cropBottom) && c < (f.w.cropBottom - f.w.cropTop + 1) / 2
    requires ByteValued(f.u) && ByteValued(f.v)
    ensures L.Bytes(f.Cropped(alpha).u[c]) && L.Bytes(f.Cropped(alpha).v[c])
  {
    hide PlaneWork.Whole, Frame.Cropped, ByteValued;
    ChromaRow(f, alpha, c);
    WholeIsBytes(f.u, f.w.MbH());
    WholeIsBytes(f.v, f.w.MbH());
    var at := f.w.cropTop / 2 + c;
    forall x | 0 <= x < |f.Cropped(alpha).u[c]| ensures 0 <= f.Cropped(alpha).u[c][x] < 256 {
      ByteAt(f.u.Whole(f.w.MbH()), at, f.w.cropLeft / 2 + x);
    }
    BytesOf(f.Cropped(alpha).u[c]);
    forall x | 0 <= x < |f.Cropped(alpha).v[c]| ensures 0 <= f.Cropped(alpha).v[c][x] < 256 {
      ByteAt(f.v.Whole(f.w.MbH()), at, f.w.cropLeft / 2 + x);
    }
    BytesOf(f.Cropped(alpha).v[c]);
  }

  /** The chroma rows of the reference picture. */
  lemma ChromaRows(f: Frame, alpha: seq<Row>)
    requires f.Valid() && (alpha == [] || |alpha| == f.w.cropBottom) && ByteValued(f.u) && ByteValued(f.v)
    ensures var p := f.Cropped(alpha);
            && ByteRows(p.u) && ByteRows(p.v) && |p.u| == |p.v| == (f.w.cropBottom - f.w.cropTop + 1) / 2
            && forall c :: 0 <= c < |p.u| ==> |p.u[c]| == |p.v[c]| == (f.Width() + 1) / 2
  {
    hide PlaneWork.Whole, Frame.Cropped, ByteValued, L.Bytes;
    var p := f.Cropped(alpha);
    forall c | 0 <= c < |p.u|
      ensures |p.u[c]| == |p.v[c]| == (f.Width() + 1) / 2 && L.Bytes(p.u[c]) && L.Bytes(p.v[c])
    {
      ChromaRow(f, alpha, c);
      ChromaBytes(f, alpha, c);
    }
  }

  /** The blends of the reference picture are those of the whole planes. */
  lemma BlendsOfPlanes(f: Frame, alpha: seq<Row>, r: nat, x: nat)
    requires f.Valid() && (alpha == [] || |alpha| == f.w.cropBottom) && ByteValued(f.u) && ByteValued(f.v)
    requires r < f.w.cropBottom - f.w.cropTop && x < f.Width()
    requires var p := f.Cropped(alpha);
             && ByteRows(p.u) && ByteRows(p.v) && |p.u| == |p.v| == (f.w.cropBottom - f.w.cropTop + 1) / 2
             && forall c :: 0 <= c < |p.u| ==> |p.u[c]| == |p.v[c]| == (f.Width() + 1) / 2
    ensures var p, c, o := f.Cropped(alpha), x / 2, L.Other(x, f.Width());
            && Upsampled(f, f.u, r, x) == Blended(p.u, p.Near(r), p.Far(r), c, o)
            && Upsampled(f, f.v, r, x) == Blended(p.v, p.Near(r), p.Far(r), c, o)
  {
    hide PlaneWork.Whole, Frame.Cropped, ByteValued, ByteRows, L.Blend;
    var p := f.Cropped(alpha);
    ChromaRow(f, alpha, p.Near(r));
    ChromaRow(f, alpha, p.Far(r));
  }

  /** A pixel of a fancy line in terms of the rows of its own picture. */
  lemma PixelOfRows(p: F.Cropped, ks: F.Kernels, rgb: L.ToRgb, r: nat, x: nat)
    requires p.Valid() && F.Interpolates(ks, rgb) && r < |p.y| && x < |p.y[r]| && ByteRows(p.u) && ByteRows(p.v)
    requires forall c :: 0 <= c < |p.u| ==> |p.u[c]| == |p.v[c]| == (|p.y[r]| + 1) / 2
    ensures |p.FancyLine(ks, r)| == |p.y[r]|
    ensures var n, m, c, o := p.Near(r), p.Far(r), x / 2, L.Other(x, |p.y[r]|);
            p.FancyLine(ks, r)[x] == rgb(p.y[r][x], Blended(p.u, n, m, c, o), Blended(p.v, n, m, c, o))
  {
    hide F.Interpolates, F.Cropped.FancyLine, L.Blend, L.Bytes;
    F.FancyPixel(p, ks, rgb, r, x);
  }

  /** One line of the reference picture, pixel by pixel. */
  lemma LinePixel(f: Frame, alpha: seq<Row>, ks: F.Kernels, rgb: L.ToRgb, r: nat, x: nat)
    requires f.Valid() && (alpha == [] || |alpha| == f.w.cropBottom) && r < f.w.cropBottom - f.w.cropTop && x < f.Width()
    requires F.Interpolates(ks, rgb) && ByteValued(f.u) && ByteValued(f.v)
    ensures f.w.cropTop + r < |f.y.Whole(f.w.MbH())| && f.w.cropRight <= |f.y.Whole(f.w.MbH())[f.w.cropTop + r]|
    ensures |f.Cropped(alpha).FancyLine(ks, r)| == f.Width()
    ensures f.Cropped(alpha).FancyLine(ks, r)[x] ==
              rgb(f.y.Whole(f.w.MbH())[f.w.cropTop + r][f.w.cropLeft + x], Upsampled(f, f.u, r, x), Upsampled(f, f.v, r, x))
  {
    hide PlaneWork.Whole, Frame.Cropped, ByteValued, F.Interpolates, F.Cropped.FancyLine, Blended, Upsampled, ByteRows;
    LumaRow(f, alpha, r);
    ChromaRows(f, alpha);
    PixelOfRows(f.Cropped(alpha), ks, rgb, r, x);
    BlendsOfPlanes(f, alpha, r, x);
  }

  /** The alpha of the reference picture. */
  ghost function Alpha(d: Pipeline): seq<Row> {
    if d.alpha == null then [] else d.alpha.expected
  }

  /** The rows in the end: each is upsampled, or sampled, from the rows of the reference
      picture, and premultiplied with its alpha row if that is asked for; the alpha rows
      are those of the alpha plane. */
  lemma FinishedRow(d: Pipeline, rows: nat, r: nat)
    requires d.Inv(rows) && d.f.w.BrMbY() <= rows && r < d.f.w.cropBottom - d.f.w.cropTop
    ensures d.f.Valid() && (Alpha(d) == [] || |Alpha(d)| == d.f.w.cropBottom) && (Alpha(d) == [] <==> d.alpha == null)
    ensures d.out.rgb.Length == d.out.alpha.Length == d.f.w.cropBottom - d.f.w.cropTop
    ensures var p, ks := d.f.Cropped(Alpha(d)), d.out.ks;
            var line := if d.out.fancy then p.FancyLine(ks, r) else ks.sample(p.y[r], p.u[r / 2], p.v[r / 2]);
            if d.alpha == null then d.out.rgb[r] == line
            else
              var a := F.Cut(d.alpha.expected[d.f.w.cropTop + r], d.f.w.cropLeft, d.f.Width());
              d.out.alpha[r] == a && d.out.rgb[r] == if d.out.premult then ks.multiply(line, a) else line
  {
    hide PlaneWork.Whole, F.Cropped.FancyLine, Frame.Pictures, F.RgbEmitter.Progress, F.Cut;
    d.Complete(rows);
    AlphaRow(d.f, Alpha(d), r);
  }

  lemma AlphaRow(f: Frame, alpha: seq<Row>, r: nat)
    requires f.Valid() && (alpha == [] || |alpha| == f.w.cropBottom) && r < f.w.cropBottom - f.w.cropTop
    ensures alpha != [] ==> r < |f.Cropped(alpha).a| && f.Cropped(alpha).a[r] == F.Cut(alpha[f.w.cropTop + r], f.w.cropLeft, f.Width())
  {
    hide PlaneWork.Whole, Frame.Crop;
    var n := f.w.MbH();
    if alpha != [] {
      AlphaOfCrop(f, f.y.Whole(n), f.u.Whole(n), f.v.Whole(n), alpha, r);
    }
  }

  lemma AlphaOfCrop(f: Frame, fy: seq<Row>, fu: seq<Row>, fv: seq<Row>, alpha: seq<Row>, r: nat)
    requires f.w.Valid() && |alpha| == f.w.cropBottom && r < f.w.cropBottom - f.w.cropTop
             && |fy| == 16 * f.w.MbH() && |fu| == |fv| == 8 * f.w.MbH()
    ensures r < |f.Crop(fy, fu, fv, alpha).a|
    ensures f.Crop(fy, fu, fv, alpha).a[r] == F.Cut(alpha[f.w.cropTop + r], f.w.cropLeft, f.Width())
  {
    hide F.Cut;
  }

  /** The rows in the end, when nothing is premultiplied. */
  lemma FinishedLine(d: Pipeline, rows: nat, r: nat)
    requires d.Inv(rows) && d.f.w.BrMbY() <= rows
    requires d.out.fancy && (d.alpha == null || !d.out.premult) && r < d.f.w.cropBottom - d.f.w.cropTop
    ensures d.f.Valid() && (Alpha(d) == [] || |Alpha(d)| == d.f.w.cropBottom)
    ensures d.out.rgb.Length == d.f.w.cropBottom - d.f.w.cropTop
    ensures d.out.rgb[r] == d.f.Cropped(Alpha(d)).FancyLine(d.out.ks, r)
  {
    hide PlaneWork.Whole, Frame.Cropped, Frame.Crop, F.Cropped.FancyLine, Frame.Pictures, F.RgbEmitter.Progress;
    d.Complete(rows);
  }

  /** When the row pipeline has come to its end with the fancy upsampler, every pixel is
      the colour of its filtered luma sample and of the blend of four filtered samples
      of each chroma plane: neither the bands, the cache, the delays nor the macroblocks
      skipped have left a trace. */
  lemma FinishedPixel(d: Pipeline, rows: nat, rgb: L.ToRgb, r: nat, x: nat)
    requires d.Inv(rows) && d.f.w.BrMbY() <= rows
    requires d.out.fancy && (d.alpha == null || !d.out.premult) && F.Interpolates(d.out.ks, rgb)
    requires ByteValued(d.f.u) && ByteValued(d.f.v)
    requires r < d.f.w.cropBottom - d.f.w.cropTop && x < d.f.Width()
    ensures d.out.rgb.Length == d.f.w.cropBottom - d.f.w.cropTop && |d.out.rgb[r]| == d.f.Width()
    ensures d.f.Valid() && d.f.w.cropTop + r < |d.f.y.Whole(d.f.w.MbH())|
            && d.f.w.cropRight <= |d.f.y.Whole(d.f.w.MbH())[d.f.w.cropTop + r]|
    ensures d.out.rgb[r][x] == rgb(d.f.y.Whole(d.f.w.MbH())[d.f.w.cropTop + r][d.f.w.cropLeft + x],
                                   Upsampled(d.f, d.f.u, r, x), Upsampled(d.f, d.f.v, r, x))
  {
    hide Pipeline.Inv, PlaneWork.Whole, Frame.Cropped, ByteValued, F.Interpolates, F.Cropped.FancyLine, Upsampled;
    FinishedLine(d, rows, r);
    LinePixel(d.f, Alpha(d), d.out.ks, rgb, r, x);
  }
}

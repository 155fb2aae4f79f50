/** The row pipeline of the lossy decoder: reconstruct a macroblock row into the
    cache, filter and dither its selected macroblocks, crop the rows that became final,
    add the alpha rows that go with them, hand the band to put(), rotate the cache.

    The reference reconstructs the whole planes, filters and dithers every macroblock
    of them, crops them once, and computes every output row by itself. */
module RowPipeline {
  import opened CropFilter
  import opened DelayLine
  import opened LoopFilter
  import opened Options
  import opened RowGeometry
  import F = FancyUpsampler
  import A = AlphaRows
  import T = ThreadProtocol

  /** Everything about a frame that does not change while it is decoded. */
  datatype Frame = Frame(w: Window, y: PlaneWork, u: PlaneWork, v: PlaneWork) {
    ghost predicate Valid() {
      && w.Valid() && w == y.w == u.w == v.w
      && y.Valid() && u.Valid() && v.Valid()
      && y.e.sh.luma && !u.e.sh.luma && !v.e.sh.luma
    }

    ghost predicate Has(p: PlaneWork) { p == y || p == u || p == v }

    /** A plane after n macroblock rows of the decoder's own work on whole planes. */
    ghost function Picture(p: PlaneWork, n: nat): (pic: seq<Row>)
      requires Valid() && Has(p) && n <= w.MbH()
      ensures |pic| == p.e.sh.Base(w.MbH())
    {
      p.Skipped(n)
    }

    /** The plane after 0, 1, ... all macroblock rows. */
    ghost function Pictures(p: PlaneWork): (pics: seq<seq<Row>>)
      requires Valid() && Has(p)
      ensures |pics| == w.MbH() + 1 && forall n :: 0 <= n <= w.MbH() ==> pics[n] == Picture(p, n)
    {
      seq(w.MbH() + 1, n requires 0 <= n <= w.MbH() => Picture(p, n))
    }

    function Width(): nat
      requires w.Valid()
    {
      w.cropRight - w.cropLeft
    }

    function Luma(row: Row): F.Span
      requires w.Valid()
    {
      F.Cut(row, w.cropLeft, Width())
    }

    function Chroma(row: Row): F.Span
      requires w.Valid()
    {
      F.Cut(row, w.cropLeft / 2, (Width() + 1) / 2)
    }

    /** A row of a plane as seen through the cropping window. */
    function See(p: PlaneWork, row: Row): F.Span
      requires w.Valid()
    {
      if p.e.sh.luma then Luma(row) else Chroma(row)
    }

    function Seen(p: PlaneWork, rows: seq<Row>): seq<F.Span>
      requires w.Valid()
    {
      seq(|rows|, j requires 0 <= j < |rows| => See(p, rows[j]))
    }

    /** The cropping window of three planes and an alpha plane. */
    function Crop(fy: seq<Row>, fu: seq<Row>, fv: seq<Row>, alpha: seq<Row>): (p: F.Cropped)
      requires w.Valid() && (alpha == [] || |alpha| == w.cropBottom)
      requires |fy| == 16 * w.MbH() && |fu| == |fv| == 8 * w.MbH()
      ensures p.Valid() && |p.y| == w.cropBottom - w.cropTop && (p.a == [] <==> alpha == [])
    {
      var h := w.cropBottom - w.cropTop;
      var top := w.cropTop / 2;
      F.Cropped(
        seq(h, r requires 0 <= r < h => Luma(fy[w.cropTop + r])),
        seq((h + 1) / 2, c requires 0 <= c < (h + 1) / 2 => Chroma(fu[top + c])),
        seq((h + 1) / 2, c requires 0 <= c < (h + 1) / 2 => Chroma(fv[top + c])),
        if alpha == [] then [] else seq(h, r requires 0 <= r < h => Luma(alpha[w.cropTop + r])))
    }

    /** The reference picture: all the work on the whole planes, then cropping. */
    ghost function Cropped(alpha: seq<Row>): (p: F.Cropped)
      requires Valid() && (alpha == [] || |alpha| == w.cropBottom)
      ensures p.Valid() && |p.y| == w.cropBottom - w.cropTop && (p.a == [] <==> alpha == [])
    {
      Crop(y.Whole(w.MbH()), u.Whole(w.MbH()), v.Whole(w.MbH()), alpha)
    }
  }

  /** A row of the window is the same whether or not the macroblocks away from the
      window were skipped. */
  lemma SeenIsExact(f: Frame, p: PlaneWork, r: nat)
    requires f.Valid() && f.Has(p)
    requires if p.e.sh.luma then f.w.cropTop <= r < f.w.cropBottom else f.w.cropTop / 2 <= r < (f.w.cropBottom + 1) / 2
    ensures r < |p.recon| && f.See(p, f.Picture(p, f.w.MbH())[r]) == f.See(p, p.Whole(f.w.MbH())[r])
  {
    hide PlaneWork.Skipped, PlaneWork.Whole;
    if p.e.sh.luma {
      CroppedRowIsExact(p, f.w.cropLeft, f.Width(), r);
    } else {
      CroppedRowIsExact(p, f.w.cropLeft / 2, (f.Width() + 1) / 2, r);
    }
  }

  /** Cropping the planes that the decoder's work leaves gives the reference picture. */
  lemma CropIsExact(f: Frame, alpha: seq<Row>)
    requires f.Valid() && (alpha == [] || |alpha| == f.w.cropBottom)
    ensures f.Crop(f.Picture(f.y, f.w.MbH()), f.Picture(f.u, f.w.MbH()), f.Picture(f.v, f.w.MbH()), alpha) == f.Cropped(alpha)
  {
    hide Frame.Luma, Frame.Chroma, Frame.Picture, PlaneWork.Whole;
    var w := f.w;
    forall r | w.cropTop <= r < w.cropBottom
      ensures f.Luma(f.Picture(f.y, w.MbH())[r]) == f.Luma(f.y.Whole(w.MbH())[r])
    {
      SeenIsExact(f, f.y, r);
    }
    forall c | w.cropTop / 2 <= c < (w.cropBottom + 1) / 2
      ensures f.Chroma(f.Picture(f.u, w.MbH())[c]) == f.Chroma(f.u.Whole(w.MbH())[c])
      ensures f.Chroma(f.Picture(f.v, w.MbH())[c]) == f.Chroma(f.v.Whole(w.MbH())[c])
    {
      SeenIsExact(f, f.u, c);
      SeenIsExact(f, f.v, c);
    }
    var p := f.Crop(f.Picture(f.y, w.MbH()), f.Picture(f.u, w.MbH()), f.Picture(f.v, w.MbH()), alpha);
    var q := f.Cropped(alpha);
    assert p.y == q.y && p.u == q.u && p.v == q.v;
  }

  /** After n macroblock rows the rows above the filtered frontier are in final
      form: they equal those of the finished picture. */
  lemma RowIsFinal(f: Frame, p: PlaneWork, n: nat, r: nat)
    requires f.Valid() && f.Has(p) && 0 < n <= f.w.MbH() && r < p.e.sh.Low(n)
    ensures f.Picture(p, n)[r] == f.Picture(p, f.w.MbH())[r]
  {
    p.WorkPreservesLength();
    AboveFinal(p.e.sh, p.Work(), p.recon, f.w.MbH(), n, f.w.MbH());
    SamePrefix(f.Picture(p, n), f.Picture(p, f.w.MbH()), p.e.sh.Low(n), r);
  }

  lemma SliceAt<T>(s: seq<T>, lo: nat, hi: nat, j: nat)
    requires lo + j < hi <= |s|
    ensures s[lo..hi][j] == s[lo + j]
  {
  }

  lemma SamePrefix<T>(a: seq<T>, b: seq<T>, n: nat, r: nat)
    requires r < n <= |a| && n <= |b| && a[..n] == b[..n]
    ensures a[r] == b[r]
  {
    assert a[..n][r] == b[..n][r];
  }

  /** The band of macroblock row n stops short of the rows held back. */
  lemma BandStopsShort(w: Window, sh: Shape, n: nat, r: nat)
    requires w.Valid() && sh == Shape(sh.luma, if sh.luma then w.Extra() else w.Extra() / 2)
    requires n + 1 < w.MbH() && w.Puts(n)
    requires if sh.luma then r < w.YEnd(n) else 2 * r < w.YEnd(n)
    ensures r < sh.Low(n + 1)
  {
    AllRowsOut(w);
    StepOfRow(w, n);
  }

  lemma BandInside(w: Window, sh: Shape, n: nat, r: nat)
    requires if sh.luma then r < w.YEnd(n) else 2 * r < w.YEnd(n)
    ensures r < sh.Base(n + 1)
  {
  }

  /** All rows of the band of macroblock row n are final, chroma included. */
  lemma BandIsFinal(f: Frame, p: PlaneWork, n: nat, r: nat)
    requires f.Valid() && f.Has(p) && n < f.w.MbH() && f.w.Puts(n)
    requires if p.e.sh.luma then r < f.w.YEnd(n) else 2 * r < f.w.YEnd(n)
    ensures r < p.e.sh.Base(n + 1) && f.Picture(p, n + 1)[r] == f.Picture(p, f.w.MbH())[r]
  {
    hide Frame.Picture, Window.Puts, Window.YEnd, Reach, Touch, Sized;
    BandInside(f.w, p.e.sh, n, r);
    if n + 1 < f.w.MbH() {
      BandStopsShort(f.w, p.e.sh, n, r);
      RowIsFinal(f, p, n + 1, r);
    }
  }

  /** One more macroblock row: its own rows come in as they were reconstructed, and the
      work of the row changes its window and nothing else. */
  lemma ReferenceStep(f: Frame, p: PlaneWork, n: nat)
    requires f.Valid() && f.Has(p) && n < f.w.MbH()
    ensures f.Picture(p, n)[p.e.sh.Base(n)..p.e.sh.Base(n + 1)] == p.recon[p.e.sh.Base(n)..p.e.sh.Base(n + 1)]
    ensures var lo, hi := p.e.sh.Low(n), p.e.sh.Base(n + 1);
            f.Picture(p, n + 1)[lo..hi] == p.Work()(n, f.Picture(p, n)[lo..hi])
  {
    hide PlaneWork.Work, Window.MbH, Reach, Touch, Sized, Window.Extra, EdgeFilter.Valid;
    p.WorkPreservesLength();
    BelowUntouched(p.e.sh, p.Work(), p.recon, f.w.MbH(), n);
    SameSuffix(f.Picture(p, n), p.recon, p.e.sh.Base(n), p.e.sh.Base(n + 1));
  }

  lemma SameSuffix<T>(a: seq<T>, b: seq<T>, lo: nat, hi: nat)
    requires lo <= hi <= |a| == |b| && a[lo..] == b[lo..]
    ensures a[lo..hi] == b[lo..hi]
  {
    assert a[lo..hi] == a[lo..][..hi - lo];
    assert b[lo..hi] == b[lo..][..hi - lo];
  }

  /** A run of rows inside the band of macroblock row n is the same in the cache
      and in the finished picture. */
  lemma BandRowsFinal(f: Frame, p: PlaneWork, n: nat, from: nat, count: nat)
    requires f.Valid() && f.Has(p) && n < f.w.MbH() && f.w.Puts(n) && count > 0
    requires if p.e.sh.luma then from + count <= f.w.YEnd(n) else 2 * (from + count - 1) < f.w.YEnd(n)
    ensures from + count <= p.e.sh.Base(n + 1)
    ensures f.Picture(p, n + 1)[from..from + count] == f.Picture(p, f.w.MbH())[from..from + count]
  {
    hide Frame.Picture, Window.Puts, Window.YEnd, Reach, Touch, Sized, EdgeFilter.Valid;
    var now, final := f.Picture(p, n + 1), f.Picture(p, f.w.MbH());
    BandIsFinal(f, p, n, from + count - 1);
    forall r | from <= r < from + count ensures now[r] == final[r] {
      BandIsFinal(f, p, n, r);
    }
  }

  /** Rows cut from the planes at an even place of the cropping window are a band
      of the cropped picture. */
  lemma BandOfCrop(f: Frame, fy: seq<Row>, fu: seq<Row>, fv: seq<Row>, alpha: seq<Row>,
                   s: nat, count: nat, io: F.Io)
    requires f.w.Valid() && (alpha == [] || |alpha| == f.w.cropBottom)
    requires f.y.e.sh.luma && !f.u.e.sh.luma && !f.v.e.sh.luma
    requires |fy| == 16 * f.w.MbH() && |fu| == |fv| == 8 * f.w.MbH()
    requires io.mbY == 2 * s && (io.a == None <==> alpha == []) && 0 < count
    requires f.w.cropTop + io.mbY + count <= f.w.cropBottom
    requires f.w.cropTop + io.mbY + count < f.w.cropBottom ==> count % 2 == 0
    requires var top := f.w.cropTop / 2;
             && top + s + (count + 1) / 2 <= |fu|
             && io.y == f.Seen(f.y, fy[f.w.cropTop + io.mbY..f.w.cropTop + io.mbY + count])
             && io.u == f.Seen(f.u, fu[top + s..top + s + (count + 1) / 2])
             && io.v == f.Seen(f.v, fv[top + s..top + s + (count + 1) / 2])
    ensures F.BandOf(io, f.Crop(fy, fu, fv, alpha))
  {
    hide Frame.Crop, Frame.Seen, Frame.See, Window.MbH, Frame.Width, Window.Extra, F.BandOf;
    var top, half := f.w.cropTop / 2, (count + 1) / 2;
    var p := f.Crop(fy, fu, fv, alpha);
    CropRows(f, fy, fu, fv, alpha);
    SeenInCrop(f, f.y, fy, f.w.cropTop, io.mbY, count, p.y);
    SeenInCrop(f, f.u, fu, top, s, half, p.u);
    SeenInCrop(f, f.v, fv, top, s, half, p.v);
    CutIsBand(io, p, s, count);
  }

  lemma CutIsBand(io: F.Io, p: F.Cropped, s: nat, count: nat)
    requires p.Valid() && io.mbY == 2 * s && 0 < count && 2 * s + count <= |p.y|
    requires 2 * s + count < |p.y| ==> count % 2 == 0
    requires |io.y| == count && forall j :: 0 <= j < count ==> io.y[j] == p.y[2 * s + j]
    requires |io.u| == |io.v| == (count + 1) / 2 && s + (count + 1) / 2 <= |p.u|
    requires forall c :: 0 <= c < |io.u| ==> io.u[c] == p.u[s + c] && io.v[c] == p.v[s + c]
    requires io.a == None <==> p.a == []
    ensures F.BandOf(io, p)
  {
    assert io.mbY / 2 == s;
  }

  /** The cut rows, against the rows of the cropped plane. */
  lemma SeenInCrop(f: Frame, p: PlaneWork, plane: seq<Row>, top: nat, s: nat, count: nat, cropped: seq<F.Span>)
    requires f.w.Valid() && top + s + count <= |plane| && s + count <= |cropped| && top + |cropped| <= |plane|
    requires forall r :: 0 <= r < |cropped| ==> cropped[r] == f.See(p, plane[top + r])
    ensures var seen := f.Seen(p, plane[top + s..top + s + count]);
            |seen| == count && forall j :: 0 <= j < count ==> seen[j] == cropped[s + j]
  {
    hide Frame.Seen, Frame.See;
    SeenRows(f, p, plane, top, s, count);
  }

  /** The rows of the cropped picture. */
  lemma CropRows(f: Frame, fy: seq<Row>, fu: seq<Row>, fv: seq<Row>, alpha: seq<Row>)
    requires f.w.Valid() && (alpha == [] || |alpha| == f.w.cropBottom)
    requires f.y.e.sh.luma && !f.u.e.sh.luma && !f.v.e.sh.luma
    requires |fy| == 16 * f.w.MbH() && |fu| == |fv| == 8 * f.w.MbH()
    ensures var p, h := f.Crop(fy, fu, fv, alpha), f.w.cropBottom - f.w.cropTop;
            && |p.y| == h && |p.u| == |p.v| == (h + 1) / 2
            && f.w.cropTop + h <= |fy| && f.w.cropTop / 2 + (h + 1) / 2 <= |fu|
            && (forall r :: 0 <= r < h ==> p.y[r] == f.See(f.y, fy[f.w.cropTop + r]))
            && (forall c :: 0 <= c < (h + 1) / 2 ==> p.u[c] == f.See(f.u, fu[f.w.cropTop / 2 + c]))
            && (forall c :: 0 <= c < (h + 1) / 2 ==> p.v[c] == f.See(f.v, fv[f.w.cropTop / 2 + c]))
  {
  }

  lemma SeenRows(f: Frame, p: PlaneWork, plane: seq<Row>, top: nat, s: nat, count: nat)
    requires f.w.Valid() && top + s + count <= |plane|
    ensures var seen := f.Seen(p, plane[top + s..top + s + count]);
            |seen| == count && forall j :: 0 <= j < count ==> seen[j] == f.See(p, plane[top + (s + j)])
  {
    var cut := plane[top + s..top + s + count];
    forall j | 0 <= j < count ensures cut[j] == plane[top + (s + j)] {
      SliceAt(plane, top + s, top + s + count, j);
    }
  }

  lemma CropAlpha(f: Frame, fy: seq<Row>, fu: seq<Row>, fv: seq<Row>, alpha: seq<Row>, r: nat)
    requires f.w.Valid() && |alpha| == f.w.cropBottom
    requires |fy| == 16 * f.w.MbH() && |fu| == |fv| == 8 * f.w.MbH() && r < f.w.cropBottom - f.w.cropTop
    ensures |f.Crop(fy, fu, fv, alpha).a| == f.w.cropBottom - f.w.cropTop
    ensures f.Crop(fy, fu, fv, alpha).a[r] == f.Luma(alpha[f.w.cropTop + r])
  {
    assert alpha != [];
  }

  /** The numbers of a band: it starts at row 2 * s of the window, 2 * d rows below
      io->y, and has `count` rows. */
  ghost predicate InBand(w: Window, n: nat, s: nat, d: nat, count: nat)
    requires w.Valid()
  {
    var ch := Shape(false, w.Extra() / 2);
    && n < w.BrMbY() <= w.MbH()
    && w.PutStart(n) == w.cropTop + 2 * s == w.YStart(n) + 2 * d
    && 0 < count && w.PutStart(n) + count == w.YEnd(n) <= w.cropBottom && w.YEnd(n) <= 16 * (n + 1)
    && (w.YEnd(n) < w.cropBottom ==> count % 2 == 0)
    && 2 * s == w.Frontier(n) && 2 * s + count == w.Frontier(n + 1)
    && Shape(true, w.Extra()).Low(n) == w.YStart(n)
    && ch.Low(n) + d == w.cropTop / 2 + s && w.cropTop / 2 + s + (count + 1) / 2 <= 8 * (n + 1)
  }

  lemma BandNumbers(w: Window, n: nat) returns (s: nat, d: nat, count: nat)
    requires w.Valid() && n < w.MbH() && w.Puts(n)
    ensures InBand(w, n, s, d, count)
  {
    AllRowsOut(w);
    StepOfRow(w, n);
    var h;
    s, h := BandsAreEven(w, n);
    var top, half := w.cropTop / 2, w.Extra() / 2;
    assert w.cropTop == 2 * top && w.Extra() == 2 * half;
    var low := if n == 0 then 0 else 8 * n - half;
    assert w.YStart(n) == 2 * low <= w.PutStart(n) == 2 * (top + s);
    d := top + s - low;
    count := w.YEnd(n) - 2 * (top + s);
    HalfOfBand(top + s, count, 8 * (n + 1));
    assert w.YEnd(n) < w.cropBottom ==> count == 2 * h;
    assert Shape(true, w.Extra()).Low(n) == w.YStart(n) && Shape(false, w.Extra() / 2).Low(n) == low;
    FrontierIs(w, n, s, count);
  }

  lemma FrontierIs(w: Window, n: nat, s: nat, count: nat)
    requires w.Valid() && n < w.MbH() && w.Puts(n)
    requires w.PutStart(n) == w.cropTop + 2 * s && w.YEnd(n) == w.cropTop + 2 * s + count
    ensures w.Frontier(n) == 2 * s && w.Frontier(n + 1) == 2 * s + count
  {
    StepOfRow(w, n);
  }

  lemma HalfOfBand(first: nat, count: nat, end: nat)
    requires 2 * first + count <= 2 * end
    ensures first + (count + 1) / 2 <= end
  {
  }

  /** What the band means for the row numbers of FinishRow. */
  lemma BandFacts(w: Window, n: nat, s: nat, d: nat, count: nat)
    requires w.Valid() && n < w.MbH() && w.Puts(n) && InBand(w, n, s, d, count)
    ensures n < w.BrMbY() && w.PutStart(n) == w.cropTop + 2 * s == w.YStart(n) + 2 * d
    ensures w.Frontier(n) == 2 * s && w.YEnd(n) == w.PutStart(n) + count <= w.cropBottom
    ensures w.YEnd(n) == w.cropTop + w.Frontier(n + 1)
    ensures w.YEnd(n) < w.cropBottom ==> count % 2 == 0
  {
    StepOfRow(w, n);
  }

  /** Whether the parts of a macroblock row that are not modelled succeed: those of the
      alpha plane, and a put() of the caller's own, which may abort. */
  datatype Answers = Answers(alpha: A.Answers, put: bool) {
    predicate All() { alpha.init && alpha.stream && alpha.smooth && put }
  }

  class Pipeline {
    const f: Frame
    const y: PlaneCache
    const u: PlaneCache
    const v: PlaneCache
    const out: F.RgbEmitter
    const alpha: A.AlphaDecoder?      // null when there is no alpha_data
    ghost const refY: seq<seq<Row>>   // the planes after 0, 1, ... macroblock rows
    ghost const refU: seq<seq<Row>>
    ghost const refV: seq<seq<Row>>
    ghost const goal: F.Cropped       // the reference picture
    var cacheId: nat

    /** The objects fit together and share no memory. */
    ghost predicate Fits() {
      && f.Valid() && out.Valid()
      && y.Valid() && u.Valid() && v.Valid()
      && y.sh == f.y.e.sh && u.sh == f.u.e.sh && v.sh == f.v.e.sh
      && y.width == f.y.e.Width() && u.width == f.u.e.Width() && v.width == f.v.e.Width()
      && y.slots == u.slots == v.slots
      && |refY| == |refU| == |refV| == f.w.MbH() + 1
      && out.cropTop == f.w.cropTop && out.cropBottom == f.w.cropBottom
      && out.cropLeft == f.w.cropLeft && out.width == f.Width()
      && goal.Valid() && |goal.y| == f.w.cropBottom - f.w.cropTop && (goal.a == [] <==> alpha == null)
      && (alpha != null ==> alpha.cropTop == f.w.cropTop && alpha.height == f.w.cropBottom == alpha.plane.Length == |alpha.expected|)
      && Disjoint()
    }

    ghost predicate Disjoint() {
      && y.rows != u.rows && y.rows != v.rows && u.rows != v.rows
      && (out.rgb as object) !in {y.rows as object, u.rows, v.rows, out.alpha}
      && (out.alpha as object) !in {y.rows as object, u.rows, v.rows}
      && (alpha != null ==> (alpha.plane as object) !in {y.rows as object, u.rows, v.rows, out.rgb, out.alpha})
    }

    /** The ghost constants are the decoder's work on whole planes. */
    ghost predicate IsReference()
      requires Fits()
    {
      && refY == f.Pictures(f.y) && refU == f.Pictures(f.u) && refV == f.Pictures(f.v)
      && IsGoal()
    }

    ghost predicate IsGoal()
      requires Fits()
    {
      var n := f.w.MbH();
      && |refY[n]| == 16 * n && |refU[n]| == |refV[n]| == 8 * n
      && goal == f.Crop(refY[n], refU[n], refV[n], if alpha == null then [] else alpha.expected)
    }

    /** Alpha rows are decoded as far as the luma rows that are final. */
    ghost predicate AlphaReady(n: nat)
      requires f.w.Valid()
      reads alpha, if alpha == null then {} else {alpha.plane}
    {
      alpha != null ==> alpha.Valid() && (alpha.isDecoded || alpha.ready == f.w.Avail(n))
    }

    /** A plane's held-back rows are those of the reference after n rows. */
    ghost predicate Holds(c: PlaneCache, ref: seq<seq<Row>>, n: nat)
      requires f.w.Valid() && n < |ref|
      reads this, c.rows
    {
      && c.Valid() && c.Rect() && cacheId < c.slots && c.sh.Base(n) <= |ref[n]|
      && (0 < n < f.w.BrMbY() ==> c.Above(cacheId) == ref[n][c.sh.Low(n)..c.sh.Base(n)])
    }

    /** The state between two macroblock rows. */
    ghost predicate Inv(n: nat)
      reads this, out, alpha, y.rows, u.rows, v.rows, out.rgb, out.alpha
      reads if alpha == null then {} else {alpha.plane}
    {
      && Fits() && IsReference() && n <= f.w.MbH() && AlphaReady(n) && cacheId == n % y.slots
      && Holds(y, refY, n) && Holds(u, refU, n) && Holds(v, refV, n)
      && out.Progress(goal, f.w.Frontier(n))
    }

    constructor (f: Frame, ks: F.Kernels, fancy: bool, premult: bool, slots: nat, alpha: A.AlphaDecoder?)
      requires f.Valid() && ks.Valid() && slots > 0
      requires alpha != null ==> alpha.Valid() && !alpha.started
      requires alpha != null ==> alpha.cropTop == f.w.cropTop && alpha.height == f.w.cropBottom
      ensures Inv(0) && this.f == f && this.alpha == alpha
      ensures out.ks == ks && out.fancy == fancy && out.premult == premult && y.slots == slots
    {
      this.f, this.alpha, cacheId := f, alpha, 0;
      y := new PlaneCache(f.y.e.sh, slots, f.y.e.Width());
      u := new PlaneCache(f.u.e.sh, slots, f.u.e.Width());
      v := new PlaneCache(f.v.e.sh, slots, f.v.e.Width());
      out := new F.RgbEmitter(ks, fancy, premult, f.w.cropTop, f.w.cropBottom, f.w.cropLeft, f.Width());
      refY := f.Pictures(f.y);
      refU := f.Pictures(f.u);
      refV := f.Pictures(f.v);
      goal := f.Cropped(if alpha == null then [] else alpha.expected);
      new;
      hide F.RgbEmitter.Progress, IsReference, AlphaReady, Holds;
      Begins();
    }

    /** Before the first macroblock row. */
    lemma Begins()
      requires Fits() && cacheId == 0 && y.Rect() && u.Rect() && v.Rect() && out.lastY == 0
      requires refY == f.Pictures(f.y) && refU == f.Pictures(f.u) && refV == f.Pictures(f.v)
      requires goal == f.Cropped(if alpha == null then [] else alpha.expected)
      requires alpha != null ==> alpha.Valid() && !alpha.started
      ensures Inv(0)
    {
      hide Frame.Picture, Frame.Crop;
      CropIsExact(f, if alpha == null then [] else alpha.expected);
    }

    /** From First on, where io->y (or u, v) points, the cache holds rows Low(n) ..
        Base(n + 1) of a picture. */
    ghost predicate Loaded(c: PlaneCache, n: nat, pic: seq<Row>)
      reads this, c.rows
    {
      && c.Valid() && cacheId < c.slots && c.sh.Base(n + 1) <= |pic|
      && forall r :: c.sh.Low(n) <= r < c.sh.Base(n + 1) ==> c.rows[c.First(cacheId, n) + (r - c.sh.Low(n))] == pic[r]
    }

    /** FilterRow and DitherRow for one plane: the selected macroblocks of row n. */
    method WorkOnRow(c: PlaneCache, p: PlaneWork, n: nat)
      requires p.Valid() && c.Valid() && c.Rect() && c.sh == p.e.sh && c.width == p.e.Width() && cacheId < c.slots
      modifies c.rows
      ensures c.Rect()
      ensures c.Window(cacheId, n) == p.Work()(n, old(c.Window(cacheId, n)))
    {
      hide RowSteps, EdgeFilter.Run, Dithered, DelayLine.PlaneCache.Window, Window.BrMbY, Window.TlMbY;
      ghost var w := c.Window(cacheId, n);
      c.WindowHolds(cacheId, n);
      assert p.e.Covers(n, w, c.sh.Low(n));
      var tl, br := p.w.TlMbX(), p.w.BrMbX();
      if p.FilterRow(n) {
        c.FilterRow(cacheId, n, p.e, tl, br);
      }
      if p.dithers {
        c.DitherRow(cacheId, n, p.noise, tl, br);
      }
    }

    /** ReconstructRow, FilterRow and DitherRow for one plane. If the held-back
        rows are those of `before`, the cache then holds `after`. */
    method FinishPlane(c: PlaneCache, p: PlaneWork, n: nat, ghost before: seq<Row>, ghost after: seq<Row>)
      requires p.Valid() && c.Valid() && c.Rect() && c.sh == p.e.sh && c.width == p.e.Width() && cacheId < c.slots
      requires p.e.sh.Base(n + 1) <= |before| && p.e.sh.Base(n + 1) <= |after| && p.e.sh.Base(n + 1) <= |p.recon|
      requires before[p.e.sh.Base(n)..p.e.sh.Base(n + 1)] == p.recon[p.e.sh.Base(n)..p.e.sh.Base(n + 1)]
      requires after[p.e.sh.Low(n)..p.e.sh.Base(n + 1)] == p.Work()(n, before[p.e.sh.Low(n)..p.e.sh.Base(n + 1)])
      modifies c.rows
      ensures c.Rect()
      ensures n == 0 || old(c.Above(cacheId)) == before[p.e.sh.Low(n)..p.e.sh.Base(n)] ==> Loaded(c, n, after)
    {
      hide PlaneWork.Work, Loaded;
      var samples := p.recon[p.e.sh.Base(n)..p.e.sh.Base(n + 1)];
      ghost var held := n == 0 || c.Above(cacheId) == before[p.e.sh.Low(n)..p.e.sh.Base(n)];
      c.Reconstruct(cacheId, samples);
      if held {
        WindowIs(c, n, before, samples);
      }
      WorkOnRow(c, p, n);
      if held {
        WindowRows(c, n, after);
      }
    }

    /** Held-back rows and reconstructed rows are the window of the plane. */
    lemma WindowIs(c: PlaneCache, n: nat, before: seq<Row>, samples: seq<Row>)
      requires c.Valid() && cacheId < c.slots && c.sh.Base(n + 1) <= |before|
      requires n == 0 || c.Above(cacheId) == before[c.sh.Low(n)..c.sh.Base(n)]
      requires samples == before[c.sh.Base(n)..c.sh.Base(n + 1)]
      requires c.rows[c.sh.Base(cacheId) + c.sh.extra..c.sh.Base(cacheId) + c.sh.extra + c.sh.Unit()] == samples
      ensures c.Window(cacheId, n) == before[c.sh.Low(n)..c.sh.Base(n + 1)]
    {
      var lo, mid, hi := c.sh.Low(n), c.sh.Base(n), c.sh.Base(n + 1);
      if n == 0 {
        assert c.Window(cacheId, n) == samples;
      } else {
        assert c.Window(cacheId, n) == c.Above(cacheId) + samples;
        assert before[lo..hi] == before[lo..mid] + before[mid..hi];
      }
    }

    lemma WindowRows(c: PlaneCache, n: nat, pic: seq<Row>)
      requires c.Valid() && cacheId < c.slots && c.sh.Base(n + 1) <= |pic|
      requires c.Window(cacheId, n) == pic[c.sh.Low(n)..c.sh.Base(n + 1)]
      ensures Loaded(c, n, pic)
    {
      hide DelayLine.PlaneCache.Window;
      forall r | c.sh.Low(n) <= r < c.sh.Base(n + 1)
        ensures c.rows[c.First(cacheId, n) + (r - c.sh.Low(n))] == pic[r]
      {
        var j := r - c.sh.Low(n);
        SliceAt(pic, c.sh.Low(n), c.sh.Base(n + 1), j);
        c.WindowAt(cacheId, n, j);
      }
    }

    /** The rows of a plane that put() receives: `count` rows from picture row
        `from` on, read at io->y plus the rows cropped at the top. */
    method Band(c: PlaneCache, n: nat, delta: nat, count: nat, ghost pic: seq<Row>) returns (rows: seq<Row>)
      requires Loaded(c, n, pic) && c.sh.Low(n) + delta + count <= c.sh.Base(n + 1)
      ensures rows == pic[c.sh.Low(n) + delta..c.sh.Low(n) + delta + count]
    {
      rows := c.rows[c.First(cacheId, n) + delta..c.First(cacheId, n) + delta + count];
      forall j | 0 <= j < count ensures rows[j] == pic[c.sh.Low(n) + delta + j] {
        var r := c.sh.Low(n) + delta + j;
        assert c.rows[c.First(cacheId, n) + (r - c.sh.Low(n))] == pic[r];
      }
    }

    /** The rows of one plane that put() must receive, `count` of them from
        `delta` rows below io->y on. */
    ghost function Want(c: PlaneCache, p: PlaneWork, n: nat, delta: nat, count: nat, pic: seq<Row>): seq<F.Span>
      requires f.w.Valid() && c.sh.Valid() && c.sh.Low(n) + delta + count <= |pic|
    {
      f.Seen(p, pic[c.sh.Low(n) + delta..c.sh.Low(n) + delta + count])
    }

    /** Sets the fields of VP8Io for put(). */
    method FillIo(n: nat, delta: nat, mbY: nat, count: nat, a: Option<nat>) returns (io: F.Io)
      requires f.w.Valid() && u.sh == v.sh
      requires Loaded(y, n, Pic(refY, n)) && Loaded(u, n, Pic(refU, n)) && Loaded(v, n, Pic(refV, n))
      requires y.sh.Low(n) + delta + count <= y.sh.Base(n + 1)
      requires u.sh.Low(n) + delta / 2 + (count + 1) / 2 <= u.sh.Base(n + 1)
      ensures io.mbY == mbY && io.a == a && io.y == Want(y, f.y, n, delta, count, Pic(refY, n))
      ensures io.u == Want(u, f.u, n, delta / 2, (count + 1) / 2, Pic(refU, n))
      ensures io.v == Want(v, f.v, n, delta / 2, (count + 1) / 2, Pic(refV, n))
    {
      var rowsY := Band(y, n, delta, count, Pic(refY, n));
      var rowsU := Band(u, n, delta / 2, (count + 1) / 2, Pic(refU, n));
      var rowsV := Band(v, n, delta / 2, (count + 1) / 2, Pic(refV, n));
      io := F.Io(mbY, f.Seen(f.y, rowsY), f.Seen(f.u, rowsU), f.Seen(f.v, rowsV), a);
    }

    /** The call of put() at the end of FinishRow. CustomPut never refuses the band. */
    method Put(io: F.Io, answer: bool) returns (ok: bool)
      requires Disjoint() && F.BandOf(io, goal) && out.Progress(goal, io.mbY) && out.width > 0
      requires io.a == if alpha == null then None else Some(out.cropTop + io.mbY)
      requires alpha != null ==> AlphaAgrees(io.mbY + |io.y|)
      modifies out, out.rgb, out.alpha
      ensures ok <==> answer
      ensures ok ==> out.Progress(goal, io.mbY + |io.y|)
    {
      if alpha == null {
        ok := out.CustomPut(io, goal, y.rows);
      } else {
        ok := out.CustomPut(io, goal, alpha.plane);
      }
      ok := ok && answer;
    }

    ghost function Pic(ref: seq<seq<Row>>, n: nat): seq<Row> {
      if n + 1 < |ref| then ref[n + 1] else []
    }

    /** The alpha plane holds the reference alpha of the first `rows` rows of the window. */
    ghost predicate AlphaAgrees(rows: nat)
      requires alpha != null
      reads alpha.plane
    {
      && out.cropTop + rows <= alpha.plane.Length && rows <= |goal.a|
      && forall r :: 0 <= r < rows ==> F.Cut(alpha.plane[out.cropTop + r], out.cropLeft, out.width) == goal.a[r]
    }

    /** `count` rows of a plane are the same now and in the end. */
    ghost predicate RowsAgree(ref: seq<seq<Row>>, n: nat, from: nat, count: nat)
      requires f.w.MbH() < |ref|
    {
      && from + count <= |Pic(ref, n)| && from + count <= |ref[f.w.MbH()]|
      && Pic(ref, n)[from..from + count] == ref[f.w.MbH()][from..from + count]
    }

    /** So is a plane's part of the band. */
    lemma PlaneBand(c: PlaneCache, p: PlaneWork, ref: seq<seq<Row>>, n: nat, delta: nat, count: nat)
      requires f.Valid() && f.Has(p) && ref == f.Pictures(p) && c.sh == p.e.sh && n < f.w.MbH() && f.w.Puts(n) && count > 0
      requires var from := p.e.sh.Low(n) + delta;
               if p.e.sh.luma then from + count <= f.w.YEnd(n) else 2 * (from + count - 1) < f.w.YEnd(n)
      ensures c.sh.Low(n) + delta + count <= c.sh.Base(n + 1)
      ensures RowsAgree(ref, n, c.sh.Low(n) + delta, count)
    {
      hide Window.Puts, Window.YEnd, Frame.Picture, Frame.Pictures;
      BandRowsFinal(f, p, n, p.e.sh.Low(n) + delta, count);
    }

    /** What FillIo produces from the reference planes is a band of the goal. */
    lemma WantedIsBand(s: nat, count: nat, io: F.Io)
      requires Fits() && IsGoal() && 0 < count && f.w.cropTop + 2 * s + count <= f.w.cropBottom
      requires f.w.cropTop + 2 * s + count < f.w.cropBottom ==> count % 2 == 0
      requires io.mbY == 2 * s && (io.a == None <==> alpha == null)
      requires var half, top := (count + 1) / 2, f.w.cropTop / 2;
               && top + s + half <= 8 * f.w.MbH()
               && io.y == f.Seen(f.y, refY[f.w.MbH()][f.w.cropTop + 2 * s..f.w.cropTop + 2 * s + count])
               && io.u == f.Seen(f.u, refU[f.w.MbH()][top + s..top + s + half])
               && io.v == f.Seen(f.v, refV[f.w.MbH()][top + s..top + s + half])
      ensures |io.y| == count && F.BandOf(io, goal)
    {
      hide F.BandOf, Frame.Crop, F.RgbEmitter.Valid, PlaneCache.Valid, Window.Extra;
      BandOfCrop(f, refY[f.w.MbH()], refU[f.w.MbH()], refV[f.w.MbH()],
                 if alpha == null then [] else alpha.expected, s, count, io);
    }

    /** The alpha rows decoded so far are those of the goal. */
    lemma AlphaRowsAgree(rows: nat)
      requires Fits() && IsGoal() && alpha != null && f.w.cropTop + rows <= alpha.ready <= alpha.height
      requires alpha.plane[..alpha.ready] == alpha.expected[..alpha.ready]
      ensures AlphaAgrees(rows)
    {
      forall r | 0 <= r < rows
        ensures F.Cut(alpha.plane[out.cropTop + r], out.cropLeft, out.width) == goal.a[r]
      {
        SamePrefix(alpha.plane[..], alpha.expected, alpha.ready, f.w.cropTop + r);
        CropAlpha(f, refY[f.w.MbH()], refU[f.w.MbH()], refV[f.w.MbH()], alpha.expected, r);
      }
    }

    /** FinishRow computes the rows that became final: those that n + 1 macroblock
        rows make available and n did not. */
    method FinalRows(n: nat) returns (yStart: int, yEnd: int)
      requires f.w.Valid() && n < f.w.MbH()
      ensures yStart < yEnd <==> f.w.Avail(n) < f.w.Avail(n + 1)
      ensures yStart < yEnd ==> yStart == f.w.Avail(n) && yEnd == f.w.Avail(n + 1)
      ensures yStart == f.w.YStart(n) && yEnd == f.w.YEnd(n)
    {
      StepOfRow(f.w, n);
      var isFirstRow, isLastRow := n == 0, n + 1 >= f.w.BrMbY();
      yStart, yEnd := 16 * n, 16 * (n + 1);
      if !isFirstRow {
        yStart := yStart - f.w.Extra();
      }
      if !isLastRow {
        yEnd := yEnd - f.w.Extra();
      }
      if yEnd > f.w.cropBottom {
        yEnd := f.w.cropBottom;
      }
    }

    /** Does row n need alpha rows that are not decoded yet, and will that fail? */
    predicate AlphaFails(n: nat, answers: A.Answers)
      reads alpha
    {
      alpha != null && f.w.YStart(n) < f.w.YEnd(n) && !alpha.isDecoded && !alpha.Succeeds(answers, alpha.started)
    }

    /** FinishRow asks for the alpha of the rows that became final. */
    method DecodeAlpha(n: nat, yStart: int, yEnd: int, answers: A.Answers) returns (ok: bool, a: Option<int>)
      requires f.w.Valid() && n < f.w.MbH() && AlphaReady(n) && (alpha != null ==> alpha.height == f.w.cropBottom)
      requires yStart == f.w.YStart(n) && yEnd == f.w.YEnd(n)
      modifies if alpha == null then {} else {alpha, alpha.plane}
      ensures ok ==> AlphaReady(n + 1) && (a == if alpha != null && yStart < yEnd then Some(yStart) else None)
      ensures ok && alpha != null && yStart < yEnd ==>
                yEnd <= alpha.ready <= alpha.height && alpha.plane[..alpha.ready] == alpha.expected[..alpha.ready]
      ensures ok <==> !old(AlphaFails(n, answers))
    {
      StepOfRow(f.w, n);
      a := None;
      if alpha != null && yStart < yEnd {
        ok := alpha.DecompressAlphaRows(yStart, yEnd - yStart, answers);
        if !ok {
          return;
        }
        a := Some(yStart);
      }
      ok := true;
    }

    /** The planes' rows of the band, in the cache and in the finished planes. */
    lemma BandPlanes(n: nat, s: nat, d: nat, count: nat)
      requires Fits() && IsReference() && n < f.w.MbH() && f.w.Puts(n) && InBand(f.w, n, s, d, count)
      ensures CutsAgree(n, s, d, count)
    {
      hide Window.Puts, Window.YEnd, Window.PutStart, Window.YStart, Window.Frontier, Frame.Picture, Frame.Pictures, IsGoal;
      hide RowsAgree, F.RgbEmitter.Valid, F.Cropped.Valid, Window.MbH;
      PlaneBand(y, f.y, refY, n, 2 * d, count);
      PlaneBand(u, f.u, refU, n, d, (count + 1) / 2);
      PlaneBand(v, f.v, refV, n, d, (count + 1) / 2);
    }

    ghost predicate CutsAgree(n: nat, s: nat, d: nat, count: nat)
      requires Fits()
    {
      var from, half, top := f.w.cropTop + 2 * s, (count + 1) / 2, f.w.cropTop / 2;
      && from == y.sh.Low(n) + 2 * d && top + s == u.sh.Low(n) + d
      && from + count <= y.sh.Base(n + 1) && top + s + half <= u.sh.Base(n + 1)
      && RowsAgree(refY, n, from, count) && RowsAgree(refU, n, top + s, half) && RowsAgree(refV, n, top + s, half)
    }

    /** The VP8Io of the band is a band of the goal. */
    method FillBand(n: nat, ghost s: nat, ghost d: nat, delta: nat, yStart: nat, count: nat, a: Option<nat>) returns (io: F.Io)
      requires Fits() && IsGoal() && yStart == f.w.cropTop + 2 * s && delta == 2 * d
      requires 0 < count && yStart + count <= f.w.cropBottom && (yStart + count < f.w.cropBottom ==> count % 2 == 0)
      requires CutsAgree(n, s, d, count)
      requires Loaded(y, n, Pic(refY, n)) && Loaded(u, n, Pic(refU, n)) && Loaded(v, n, Pic(refV, n))
      requires a == if alpha == null then None else Some(yStart)
      ensures F.BandOf(io, goal) && io.mbY == 2 * s && |io.y| == count && io.a == a
    {
      hide Loaded, F.BandOf, Frame.Seen, Frame.Crop, F.RgbEmitter.Valid, F.Cropped.Valid;
      hide DelayLine.PlaneCache.Valid, Shape.Low, Shape.Base, Window.MbH;
      assert delta / 2 == d;
      io := FillIo(n, delta, yStart - f.w.cropTop, count, a);
      WantedIsBand(s, count, io);
    }

    /** FinishRow hands the band to put(). */
    method PutBand(n: nat, ghost s: nat, ghost d: nat, delta: nat, yStart: nat, yEnd: nat, a: Option<nat>,
                   ghost before: nat, ghost after: nat, answer: bool) returns (ok: bool)
      requires Fits() && IsGoal() && yStart == f.w.cropTop + 2 * s && delta == 2 * d && yStart < yEnd <= f.w.cropBottom
      requires yEnd < f.w.cropBottom ==> (yEnd - yStart) % 2 == 0
      requires CutsAgree(n, s, d, yEnd - yStart)
      requires Loaded(y, n, Pic(refY, n)) && Loaded(u, n, Pic(refU, n)) && Loaded(v, n, Pic(refV, n))
      requires a == if alpha == null then None else Some(yStart)
      requires alpha != null ==> yEnd <= alpha.ready <= alpha.height && alpha.plane[..alpha.ready] == alpha.expected[..alpha.ready]
      requires before == 2 * s && after == yEnd - f.w.cropTop && out.Progress(goal, before)
      modifies out, out.rgb, out.alpha
      ensures ok <==> answer
      ensures ok ==> out.Progress(goal, after)
    {
      hide Loaded, AlphaAgrees, F.RgbEmitter.Progress, F.BandOf, IsGoal, CutsAgree;
      hide F.RgbEmitter.Valid, F.Cropped.Valid, DelayLine.PlaneCache.Valid, Window.MbH;
      var io := FillBand(n, s, d, delta, yStart, yEnd - yStart, a);
      if alpha != null {
        AlphaRowsAgree(yEnd - f.w.cropTop);
      }
      ok := Put(io, answer);
    }

    /** The call of put() for the band of macroblock row n. */
    method PutRows(n: nat, delta: nat, yStart: nat, yEnd: nat, a: Option<nat>, answer: bool) returns (ok: bool)
      requires Fits() && IsReference() && n < f.w.MbH() && f.w.Puts(n)
      requires yStart == f.w.PutStart(n) == f.w.YStart(n) + delta && yEnd == f.w.YEnd(n)
      requires a == if alpha == null then None else Some(yStart)
      requires alpha != null ==> yEnd <= alpha.ready <= alpha.height && alpha.plane[..alpha.ready] == alpha.expected[..alpha.ready]
      requires n < f.w.BrMbY() ==> Loaded(y, n, Pic(refY, n)) && Loaded(u, n, Pic(refU, n)) && Loaded(v, n, Pic(refV, n))
      requires out.Progress(goal, f.w.Frontier(n))
      modifies out, out.rgb, out.alpha
      ensures ok <==> answer
      ensures ok ==> out.Progress(goal, f.w.Frontier(n + 1))
    {
      hide Loaded, CutsAgree, IsGoal, F.RgbEmitter.Progress, Frame.Pictures, DelayLine.PlaneCache.Valid, InBand;
      hide Window.Extra, Window.Avail, Window.BrMbY, Window.MbH, F.RgbEmitter.Valid;
      hide Window.Frontier, Window.YStart, Window.YEnd, Window.PutStart, Window.Puts;
      ghost var s, d, count := BandNumbers(f.w, n);
      BandPlanes(n, s, d, count);
      BandFacts(f.w, n, s, d, count);
      ok := PutBand(n, s, d, delta, yStart, yEnd, a, f.w.Frontier(n), f.w.Frontier(n + 1), answer);
    }

    /** FinishRow crops the final rows at the top and calls put() if any are left. */
    method CropAndPut(n: nat, yStart0: int, yEnd: int, a0: Option<int>, answer: bool) returns (ok: bool)
      requires Fits() && IsReference() && n < f.w.MbH()
      requires yStart0 == f.w.YStart(n) && yEnd == f.w.YEnd(n)
      requires a0 == if alpha != null && yStart0 < yEnd then Some(yStart0) else None
      requires alpha != null && yStart0 < yEnd ==>
                 yEnd <= alpha.ready <= alpha.height && alpha.plane[..alpha.ready] == alpha.expected[..alpha.ready]
      requires n < f.w.BrMbY() ==> Loaded(y, n, Pic(refY, n)) && Loaded(u, n, Pic(refU, n)) && Loaded(v, n, Pic(refV, n))
      requires out.Progress(goal, f.w.Frontier(n))
      modifies out, out.rgb, out.alpha
      ensures ok <==> (f.w.Puts(n) ==> answer)
      ensures ok ==> out.Progress(goal, f.w.Frontier(n + 1))
    {
      hide Loaded, IsReference, F.RgbEmitter.Progress, Frame.Pictures, DelayLine.PlaneCache.Valid;
      hide Window.Extra, Window.Avail, Window.BrMbY, Window.MbH, F.RgbEmitter.Valid;
      hide Window.Frontier, Window.YStart, Window.YEnd;
      StepOfRow(f.w, n);
      var delta, yStart, a := 0, yStart0, a0;
      if yStart < f.w.cropTop {
        delta := f.w.cropTop - yStart;
        yStart := f.w.cropTop;
        a := if a.Some? then Some(a.value + delta) else a;
      }
      ok := true;
      if yStart < yEnd {
        assert f.w.Puts(n);
        ok := PutRows(n, delta, yStart, yEnd, a, answer);
      }
    }

    /** Does macroblock row n come to its end? */
    predicate Goes(n: nat, answers: Answers)
      reads alpha
    {
      !AlphaFails(n, answers.alpha) && (f.w.Puts(n) ==> answers.put)
    }

    /** The second half of FinishRow: works out which rows became final, asks for
        their alpha, crops them and calls put(). */
    method Emit(n: nat, answers: Answers) returns (ok: bool)
      requires Fits() && IsReference() && n < f.w.MbH() && AlphaReady(n)
      requires out.Progress(goal, f.w.Frontier(n))
      requires n < f.w.BrMbY() ==> Loaded(y, n, Pic(refY, n)) && Loaded(u, n, Pic(refU, n)) && Loaded(v, n, Pic(refV, n))
      modifies out, out.rgb, out.alpha
      modifies if alpha == null then {} else {alpha, alpha.plane}
      ensures ok ==> AlphaReady(n + 1) && out.Progress(goal, f.w.Frontier(n + 1))
      ensures ok <==> old(Goes(n, answers))
    {
      hide Loaded, IsReference, IsGoal, AlphaReady, F.RgbEmitter.Progress, Window.YStart, Window.YEnd, Window.Puts;
      var yStart, yEnd := FinalRows(n);
      var a;
      ok, a := DecodeAlpha(n, yStart, yEnd, answers.alpha);
      if ok {
        ok := CropAndPut(n, yStart, yEnd, a, answers.put);
      }
    }

    /** The last rows of a slot are the rows of the plane still to be filtered. */
    lemma TailRows(c: PlaneCache, n: nat, after: seq<Row>)
      requires Loaded(c, n, after)
      ensures c.rows[c.sh.Base(cacheId) + c.sh.Unit()..c.sh.Base(cacheId) + c.sh.Unit() + c.sh.extra]
           == after[c.sh.Low(n + 1)..c.sh.Base(n + 1)]
    {
      var sh := c.sh;
      var tail := c.rows[sh.Base(cacheId) + sh.Unit()..sh.Base(cacheId) + sh.Unit() + sh.extra];
      var want := after[sh.Low(n + 1)..sh.Base(n + 1)];
      assert |tail| == |want| == sh.extra;
      forall i | 0 <= i < |tail| ensures tail[i] == want[i] {
        var r := sh.Low(n + 1) + i;
        assert c.rows[c.First(cacheId, n) + (r - sh.Low(n))] == after[r];
      }
    }

    /** The tail of FinishRow for one plane: the rows still to be filtered end up
        just above the next slot. */
    method RotatePlane(c: PlaneCache, n: nat, ghost after: seq<Row>)
      requires Loaded(c, n, after) && c.Rect()
      modifies c.rows
      ensures c.Above(NextSlot(c)) == after[c.sh.Low(n + 1)..c.sh.Base(n + 1)] && c.Rect()
    {
      TailRows(c, n, after);
      c.Rotate(cacheId);
    }

    function NextSlot(c: PlaneCache): nat
      reads this
    {
      if cacheId + 1 == c.slots then 0 else cacheId + 1
    }

    /** One plane of the first half of FinishRow. */
    method FilterPlane(c: PlaneCache, p: PlaneWork, ghost ref: seq<seq<Row>>, n: nat)
      requires f.Valid() && f.Has(p) && ref == f.Pictures(p) && n < f.w.MbH() && c.sh == p.e.sh && c.width == p.e.Width()
      requires Holds(c, ref, n)
      modifies c.rows
      ensures n < f.w.BrMbY() ==> Loaded(c, n, Pic(ref, n))
      ensures Pic(ref, n) == ref[n + 1] && c.Rect()
    {
      hide Loaded, Frame.Picture, PlaneWork.Work, Window.BrMbY, Window.MbH;
      ReferenceStep(f, p, n);
      FinishPlane(c, p, n, ref[n], ref[n + 1]);
    }

    /** The first half of FinishRow. */
    method FilterPlanes(n: nat)
      requires Fits() && IsReference() && n < f.w.MbH() && cacheId < y.slots
      requires Holds(y, refY, n) && Holds(u, refU, n) && Holds(v, refV, n)
      modifies y.rows, u.rows, v.rows
      ensures |refY[n + 1]| == 16 * f.w.MbH() && |refU[n + 1]| == |refV[n + 1]| == 8 * f.w.MbH()
      ensures y.Rect() && u.Rect() && v.Rect()
      ensures n < f.w.BrMbY() ==> Loaded(y, n, Pic(refY, n)) && Loaded(u, n, Pic(refU, n)) && Loaded(v, n, Pic(refV, n))
    {
      hide Loaded, IsGoal, DelayLine.PlaneCache.Above, Window.BrMbY, F.RgbEmitter.Valid, DelayLine.PlaneCache.Rect;
      FilterPlane(y, f.y, refY, n);
      FilterPlane(u, f.u, refU, n);
      FilterPlane(v, f.v, refV, n);
    }

    /** The end of FinishRow and of VP8ProcessRow: rotate the top samples if
        needed, then move on to the next slot. */
    method Advance(n: nat)
      requires Fits() && n < f.w.MbH() && cacheId == n % y.slots && y.Rect() && u.Rect() && v.Rect()
      requires |refY[n + 1]| == 16 * f.w.MbH() && |refU[n + 1]| == |refV[n + 1]| == 8 * f.w.MbH()
      requires n < f.w.BrMbY() ==> Loaded(y, n, Pic(refY, n)) && Loaded(u, n, Pic(refU, n)) && Loaded(v, n, Pic(refV, n))
      modifies `cacheId, y.rows, u.rows, v.rows
      ensures Holds(y, refY, n + 1) && Holds(u, refU, n + 1) && Holds(v, refV, n + 1) && cacheId == (n + 1) % y.slots
    {
      hide Loaded, F.RgbEmitter.Valid, DelayLine.PlaneCache.Above, Window.BrMbY, DelayLine.PlaneCache.Rect;
      var isLastRow := n + 1 >= f.w.BrMbY();
      if !isLastRow {
        RotatePlane(y, n, Pic(refY, n));
        RotatePlane(u, n, Pic(refU, n));
        RotatePlane(v, n, Pic(refV, n));
      }
      cacheId := NextSlot(y);
      T.NextSlot(n, y.slots);
    }

    /** FinishRow and the slot bookkeeping of VP8ProcessRow: one macroblock row takes
        the pipeline from the state after n rows to that after n + 1, unless its alpha
        or its put() fails. */
    method ProcessRow(n: nat, answers: Answers) returns (ok: bool)
      requires Inv(n) && n < f.w.MbH()
      modifies `cacheId, y.rows, u.rows, v.rows, out, out.rgb, out.alpha
      modifies if alpha == null then {} else {alpha, alpha.plane}
      ensures ok ==> Inv(n + 1)
      ensures ok <==> old(Goes(n, answers))
    {
      hide Loaded, IsReference, Holds, AlphaReady, F.RgbEmitter.Progress, F.RgbEmitter.Valid;
      hide Window.Frontier, Window.BrMbY, Window.MbH, Frame.Valid;
      FilterPlanes(n);
      ok := Emit(n, answers);
      if ok {
        Advance(n);
      }
    }

    /** With a worker thread the job launched for row n is that macroblock row, in the
        same slot and with the same filter flag. */
    lemma JobOfRow(c: T.Config, n: nat)
      requires Inv(n) && n < f.w.MbH() && c.Valid() && c.slots == y.slots
      requires c.filtering == (f.w.filter != Off) && c.tlMbY == f.w.TlMbY() && c.brMbY == f.w.BrMbY()
      ensures T.Jobs(c, n + 1)[n] == T.Job(n, cacheId, f.y.FilterRow(n))
    {
    }

    /** Once br_mb_y macroblock rows are done everything has been delivered. */
    lemma Complete(rows: nat)
      requires Inv(rows) && f.w.BrMbY() <= rows
      ensures out.lastY == f.w.cropBottom - f.w.cropTop == out.rgb.Length == out.alpha.Length
      ensures goal == f.Cropped(if alpha == null then [] else alpha.expected)
      ensures forall r :: 0 <= r < out.rgb.Length ==> out.rgb[r] == goal.Final(out.ks, out.fancy, out.premult, r)
      ensures alpha != null ==> forall r :: 0 <= r < out.alpha.Length ==> out.alpha[r] == goal.a[r]
    {
      AllRowsOut(f.w);
      CropIsExact(f, if alpha == null then [] else alpha.expected);
    }

    /** The row loop. It runs over br_mb_y macroblock rows, or over all of them when
        decoding is incremental. When it completes, the output holds the reference
        picture; it does unless some answer is no. */
    method DecodeRows(rows: nat, answers: seq<Answers>) returns (ok: bool)
      requires Inv(0) && f.w.BrMbY() <= rows <= f.w.MbH() && |answers| == rows
      modifies `cacheId, y.rows, u.rows, v.rows, out, out.rgb, out.alpha
      modifies if alpha == null then {} else {alpha, alpha.plane}
      ensures ok ==> out.lastY == f.w.cropBottom - f.w.cropTop == out.rgb.Length == out.alpha.Length
      ensures ok ==> goal == f.Cropped(if alpha == null then [] else alpha.expected)
      ensures ok ==> forall r :: 0 <= r < out.rgb.Length ==> out.rgb[r] == goal.Final(out.ks, out.fancy, out.premult, r)
      ensures ok && alpha != null ==> forall r :: 0 <= r < out.alpha.Length ==> out.alpha[r] == goal.a[r]
      ensures !ok ==> exists n :: 0 <= n < rows && !answers[n].All()
    {
      hide Inv;
      ok := true;
      for mbY := 0 to rows
        invariant ok ==> Inv(mbY)
        invariant !ok ==> exists n :: 0 <= n < rows && !answers[n].All()
      {
        if ok {
          ok := ProcessRow(mbY, answers[mbY]);
        }
      }
      if ok {
        Complete(rows);
      }
    }
  }
}

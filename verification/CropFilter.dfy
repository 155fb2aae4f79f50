/** Filtering for a cropping window. VP8EnterCritical selects the macroblocks whose
    filter and dither work is done; the rest is skipped. The reference works on every
    macroblock of every row, on whole planes. Skipping never matters: the window is
    the same in both. Without the complex filter any macroblock away from the window
    may go; the complex filter reads what it wrote before, so only columns to the right
    and rows below may, and it takes the order of the steps to see why. */
module CropFilter {
  import opened DelayLine
  import opened LoopFilter
  import opened RowGeometry

  /** Pixels read and written on each side of an edge of a plane. */
  function Reach(f: FilterType, luma: bool): nat {
    if f == Complex then 4 else if f == Simple && luma then 2 else 0
  }

  function Touch(f: FilterType, luma: bool): nat {
    if f == Complex then 3 else if f == Simple && luma then 1 else 0
  }

  /** One plane of a frame: its unfiltered samples and what is done to them. */
  datatype PlaneWork = PlaneWork(w: Window, e: EdgeFilter, dithers: bool, noise: Noise, recon: seq<Row>) {

    predicate Valid() {
      && w.Valid() && e.Valid() && e.mbW == w.MbW()
      && e.sh.extra == (if e.sh.luma then w.Extra() else w.Extra() / 2)
      && e.reach == Reach(w.filter, e.sh.luma) && e.touch == Touch(w.filter, e.sh.luma)
      && (dithers ==> !e.sh.luma)
      && |recon| == e.sh.Base(w.MbH()) && Sized(recon, e.Width())
    }

    /** DoFilter: the simple filter leaves chroma alone. */
    predicate Filters() { w.filter == Complex || (w.filter == Simple && e.sh.luma) }

    /** VP8ProcessRow: is macroblock row n filtered? */
    predicate FilterRow(n: nat) { Filters() && w.TlMbY() <= n <= w.BrMbY() }

    /** Filtering and dithering of macroblocks from .. end-1 of row n, on rows `lo` and up. */
    function RowOn(from: nat, end: nat, filters: bool, n: nat, rows: seq<Row>, lo: nat): (r: seq<Row>)
      requires end <= e.mbW && (filters ==> e.Covers(n, rows, lo))
      ensures |r| == |rows| && forall y :: 0 <= y < |r| ==> |r[y]| == |rows[y]|
    {
      RowStepsIn(e, from, end, n);
      var filtered := if filters then e.Run(RowSteps(e.sh, from, end, n), n, rows, lo) else rows;
      if dithers then Dithered(e.sh, noise, from, end, n, filtered, lo) else filtered
    }

    /** The reference: every macroblock of rows 0 .. n-1, on the whole plane. */
    ghost function Whole(n: nat): (pic: seq<Row>)
      requires Valid() && n <= w.MbH()
      ensures |pic| == |recon| && Sized(pic, e.Width())
    {
      if n == 0 then recon else RowOn(0, w.MbW(), Filters(), n - 1, Whole(n - 1), 0)
    }

    /** What FinishRow does to the rows of the cache that it works on. */
    function Work(): Kernel {
      (n: nat, rows: seq<Row>) =>
        if Valid() && e.Covers(n, rows, e.sh.Low(n)) then
          RowOn(w.TlMbX(), w.BrMbX(), FilterRow(n), n, rows, e.sh.Low(n))
        else rows
    }

    lemma WorkPreservesLength()
      requires Valid()
      ensures Plane(e.sh, Work(), recon, w.MbH())
    {
    }

    /** The plane after n rows when the macroblocks not selected are skipped. */
    ghost function Skipped(n: nat): (pic: seq<Row>)
      requires Valid() && n <= w.MbH()
      ensures |pic| == |recon|
    {
      WorkPreservesLength();
      Filtered(e.sh, Work(), recon, w.MbH(), n)
    }
  }

  lemma RowOnInWindow(p: PlaneWork, from: nat, end: nat, filters: bool, n: nat, pic: seq<Row>)
    requires p.Valid() && end <= p.e.mbW && n < p.w.MbH() && |pic| == |p.recon| && Sized(pic, p.e.Width())
    ensures p.e.Covers(n, pic, 0)
    ensures var lo, hi := p.e.sh.Low(n), p.e.sh.Base(n + 1);
            && p.e.Covers(n, pic[lo..hi], lo)
            && p.RowOn(from, end, filters, n, pic, 0) == Patch(pic, lo, hi, p.RowOn(from, end, filters, n, pic[lo..hi], lo))
  {
    var e, lo, hi := p.e, p.e.sh.Low(n), p.e.sh.Base(n + 1);
    var rows := pic[lo..hi];
    assert e.Valid() && e.reach <= e.sh.extra;
    if n > 0 { assert lo + e.reach <= e.sh.Base(n); }
    assert e.Covers(n, rows, lo);
    RowStepsIn(e, from, end, n);
    var steps := RowSteps(e.sh, from, end, n);
    if filters { RunInWindow(e, steps, n, pic, lo, hi); }
    var a := if filters then e.Run(steps, n, pic, 0) else pic;
    var b := if filters then e.Run(steps, n, rows, lo) else rows;
    assert a == Patch(pic, lo, hi, b);
    if p.dithers {
      DitheredInWindow(p, from, end, n, pic, lo, hi, b);
    }
  }

  lemma DitheredInWindow(p: PlaneWork, from: nat, end: nat, n: nat, pic: seq<Row>, lo: nat, hi: nat, rows: seq<Row>)
    requires lo <= p.e.sh.Base(n) && p.e.sh.Base(n + 1) <= hi <= |pic| && |rows| == hi - lo
    ensures Dithered(p.e.sh, p.noise, from, end, n, Patch(pic, lo, hi, rows), 0)
         == Patch(pic, lo, hi, Dithered(p.e.sh, p.noise, from, end, n, rows, lo))
  {
    var whole := Patch(pic, lo, hi, rows);
    var a := Dithered(p.e.sh, p.noise, from, end, n, whole, 0);
    var b := Patch(pic, lo, hi, Dithered(p.e.sh, p.noise, from, end, n, rows, lo));
    forall y | 0 <= y < |pic| ensures a[y] == b[y] {
      assert |a[y]| == |b[y]|;
      forall x | 0 <= x < |a[y]| ensures a[y][x] == b[y][x] {
        if lo <= y < hi { assert whole[y] == rows[y - lo]; }
      }
    }
  }

  /** One row of the skipping decoder, seen on the whole plane. */
  lemma {:induction false} SkippedStep(p: PlaneWork, n: nat)
    requires p.Valid() && n < p.w.MbH() && Sized(p.Skipped(n), p.e.Width())
    ensures p.e.Covers(n, p.Skipped(n), 0)
    ensures p.Skipped(n + 1) == p.RowOn(p.w.TlMbX(), p.w.BrMbX(), p.FilterRow(n), n, p.Skipped(n), 0)
  {
    RowOnInWindow(p, p.w.TlMbX(), p.w.BrMbX(), p.FilterRow(n), n, p.Skipped(n));
  }

  // ---- pictures that agree on a part ----

  /** Columns x0 .. x1-1 of rows y0 .. y1-1, and all of the rows from y2 on. */
  datatype Region = Region(x0: int, x1: int, y0: int, y1: int, y2: int) {
    predicate Has(x: int, y: int) { (x0 <= x < x1 && y0 <= y < y1) || y2 <= y }
  }

  ghost predicate Agree(r: Region, p: seq<Row>, q: seq<Row>, width: nat) {
    && |p| == |q| && Sized(p, width) && Sized(q, width)
    && forall y, x :: 0 <= y < |p| && 0 <= x < width && r.Has(x, y) ==> p[y][x] == q[y][x]
  }

  ghost predicate ReadsInside(e: EdgeFilter, s: Step, r: Region) {
    forall x, y :: e.Reads(s, x, y) ==> r.Has(x, y)
  }

  ghost predicate WritesOutside(e: EdgeFilter, s: Step, r: Region) {
    forall x, y :: e.Writes(s, x, y) ==> !r.Has(x, y)
  }

  /** A step taken in both pictures keeps them in agreement if what it reads is known
      to agree, or what it writes does not matter. */
  lemma CommonStep(e: EdgeFilter, s: Step, r: Region, p: seq<Row>, q: seq<Row>)
    requires s.In(e.sh, e.mbW) && e.Covers(s.my, p, 0) && e.Covers(s.my, q, 0) && Agree(r, p, q, e.Width())
    requires ReadsInside(e, s, r) || WritesOutside(e, s, r)
    ensures Agree(r, e.Apply(s, p, 0), e.Apply(s, q, 0), e.Width())
  {
    var p', q' := e.Apply(s, p, 0), e.Apply(s, q, 0);
    if ReadsInside(e, s, r) {
      forall j | 0 <= j < 2 * e.reach ensures e.Read(s, p, 0, j) == e.Read(s, q, 0, j) {
        var x, y := if s.horizontal then s.X(e.sh) else s.X(e.sh) - e.reach + j,
                    if s.horizontal then s.Y(e.sh) - e.reach + j else s.Y(e.sh);
        assert e.Reads(s, x, y);
      }
      assert e.Across(s, p, 0) == e.Across(s, q, 0);
    }
    forall y, x | 0 <= y < |p| && 0 <= x < e.Width() && r.Has(x, y) ensures p'[y][x] == q'[y][x] {
      assert p'[y][x] == e.Pixel(s, p, 0, x, y) && q'[y][x] == e.Pixel(s, q, 0, x, y);
    }
  }

  /** So does a step taken in one of them that writes nothing that matters. */
  lemma LoneStep(e: EdgeFilter, s: Step, r: Region, p: seq<Row>, q: seq<Row>)
    requires s.In(e.sh, e.mbW) && e.Covers(s.my, p, 0) && Agree(r, p, q, e.Width()) && WritesOutside(e, s, r)
    ensures Agree(r, e.Apply(s, p, 0), q, e.Width())
  {
    var p' := e.Apply(s, p, 0);
    forall y, x | 0 <= y < |p| && 0 <= x < e.Width() && r.Has(x, y) ensures p'[y][x] == q[y][x] {
      assert p'[y][x] == e.Pixel(s, p, 0, x, y);
    }
  }

  lemma {:induction false} CommonRun(e: EdgeFilter, steps: seq<Step>, my: nat, r: Region, p: seq<Row>, q: seq<Row>)
    requires e.AllIn(steps, my) && e.Covers(my, p, 0) && e.Covers(my, q, 0) && Agree(r, p, q, e.Width())
    requires forall s :: s in steps ==> ReadsInside(e, s, r) || WritesOutside(e, s, r)
    ensures Agree(r, e.Run(steps, my, p, 0), e.Run(steps, my, q, 0), e.Width())
  {
    hide EdgeFilter.Apply, Agree, ReadsInside, WritesOutside;
    if steps != [] {
      CommonStep(e, steps[0], r, p, q);
      CommonRun(e, steps[1..], my, r, e.Apply(steps[0], p, 0), e.Apply(steps[0], q, 0));
    }
  }

  lemma {:induction false} LoneRun(e: EdgeFilter, steps: seq<Step>, my: nat, r: Region, p: seq<Row>, q: seq<Row>)
    requires e.AllIn(steps, my) && e.Covers(my, p, 0) && Agree(r, p, q, e.Width())
    requires forall s :: s in steps ==> WritesOutside(e, s, r)
    ensures Agree(r, e.Run(steps, my, p, 0), q, e.Width())
  {
    hide EdgeFilter.Apply, Agree, WritesOutside;
    if steps != [] {
      LoneStep(e, steps[0], r, p, q);
      LoneRun(e, steps[1..], my, r, e.Apply(steps[0], p, 0), q);
    }
  }

  // ---- what the two passes agree on ----

  /** The part of the plane where skipping has made no difference after n rows. With
      the complex filter that is everything left of the last column the selected
      macroblocks may spoil, and all that is not filtered yet. */
  function Safe(p: PlaneWork, n: nat): Region {
    var sh, w := p.e.sh, p.w;
    var end := sh.Base(w.MbH());
    var right := if w.BrMbX() == w.MbW() then sh.Base(w.MbW()) else sh.Base(w.BrMbX()) - p.e.touch;
    if w.filter == Complex then
      if n <= w.BrMbY() + 1 then Region(0, right, 0, end, sh.Base(n))
      else Region(0, right, 0, sh.Base(w.BrMbY() + 1) - p.e.touch, end)
    else
      Region(if w.TlMbX() == 0 then 0 else sh.Base(w.TlMbX()) + p.e.touch, right,
             if w.TlMbY() == 0 then 0 else sh.Base(w.TlMbY()) + p.e.touch,
             if w.BrMbY() == w.MbH() then end else sh.Base(w.BrMbY()) - p.e.touch, end)
  }

  /** What is safe later is safe before. */
  lemma SafeShrinks(p: PlaneWork, n: nat, x: int, y: int)
    requires p.Valid() && n < p.w.MbH() && Safe(p, n + 1).Has(x, y)
    ensures Safe(p, n).Has(x, y)
  {
  }

  /** Steps of macroblocks that are not selected spoil nothing. */
  lemma LoneIsOutside(p: PlaneWork, s: Step)
    requires p.Valid() && s.In(p.e.sh, p.e.mbW) && s.my < p.w.MbH() && p.Filters()
    requires !(p.w.TlMbX() <= s.mx < p.w.BrMbX() && p.FilterRow(s.my))
    ensures WritesOutside(p.e, s, Safe(p, s.my + 1))
  {
  }

  /** Selected steps of the simple filter. The border of the safe part is never within
      two pixels of an edge, so what is written inside is read inside. */
  lemma SimpleIsFine(p: PlaneWork, s: Step)
    requires p.Valid() && s.In(p.e.sh, p.e.mbW) && s.my < p.w.MbH() && p.w.filter == Simple && p.Filters()
    ensures ReadsInside(p.e, s, Safe(p, s.my + 1)) || WritesOutside(p.e, s, Safe(p, s.my + 1))
  {
    hide Window.TlMbX, Window.BrMbX, Window.TlMbY, Window.BrMbY;
    var r, x, y := Safe(p, s.my + 1), s.X(p.e.sh), s.Y(p.e.sh);
    if s.horizontal {
      if r.x0 <= x < r.x1 && r.y0 <= y < r.y1 {
        assert r.y0 <= y - 2 && y + 2 <= r.y1;
        assert ReadsInside(p.e, s, r);
      } else {
        assert WritesOutside(p.e, s, r);
      }
    } else {
      if r.x0 <= x < r.x1 && r.y0 <= y < r.y1 {
        assert r.x0 <= x - 2 && x + 2 <= r.x1;
        assert ReadsInside(p.e, s, r);
      } else {
        assert WritesOutside(p.e, s, r);
      }
    }
  }

  /** Selected steps of the complex filter, up to the vertical edges of the last
      selected macroblock of the row: they stay in what was safe before the row. */
  lemma ComplexBefore(p: PlaneWork, s: Step)
    requires p.Valid() && s.In(p.e.sh, p.e.mbW) && p.FilterRow(s.my) && s.my < p.w.MbH() && p.w.filter == Complex
    requires s.mx < p.w.BrMbX() && (s.mx + 1 == p.w.BrMbX() ==> !s.horizontal)
    ensures ReadsInside(p.e, s, Safe(p, s.my))
  {
  }

  /** Its horizontal edges: each stays in its own column. */
  lemma ComplexAfter(p: PlaneWork, s: Step)
    requires p.Valid() && s.In(p.e.sh, p.e.mbW) && p.FilterRow(s.my) && s.my < p.w.MbH() && p.w.filter == Complex
    requires s.mx + 1 == p.w.BrMbX() && s.horizontal
    ensures ReadsInside(p.e, s, Safe(p, s.my + 1)) || WritesOutside(p.e, s, Safe(p, s.my + 1))
  {
  }

  lemma Weaken(r: Region, r': Region, p: seq<Row>, q: seq<Row>, width: nat)
    requires Agree(r, p, q, width)
    requires forall x, y :: 0 <= x < width && 0 <= y < |p| && r'.Has(x, y) ==> r.Has(x, y)
    ensures Agree(r', p, q, width)
  {
  }

  /** A macroblock row that is not filtered at all. */
  lemma RowLeftOut(p: PlaneWork, n: nat, a: seq<Row>, b: seq<Row>)
    requires p.Valid() && p.Filters() && n < p.w.MbH() && |a| == |p.recon| && Agree(Safe(p, n), a, b, p.e.Width())
    requires p.e.Covers(n, a, 0) && p.e.AllIn(RowSteps(p.e.sh, 0, p.w.MbW(), n), n) && !p.FilterRow(n)
    ensures Agree(Safe(p, n + 1), p.e.Run(RowSteps(p.e.sh, 0, p.w.MbW(), n), n, a, 0), b, p.e.Width())
  {
    hide Agree, RowSteps, Safe, EdgeFilter.Run, WritesOutside;
    RowShrinks(p, n, a, b);
    forall s | s in RowSteps(p.e.sh, 0, p.w.MbW(), n) ensures WritesOutside(p.e, s, Safe(p, n + 1)) { LoneIsOutside(p, s); }
    LoneRun(p.e, RowSteps(p.e.sh, 0, p.w.MbW(), n), n, Safe(p, n + 1), a, b);
  }

  lemma RowShrinks(p: PlaneWork, n: nat, a: seq<Row>, b: seq<Row>)
    requires p.Valid() && n < p.w.MbH() && Agree(Safe(p, n), a, b, p.e.Width())
    ensures Agree(Safe(p, n + 1), a, b, p.e.Width())
  {
    hide Safe;
    forall x, y | Safe(p, n + 1).Has(x, y) ensures Safe(p, n).Has(x, y) { SafeShrinks(p, n, x, y); }
    Weaken(Safe(p, n), Safe(p, n + 1), a, b, p.e.Width());
  }

  /** The macroblocks right of the selected ones. */
  lemma RightAgrees(p: PlaneWork, n: nat, a: seq<Row>, b: seq<Row>)
    requires p.Valid() && p.Filters() && n < p.w.MbH() && |a| == |p.recon| && Agree(Safe(p, n + 1), a, b, p.e.Width())
    requires p.e.AllIn(RowSteps(p.e.sh, p.w.BrMbX(), p.w.MbW(), n), n) && p.e.Covers(n, a, 0)
    ensures Agree(Safe(p, n + 1), p.e.Run(RowSteps(p.e.sh, p.w.BrMbX(), p.w.MbW(), n), n, a, 0), b, p.e.Width())
  {
    hide Agree, RowSteps, Safe, EdgeFilter.Run, WritesOutside;
    var steps := RowSteps(p.e.sh, p.w.BrMbX(), p.w.MbW(), n);
    RowStepsIn(p.e, p.w.BrMbX(), p.w.MbW(), n);
    forall s | s in steps ensures WritesOutside(p.e, s, Safe(p, n + 1)) { LoneIsOutside(p, s); }
    LoneRun(p.e, steps, n, Safe(p, n + 1), a, b);
  }

  /** The filter of one macroblock row, whole in `a` and selected in `b`. */
  lemma FilterAgrees(p: PlaneWork, n: nat, a: seq<Row>, b: seq<Row>)
    requires p.Valid() && p.Filters() && n < p.w.MbH() && |a| == |p.recon| && Agree(Safe(p, n), a, b, p.e.Width())
    requires p.e.Covers(n, a, 0) && p.e.Covers(n, b, 0) && p.FilterRow(n)
    requires p.e.AllIn(RowSteps(p.e.sh, 0, p.w.MbW(), n), n)
    requires p.e.AllIn(RowSteps(p.e.sh, p.w.TlMbX(), p.w.BrMbX(), n), n)
    ensures Agree(Safe(p, n + 1), p.e.Run(RowSteps(p.e.sh, 0, p.w.MbW(), n), n, a, 0),
                  p.e.Run(RowSteps(p.e.sh, p.w.TlMbX(), p.w.BrMbX(), n), n, b, 0), p.e.Width())
  {
    hide Agree, RowSteps, Safe, EdgeFilter.Run, EdgeFilter.Covers;
    var e, sh, tl, br, mbW := p.e, p.e.sh, p.w.TlMbX(), p.w.BrMbX(), p.w.MbW();
    RowStepsIn(e, 0, tl, n);
    RowStepsIn(e, br, mbW, n);
    RowStepsIn(e, tl, mbW, n);
    RowStepsSplit(sh, 0, tl, mbW, n);
    RowStepsSplit(sh, tl, br, mbW, n);
    RunConcat(e, RowSteps(sh, 0, tl, n), RowSteps(sh, tl, mbW, n), n, a, 0);
    var a1 := e.Run(RowSteps(sh, 0, tl, n), n, a, 0);
    RunConcat(e, RowSteps(sh, tl, br, n), RowSteps(sh, br, mbW, n), n, a1, 0);
    LeftAgrees(p, n, a, b);
    SelectedAgrees(p, n, a1, b);
    RightAgrees(p, n, e.Run(RowSteps(sh, tl, br, n), n, a1, 0), e.Run(RowSteps(sh, tl, br, n), n, b, 0));
  }

  /** The macroblocks left of the selected ones. */
  lemma LeftAgrees(p: PlaneWork, n: nat, a: seq<Row>, b: seq<Row>)
    requires p.Valid() && p.Filters() && n < p.w.MbH() && |a| == |p.recon| && Agree(Safe(p, n), a, b, p.e.Width())
    requires p.e.AllIn(RowSteps(p.e.sh, 0, p.w.TlMbX(), n), n) && p.e.Covers(n, a, 0)
    ensures Agree(Safe(p, n), p.e.Run(RowSteps(p.e.sh, 0, p.w.TlMbX(), n), n, a, 0), b, p.e.Width())
  {
    var e, sh, tl := p.e, p.e.sh, p.w.TlMbX();
    if p.w.filter == Simple {
      assert Safe(p, n) == Safe(p, n + 1);
      RowStepsIn(e, 0, tl, n);
      forall s | s in RowSteps(sh, 0, tl, n) ensures WritesOutside(e, s, Safe(p, n)) { LoneIsOutside(p, s); }
      LoneRun(e, RowSteps(sh, 0, tl, n), n, Safe(p, n), a, b);
    }
  }

  /** The selected macroblocks of a row. */
  lemma SelectedAgrees(p: PlaneWork, n: nat, a: seq<Row>, b: seq<Row>)
    requires p.Valid() && p.Filters() && n < p.w.MbH() && |a| == |p.recon| && Agree(Safe(p, n), a, b, p.e.Width())
    requires p.FilterRow(n) && p.e.Covers(n, a, 0) && p.e.Covers(n, b, 0)
    requires p.e.AllIn(RowSteps(p.e.sh, p.w.TlMbX(), p.w.BrMbX(), n), n)
    ensures Agree(Safe(p, n + 1), p.e.Run(RowSteps(p.e.sh, p.w.TlMbX(), p.w.BrMbX(), n), n, a, 0),
                  p.e.Run(RowSteps(p.e.sh, p.w.TlMbX(), p.w.BrMbX(), n), n, b, 0), p.e.Width())
  {
    var e, sh, tl, br := p.e, p.e.sh, p.w.TlMbX(), p.w.BrMbX();
    RowStepsIn(e, tl, br, n);
    if p.w.filter == Simple {
      forall s | s in RowSteps(sh, tl, br, n)
        ensures ReadsInside(e, s, Safe(p, n + 1)) || WritesOutside(e, s, Safe(p, n + 1))
      {
        SimpleIsFine(p, s);
      }
      CommonRun(e, RowSteps(sh, tl, br, n), n, Safe(p, n + 1), a, b);
    } else {
      ComplexSelected(p, n, a, b);
    }
  }

  /** With the complex filter: everything but the horizontal edges of the last
      macroblock first, then those. */
  lemma ComplexSelected(p: PlaneWork, n: nat, a: seq<Row>, b: seq<Row>)
    requires p.Valid() && p.w.filter == Complex && n < p.w.MbH() && |a| == |p.recon| && Agree(Safe(p, n), a, b, p.e.Width())
    requires p.FilterRow(n) && p.e.Covers(n, a, 0) && p.e.Covers(n, b, 0)
    requires p.e.AllIn(RowSteps(p.e.sh, 0, p.w.BrMbX(), n), n)
    ensures Agree(Safe(p, n + 1), p.e.Run(RowSteps(p.e.sh, 0, p.w.BrMbX(), n), n, a, 0),
                  p.e.Run(RowSteps(p.e.sh, 0, p.w.BrMbX(), n), n, b, 0), p.e.Width())
  {
    hide Agree, Side, EdgeFilter.Run, EdgeFilter.Covers, ReadsInside, WritesOutside, Safe;
    var e, sh, br := p.e, p.e.sh, p.w.BrMbX();
    var before := RowSteps(sh, 0, br - 1, n) + Side(sh, br - 1, n, false);
    var last := Side(sh, br - 1, n, true);
    RowStepsIn(e, 0, br - 1, n);
    SideIn(e, br - 1, n, false);
    SideIn(e, br - 1, n, true);
    assert RowSteps(sh, 0, br, n) == before + last;
    RunConcat(e, before, last, n, a, 0);
    RunConcat(e, before, last, n, b, 0);
    forall s | s in before ensures ReadsInside(e, s, Safe(p, n)) { ComplexBefore(p, s); }
    CommonRun(e, before, n, Safe(p, n), a, b);
    var a1, b1 := e.Run(before, n, a, 0), e.Run(before, n, b, 0);
    RowShrinks(p, n, a1, b1);
    forall s | s in last
      ensures ReadsInside(e, s, Safe(p, n + 1)) || WritesOutside(e, s, Safe(p, n + 1))
    {
      ComplexAfter(p, s);
    }
    CommonRun(e, last, n, Safe(p, n + 1), a1, b1);
  }

  /** Dithering changes each pixel by itself, and all pixels of the safe part that the
      reference dithers are in selected columns. */
  lemma DitherAgrees(p: PlaneWork, n: nat, a: seq<Row>, b: seq<Row>)
    requires p.Valid() && n < p.w.MbH() && |a| == |p.recon| && Agree(Safe(p, n + 1), a, b, p.e.Width()) && p.dithers
    ensures Agree(Safe(p, n + 1), Dithered(p.e.sh, p.noise, 0, p.w.MbW(), n, a, 0),
                  Dithered(p.e.sh, p.noise, p.w.TlMbX(), p.w.BrMbX(), n, b, 0), p.e.Width())
  {
    var a' := Dithered(p.e.sh, p.noise, 0, p.w.MbW(), n, a, 0);
    var b' := Dithered(p.e.sh, p.noise, p.w.TlMbX(), p.w.BrMbX(), n, b, 0);
    forall y, x | 0 <= y < |a| && 0 <= x < p.e.Width() && Safe(p, n + 1).Has(x, y) ensures a'[y][x] == b'[y][x] {
      assert a[y][x] == b[y][x];
      assert p.e.sh.Base(n) <= y < p.e.sh.Base(n + 1) ==> p.e.sh.Base(p.w.TlMbX()) <= x < p.e.sh.Base(p.w.BrMbX());
    }
  }

  lemma WholeStep(p: PlaneWork, n: nat)
    requires p.Valid() && n < p.w.MbH()
    ensures p.e.Covers(n, p.Whole(n), 0)
    ensures p.Whole(n + 1) == p.RowOn(0, p.w.MbW(), p.Filters(), n, p.Whole(n), 0)
  {
    hide PlaneWork.RowOn;
  }

  /** The reference and the decoder agree on the safe part after every row. */
  lemma {:induction false} SkippingKeepsAgreement(p: PlaneWork, n: nat)
    requires p.Valid() && n <= p.w.MbH()
    ensures Agree(Safe(p, n), p.Whole(n), p.Skipped(n), p.e.Width())
  {
    hide *;
    if n == 0 {
      AgreeAtStart(p);
    } else {
      SkippingKeepsAgreement(p, n - 1);
      AgreeSized(Safe(p, n - 1), p.Whole(n - 1), p.Skipped(n - 1), p.e.Width());
      SkippedStep(p, n - 1);
      WholeStep(p, n - 1);
      RowAgrees(p, n - 1, p.Whole(n - 1), p.Skipped(n - 1));
    }
  }

  lemma AgreeAtStart(p: PlaneWork)
    requires p.Valid()
    ensures Agree(Safe(p, 0), p.Whole(0), p.Skipped(0), p.e.Width())
  {
    hide Safe;
    assert p.Whole(0) == p.recon == p.Skipped(0);
  }

  lemma AgreeSized(r: Region, p: seq<Row>, q: seq<Row>, width: nat)
    requires Agree(r, p, q, width)
    ensures |p| == |q| && Sized(p, width) && Sized(q, width)
  {
  }

  /** One macroblock row of both. */
  lemma RowAgrees(p: PlaneWork, n: nat, a: seq<Row>, b: seq<Row>)
    requires p.Valid() && n < p.w.MbH() && |a| == |p.recon| && Agree(Safe(p, n), a, b, p.e.Width())
    requires p.e.Covers(n, a, 0) && p.e.Covers(n, b, 0)
    ensures Agree(Safe(p, n + 1), p.RowOn(0, p.w.MbW(), p.Filters(), n, a, 0),
                  p.RowOn(p.w.TlMbX(), p.w.BrMbX(), p.FilterRow(n), n, b, 0), p.e.Width())
  {
    hide EdgeFilter.Covers, RowSteps, Dithered, EdgeFilter.Run, Agree;
    RowStepsIn(p.e, 0, p.w.MbW(), n);
    RowStepsIn(p.e, p.w.TlMbX(), p.w.BrMbX(), n);
    var a', b' := a, b;
    if p.Filters() {
      a' := p.e.Run(RowSteps(p.e.sh, 0, p.w.MbW(), n), n, a, 0);
      if p.FilterRow(n) {
        FilterAgrees(p, n, a, b);
        b' := p.e.Run(RowSteps(p.e.sh, p.w.TlMbX(), p.w.BrMbX(), n), n, b, 0);
      } else {
        RowLeftOut(p, n, a, b);
      }
    } else {
      assert Safe(p, n) == Safe(p, n + 1);
    }
    if p.dithers {
      DitherAgrees(p, n, a', b');
    }
  }

  /** The cropping window, in the columns and rows of a plane, is safe. */
  lemma WindowIsSafe(p: PlaneWork, x: int, y: int)
    requires p.Valid()
    requires if p.e.sh.luma then p.w.cropLeft <= x < p.w.cropRight && p.w.cropTop <= y < p.w.cropBottom
             else p.w.cropLeft / 2 <= x < (p.w.cropRight + 1) / 2 && p.w.cropTop / 2 <= y < (p.w.cropBottom + 1) / 2
    ensures Safe(p, p.w.MbH()).Has(x, y) && 0 <= y < p.e.sh.Base(p.w.MbH()) && 0 <= x < p.e.Width()
  {
    var brX, brY := (p.w.cropRight + 15 + p.w.Extra()) / 16, (p.w.cropBottom + 15 + p.w.Extra()) / 16;
    assert 16 * brX >= p.w.cropRight + p.w.Extra();
    assert 16 * brY >= p.w.cropBottom + p.w.Extra();
  }

  /** Doing the work of the selected macroblocks only gives every pixel of the window
      the value it gets from the work on the whole plane. */
  lemma CroppedFilterIsExact(p: PlaneWork, x: int, y: int)
    requires p.Valid()
    requires if p.e.sh.luma then p.w.cropLeft <= x < p.w.cropRight && p.w.cropTop <= y < p.w.cropBottom
             else p.w.cropLeft / 2 <= x < (p.w.cropRight + 1) / 2 && p.w.cropTop / 2 <= y < (p.w.cropBottom + 1) / 2
    ensures 0 <= y < |p.recon| && 0 <= x < p.e.Width() == |p.Skipped(p.w.MbH())[y]|
    ensures p.Skipped(p.w.MbH())[y][x] == p.Whole(p.w.MbH())[y][x]
  {
    hide Safe, PlaneWork.Skipped, PlaneWork.Whole;
    WindowIsSafe(p, x, y);
    SkippingKeepsAgreement(p, p.w.MbH());
  }

  /** The same for the part of a row that lies in the window. */
  lemma CroppedRowIsExact(p: PlaneWork, left: nat, width: nat, r: nat)
    requires p.Valid() && width > 0
    requires if p.e.sh.luma then p.w.cropLeft == left && left + width == p.w.cropRight && p.w.cropTop <= r < p.w.cropBottom
             else p.w.cropLeft / 2 == left && left + width <= (p.w.cropRight + 1) / 2
                  && p.w.cropTop / 2 <= r < (p.w.cropBottom + 1) / 2
    ensures r < |p.recon| && left + width <= |p.Skipped(p.w.MbH())[r]| == |p.Whole(p.w.MbH())[r]|
    ensures p.Skipped(p.w.MbH())[r][left..left + width] == p.Whole(p.w.MbH())[r][left..left + width]
  {
    hide PlaneWork.Skipped, PlaneWork.Whole;
    CroppedFilterIsExact(p, left + width - 1, r);
    var a, b := p.Skipped(p.w.MbH())[r], p.Whole(p.w.MbH())[r];
    forall x | left <= x < left + width ensures a[x] == b[x] {
      CroppedFilterIsExact(p, x, r);
    }
  }
}

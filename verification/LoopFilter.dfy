/** The loop filter and the ditherer taken apart into their elementary steps: one line
    of pixels across one edge, one dithered pixel. A step reads and writes a few
    pixels next to its edge; here is what follows for two pictures that agree on a
    part of the plane only, and for rows that are worked on outside their plane. */
module LoopFilter {
  import opened RowGeometry

  /** One line of one edge: macroblock (mx, my), edge k, line i. Edge 0 is the
      macroblock's own border. A horizontal edge lies between two rows and is
      filtered vertically. */
  datatype Step = Step(mx: nat, my: nat, horizontal: bool, k: nat, i: nat) {
    /** The pixel just right of, or below, the edge. */
    function X(sh: Shape): nat { sh.Base(mx) + if horizontal then i else 4 * k }
    function Y(sh: Shape): nat { sh.Base(my) + if horizontal then 4 * k else i }

    /** Steps DoFilter takes in a plane that is mbW macroblocks wide. */
    predicate In(sh: Shape, mbW: nat) {
      mx < mbW && 4 * k < sh.Unit() && i < sh.Unit() && (k == 0 ==> if horizontal then my > 0 else mx > 0)
    }
  }

  /** DoFilter2, DoFilter4 or DoFilter6 behind NeedsFilter and Hev: the pixels read
      across the edge give the pixels written next to it, here one by one. Strengths
      depend on the macroblock and the edge, so the step is an argument; pixels
      may also stay as they are. */
  type PixelFilter = (Step, seq<int>, nat) -> int

  /** A filter that reads `reach` pixels on each side of an edge and writes `touch`. */
  datatype EdgeFilter = EdgeFilter(sh: Shape, mbW: nat, reach: nat, touch: nat, ker: PixelFilter) {
    predicate Valid() { sh.Valid() && touch <= reach <= 4 && reach <= sh.extra }

    function Width(): nat { sh.Base(mbW) }

    predicate Reads(s: Step, x: int, y: int) {
      if s.horizontal then x == s.X(sh) && s.Y(sh) - reach <= y < s.Y(sh) + reach
      else y == s.Y(sh) && s.X(sh) - reach <= x < s.X(sh) + reach
    }

    predicate Writes(s: Step, x: int, y: int) {
      if s.horizontal then x == s.X(sh) && s.Y(sh) - touch <= y < s.Y(sh) + touch
      else y == s.Y(sh) && s.X(sh) - touch <= x < s.X(sh) + touch
    }

    /** Which of the pixels written this is. */
    function Place(s: Step, x: int, y: int): (j: nat)
      requires Writes(s, x, y)
      ensures j < 2 * touch
    {
      if s.horizontal then y - (s.Y(sh) - touch) else x - (s.X(sh) - touch)
    }

    /** Rows `lo` and up of a plane, `w`, hold everything the filter of macroblock row
        `my` may read. */
    predicate Covers(my: nat, w: seq<Row>, lo: nat) {
      && Valid() && Sized(w, Width())
      && lo + (if my == 0 then 0 else reach) <= sh.Base(my) && sh.Base(my + 1) <= lo + |w|
    }

    /** The pixels read, from left to right or from top to bottom. */
    function Across(s: Step, w: seq<Row>, lo: nat): (v: seq<int>)
      requires s.In(sh, mbW) && Covers(s.my, w, lo)
      ensures |v| == 2 * reach
    {
      seq(2 * reach, j requires 0 <= j < 2 * reach => Read(s, w, lo, j))
    }

    function Read(s: Step, w: seq<Row>, lo: nat, j: nat): int
      requires s.In(sh, mbW) && Covers(s.my, w, lo) && j < 2 * reach
    {
      if s.horizontal then w[s.Y(sh) - reach + j - lo][s.X(sh)] else w[s.Y(sh) - lo][s.X(sh) - reach + j]
    }

    /** The pixel (x, lo + y) after the step. */
    function Pixel(s: Step, w: seq<Row>, lo: nat, x: nat, y: nat): int
      requires s.In(sh, mbW) && Covers(s.my, w, lo) && y < |w| && x < Width()
    {
      if Writes(s, x, lo + y) then ker(s, Across(s, w, lo), Place(s, x, lo + y)) else w[y][x]
    }

    function Apply(s: Step, w: seq<Row>, lo: nat): (r: seq<Row>)
      requires s.In(sh, mbW) && Covers(s.my, w, lo)
      ensures |r| == |w| && Sized(r, Width())
      ensures forall y, x :: 0 <= y < |r| && 0 <= x < Width() ==> r[y][x] == Pixel(s, w, lo, x, y)
    {
      seq(|w|, y requires 0 <= y < |w| => seq(Width(), x requires 0 <= x < Width() => Pixel(s, w, lo, x, y)))
    }

    /** The steps all belong to macroblock row `my`. */
    predicate AllIn(steps: seq<Step>, my: nat) {
      forall s :: s in steps ==> s.my == my && s.In(sh, mbW)
    }

    function Run(steps: seq<Step>, my: nat, w: seq<Row>, lo: nat): (r: seq<Row>)
      requires AllIn(steps, my) && Covers(my, w, lo)
      ensures |r| == |w| && Sized(r, Width())
    {
      if steps == [] then w else Run(steps[1..], my, Apply(steps[0], w, lo), lo)
    }
  }

  predicate Sized(w: seq<Row>, width: nat) {
    forall y :: 0 <= y < |w| ==> |w[y]| == width
  }

  // ---- the order in which the decoder takes the steps ----

  /** VP8HFilter16, VP8VFilter8 and the like: the lines of one edge. */
  function EdgeSteps(sh: Shape, mx: nat, my: nat, horizontal: bool, k: nat): seq<Step> {
    seq(sh.Unit(), i requires 0 <= i < sh.Unit() => Step(mx, my, horizontal, k, i))
  }

  /** Edges `first` .. end-1 of a macroblock in one direction. */
  function SideSteps(sh: Shape, mx: nat, my: nat, horizontal: bool, first: nat, end: nat): seq<Step> {
    if end <= first then []
    else SideSteps(sh, mx, my, horizontal, first, end - 1) + EdgeSteps(sh, mx, my, horizontal, end - 1)
  }

  /** DoFilter, one direction: the border unless it is the picture's, then the inner edges. */
  function Side(sh: Shape, mx: nat, my: nat, horizontal: bool): seq<Step> {
    SideSteps(sh, mx, my, horizontal, if (if horizontal then my else mx) > 0 then 0 else 1, sh.Unit() / 4)
  }

  /** DoFilter. */
  function MbSteps(sh: Shape, mx: nat, my: nat): seq<Step> {
    Side(sh, mx, my, false) + Side(sh, mx, my, true)
  }

  /** FilterRow: macroblocks from .. end-1 of row my. */
  function RowSteps(sh: Shape, from: nat, end: nat, my: nat): seq<Step> {
    if end <= from then [] else RowSteps(sh, from, end - 1, my) + MbSteps(sh, end - 1, my)
  }

  lemma {:induction false} SideStepsIn(e: EdgeFilter, mx: nat, my: nat, horizontal: bool, first: nat, end: nat)
    requires mx < e.mbW && 4 * end <= e.sh.Unit() && (first == 0 ==> if horizontal then my > 0 else mx > 0)
    ensures e.AllIn(SideSteps(e.sh, mx, my, horizontal, first, end), my)
    ensures forall s :: s in SideSteps(e.sh, mx, my, horizontal, first, end) ==> s.mx == mx && s.horizontal == horizontal
    decreases end
  {
    if first < end {
      SideStepsIn(e, mx, my, horizontal, first, end - 1);
    }
  }

  lemma SideIn(e: EdgeFilter, mx: nat, my: nat, horizontal: bool)
    requires mx < e.mbW
    ensures e.AllIn(Side(e.sh, mx, my, horizontal), my)
    ensures forall s :: s in Side(e.sh, mx, my, horizontal) ==> s.mx == mx && s.horizontal == horizontal
  {
    SideStepsIn(e, mx, my, horizontal, if (if horizontal then my else mx) > 0 then 0 else 1, e.sh.Unit() / 4);
  }

  lemma MbStepsIn(e: EdgeFilter, mx: nat, my: nat)
    requires mx < e.mbW
    ensures e.AllIn(MbSteps(e.sh, mx, my), my)
    ensures forall s :: s in MbSteps(e.sh, mx, my) ==> s.mx == mx
  {
    hide Side;
    SideIn(e, mx, my, false);
    SideIn(e, mx, my, true);
  }

  lemma {:induction false} RowStepsIn(e: EdgeFilter, from: nat, end: nat, my: nat)
    requires end <= e.mbW
    ensures e.AllIn(RowSteps(e.sh, from, end, my), my)
    ensures forall s :: s in RowSteps(e.sh, from, end, my) ==> from <= s.mx < end
    decreases end
  {
    hide MbSteps;
    if from < end {
      RowStepsIn(e, from, end - 1, my);
      MbStepsIn(e, end - 1, my);
    }
  }

  lemma {:induction false} RowStepsSplit(sh: Shape, from: nat, mid: nat, end: nat, my: nat)
    requires from <= mid <= end
    ensures RowSteps(sh, from, end, my) == RowSteps(sh, from, mid, my) + RowSteps(sh, mid, end, my)
    decreases end
  {
    hide MbSteps;
    if mid < end {
      RowStepsSplit(sh, from, mid, end - 1, my);
    }
  }

  lemma {:induction false} RunConcat(e: EdgeFilter, a: seq<Step>, b: seq<Step>, my: nat, w: seq<Row>, lo: nat)
    requires e.AllIn(a, my) && e.AllIn(b, my) && e.Covers(my, w, lo)
    ensures e.AllIn(a + b, my) && e.Covers(my, e.Run(a, my, w, lo), lo)
    ensures e.Run(a + b, my, w, lo) == e.Run(b, my, e.Run(a, my, w, lo), lo)
  {
    hide EdgeFilter.Apply;
    if a == [] {
      assert a + b == b;
    } else {
      RunConcat(e, a[1..], b, my, e.Apply(a[0], w, lo), lo);
      assert a + b == [a[0]] + (a[1..] + b);
      assert (a + b)[1..] == a[1..] + b;
    }
  }

  lemma RunOne(e: EdgeFilter, s: Step, my: nat, w: seq<Row>, lo: nat)
    requires s.my == my && s.In(e.sh, e.mbW) && e.Covers(my, w, lo)
    ensures e.AllIn([s], my) && e.Run([s], my, w, lo) == e.Apply(s, w, lo)
  {
    hide EdgeFilter.Apply;
    var steps := [s];
    assert steps[1..] == [];
    assert e.Run(steps[1..], my, e.Apply(s, w, lo), lo) == e.Apply(s, w, lo);
  }

  // ---- dithering ----

  /** VP8DitherCombine8x8 on one pixel: its row, its column and its value before. */
  type Noise = (nat, nat, int) -> int

  /** The pixel (x, lo + y) after DitherRow ran over the macroblocks from .. end-1 of row my. */
  function DitheredPixel(sh: Shape, noise: Noise, from: nat, end: nat, my: nat, w: seq<Row>, lo: nat, x: nat, y: nat): int
    requires y < |w| && x < |w[y]|
  {
    if sh.Base(my) <= lo + y < sh.Base(my + 1) && sh.Base(from) <= x < sh.Base(end) then noise(lo + y, x, w[y][x])
    else w[y][x]
  }

  function Dithered(sh: Shape, noise: Noise, from: nat, end: nat, my: nat, w: seq<Row>, lo: nat): (r: seq<Row>)
    ensures |r| == |w|
    ensures forall y :: 0 <= y < |w| ==> |r[y]| == |w[y]|
    ensures forall y, x :: 0 <= y < |w| && 0 <= x < |w[y]| ==>
              r[y][x] == DitheredPixel(sh, noise, from, end, my, w, lo, x, y)
  {
    seq(|w|, y requires 0 <= y < |w| =>
      seq(|w[y]|, x requires 0 <= x < |w[y]| => DitheredPixel(sh, noise, from, end, my, w, lo, x, y)))
  }

  // ---- a window of the plane is enough ----

  /** Working on rows lo .. hi-1 of a plane is working on the plane. */
  ghost function Patch(pic: seq<Row>, lo: nat, hi: nat, rows: seq<Row>): (r: seq<Row>)
    requires lo <= hi <= |pic| && |rows| == hi - lo
    ensures |r| == |pic|
  {
    pic[..lo] + rows + pic[hi..]
  }

  lemma ApplyInWindow(e: EdgeFilter, s: Step, pic: seq<Row>, lo: nat, hi: nat)
    requires lo <= hi <= |pic| && s.In(e.sh, e.mbW) && Sized(pic, e.Width()) && e.Covers(s.my, pic[lo..hi], lo)
    ensures e.Covers(s.my, pic, 0)
    ensures e.Apply(s, pic, 0) == Patch(pic, lo, hi, e.Apply(s, pic[lo..hi], lo))
  {
    var w := pic[lo..hi];
    forall j | 0 <= j < 2 * e.reach ensures e.Read(s, pic, 0, j) == e.Read(s, w, lo, j) {
    }
    assert e.Across(s, pic, 0) == e.Across(s, w, lo);
    var a, b := e.Apply(s, pic, 0), Patch(pic, lo, hi, e.Apply(s, w, lo));
    forall y | 0 <= y < |pic| ensures a[y] == b[y] {
      forall x | 0 <= x < e.Width() ensures a[y][x] == b[y][x] {
        if lo <= y < hi {
          assert e.Pixel(s, pic, 0, x, y) == e.Pixel(s, w, lo, x, y - lo);
        }
      }
    }
  }

  lemma {:induction false} RunInWindow(e: EdgeFilter, steps: seq<Step>, my: nat, pic: seq<Row>, lo: nat, hi: nat)
    requires lo <= hi <= |pic| && e.AllIn(steps, my) && Sized(pic, e.Width()) && e.Covers(my, pic[lo..hi], lo)
    ensures e.Covers(my, pic, 0)
    ensures e.Run(steps, my, pic, 0) == Patch(pic, lo, hi, e.Run(steps, my, pic[lo..hi], lo))
  {
    hide EdgeFilter.Apply;
    if steps != [] {
      ApplyInWindow(e, steps[0], pic, lo, hi);
      var w := e.Apply(steps[0], pic[lo..hi], lo);
      var next := Patch(pic, lo, hi, w);
      assert next[lo..hi] == w;
      RunInWindow(e, steps[1..], my, next, lo, hi);
      assert Patch(next, lo, hi, e.Run(steps[1..], my, w, lo)) == Patch(pic, lo, hi, e.Run(steps[1..], my, w, lo));
    }
  }

  // ---- the loops of FilterRow and DitherRow, in place ----

  /** Rows `at` and up of a buffer are the rows `w`. */
  ghost predicate Holds(rows: array<Row>, at: nat, w: seq<Row>)
    reads rows
  {
    at + |w| <= rows.Length && forall y :: 0 <= y < |w| ==> rows[at + y] == w[y]
  }

  /** No other rows changed. */
  twostate predicate Beside(rows: array<Row>, at: nat, count: nat)
    reads rows
  {
    forall y :: 0 <= y < rows.Length && !(at <= y < at + count) ==> rows[y] == old(rows[y])
  }

  /** The pixels of a step, of which the first j are written. */
  ghost function Partly(e: EdgeFilter, s: Step, w: seq<Row>, lo: nat, j: nat): (r: seq<Row>)
    requires s.In(e.sh, e.mbW) && e.Covers(s.my, w, lo) && j <= 2 * e.touch
    ensures |r| == |w| && Sized(r, e.Width())
    ensures forall y, x :: 0 <= y < |w| && 0 <= x < e.Width() ==>
              r[y][x] == if e.Writes(s, x, lo + y) && e.Place(s, x, lo + y) < j then e.Pixel(s, w, lo, x, y) else w[y][x]
  {
    seq(|w|, y requires 0 <= y < |w| => seq(e.Width(), x requires 0 <= x < e.Width() =>
      if e.Writes(s, x, lo + y) && e.Place(s, x, lo + y) < j then e.Pixel(s, w, lo, x, y) else w[y][x]))
  }

  lemma PartlyNone(e: EdgeFilter, s: Step, w: seq<Row>, lo: nat)
    requires s.In(e.sh, e.mbW) && e.Covers(s.my, w, lo)
    ensures Partly(e, s, w, lo, 0) == w
  {
    var r := Partly(e, s, w, lo, 0);
    forall y | 0 <= y < |w| ensures r[y] == w[y] {
    }
  }

  lemma PartlyAll(e: EdgeFilter, s: Step, w: seq<Row>, lo: nat)
    requires s.In(e.sh, e.mbW) && e.Covers(s.my, w, lo)
    ensures Partly(e, s, w, lo, 2 * e.touch) == e.Apply(s, w, lo)
  {
    var r, all := Partly(e, s, w, lo, 2 * e.touch), e.Apply(s, w, lo);
    forall y | 0 <= y < |w| ensures r[y] == all[y] {
    }
  }

  /** Writing the next pixel, in row y and column x. */
  lemma PartlyNext(e: EdgeFilter, s: Step, w: seq<Row>, lo: nat, j: nat, x: nat, y: nat)
    requires s.In(e.sh, e.mbW) && e.Covers(s.my, w, lo) && y < |w| && x < e.Width()
    requires e.Writes(s, x, lo + y) && e.Place(s, x, lo + y) == j
    ensures var now := Partly(e, s, w, lo, j);
            Partly(e, s, w, lo, j + 1) == now[y := now[y][x := e.ker(s, e.Across(s, w, lo), j)]]
  {
    var now := Partly(e, s, w, lo, j);
    var a, b := Partly(e, s, w, lo, j + 1), now[y := now[y][x := e.ker(s, e.Across(s, w, lo), j)]];
    forall y' | 0 <= y' < |w| ensures a[y'] == b[y'] {
      forall x' | 0 <= x' < e.Width() ensures a[y'][x'] == b[y'][x'] {
        assert x' != x || y' != y ==> !e.Writes(s, x', lo + y') || e.Place(s, x', lo + y') != j;
      }
    }
  }

  /** The pixels on both sides of one line of an edge. */
  method ReadLine(e: EdgeFilter, s: Step, rows: array<Row>, at: nat, lo: nat, ghost w: seq<Row>) returns (v: seq<int>)
    requires s.In(e.sh, e.mbW) && e.Covers(s.my, w, lo) && Holds(rows, at, w)
    ensures v == e.Across(s, w, lo)
  {
    var x, y := s.X(e.sh), s.Y(e.sh);
    v := [];
    for j := 0 to 2 * e.reach
      invariant |v| == j && forall i :: 0 <= i < j ==> v[i] == e.Read(s, w, lo, i)
    {
      var x', y' := if s.horizontal then x else x - e.reach + j, if s.horizontal then y - e.reach + j - lo else y - lo;
      assert rows[at + y'] == w[y'] && w[y'][x'] == e.Read(s, w, lo, j);
      v := v + [rows[at + y'][x']];
    }
  }

  method SetPixel(rows: array<Row>, at: nat, ghost w: seq<Row>, x: nat, y: nat, v: int)
    requires Holds(rows, at, w) && y < |w| && x < |w[y]|
    modifies rows
    ensures Holds(rows, at, w[y := w[y][x := v]]) && Beside(rows, at, |w|)
  {
    assert rows[at + y] == w[y];
    rows[at + y] := rows[at + y][x := v];
  }

  /** NeedsFilter, DoFilter2 and the like on one line of an edge. */
  method FilterLine(e: EdgeFilter, s: Step, rows: array<Row>, at: nat, lo: nat, ghost w: seq<Row>)
    requires s.In(e.sh, e.mbW) && e.Covers(s.my, w, lo) && Holds(rows, at, w)
    modifies rows
    ensures Holds(rows, at, e.Apply(s, w, lo)) && Beside(rows, at, |w|)
  {
    hide Partly, EdgeFilter.Apply, EdgeFilter.Across;
    var v := ReadLine(e, s, rows, at, lo, w);
    var x, y := s.X(e.sh), s.Y(e.sh);
    PartlyNone(e, s, w, lo);
    for j := 0 to 2 * e.touch
      invariant Holds(rows, at, Partly(e, s, w, lo, j)) && Beside(rows, at, |w|)
    {
      var x', y' := if s.horizontal then x else x - e.touch + j, if s.horizontal then y - e.touch + j - lo else y - lo;
      ghost var now := Partly(e, s, w, lo, j);
      PartlyNext(e, s, w, lo, j, x', y');
      assert rows[at + y'] == now[y'];
      SetPixel(rows, at, now, x', y', e.ker(s, v, j));
    }
    PartlyAll(e, s, w, lo);
  }

  /** All lines of one edge. */
  method FilterEdge(e: EdgeFilter, mx: nat, my: nat, horizontal: bool, k: nat,
                    rows: array<Row>, at: nat, lo: nat, ghost w: seq<Row>)
    requires mx < e.mbW && 4 * k < e.sh.Unit() && (k == 0 ==> if horizontal then my > 0 else mx > 0)
    requires e.Covers(my, w, lo) && Holds(rows, at, w)
    modifies rows
    ensures e.AllIn(EdgeSteps(e.sh, mx, my, horizontal, k), my)
    ensures Holds(rows, at, e.Run(EdgeSteps(e.sh, mx, my, horizontal, k), my, w, lo)) && Beside(rows, at, |w|)
  {
    hide EdgeFilter.Apply, EdgeFilter.Run;
    ghost var steps := EdgeSteps(e.sh, mx, my, horizontal, k);
    RunNone(e, my, w, lo);
    assert steps[..0] == [];
    for i := 0 to e.sh.Unit()
      invariant e.AllIn(steps[..i], my)
      invariant Holds(rows, at, e.Run(steps[..i], my, w, lo)) && Beside(rows, at, |w|)
    {
      var s := Step(mx, my, horizontal, k, i);
      FilterLine(e, s, rows, at, lo, e.Run(steps[..i], my, w, lo));
      RunSnoc(e, steps[..i], s, my, w, lo);
      assert steps[..i + 1] == steps[..i] + [s];
    }
    assert steps[..|steps|] == steps;
  }

  lemma RunNone(e: EdgeFilter, my: nat, w: seq<Row>, lo: nat)
    requires e.Covers(my, w, lo)
    ensures e.Run([], my, w, lo) == w
  {
  }

  lemma RunSnoc(e: EdgeFilter, a: seq<Step>, s: Step, my: nat, w: seq<Row>, lo: nat)
    requires e.AllIn(a, my) && s.my == my && s.In(e.sh, e.mbW) && e.Covers(my, w, lo)
    ensures e.AllIn(a + [s], my) && e.Covers(my, e.Run(a, my, w, lo), lo)
    ensures e.Run(a + [s], my, w, lo) == e.Apply(s, e.Run(a, my, w, lo), lo)
  {
    hide EdgeFilter.Apply, EdgeFilter.Run;
    RunConcat(e, a, [s], my, w, lo);
    RunOne(e, s, my, e.Run(a, my, w, lo), lo);
  }

  /** The edges of a macroblock in one direction: its border, unless it is the
      picture's, then the inner ones. */
  method FilterSide(e: EdgeFilter, mx: nat, my: nat, horizontal: bool, rows: array<Row>, at: nat, lo: nat, ghost w: seq<Row>)
    requires mx < e.mbW && e.Covers(my, w, lo) && Holds(rows, at, w)
    modifies rows
    ensures e.AllIn(Side(e.sh, mx, my, horizontal), my)
    ensures Holds(rows, at, e.Run(Side(e.sh, mx, my, horizontal), my, w, lo)) && Beside(rows, at, |w|)
  {
    hide EdgeFilter.Run, EdgeSteps;
    var first := if (if horizontal then my else mx) > 0 then 0 else 1;
    RunNone(e, my, w, lo);
    for k := first to e.sh.Unit() / 4
      invariant e.AllIn(SideSteps(e.sh, mx, my, horizontal, first, k), my)
      invariant Holds(rows, at, e.Run(SideSteps(e.sh, mx, my, horizontal, first, k), my, w, lo)) && Beside(rows, at, |w|)
    {
      ghost var now := e.Run(SideSteps(e.sh, mx, my, horizontal, first, k), my, w, lo);
      FilterEdge(e, mx, my, horizontal, k, rows, at, lo, now);
      RunConcat(e, SideSteps(e.sh, mx, my, horizontal, first, k), EdgeSteps(e.sh, mx, my, horizontal, k), my, w, lo);
    }
  }

  /** DoFilter. */
  method DoFilter(e: EdgeFilter, mx: nat, my: nat, rows: array<Row>, at: nat, lo: nat, ghost w: seq<Row>)
    requires mx < e.mbW && e.Covers(my, w, lo) && Holds(rows, at, w)
    modifies rows
    ensures e.AllIn(MbSteps(e.sh, mx, my), my)
    ensures Holds(rows, at, e.Run(MbSteps(e.sh, mx, my), my, w, lo)) && Beside(rows, at, |w|)
  {
    hide EdgeFilter.Run, Side;
    FilterSide(e, mx, my, false, rows, at, lo, w);
    FilterSide(e, mx, my, true, rows, at, lo, e.Run(Side(e.sh, mx, my, false), my, w, lo));
    RunConcat(e, Side(e.sh, mx, my, false), Side(e.sh, mx, my, true), my, w, lo);
  }

  /** FilterRow: macroblocks from .. end-1 of row my. */
  method FilterRow(e: EdgeFilter, from: nat, end: nat, my: nat, rows: array<Row>, at: nat, lo: nat, ghost w: seq<Row>)
    requires from <= end <= e.mbW && e.Covers(my, w, lo) && Holds(rows, at, w)
    modifies rows
    ensures e.AllIn(RowSteps(e.sh, from, end, my), my)
    ensures Holds(rows, at, e.Run(RowSteps(e.sh, from, end, my), my, w, lo)) && Beside(rows, at, |w|)
  {
    hide EdgeFilter.Run, MbSteps;
    RunNone(e, my, w, lo);
    for mx := from to end
      invariant e.AllIn(RowSteps(e.sh, from, mx, my), my)
      invariant Holds(rows, at, e.Run(RowSteps(e.sh, from, mx, my), my, w, lo)) && Beside(rows, at, |w|)
    {
      DoFilter(e, mx, my, rows, at, lo, e.Run(RowSteps(e.sh, from, mx, my), my, w, lo));
      RunConcat(e, RowSteps(e.sh, from, mx, my), MbSteps(e.sh, mx, my), my, w, lo);
    }
  }

  /** Dither8x8 and VP8DitherCombine8x8: the block of a macroblock in a chroma plane. */
  method DitherBlock(sh: Shape, noise: Noise, mx: nat, my: nat, rows: array<Row>, at: nat, lo: nat, ghost w: seq<Row>)
    requires !sh.luma && lo <= sh.Base(my) && sh.Base(my + 1) <= lo + |w| && Holds(rows, at, w)
    requires forall y :: sh.Base(my) - lo <= y < sh.Base(my + 1) - lo ==> sh.Base(mx + 1) <= |w[y]|
    modifies rows
    ensures Holds(rows, at, Dithered(sh, noise, mx, mx + 1, my, w, lo)) && Beside(rows, at, |w|)
  {
    hide Dithered;
    ghost var all := Dithered(sh, noise, mx, mx + 1, my, w, lo);
    var first := sh.Base(my) - lo;
    forall y | 0 <= y < |w| && !(first <= y < first + 8) ensures all[y] == w[y] {
    }
    for j := 0 to 8
      invariant forall y :: 0 <= y < |w| ==> rows[at + y] == if first <= y < first + j then all[y] else w[y]
      invariant Beside(rows, at, |w|)
    {
      assert rows[at + (first + j)] == w[first + j];
      DitherLine(sh, noise, mx, rows, at + (first + j), sh.Base(my) + j);
      assert rows[at + (first + j)] == all[first + j];
    }
  }

  /** One row of a block; y is the row of the plane that buffer row `at` holds. */
  method DitherLine(sh: Shape, noise: Noise, mx: nat, rows: array<Row>, at: nat, y: nat)
    requires !sh.luma && at < rows.Length && sh.Base(mx + 1) <= |rows[at]|
    modifies rows
    ensures |rows[at]| == |old(rows[at])|
    ensures forall x :: 0 <= x < |rows[at]| ==>
              rows[at][x] == if sh.Base(mx) <= x < sh.Base(mx + 1) then noise(y, x, old(rows[at])[x]) else old(rows[at])[x]
    ensures Beside(rows, at, 1)
  {
    var x0 := sh.Base(mx);
    for i := 0 to 8
      invariant |rows[at]| == |old(rows[at])| && Beside(rows, at, 1)
      invariant forall x :: 0 <= x < |rows[at]| ==>
                  rows[at][x] == if x0 <= x < x0 + i then noise(y, x, old(rows[at])[x]) else old(rows[at])[x]
    {
      rows[at] := rows[at][x0 + i := noise(y, x0 + i, rows[at][x0 + i])];
    }
  }

  lemma DitheredNone(sh: Shape, noise: Noise, from: nat, my: nat, w: seq<Row>, lo: nat)
    ensures Dithered(sh, noise, from, from, my, w, lo) == w
  {
    var r := Dithered(sh, noise, from, from, my, w, lo);
    forall y | 0 <= y < |w| ensures r[y] == w[y] {
    }
  }

  lemma DitheredMore(sh: Shape, noise: Noise, from: nat, end: nat, my: nat, w: seq<Row>, lo: nat)
    requires from <= end
    ensures Dithered(sh, noise, from, end + 1, my, w, lo)
         == Dithered(sh, noise, end, end + 1, my, Dithered(sh, noise, from, end, my, w, lo), lo)
  {
    var a := Dithered(sh, noise, from, end + 1, my, w, lo);
    var b := Dithered(sh, noise, end, end + 1, my, Dithered(sh, noise, from, end, my, w, lo), lo);
    forall y | 0 <= y < |w| ensures a[y] == b[y] {
    }
  }

  /** DitherRow, one plane: macroblocks from .. end-1 of row my. */
  method DitherRow(sh: Shape, noise: Noise, from: nat, end: nat, my: nat, rows: array<Row>, at: nat, lo: nat, ghost w: seq<Row>)
    requires !sh.luma && from <= end && lo <= sh.Base(my) && sh.Base(my + 1) <= lo + |w| && Holds(rows, at, w)
    requires forall y :: 0 <= y < |w| ==> sh.Base(end) <= |w[y]|
    modifies rows
    ensures Holds(rows, at, Dithered(sh, noise, from, end, my, w, lo)) && Beside(rows, at, |w|)
  {
    DitheredNone(sh, noise, from, my, w, lo);
    for mx := from to end
      invariant Holds(rows, at, Dithered(sh, noise, from, mx, my, w, lo)) && Beside(rows, at, |w|)
    {
      DitherBlock(sh, noise, mx, my, rows, at, lo, Dithered(sh, noise, from, mx, my, w, lo));
      DitheredMore(sh, noise, from, mx, my, w, lo);
    }
  }
}

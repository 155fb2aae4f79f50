/** Which edges the loop filter takes, in which order, and what one step does to the
    plane, in plain numbers: macroblocks from left to right; in each all vertical edges
    before the horizontal ones; the border with the macroblock before, unless there is
    none, and then the inner edges; each line of an edge once. */
module FilterOrder {
  import opened CropFilter
  import opened LoopFilter
  import opened RowGeometry

  /** Step a comes before step b. */
  predicate Before(a: Step, b: Step) {
    || a.mx < b.mx
    || (a.mx == b.mx && !a.horizontal && b.horizontal)
    || (a.mx == b.mx && a.horizontal == b.horizontal && (a.k < b.k || (a.k == b.k && a.i < b.i)))
  }

  ghost predicate Ordered(steps: seq<Step>) {
    forall i, j :: 0 <= i < j < |steps| ==> Before(steps[i], steps[j])
  }

  /** A step of macroblock row my, in columns from .. end-1: edge k lies 4 * k pixels
      inside the macroblock, and edge 0 has a macroblock on its other side. */
  predicate IsStep(luma: bool, from: nat, end: nat, my: nat, s: Step) {
    var unit := if luma then 16 else 8;
    && s.my == my && from <= s.mx < end && 4 * s.k < unit && s.i < unit
    && (s.k == 0 ==> if s.horizontal then my > 0 else s.mx > 0)
  }

  lemma OrderedConcat(a: seq<Step>, b: seq<Step>)
    requires Ordered(a) && Ordered(b) && forall s, t :: s in a && t in b ==> Before(s, t)
    ensures Ordered(a + b)
  {
    var c := a + b;
    forall i, j | 0 <= i < j < |c| ensures Before(c[i], c[j]) {
      if i < |a| <= j {
        assert c[i] in a && c[j] in b;
      }
    }
  }

  lemma {:induction false} SideStepsExactly(sh: Shape, mx: nat, my: nat, horizontal: bool, first: nat, end: nat)
    ensures Ordered(SideSteps(sh, mx, my, horizontal, first, end))
    ensures forall s :: s in SideSteps(sh, mx, my, horizontal, first, end) <==>
              s.mx == mx && s.my == my && s.horizontal == horizontal && first <= s.k < end && s.i < sh.Unit()
    decreases end
  {
    if first < end {
      SideStepsExactly(sh, mx, my, horizontal, first, end - 1);
      var edge := EdgeSteps(sh, mx, my, horizontal, end - 1);
      forall s: Step | s.mx == mx && s.my == my && s.horizontal == horizontal && s.k == end - 1 && s.i < sh.Unit() ensures s in edge {
        assert edge[s.i] == s;
      }
      OrderedConcat(SideSteps(sh, mx, my, horizontal, first, end - 1), edge);
    }
  }

  lemma MbStepsExactly(sh: Shape, mx: nat, my: nat)
    ensures Ordered(MbSteps(sh, mx, my))
    ensures forall s :: s in MbSteps(sh, mx, my) <==> IsStep(sh.luma, mx, mx + 1, my, s)
  {
    hide SideSteps, Ordered;
    SideStepsExactly(sh, mx, my, false, if mx > 0 then 0 else 1, sh.Unit() / 4);
    SideStepsExactly(sh, mx, my, true, if my > 0 then 0 else 1, sh.Unit() / 4);
    OrderedConcat(Side(sh, mx, my, false), Side(sh, mx, my, true));
  }

  /** The steps that FilterRow takes for macroblocks from .. end-1 of row my: all the
      edges there are, in order. */
  lemma {:induction false} RowStepsExactly(sh: Shape, from: nat, end: nat, my: nat)
    ensures Ordered(RowSteps(sh, from, end, my))
    ensures forall s :: s in RowSteps(sh, from, end, my) <==> IsStep(sh.luma, from, end, my, s)
    decreases end
  {
    hide MbSteps, Ordered;
    if from < end {
      RowStepsExactly(sh, from, end - 1, my);
      MbStepsExactly(sh, end - 1, my);
      OrderedConcat(RowSteps(sh, from, end - 1, my), MbSteps(sh, end - 1, my));
    }
    assert end <= from ==> RowSteps(sh, from, end, my) == [] && Ordered([]) by { NothingIsOrdered(); }
  }

  lemma NothingIsOrdered()
    ensures Ordered([])
  {
  }

  /** Each of them occurs once. */
  lemma EachStepOnce(sh: Shape, from: nat, end: nat, my: nat, i: nat, j: nat)
    requires i < |RowSteps(sh, from, end, my)| && j < |RowSteps(sh, from, end, my)|
    requires RowSteps(sh, from, end, my)[i] == RowSteps(sh, from, end, my)[j]
    ensures i == j
  {
    RowStepsExactly(sh, from, end, my);
  }

  /** These two facts leave no choice: any list with the same steps in this order is
      the list taken. */
  lemma {:induction false} OrderDecides(a: seq<Step>, b: seq<Step>)
    requires Ordered(a) && Ordered(b) && forall s :: s in a <==> s in b
    ensures a == b
  {
    if a == [] {
      if b != [] { HasStep(b); }
    } else {
      assert a[0] in b;
      assert b[0] in a;
      FirstIsFirst(a, b);
      forall s | s in a[1..] ensures s in b[1..] {
        InRest(a, b, s);
      }
      forall s | s in b[1..] ensures s in a[1..] {
        InRest(b, a, s);
      }
      OrderDecides(a[1..], b[1..]);
    }
  }

  lemma HasStep(steps: seq<Step>)
    requires steps != []
    ensures exists s :: s in steps
  {
    assert steps[0] in steps;
  }

  lemma FirstIsFirst(a: seq<Step>, b: seq<Step>)
    requires Ordered(a) && Ordered(b) && a != [] && b != [] && a[0] in b && b[0] in a
    ensures a[0] == b[0]
  {
    var j :| 0 <= j < |b| && b[j] == a[0];
    var i :| 0 <= i < |a| && a[i] == b[0];
    assert i > 0 ==> Before(a[0], b[0]);
    assert j > 0 ==> Before(b[0], a[0]);
  }

  lemma InRest(a: seq<Step>, b: seq<Step>, s: Step)
    requires Ordered(a) && a != [] && b != [] && a[0] == b[0] && s in a[1..] && s in b
    ensures s in b[1..]
  {
    var i :| 0 < i < |a| && a[i] == s;
    assert Before(a[0], s);
    var j :| 0 <= j < |b| && b[j] == s;
    assert b[1..][j - 1] == s;
  }

  /** Steps are taken one after the other. */
  lemma TakenInOrder(e: EdgeFilter, steps: seq<Step>, s: Step, my: nat, w: seq<Row>, lo: nat)
    requires e.AllIn(steps, my) && s.my == my && s.In(e.sh, e.mbW) && e.Covers(my, w, lo)
    ensures e.AllIn(steps + [s], my) && e.Covers(my, e.Run(steps, my, w, lo), lo)
    ensures e.Run([], my, w, lo) == w
    ensures e.Run(steps + [s], my, w, lo) == e.Apply(s, e.Run(steps, my, w, lo), lo)
  {
    RunNone(e, my, w, lo);
    RunSnoc(e, steps, s, my, w, lo);
  }

  /** A step on a vertical edge, in terms of the filter. */
  lemma VerticalStep(e: EdgeFilter, s: Step, pic: seq<Row>, x: nat, y: nat)
    requires s.In(e.sh, e.mbW) && e.Covers(s.my, pic, 0) && y < |pic| && x < e.Width() && !s.horizontal
    ensures var unit := if e.sh.luma then 16 else 8;
            var edge, line := unit * s.mx + 4 * s.k, unit * s.my + s.i;
            && e.reach <= edge && line < |pic| && edge + e.reach <= |pic[line]|
            && e.Apply(s, pic, 0)[y][x] ==
                 if y == line && edge - e.touch <= x < edge + e.touch
                 then e.ker(s, pic[line][edge - e.reach..edge + e.reach], x - (edge - e.touch)) else pic[y][x]
  {
    var unit := if e.sh.luma then 16 else 8;
    var edge, line := unit * s.mx + 4 * s.k, unit * s.my + s.i;
    assert e.Across(s, pic, 0) == pic[line][edge - e.reach..edge + e.reach];
  }

  lemma HorizontalStep(e: EdgeFilter, s: Step, pic: seq<Row>, x: nat, y: nat)
    requires s.In(e.sh, e.mbW) && e.Covers(s.my, pic, 0) && y < |pic| && x < e.Width() && s.horizontal
    ensures var unit := if e.sh.luma then 16 else 8;
            var edge, line := unit * s.my + 4 * s.k, unit * s.mx + s.i;
            && e.reach <= edge && edge + e.reach <= |pic| && line < e.Width()
            && e.Apply(s, pic, 0)[y][x] ==
                 if x == line && edge - e.touch <= y < edge + e.touch
                 then e.ker(s, Column(pic, line, edge - e.reach, 2 * e.reach), y - (edge - e.touch)) else pic[y][x]
  {
    var unit := if e.sh.luma then 16 else 8;
    var edge, line := unit * s.my + 4 * s.k, unit * s.mx + s.i;
    assert e.Across(s, pic, 0) == Column(pic, line, edge - e.reach, 2 * e.reach);
  }

  /** Pixels of column x, from row `top` on. */
  function Column(pic: seq<Row>, x: nat, top: nat, count: nat): (v: seq<int>)
    requires top + count <= |pic| && forall y :: top <= y < top + count ==> x < |pic[y]|
    ensures |v| == count && forall j :: 0 <= j < count ==> v[j] == pic[top + j][x]
  {
    seq(count, j requires 0 <= j < count => pic[top + j][x])
  }

  /** What a step on a vertical edge does to the whole plane. The complex filter reads
      four pixels on each side and writes three, the simple one reads two and writes
      one. */
  lemma VerticalEdge(p: PlaneWork, s: Step, pic: seq<Row>, x: nat, y: nat)
    requires p.Valid() && (p.w.filter == Complex || (p.w.filter == Simple && p.e.sh.luma)) && !s.horizontal
    requires s.In(p.e.sh, p.e.mbW) && p.e.Covers(s.my, pic, 0) && y < |pic| && x < p.e.Width()
    ensures var unit := if p.e.sh.luma then 16 else 8;
            var far, near := if p.w.filter == Complex then 4 else 2, if p.w.filter == Complex then 3 else 1;
            var edge, line := unit * s.mx + 4 * s.k, unit * s.my + s.i;
            && far <= edge && line < |pic| && edge + far <= |pic[line]|
            && p.e.Apply(s, pic, 0)[y][x] ==
                 if y == line && edge - near <= x < edge + near
                 then p.e.ker(s, pic[line][edge - far..edge + far], x - (edge - near)) else pic[y][x]
  {
    hide EdgeFilter.Apply, EdgeFilter.Covers, Step.In;
    VerticalStep(p.e, s, pic, x, y);
  }

  /** The same for a horizontal edge. */
  lemma HorizontalEdge(p: PlaneWork, s: Step, pic: seq<Row>, x: nat, y: nat)
    requires p.Valid() && (p.w.filter == Complex || (p.w.filter == Simple && p.e.sh.luma)) && s.horizontal
    requires s.In(p.e.sh, p.e.mbW) && p.e.Covers(s.my, pic, 0) && y < |pic| && x < p.e.Width()
    ensures var unit := if p.e.sh.luma then 16 else 8;
            var far, near := if p.w.filter == Complex then 4 else 2, if p.w.filter == Complex then 3 else 1;
            var edge, line := unit * s.my + 4 * s.k, unit * s.mx + s.i;
            && far <= edge && edge + far <= |pic| && line < p.e.Width() && Sized(pic, p.e.Width())
            && p.e.Apply(s, pic, 0)[y][x] ==
                 if x == line && edge - near <= y < edge + near
                 then p.e.ker(s, Column(pic, line, edge - far, 2 * far), y - (edge - near)) else pic[y][x]
  {
    hide EdgeFilter.Apply, Step.In, Column;
    HorizontalStep(p.e, s, pic, x, y);
  }

  // ---- the reference of the row pipeline ----

  /** The whole plane with the filter of macroblock row n, before it is dithered. */
  ghost function RowFiltered(p: PlaneWork, n: nat): (pic: seq<Row>)
    requires p.Valid() && n < p.w.MbH()
    ensures |pic| == |p.recon| && Sized(pic, p.e.Width())
  {
    WholeStep(p, n);
    RowStepsIn(p.e, 0, p.e.mbW, n);
    if p.w.filter == Complex || (p.w.filter == Simple && p.e.sh.luma) then
      p.e.Run(RowSteps(p.e.sh, 0, p.e.mbW, n), n, p.Whole(n), 0)
    else p.Whole(n)
  }

  /** One macroblock row of the reference, pixel by pixel: every macroblock is filtered,
      then its own rows are dithered, once. */
  lemma RowOfReference(p: PlaneWork, n: nat, x: nat, y: nat)
    requires p.Valid() && n < p.w.MbH() && y < |p.recon| && x < p.e.Width()
    ensures p.Whole(0) == p.recon && p.e.mbW == (p.w.width + 15) / 16 && p.w.MbH() == (p.w.height + 15) / 16
    ensures var unit := if p.e.sh.luma then 16 else 8;
            p.Whole(n + 1)[y][x] ==
              if p.dithers && unit * n <= y < unit * (n + 1) then p.noise(y, x, RowFiltered(p, n)[y][x])
              else RowFiltered(p, n)[y][x]
  {
    hide EdgeFilter.Run, RowSteps;
    WholeStep(p, n);
  }

  /** A plane that is not filtered: each pixel is dithered exactly once, or stays. */
  lemma UnfilteredReference(p: PlaneWork, x: nat, y: nat)
    requires p.Valid() && (p.w.filter == Off || (p.w.filter == Simple && !p.e.sh.luma)) && y < |p.recon| && x < p.e.Width()
    ensures p.Whole(p.w.MbH())[y][x] == if p.dithers then p.noise(y, x, p.recon[y][x]) else p.recon[y][x]
  {
    UnfilteredRows(p, p.w.MbH(), x, y);
  }

  lemma {:induction false} UnfilteredRows(p: PlaneWork, n: nat, x: nat, y: nat)
    requires p.Valid() && (p.w.filter == Off || (p.w.filter == Simple && !p.e.sh.luma)) && y < |p.recon| && x < p.e.Width()
    requires n <= p.w.MbH()
    ensures p.Whole(n)[y][x] == if p.dithers && y < p.e.sh.Base(n) then p.noise(y, x, p.recon[y][x]) else p.recon[y][x]
  {
    hide PlaneWork.Whole;
    if n == 0 {
      assert p.Whole(0) == p.recon by { WholeAtStart(p); }
    } else {
      UnfilteredRows(p, n - 1, x, y);
      RowOfReference(p, n - 1, x, y);
    }
  }

  lemma WholeAtStart(p: PlaneWork)
    requires p.Valid()
    ensures p.Whole(0) == p.recon
  {
  }
}

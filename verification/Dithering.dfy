/** The random numbers of dithering. They come one after the other from a generator, 64
    for each block, u before v, and only for macroblocks that are dithered; still each
    pixel is changed by one function of its place, whatever band or cache it is in. */
module Dithering {
  import opened LoopFilter
  import opened RowGeometry

  const MIN_DITHER_AMP := 4

  /** VP8RandomBits2: the k-th number drawn since VP8InitRandom, for an amplitude. The
      state of the generator does not depend on the amplitudes. */
  type Draws = (nat, int) -> int

  /** VP8DitherCombine8x8 on one pixel. */
  function Combine(v: int, dither: int): int {
    var delta1 := (dither - 128 + 8) / 16;
    var sum := v + delta1;
    if sum < 0 then 0 else if sum > 255 then 255 else sum
  }

  /** What is dithered: the amplitude of macroblock mx of row my, and the columns. */
  datatype Plan = Plan(draw: Draws, amp: (nat, nat) -> int, from: nat, end: nat) {
    predicate On(my: nat, mx: nat) { amp(my, mx) >= MIN_DITHER_AMP }

    /** Macroblocks of row my before column mx that are dithered. */
    function InRow(my: nat, mx: nat): nat {
      if mx <= from then 0 else InRow(my, mx - 1) + if On(my, mx - 1) then 1 else 0
    }

    /** Macroblocks dithered in the rows before my. */
    function InRows(my: nat): nat {
      if my == 0 then 0 else InRows(my - 1) + InRow(my - 1, end)
    }

    /** Numbers drawn before macroblock (mx, my). */
    function Drawn(my: nat, mx: nat): nat { 128 * (InRows(my) + InRow(my, mx)) }

    /** What becomes of a pixel of u (first == 0) or v (first == 64). */
    function At(first: nat, y: nat, x: nat, v: int): int {
      if On(y / 8, x / 8) then Combine(v, draw(Drawn(y / 8, x / 8) + first + (8 * (y % 8) + x % 8), amp(y / 8, x / 8))) else v
    }

    function NoiseOf(first: nat): Noise {
      (y: nat, x: nat, v: int) => At(first, y, x, v)
    }
  }

  /** The dithered macroblocks before (mx, my), in the order of the picture. */
  ghost function Before(plan: Plan, my: nat, mx: nat): set<(nat, nat)> {
    set r: nat, c: nat | r <= my && plan.from <= c < plan.end && plan.On(r, c) && (r < my || c < mx) :: (r, c)
  }

  /** Each of them has taken 64 numbers for u and 64 for v. */
  lemma {:induction false} NumbersTaken(plan: Plan, my: nat, mx: nat)
    requires plan.from <= mx <= plan.end
    ensures plan.Drawn(my, mx) == 128 * |Before(plan, my, mx)|
    decreases my, mx
  {
    hide Plan.On;
    if mx > plan.from {
      NumbersTaken(plan, my, mx - 1);
      var one: set<(nat, nat)> := if plan.On(my, mx - 1) then {(my, mx - 1)} else {};
      assert Before(plan, my, mx) == Before(plan, my, mx - 1) + one;
    } else if my > 0 {
      NumbersTaken(plan, my - 1, plan.end);
      assert Before(plan, my, mx) == Before(plan, my - 1, plan.end);
    } else {
      assert Before(plan, my, mx) == {};
    }
  }

  /** Pixel (i, j) of the block of macroblock (mx, my), in u or v: the number for it,
      less 120, is added by sixteenths to the sample, which stays a byte. */
  lemma PixelDithered(plan: Plan, first: nat, mx: nat, my: nat, i: nat, j: nat, v: int)
    requires plan.from <= mx < plan.end && i < 8 && j < 8
    ensures plan.NoiseOf(first)(8 * my + j, 8 * mx + i, v) ==
              if plan.amp(my, mx) < 4 then v
              else
                var number := plan.draw(128 * |Before(plan, my, mx)| + first + 8 * j + i, plan.amp(my, mx));
                var sum := v + (number - 120) / 16;
                if sum < 0 then 0 else if sum > 255 then 255 else sum
  {
    NumbersTaken(plan, my, mx);
    assert (8 * my + j) / 8 == my && (8 * mx + i) / 8 == mx && (8 * my + j) % 8 == j && (8 * mx + i) % 8 == i;
  }

  /** Two noises do the same to a block. */
  ghost predicate SameIn(a: Noise, b: Noise, mx: nat, my: nat) {
    forall y: nat, x: nat, v :: y / 8 == my && x / 8 == mx ==> a(y, x, v) == b(y, x, v)
  }

  lemma SamePixel(a: Noise, b: Noise, mx: nat, my: nat, y: nat, x: nat, v: int)
    requires SameIn(a, b, mx, my) && 8 * my <= y < 8 * my + 8 && 8 * mx <= x < 8 * mx + 8
    ensures a(y, x, v) == b(y, x, v)
  {
    assert y / 8 == my && x / 8 == mx;
  }

  lemma SameBlock(sh: Shape, a: Noise, b: Noise, mx: nat, my: nat, w: seq<Row>, lo: nat)
    requires !sh.luma && SameIn(a, b, mx, my)
    ensures Dithered(sh, a, mx, mx + 1, my, w, lo) == Dithered(sh, b, mx, mx + 1, my, w, lo)
  {
    var p, q := Dithered(sh, a, mx, mx + 1, my, w, lo), Dithered(sh, b, mx, mx + 1, my, w, lo);
    forall y | 0 <= y < |w| ensures p[y] == q[y] {
      forall x | 0 <= x < |w[y]| ensures p[y][x] == q[y][x] {
        if 8 * my <= lo + y < 8 * my + 8 && 8 * mx <= x < 8 * mx + 8 {
          SamePixel(a, b, mx, my, lo + y, x, w[y][x]);
        }
      }
    }
  }

  /** A macroblock that is not dithered. */
  lemma QuietBlock(plan: Plan, first: nat, sh: Shape, mx: nat, my: nat, w: seq<Row>, lo: nat)
    requires !sh.luma && !plan.On(my, mx)
    ensures Dithered(sh, plan.NoiseOf(first), mx, mx + 1, my, w, lo) == w
  {
    var p := Dithered(sh, plan.NoiseOf(first), mx, mx + 1, my, w, lo);
    forall y | 0 <= y < |w| ensures p[y] == w[y] {
      forall x | 0 <= x < |w[y]| ensures p[y][x] == w[y][x] {
        if 8 * my <= lo + y < 8 * my + 8 && 8 * mx <= x < 8 * mx + 8 {
          assert (lo + y) / 8 == my && x / 8 == mx;
        }
      }
    }
  }

  /** dec->dithering_rg */
  class Generator {
    const draw: Draws
    var drawn: nat

    /** VP8InitRandom. */
    constructor (draw: Draws)
      ensures this.draw == draw && drawn == 0
    {
      this.draw, drawn := draw, 0;
    }

    method RandomBits2(amp: int) returns (r: int)
      modifies this
      ensures r == draw(old(drawn), amp) && drawn == old(drawn) + 1
    {
      r := draw(drawn, amp);
      drawn := drawn + 1;
    }

    /** The table that Dither8x8 fills. */
    method Draw64(amp: int) returns (dither: seq<int>)
      modifies this
      ensures |dither| == 64 && drawn == old(drawn) + 64
      ensures forall i :: 0 <= i < 64 ==> dither[i] == draw(old(drawn) + i, amp)
    {
      dither := [];
      for i := 0 to 64
        invariant |dither| == i && drawn == old(drawn) + i
        invariant forall k :: 0 <= k < i ==> dither[k] == draw(old(drawn) + k, amp)
      {
        var bits := RandomBits2(amp);
        dither := dither + [bits];
      }
    }
  }

  /** VP8DitherCombine8x8 with a table of 64 numbers. */
  function FromTable(dither: seq<int>): Noise
    requires |dither| == 64
  {
    (y: nat, x: nat, v: int) => Combine(v, dither[8 * (y % 8) + x % 8])
  }

  lemma TableIsPlan(plan: Plan, first: nat, dither: seq<int>, mx: nat, my: nat)
    requires |dither| == 64 && plan.On(my, mx)
    requires forall i :: 0 <= i < 64 ==> dither[i] == plan.draw(plan.Drawn(my, mx) + first + i, plan.amp(my, mx))
    ensures SameIn(FromTable(dither), plan.NoiseOf(first), mx, my)
  {
    forall y: nat, x: nat, v | y / 8 == my && x / 8 == mx
      ensures FromTable(dither)(y, x, v) == plan.NoiseOf(first)(y, x, v)
    {
      var i := 8 * (y % 8) + x % 8;
      assert 0 <= i < 64;
      assert dither[i] == plan.draw(plan.Drawn(my, mx) + first + i, plan.amp(my, mx));
    }
  }

  /** Dither8x8. */
  method Dither8x8(g: Generator, plan: Plan, ghost first: nat, sh: Shape, mx: nat, my: nat,
                   rows: array<Row>, at: nat, lo: nat, ghost w: seq<Row>)
    requires g.draw == plan.draw && plan.On(my, mx) && g.drawn == plan.Drawn(my, mx) + first
    requires !sh.luma && lo <= sh.Base(my) && sh.Base(my + 1) <= lo + |w| && Holds(rows, at, w)
    requires forall y :: 0 <= y < |w| ==> sh.Base(mx + 1) <= |w[y]|
    modifies g, rows
    ensures g.drawn == old(g.drawn) + 64
    ensures Holds(rows, at, Dithered(sh, plan.NoiseOf(first), mx, mx + 1, my, w, lo)) && Beside(rows, at, |w|)
  {
    hide Dithered, Plan.Drawn, Plan.On, FromTable, Combine, SameIn;
    var dither := g.Draw64(plan.amp(my, mx));
    TableIsPlan(plan, first, dither, mx, my);
    SameBlock(sh, FromTable(dither), plan.NoiseOf(first), mx, my, w, lo);
    DitherBlock(sh, FromTable(dither), mx, my, rows, at, lo, w);
  }

  /** DitherRow: both chroma planes, block by block. Whatever was drawn before, each plane
      is changed by its function of the place, and the generator stands where the next
      row expects it. */
  method DitherRow(g: Generator, plan: Plan, sh: Shape, my: nat, u: array<Row>, v: array<Row>, at: nat, lo: nat,
                   ghost wu: seq<Row>, ghost wv: seq<Row>)
    requires g.draw == plan.draw && plan.from <= plan.end && g.drawn == plan.Drawn(my, plan.from) && u != v
    requires !sh.luma && lo <= sh.Base(my) && sh.Base(my + 1) <= lo + |wu| && |wv| == |wu|
    requires Holds(u, at, wu) && Holds(v, at, wv)
    requires forall y :: 0 <= y < |wu| ==> sh.Base(plan.end) <= |wu[y]| && sh.Base(plan.end) <= |wv[y]|
    modifies g, u, v
    ensures g.drawn == plan.Drawn(my + 1, plan.from)
    ensures Holds(u, at, Dithered(sh, plan.NoiseOf(0), plan.from, plan.end, my, wu, lo)) && Beside(u, at, |wu|)
    ensures Holds(v, at, Dithered(sh, plan.NoiseOf(64), plan.from, plan.end, my, wv, lo)) && Beside(v, at, |wv|)
  {
    hide Dithered, Plan.NoiseOf;
    DitheredNone(sh, plan.NoiseOf(0), plan.from, my, wu, lo);
    DitheredNone(sh, plan.NoiseOf(64), plan.from, my, wv, lo);
    for mx := plan.from to plan.end
      invariant g.drawn == plan.Drawn(my, mx)
      invariant Holds(u, at, Dithered(sh, plan.NoiseOf(0), plan.from, mx, my, wu, lo)) && Beside(u, at, |wu|)
      invariant Holds(v, at, Dithered(sh, plan.NoiseOf(64), plan.from, mx, my, wv, lo)) && Beside(v, at, |wv|)
    {
      ghost var nu := Dithered(sh, plan.NoiseOf(0), plan.from, mx, my, wu, lo);
      ghost var nv := Dithered(sh, plan.NoiseOf(64), plan.from, mx, my, wv, lo);
      DitheredMore(sh, plan.NoiseOf(0), plan.from, mx, my, wu, lo);
      DitheredMore(sh, plan.NoiseOf(64), plan.from, mx, my, wv, lo);
      if plan.On(my, mx) {
        Dither8x8(g, plan, 0, sh, mx, my, u, at, lo, nu);
        Dither8x8(g, plan, 64, sh, mx, my, v, at, lo, nv);
      } else {
        QuietBlock(plan, 0, sh, mx, my, nu, lo);
        QuietBlock(plan, 64, sh, mx, my, nv, lo);
      }
    }
  }
}

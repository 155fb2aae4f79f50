/** The row functions of the sharp YUV conversion: the plain C loops, and the SSE2 and
    NEON loops that work on blocks of eight or four with lanes of 16 or 32 bits and
    finish the row one by one. A vector is a sequence of lanes. */
module SharpYuv {

  type int16 = x: int | -0x8000 <= x < 0x8000
  type uint16 = x: int | 0 <= x < 0x1_0000

  // ---- lanes ----

  /** The 16 low bits as a signed number. */
  function Wrap16(x: int): (r: int16)
    ensures -0x8000 <= x < 0x8000 ==> r == x
  {
    (x + 0x8000) % 0x1_0000 - 0x8000
  }

  function Wrap32(x: int): (r: int)
    ensures -0x8000_0000 <= x < 0x8000_0000 ==> r == x
  {
    (x + 0x8000_0000) % 0x1_0000_0000 - 0x8000_0000
  }

  function Min(a: int, b: int): int { if a < b then a else b }
  function Max(a: int, b: int): int { if a < b then b else a }
  function Abs(a: int): nat { if a < 0 then -a else a }

  function Clip(v: int, max: nat): nat { if v < 0 then 0 else if v > max then max else v }

  function Pow2(n: nat): (r: nat)
    ensures r >= 1
  {
    if n == 0 then 1 else 2 * Pow2(n - 1)
  }

  function MaxY(bitDepth: nat): nat { Pow2(bitDepth) - 1 }

  lemma {:induction false} MaxYBound(bitDepth: nat)
    requires bitDepth <= 15
    ensures MaxY(bitDepth) < 0x8000 && (bitDepth <= 10 ==> MaxY(bitDepth) < 0x400)
  {
    Pow2Grows(bitDepth, 15);
    if bitDepth <= 10 {
      Pow2Grows(bitDepth, 10);
    }
    assert Pow2(5) == 32 by { assert Pow2(3) == 8; }
    assert Pow2(10) == 1024 by { assert Pow2(8) == 256 by { assert Pow2(6) == 64; } }
    assert Pow2(15) == 0x8000 by { assert Pow2(13) == 0x2000 by { assert Pow2(11) == 0x800; } }
  }

  lemma {:induction false} Pow2Grows(a: nat, b: nat)
    requires a <= b
    ensures Pow2(a) <= Pow2(b)
    decreases b
  {
    if a < b {
      Pow2Grows(a, b - 1);
    }
  }

  // ---- FilterRow: what each output is ----

  /** The weighted average of the C version. */
  function Weighted(a0: int, a1: int, b0: int, b1: int): int {
    (a0 * 9 + a1 * 3 + b0 * 3 + b1 + 8) / 16
  }

  /** Output j of a row. */
  function FilterAt(a: seq<int16>, b: seq<int16>, y: seq<uint16>, j: nat, max: nat): nat
    requires j < |y| && j / 2 + 1 < |a| && j / 2 + 1 < |b|
  {
    var k := j / 2;
    Clip(y[j] + (if j % 2 == 0 then Weighted(a[k], a[k + 1], b[k], b[k + 1]) else Weighted(a[k + 1], a[k], b[k + 1], b[k])), max)
  }

  /** A pair of outputs: each is nearer to one of the two columns. */
  lemma OutputPair(a: seq<int16>, b: seq<int16>, y: seq<uint16>, k: nat, max: nat)
    requires 2 * k + 1 < |y| && k + 1 < |a| && k + 1 < |b|
    ensures FilterAt(a, b, y, 2 * k, max) == Clip(y[2 * k] + (9 * a[k] as int + 3 * a[k + 1] as int + 3 * b[k] as int + b[k + 1] as int + 8) / 16, max)
    ensures FilterAt(a, b, y, 2 * k + 1, max) == Clip(y[2 * k + 1] + (3 * a[k] as int + 9 * a[k + 1] as int + b[k] as int + 3 * b[k + 1] as int + 8) / 16, max)
  {
    assert 2 * k / 2 == k && (2 * k + 1) / 2 == k;
  }

  /** One lane of the 16-bit SSE2 form: the average of a0 and its neighbours, by two
      nested shifts, every sum cut to 16 bits. */
  function Sse16(a0: int, a1: int, b0: int, b1: int): int {
    var a0b1 := Wrap16(a0 + b1);
    var a1b0 := Wrap16(a1 + b0);
    var sum8 := Wrap16(Wrap16(a0b1 + a1b0) + 8);
    var c1 := Wrap16(Wrap16(a1b0 + a1b0) + sum8) / 8;
    Wrap16(c1 + a0) / 2
  }

  /** The NEON form rounds in the last step: vrhadd adds, adds one and halves without
      losing the carry. */
  function Neon16(a0: int, a1: int, b0: int, b1: int): int {
    var a0b1 := Wrap16(a0 + b1);
    var a1b0 := Wrap16(a1 + b0);
    var c1 := Wrap16(Wrap16(a1b0 + a1b0) + Wrap16(a0b1 + a1b0)) / 8;
    (c1 + a0 + 1) / 2
  }

  function Sse32(a0: int, a1: int, b0: int, b1: int): int {
    var a0b1 := Wrap32(a0 + b1);
    var a1b0 := Wrap32(a1 + b0);
    var sum8 := Wrap32(Wrap32(a0b1 + a1b0) + 8);
    var c1 := Wrap32(Wrap32(a1b0 + a1b0) + sum8) / 8;
    Wrap32(c1 + a0) / 2
  }

  function Neon32(a0: int, a1: int, b0: int, b1: int): int {
    var a0b1 := Wrap32(a0 + b1);
    var a1b0 := Wrap32(a1 + b0);
    var c1 := Wrap32(Wrap32(a1b0 + a1b0) + Wrap32(a0b1 + a1b0)) / 8;
    (c1 + a0 + 1) / 2
  }

  predicate Within(x: int, bound: nat) { -(bound as int) <= x <= bound }

  lemma NestedShifts(x: int, a0: int)
    ensures (x / 8 + a0) / 2 == (x + 8 * a0) / 16
  {
  }

  lemma Sse16IsWeighted(a0: int, a1: int, b0: int, b1: int)
    requires Within(a0, 4094) && Within(a1, 4094) && Within(b0, 4094) && Within(b1, 4094)
    ensures Sse16(a0, a1, b0, b1) == Weighted(a0, a1, b0, b1) && Within(Weighted(a0, a1, b0, b1), 4094)
  {
    NestedShifts(3 * a1 + 3 * b0 + a0 + b1 + 8, a0);
  }

  /** One more and the sums no longer fit. */
  lemma Sse16BoundIsTight()
    ensures Sse16(4095, 4095, 4095, 4095) != Weighted(4095, 4095, 4095, 4095)
  {
  }

  lemma Neon16IsWeighted(a0: int, a1: int, b0: int, b1: int)
    requires Within(a0, 4095) && Within(a1, 4095) && Within(b0, 4095) && Within(b1, 4095)
    ensures Neon16(a0, a1, b0, b1) == Weighted(a0, a1, b0, b1) && Within(Weighted(a0, a1, b0, b1), 4095)
  {
    NestedShifts(3 * a1 + 3 * b0 + a0 + b1, a0 + 1);
  }

  lemma Form32IsWeighted(a0: int16, a1: int16, b0: int16, b1: int16)
    ensures Sse32(a0, a1, b0, b1) == Weighted(a0, a1, b0, b1) == Neon32(a0, a1, b0, b1)
    ensures Within(Weighted(a0, a1, b0, b1), 0x8000)
  {
    NestedShifts(3 * a1 + 3 * b0 + a0 + b1 + 8, a0);
    NestedShifts(3 * a1 + 3 * b0 + a0 + b1, a0 + 1);
  }

  /** The scalar tail of the vector functions shares subexpressions. */
  lemma TailIsWeighted(a0: int, a1: int, b0: int, b1: int)
    ensures (8 * a0 + 2 * (a1 + b0) + (a0 + b1 + (a1 + b0) + 8)) / 16 == Weighted(a0, a1, b0, b1)
  {
  }

  // ---- FilterRow: the loops ----

  /** Interleaving of the lower and of the upper lanes of two vectors of n lanes. */
  function UnpackLo(x: seq<int>, y: seq<int>): (r: seq<int>)
    requires |x| == |y|
    ensures |r| == |x|
  {
    seq(|x|, k requires 0 <= k < |x| => if k % 2 == 0 then x[k / 2] else y[k / 2])
  }

  function UnpackHi(x: seq<int>, y: seq<int>): (r: seq<int>)
    requires |x| == |y| && |x| % 2 == 0
    ensures |r| == |x|
  {
    seq(|x|, k requires 0 <= k < |x| => if k % 2 == 0 then x[|x| / 2 + k / 2] else y[|x| / 2 + k / 2])
  }

  /** The inputs a 16-bit lane can hold: 4094 for SSE2, 4095 for NEON. */
  function Bound16(neon: bool): nat { if neon then 4095 else 4094 }

  predicate Fits16(neon: bool, a: seq<int16>, b: seq<int16>, y: seq<uint16>) {
    && (forall x <- a :: Within(x, Bound16(neon))) && (forall x <- b :: Within(x, Bound16(neon)))
    && (forall v <- y :: v <= 0x7000)
  }

  /** The last steps of a 16-bit lane: h, the two limits, the store. */
  function Finish16(y: uint16, f: int, max: nat): uint16 {
    var h := Wrap16(Wrap16(y) + f);
    Max(Min(h, Wrap16(max)), 0)
  }

  function Lane16(neon: bool, a0: int, a1: int, b0: int, b1: int): int {
    if neon then Neon16(a0, a1, b0, b1) else Sse16(a0, a1, b0, b1)
  }

  lemma Lane16IsFilter(neon: bool, a0: int, a1: int, b0: int, b1: int, y: uint16, max: nat)
    requires Within(a0, Bound16(neon)) && Within(a1, Bound16(neon)) && Within(b0, Bound16(neon)) && Within(b1, Bound16(neon))
    requires y <= 0x7000 && max < 0x8000
    ensures Finish16(y, Lane16(neon, a0, a1, b0, b1), max) == Clip(y + Weighted(a0, a1, b0, b1), max)
  {
    hide Weighted, Sse16, Neon16;
    if neon {
      Neon16IsWeighted(a0, a1, b0, b1);
    } else {
      Sse16IsWeighted(a0, a1, b0, b1);
    }
  }

  /** The vectors e0 and e1 of a block: lane k for outputs 2k and 2k + 1. */
  function Even16(neon: bool, a: seq<int16>, b: seq<int16>, i: nat): (e: seq<int>)
    requires i + 8 < |a| && i + 8 < |b|
    ensures |e| == 8
  {
    seq(8, k requires 0 <= k < 8 => Lane16(neon, a[i + k], a[i + k + 1], b[i + k], b[i + k + 1]))
  }

  function Odd16(neon: bool, a: seq<int16>, b: seq<int16>, i: nat): (e: seq<int>)
    requires i + 8 < |a| && i + 8 < |b|
    ensures |e| == 8
  {
    seq(8, k requires 0 <= k < 8 => Lane16(neon, a[i + k + 1], a[i + k], b[i + k + 1], b[i + k]))
  }

  /** Where the lanes of a block end up. */
  lemma BlockOrder16(neon: bool, a: seq<int16>, b: seq<int16>, y: seq<uint16>, i: nat, max: nat, k: nat)
    requires k < 8 && i + 8 < |a| && i + 8 < |b| && 2 * i + 16 <= |y| && max < 0x8000 && Fits16(neon, a, b, y)
    ensures Finish16(y[2 * i + k], UnpackLo(Even16(neon, a, b, i), Odd16(neon, a, b, i))[k], max) == FilterAt(a, b, y, 2 * i + k, max)
    ensures Finish16(y[2 * i + 8 + k], UnpackHi(Even16(neon, a, b, i), Odd16(neon, a, b, i))[k], max)
            == FilterAt(a, b, y, 2 * i + 8 + k, max)
  {
    hide Weighted, Lane16, Finish16;
    Output16(neon, a, b, y, 2 * i + k, max);
    Output16(neon, a, b, y, 2 * i + 8 + k, max);
  }

  lemma Output16(neon: bool, a: seq<int16>, b: seq<int16>, y: seq<uint16>, j: nat, max: nat)
    requires j < |y| && j / 2 + 1 < |a| && j / 2 + 1 < |b| && max < 0x8000 && Fits16(neon, a, b, y)
    ensures var k := j / 2;
            FilterAt(a, b, y, j, max) ==
              Finish16(y[j], if j % 2 == 0 then Lane16(neon, a[k], a[k + 1], b[k], b[k + 1])
                             else Lane16(neon, a[k + 1], a[k], b[k + 1], b[k]), max)
  {
    hide Weighted, Lane16, Finish16;
    var k := j / 2;
    assert a[k] in a && a[k + 1] in a && b[k] in b && b[k + 1] in b && y[j] in y;
    if j % 2 == 0 {
      Lane16IsFilter(neon, a[k], a[k + 1], b[k], b[k + 1], y[j], max);
    } else {
      Lane16IsFilter(neon, a[k + 1], a[k], b[k + 1], b[k], y[j], max);
    }
  }

  /** One block of eight: sixteen outputs, stored in two halves. */
  method Block16(neon: bool, a: seq<int16>, b: seq<int16>, y: seq<uint16>, out: array<uint16>, i: nat, max: nat)
    requires i + 8 < |a| && i + 8 < |b| && 2 * i + 16 <= |y| && 2 * i + 16 <= out.Length && max < 0x8000 && Fits16(neon, a, b, y)
    modifies out
    ensures forall j :: 2 * i <= j < 2 * i + 16 ==> out[j] == FilterAt(a, b, y, j, max)
    ensures forall j :: 0 <= j < out.Length && !(2 * i <= j < 2 * i + 16) ==> out[j] == old(out[j])
  {
    hide FilterAt, Fits16, Lane16, Finish16;
    var e0, e1 := Even16(neon, a, b, i), Odd16(neon, a, b, i);
    var f0, f1 := UnpackLo(e0, e1), UnpackHi(e0, e1);
    forall k | 0 <= k < 8 {
      out[2 * i + k] := Finish16(y[2 * i + k], f0[k], max);
    }
    forall k | 0 <= k < 8 {
      out[2 * i + 8 + k] := Finish16(y[2 * i + 8 + k], f1[k], max);
    }
    forall j | 2 * i <= j < 2 * i + 16
      ensures out[j] == FilterAt(a, b, y, j, max)
    {
      if j < 2 * i + 8 {
        BlockOrder16(neon, a, b, y, i, max, j - 2 * i);
        assert out[2 * i + (j - 2 * i)] == Finish16(y[j], f0[j - 2 * i], max);
      } else {
        BlockOrder16(neon, a, b, y, i, max, j - 2 * i - 8);
        assert out[2 * i + 8 + (j - 2 * i - 8)] == Finish16(y[j], f1[j - 2 * i - 8], max);
      }
    }
  }

  /** One step of the scalar tail, for any form. */
  method TailStep(a: seq<int16>, b: seq<int16>, y: seq<uint16>, out: array<uint16>, i: nat, max: nat)
    requires i + 1 < |a| && i + 1 < |b| && 2 * i + 2 <= |y| && 2 * i + 2 <= out.Length && max < 0x8000
    modifies out
    ensures forall j :: 2 * i <= j < 2 * i + 2 ==> out[j] == FilterAt(a, b, y, j, max)
    ensures forall j :: 0 <= j < out.Length && !(2 * i <= j < 2 * i + 2) ==> out[j] == old(out[j])
  {
    var a0: int, a1: int, b0: int, b1: int := a[i], a[i + 1], b[i], b[i + 1];
    var a0b1, a1b0 := a0 + b1, a1 + b0;
    var a0a1b0b1 := a0b1 + a1b0 + 8;
    var v0 := (8 * a0 + 2 * a1b0 + a0a1b0b1) / 16;
    var v1 := (8 * a1 + 2 * a0b1 + a0a1b0b1) / 16;
    TailIsWeighted(a[i], a[i + 1], b[i], b[i + 1]);
    TailIsWeighted(a[i + 1], a[i], b[i + 1], b[i]);
    out[2 * i] := Clip(y[2 * i] + v0, max);
    out[2 * i + 1] := Clip(y[2 * i + 1] + v1, max);
  }

  /** SharpYuvFilterRow16_SSE2 and SharpYuvFilterRow16_NEON. */
  method FilterRow16(neon: bool, a: seq<int16>, b: seq<int16>, len: nat, y: seq<uint16>, out: array<uint16>, bitDepth: nat)
    requires len < |a| && len < |b| && 2 * len <= |y| && 2 * len <= out.Length && bitDepth <= 15 && Fits16(neon, a, b, y)
    modifies out
    ensures forall j :: 0 <= j < 2 * len ==> out[j] == FilterAt(a, b, y, j, MaxY(bitDepth))
    ensures forall j :: 2 * len <= j < out.Length ==> out[j] == old(out[j])
  {
    hide FilterAt, Fits16;
    MaxYBound(bitDepth);
    var maxY := MaxY(bitDepth);
    var i := 0;
    while i + 8 <= len
      invariant i <= len
      invariant forall j :: 0 <= j < 2 * i ==> out[j] == FilterAt(a, b, y, j, maxY)
      invariant forall j :: 2 * i <= j < out.Length ==> out[j] == old(out[j])
    {
      Block16(neon, a, b, y, out, i, maxY);
      i := i + 8;
    }
    while i < len
      invariant i <= len
      invariant forall j :: 0 <= j < 2 * i ==> out[j] == FilterAt(a, b, y, j, maxY)
      invariant forall j :: 2 * i <= j < out.Length ==> out[j] == old(out[j])
    {
      TailStep(a, b, y, out, i, maxY);
      i := i + 1;
    }
  }

  /** The inputs of the 32-bit forms: SSE2 packs the averages into 16 signed bits before
      it adds best_y, NEON widens best_y instead. */
  predicate Fits32(neon: bool, a: seq<int16>, b: seq<int16>, y: seq<uint16>) {
    && (!neon ==> (forall x <- a :: x <= 0x4000) && (forall x <- b :: x <= 0x4000))
    && (forall v <- y :: v < if neon then 0x8000 else 0x4000)
  }

  function Saturate16(x: int): int { Max(Min(x, 0x7fff), -0x8000) }

  function Finish32(neon: bool, y: uint16, f: int, max: nat): int {
    if neon then Min(Max(Min(Wrap32(f + Wrap16(y)), 0xffff), 0), max)
    else Max(Min(Wrap16(Wrap16(y) + Saturate16(f)), Wrap16(max)), 0)
  }

  function Lane32(neon: bool, a0: int, a1: int, b0: int, b1: int): int {
    if neon then Neon32(a0, a1, b0, b1) else Sse32(a0, a1, b0, b1)
  }

  lemma Lane32IsFilter(neon: bool, a0: int16, a1: int16, b0: int16, b1: int16, y: uint16, max: nat)
    requires !neon ==> a0 <= 0x4000 && a1 <= 0x4000 && b0 <= 0x4000 && b1 <= 0x4000
    requires y < (if neon then 0x8000 else 0x4000) && max < 0x8000
    ensures Finish32(neon, y, Lane32(neon, a0, a1, b0, b1), max) == Clip(y + Weighted(a0, a1, b0, b1), max)
  {
    hide Sse32, Neon32;
    Form32IsWeighted(a0, a1, b0, b1);
    assert !neon ==> Weighted(a0, a1, b0, b1) <= 0x4000;
  }

  lemma Output32(neon: bool, a: seq<int16>, b: seq<int16>, y: seq<uint16>, j: nat, max: nat)
    requires j < |y| && j / 2 + 1 < |a| && j / 2 + 1 < |b| && max < 0x8000 && Fits32(neon, a, b, y)
    ensures var k := j / 2;
            FilterAt(a, b, y, j, max) ==
              Finish32(neon, y[j], if j % 2 == 0 then Lane32(neon, a[k], a[k + 1], b[k], b[k + 1])
                                   else Lane32(neon, a[k + 1], a[k], b[k + 1], b[k]), max)
  {
    hide Weighted, Lane32, Finish32;
    var k := j / 2;
    assert a[k] in a && a[k + 1] in a && b[k] in b && b[k + 1] in b && y[j] in y;
    if j % 2 == 0 {
      Lane32IsFilter(neon, a[k], a[k + 1], b[k], b[k + 1], y[j], max);
    } else {
      Lane32IsFilter(neon, a[k + 1], a[k], b[k + 1], b[k], y[j], max);
    }
  }

  function Even32(neon: bool, a: seq<int16>, b: seq<int16>, i: nat): (e: seq<int>)
    requires i + 4 < |a| && i + 4 < |b|
    ensures |e| == 4
  {
    seq(4, k requires 0 <= k < 4 => Lane32(neon, a[i + k], a[i + k + 1], b[i + k], b[i + k + 1]))
  }

  function Odd32(neon: bool, a: seq<int16>, b: seq<int16>, i: nat): (e: seq<int>)
    requires i + 4 < |a| && i + 4 < |b|
    ensures |e| == 4
  {
    seq(4, k requires 0 <= k < 4 => Lane32(neon, a[i + k + 1], a[i + k], b[i + k + 1], b[i + k]))
  }

  lemma BlockOrder32(neon: bool, a: seq<int16>, b: seq<int16>, y: seq<uint16>, i: nat, max: nat, k: nat)
    requires k < 8 && i + 4 < |a| && i + 4 < |b| && 2 * i + 8 <= |y| && max < 0x8000 && Fits32(neon, a, b, y)
    ensures var e0, e1 := Even32(neon, a, b, i), Odd32(neon, a, b, i);
            Finish32(neon, y[2 * i + k], (UnpackLo(e0, e1) + UnpackHi(e0, e1))[k], max) == FilterAt(a, b, y, 2 * i + k, max)
  {
    hide Weighted, Lane32, Finish32;
    Output32(neon, a, b, y, 2 * i + k, max);
  }

  /** SharpYuvFilterRow32_SSE2 and SharpYuvFilterRow32_NEON: blocks of four. */
  method FilterRow32(neon: bool, a: seq<int16>, b: seq<int16>, len: nat, y: seq<uint16>, out: array<uint16>, bitDepth: nat)
    requires len < |a| && len < |b| && 2 * len <= |y| && 2 * len <= out.Length && bitDepth <= 15 && Fits32(neon, a, b, y)
    modifies out
    ensures forall j :: 0 <= j < 2 * len ==> out[j] == FilterAt(a, b, y, j, MaxY(bitDepth))
    ensures forall j :: 2 * len <= j < out.Length ==> out[j] == old(out[j])
  {
    hide FilterAt, Fits32, Lane32, Finish32;
    MaxYBound(bitDepth);
    var maxY := MaxY(bitDepth);
    var i := 0;
    while i + 4 <= len
      invariant i <= len
      invariant forall j :: 0 <= j < 2 * i ==> out[j] == FilterAt(a, b, y, j, maxY)
      invariant forall j :: 2 * i <= j < out.Length ==> out[j] == old(out[j])
    {
      Block32(neon, a, b, y, out, i, maxY);
      i := i + 4;
    }
    while i < len
      invariant i <= len
      invariant forall j :: 0 <= j < 2 * i ==> out[j] == FilterAt(a, b, y, j, maxY)
      invariant forall j :: 2 * i <= j < out.Length ==> out[j] == old(out[j])
    {
      TailStep(a, b, y, out, i, maxY);
      i := i + 1;
    }
  }

  method Block32(neon: bool, a: seq<int16>, b: seq<int16>, y: seq<uint16>, out: array<uint16>, i: nat, max: nat)
    requires i + 4 < |a| && i + 4 < |b| && 2 * i + 8 <= |y| && 2 * i + 8 <= out.Length && max < 0x8000 && Fits32(neon, a, b, y)
    modifies out
    ensures forall j :: 2 * i <= j < 2 * i + 8 ==> out[j] == FilterAt(a, b, y, j, max)
    ensures forall j :: 0 <= j < out.Length && !(2 * i <= j < 2 * i + 8) ==> out[j] == old(out[j])
  {
    hide FilterAt, Fits32, Lane32;
    var e0, e1 := Even32(neon, a, b, i), Odd32(neon, a, b, i);
    var f := UnpackLo(e0, e1) + UnpackHi(e0, e1);
    forall k | 0 <= k < 8 {
      out[2 * i + k] := Finish32(neon, y[2 * i + k], f[k], max);
    }
    forall j | 2 * i <= j < 2 * i + 8
      ensures out[j] == FilterAt(a, b, y, j, max)
    {
      BlockOrder32(neon, a, b, y, i, max, j - 2 * i);
      assert out[2 * i + (j - 2 * i)] == Finish32(neon, y[j], f[j - 2 * i], max);
    }
  }

  /** SharpYuvFilterRow_SSE2 and SharpYuvFilterRow_NEON: the same row as the C version,
      for averages and luma of the bit depth. */
  method FilterRow(neon: bool, a: seq<int16>, b: seq<int16>, len: nat, y: seq<uint16>, out: array<uint16>, bitDepth: nat)
    requires len < |a| && len < |b| && 2 * len <= |y| && 2 * len <= out.Length && bitDepth <= 14
    requires if bitDepth <= 10 then Fits16(neon, a, b, y) else Fits32(neon, a, b, y)
    modifies out
    ensures forall j :: 0 <= j < 2 * len ==> out[j] == FilterAt(a, b, y, j, MaxY(bitDepth))
    ensures forall j :: 2 * len <= j < out.Length ==> out[j] == old(out[j])
  {
    if bitDepth <= 10 {
      FilterRow16(neon, a, b, len, y, out, bitDepth);
    } else {
      FilterRow32(neon, a, b, len, y, out, bitDepth);
    }
  }

  /** SharpYuvFilterRow_C. */
  method FilterRowC(a: seq<int16>, b: seq<int16>, len: nat, y: seq<uint16>, out: array<uint16>, bitDepth: nat)
    requires len < |a| && len < |b| && 2 * len <= |y| && 2 * len <= out.Length && bitDepth <= 15
    modifies out
    ensures forall j :: 0 <= j < 2 * len ==> out[j] == FilterAt(a, b, y, j, MaxY(bitDepth))
    ensures forall j :: 2 * len <= j < out.Length ==> out[j] == old(out[j])
  {
    MaxYBound(bitDepth);
    var maxY := MaxY(bitDepth);
    for i := 0 to len
      invariant forall j :: 0 <= j < 2 * i ==> out[j] == FilterAt(a, b, y, j, maxY)
      invariant forall j :: 2 * i <= j < out.Length ==> out[j] == old(out[j])
    {
      var a0: int, a1: int, b0: int, b1: int := a[i], a[i + 1], b[i], b[i + 1];
      var v0 := (a0 * 9 + a1 * 3 + b0 * 3 + b1 + 8) / 16;
      var v1 := (a1 * 9 + a0 * 3 + b1 * 3 + b0 + 8) / 16;
      out[2 * i] := Clip(y[2 * i] + v0, maxY);
      out[2 * i + 1] := Clip(y[2 * i + 1] + v1, maxY);
    }
  }

  // ---- UpdateY ----

  function Dist(r: seq<uint16>, s: seq<uint16>, k: nat): nat
    requires k < |r| && k < |s|
  {
    Abs(r[k] as int - s[k] as int)
  }

  /** Sum of |ref - src| over the first n samples. */
  function SumAbs(r: seq<uint16>, s: seq<uint16>, n: nat): nat
    requires n <= |r| && n <= |s|
  {
    if n == 0 then 0 else SumAbs(r, s, n - 1) + Dist(r, s, n - 1)
  }

  predicate Samples(s: seq<uint16>) { forall x <- s :: x < 0x4000 }

  /** Lane D of the difference, and what the sample becomes. */
  function DiffLane(r: uint16, s: uint16): int { Wrap16(Wrap16(r) - Wrap16(s)) }

  function UpdateLane(r: uint16, s: uint16, d: uint16, max: nat): uint16 {
    Max(Min(Wrap16(Wrap16(d) + DiffLane(r, s)), Wrap16(max)), 0)
  }

  function UpdateAt(r: uint16, s: uint16, d: uint16, max: nat): nat { Clip(d + (r as int - s as int), max) }

  lemma UpdateLaneIsUpdate(r: uint16, s: uint16, d: uint16, max: nat)
    requires r < 0x4000 && s < 0x4000 && d < 0x4000 && max < 0x8000
    ensures DiffLane(r, s) == r as int - s as int && UpdateLane(r, s, d, max) == UpdateAt(r, s, d, max)
  {
  }

  /** _mm_madd_epi16 of the differences with their signs: lane q sums a pair. */
  function AbsPair(r: seq<uint16>, s: seq<uint16>, i: nat, q: nat): int
    requires q < 4 && i + 8 <= |r| && i + 8 <= |s|
  {
    var d0, d1 := DiffLane(r[i + 2 * q], s[i + 2 * q]), DiffLane(r[i + 2 * q + 1], s[i + 2 * q + 1]);
    Signed(d0) + Signed(d1)
  }

  /** A difference times its sign. */
  function Signed(d: int): int { d * (if d < 0 then -1 else 1) }

  lemma SignedIsDist(r: seq<uint16>, s: seq<uint16>, k: nat)
    requires k < |r| && k < |s| && Samples(r) && Samples(s)
    ensures Signed(DiffLane(r[k], s[k])) == Dist(r, s, k) < 0x4000
  {
    assert r[k] in r && s[k] in s;
  }

  lemma PairIsSum(r: seq<uint16>, s: seq<uint16>, i: nat, q: nat)
    requires q < 4 && i + 8 <= |r| && i + 8 <= |s| && Samples(r) && Samples(s)
    ensures AbsPair(r, s, i, q) == SumAbs(r, s, i + 2 * q + 2) - SumAbs(r, s, i + 2 * q)
    ensures 0 <= AbsPair(r, s, i, q) < 0x8000
  {
    hide Signed, DiffLane, Samples, Dist;
    var k := i + 2 * q;
    SignedIsDist(r, s, k);
    SignedIsDist(r, s, k + 1);
    assert SumAbs(r, s, k + 2) == SumAbs(r, s, k + 1) + Dist(r, s, k + 1);
  }

  /** The four lanes together add the next eight samples. */
  lemma PairsOfBlock(r: seq<uint16>, s: seq<uint16>, i: nat)
    requires i + 8 <= |r| && i + 8 <= |s| && Samples(r) && Samples(s)
    ensures SumAbs(r, s, i + 8) == SumAbs(r, s, i) + AbsPair(r, s, i, 0) + AbsPair(r, s, i, 1) + AbsPair(r, s, i, 2) + AbsPair(r, s, i, 3)
  {
    hide SumAbs, AbsPair;
    PairIsSum(r, s, i, 0);
    PairIsSum(r, s, i, 1);
    PairIsSum(r, s, i, 2);
    PairIsSum(r, s, i, 3);
  }

  /** One block of UpdateY on dst. */
  method UpdateBlock(r: seq<uint16>, s: seq<uint16>, dst: array<uint16>, i: nat, max: nat)
    requires i + 8 <= |r| && i + 8 <= |s| && i + 8 <= dst.Length && max < 0x8000
    requires Samples(r) && Samples(s) && forall k :: i <= k < i + 8 ==> dst[k] < 0x4000
    modifies dst
    ensures forall k :: i <= k < i + 8 ==> dst[k] == UpdateAt(r[k], s[k], old(dst[k]), max)
    ensures forall k :: 0 <= k < dst.Length && !(i <= k < i + 8) ==> dst[k] == old(dst[k])
  {
    hide UpdateLane, UpdateAt;
    forall k | i <= k < i + 8
      ensures UpdateLane(r[k], s[k], dst[k], max) == UpdateAt(r[k], s[k], dst[k], max)
    {
      assert r[k] in r && s[k] in s;
      UpdateLaneIsUpdate(r[k], s[k], dst[k], max);
    }
    forall k | i <= k < i + 8 {
      dst[k] := UpdateLane(r[k], s[k], dst[k], max);
    }
  }

  // ---- the sum of the SSE2 version ----

  /** The sum over whole blocks is kept in four 32-bit lanes and added up in 32 bits. */
  function Sse2Sum(r: seq<uint16>, s: seq<uint16>, len: nat): int
    requires len <= |r| && len <= |s|
  {
    SumAbs(r, s, len / 8 * 8) % 0x1_0000_0000 + (SumAbs(r, s, len) - SumAbs(r, s, len / 8 * 8))
  }

  lemma {:induction false} SumBound(r: seq<uint16>, s: seq<uint16>, n: nat)
    requires n <= |r| && n <= |s| && Samples(r) && Samples(s)
    ensures SumAbs(r, s, n) <= n * 0x3fff
  {
    if n > 0 {
      SumBound(r, s, n - 1);
      assert r[n - 1] in r && s[n - 1] in s;
    }
  }

  /** White against black. */
  lemma {:induction false} SumOfExtremes(r: seq<uint16>, s: seq<uint16>, n: nat)
    requires n <= |r| && n <= |s| && forall k :: 0 <= k < n ==> r[k] == 0x3fff && s[k] == 0
    ensures SumAbs(r, s, n) == n * 0x3fff
  {
    if n > 0 {
      SumOfExtremes(r, s, n - 1);
    }
  }

  predicate SumsExactly(r: seq<uint16>, s: seq<uint16>, len: nat) {
    len <= |r| && len <= |s| && Samples(r) && Samples(s) ==> Sse2Sum(r, s, len) == SumAbs(r, s, len)
  }

  /** It is exact for all rows of a length exactly when the largest sum that whole
      blocks can have is below 2^32. */
  lemma Sse2SumIsExact(len: nat)
    ensures (forall r: seq<uint16>, s: seq<uint16> :: SumsExactly(r, s, len)) <==> len / 8 * 8 * 0x3fff < 0x1_0000_0000
  {
    hide SumAbs;
    var n := len / 8 * 8;
    if n * 0x3fff < 0x1_0000_0000 {
      forall r: seq<uint16>, s: seq<uint16> ensures SumsExactly(r, s, len) {
        if len <= |r| && len <= |s| && Samples(r) && Samples(s) {
          SumBound(r, s, n);
        }
      }
    } else {
      var white, black: seq<uint16> := seq(len, k => 0x3fff), seq(len, k => 0);
      SumOfExtremes(white, black, n);
      assert !SumsExactly(white, black, len);
    }
  }

  /** SharpYuvUpdateY_SSE2. */
  method UpdateYSse2(r: seq<uint16>, s: seq<uint16>, dst: array<uint16>, len: nat, bitDepth: nat) returns (diff: nat)
    requires len <= |r| && len <= |s| && len <= dst.Length && bitDepth <= 15
    requires Samples(r) && Samples(s) && forall k :: 0 <= k < len ==> dst[k] < 0x4000
    modifies dst
    ensures forall k :: 0 <= k < len ==> dst[k] == UpdateAt(r[k], s[k], old(dst[k]), MaxY(bitDepth))
    ensures forall k :: len <= k < dst.Length ==> dst[k] == old(dst[k])
    ensures diff == Sse2Sum(r, s, len)
    ensures len / 8 * 8 * 0x3fff < 0x1_0000_0000 ==> diff == SumAbs(r, s, len)
  {
    hide UpdateAt, AbsPair, Samples, SumAbs, Mod32;
    SumOfNone(r, s);
    MaxYBound(bitDepth);
    var maxY := MaxY(bitDepth);
    var t0, t1, t2, t3 := 0, 0, 0, 0;
    var i := 0;
    while i + 8 <= len
      invariant i <= len && i % 8 == 0
      invariant Mod32(t3 + t2 + t1 + t0) == Mod32(SumAbs(r, s, i))
      invariant forall k :: 0 <= k < i ==> dst[k] == UpdateAt(r[k], s[k], old(dst[k]), maxY)
      invariant forall k :: i <= k < dst.Length ==> dst[k] == old(dst[k])
    {
      UpdateBlock(r, s, dst, i, maxY);
      PairsOfBlock(r, s, i);
      AddLanes(t0, t1, t2, t3, AbsPair(r, s, i, 0), AbsPair(r, s, i, 1), AbsPair(r, s, i, 2), AbsPair(r, s, i, 3), SumAbs(r, s, i));
      t0, t1 := Mod32(t0 + AbsPair(r, s, i, 0)), Mod32(t1 + AbsPair(r, s, i, 1));
      t2, t3 := Mod32(t2 + AbsPair(r, s, i, 2)), Mod32(t3 + AbsPair(r, s, i, 3));
      i := i + 8;
    }
    diff := Mod32(t3 + t2 + t1 + t0);
    assert i == len / 8 * 8;
    SumBound(r, s, i);
    Mod32Is(SumAbs(r, s, i));
    diff := UpdateTail(r, s, dst, i, len, maxY, diff);
  }

  lemma SumOfNone(r: seq<uint16>, s: seq<uint16>)
    ensures SumAbs(r, s, 0) == 0
  {
  }

  lemma AddLanes(t0: int, t1: int, t2: int, t3: int, p0: int, p1: int, p2: int, p3: int, sum: int)
    requires Mod32(t3 + t2 + t1 + t0) == Mod32(sum)
    ensures Mod32(Mod32(t3 + p3) + Mod32(t2 + p2) + Mod32(t1 + p1) + Mod32(t0 + p0)) == Mod32(sum + p0 + p1 + p2 + p3)
  {
    hide Mod32;
    SameMod32(Mod32(t3 + p3), t3 + p3, Mod32(t2 + p2) + Mod32(t1 + p1) + Mod32(t0 + p0));
    SameMod32(Mod32(t2 + p2), t2 + p2, t3 + p3 + Mod32(t1 + p1) + Mod32(t0 + p0));
    SameMod32(Mod32(t1 + p1), t1 + p1, t3 + p3 + t2 + p2 + Mod32(t0 + p0));
    SameMod32(Mod32(t0 + p0), t0 + p0, t3 + p3 + t2 + p2 + t1 + p1);
    SameMod32(t3 + t2 + t1 + t0, sum, p0 + p1 + p2 + p3);
    assert t3 + p3 + Mod32(t2 + p2) + Mod32(t1 + p1) + Mod32(t0 + p0) == Mod32(t2 + p2) + (t3 + p3 + Mod32(t1 + p1) + Mod32(t0 + p0));
  }

  /** Equal remainders stay equal, and a remainder may stand for its number. */
  lemma SameMod32(a: int, b: int, c: int)
    ensures (Mod32(a) == Mod32(b) ==> Mod32(a + c) == Mod32(b + c)) && (a == Mod32(b) ==> Mod32(a + c) == Mod32(b + c))
  {
    var q, r := b / 0x1_0000_0000, Mod32(b);
    assert b == 0x1_0000_0000 * q + r;
    var q', r' := a / 0x1_0000_0000, Mod32(a);
    assert a == 0x1_0000_0000 * q' + r';
    WholeTurns(q, r + c);
    WholeTurns(q', r' + c);
  }

  lemma WholeTurns(q: int, x: int)
    ensures Mod32(0x1_0000_0000 * q + x) == Mod32(x)
  {
  }

  /** The sum of a lane of 32 or 64 bits. */
  function Mod32(x: int): nat { x % 0x1_0000_0000 }

  function Mod64(x: int): nat { x % 0x1_0000_0000_0000_0000 }

  lemma Mod32Is(x: int)
    ensures Mod32(x) == x % 0x1_0000_0000 && (0 <= x < 0x1_0000_0000 ==> Mod32(x) == x)
  {
  }

  lemma Mod64Is(x: int)
    ensures 0 <= x < 0x1_0000_0000_0000_0000 ==> Mod64(x) == x
  {
  }

  lemma AddTwoLanes(t0: int, t1: int, p0: int, p1: int, sum: int)
    requires Mod64(t0 + t1) == Mod64(sum)
    ensures Mod64(Mod64(t0 + p0) + Mod64(t1 + p1)) == Mod64(sum + p0 + p1)
  {
  }

  /** SharpYuvUpdateY_NEON: the same pairs, added into two 64-bit lanes. */
  method UpdateYNeon(r: seq<uint16>, s: seq<uint16>, dst: array<uint16>, len: nat, bitDepth: nat) returns (diff: nat)
    requires len <= |r| && len <= |s| && len <= dst.Length && bitDepth <= 15
    requires Samples(r) && Samples(s) && forall k :: 0 <= k < len ==> dst[k] < 0x4000
    requires SumAbs(r, s, len / 8 * 8) < 0x1_0000_0000_0000_0000
    modifies dst
    ensures forall k :: 0 <= k < len ==> dst[k] == UpdateAt(r[k], s[k], old(dst[k]), MaxY(bitDepth))
    ensures forall k :: len <= k < dst.Length ==> dst[k] == old(dst[k])
    ensures diff == SumAbs(r, s, len)
  {
    hide UpdateAt, AbsPair, Samples, SumAbs, Mod64;
    SumOfNone(r, s);
    MaxYBound(bitDepth);
    var maxY := MaxY(bitDepth);
    var t0, t1 := 0, 0;
    var i := 0;
    while i + 8 <= len
      invariant i <= len && i % 8 == 0
      invariant Mod64(t0 + t1) == Mod64(SumAbs(r, s, i))
      invariant forall k :: 0 <= k < i ==> dst[k] == UpdateAt(r[k], s[k], old(dst[k]), maxY)
      invariant forall k :: i <= k < dst.Length ==> dst[k] == old(dst[k])
    {
      UpdateBlock(r, s, dst, i, maxY);
      PairsOfBlock(r, s, i);
      var low, high := AbsPair(r, s, i, 0) + AbsPair(r, s, i, 1), AbsPair(r, s, i, 2) + AbsPair(r, s, i, 3);
      AddTwoLanes(t0, t1, low, high, SumAbs(r, s, i));
      t0, t1 := Mod64(t0 + low), Mod64(t1 + high);
      i := i + 8;
    }
    diff := Mod64(t0 + t1);
    assert i == len / 8 * 8;
    Mod64Is(SumAbs(r, s, i));
    diff := UpdateTail(r, s, dst, i, len, maxY, diff);
  }

  /** The scalar tail of UpdateY. */
  method UpdateTail(r: seq<uint16>, s: seq<uint16>, dst: array<uint16>, from: nat, len: nat, maxY: nat, sum: nat) returns (diff: nat)
    requires from <= len <= |r| && len <= |s| && len <= dst.Length && maxY < 0x8000
    modifies dst
    ensures forall k :: from <= k < len ==> dst[k] == UpdateAt(r[k], s[k], old(dst[k]), maxY)
    ensures forall k :: 0 <= k < dst.Length && !(from <= k < len) ==> dst[k] == old(dst[k])
    ensures diff == sum + SumAbs(r, s, len) - SumAbs(r, s, from)
  {
    diff := sum;
    for i := from to len
      invariant forall k :: from <= k < i ==> dst[k] == UpdateAt(r[k], s[k], old(dst[k]), maxY)
      invariant forall k :: 0 <= k < dst.Length && !(from <= k < i) ==> dst[k] == old(dst[k])
      invariant diff == sum + SumAbs(r, s, i) - SumAbs(r, s, from)
    {
      var diffY := r[i] as int - s[i] as int;
      dst[i] := Clip(dst[i] as int + diffY, maxY);
      diff := diff + Abs(diffY);
    }
  }
}

/** Parsing of the intra prediction modes, section 11 of RFC 6386. The decoder keeps
    only the modes of the row above and of the column to the left; the reference is a
    map of all modes of the picture. The boolean decoder is a parameter: a state and a
    function that reads one bit with a given probability. */
module IntraModes {

  const B_DC_PRED := 0
  const B_TM_PRED := 1
  const B_VE_PRED := 2
  const B_HE_PRED := 3
  const B_RD_PRED := 4
  const B_VR_PRED := 5
  const B_LD_PRED := 6
  const B_VL_PRED := 7
  const B_HD_PRED := 8
  const B_HU_PRED := 9
  const DC_PRED := B_DC_PRED
  const V_PRED := B_VE_PRED
  const H_PRED := B_HE_PRED
  const TM_PRED := B_TM_PRED

  /** VP8GetBit: a bit and the state behind it. */
  type Reader<!S> = (S, int) -> (bool, S)

  // ---- the tree of the 4x4 modes ----

  const YMODES_INTRA4: seq<int> := [
    -B_DC_PRED, 1,
      -B_TM_PRED, 2,
        -B_VE_PRED, 3,
          4, 6,
            -B_HE_PRED, 5,
              -B_RD_PRED, -B_VR_PRED,
          -B_LD_PRED, 7,
            -B_VL_PRED, 8,
              -B_HD_PRED, -B_HU_PRED]

  /** The table leads to a later entry or to a mode. */
  lemma TableLeadsOn(j: nat)
    requires j < |YMODES_INTRA4|
    ensures -9 <= YMODES_INTRA4[j]
    ensures YMODES_INTRA4[j] > 0 ==> YMODES_INTRA4[j] > j / 2 && 2 * YMODES_INTRA4[j] + 1 < |YMODES_INTRA4|
  {
  }

  /** The walk of the table from entry i: the mode and the state behind its bits. */
  function Walk<S>(get: Reader<S>, s: S, prob: int -> int, i: nat): (int, S)
    requires 2 * i + 1 < |YMODES_INTRA4|
    decreases |YMODES_INTRA4| - i
  {
    var (bit, s') := get(s, prob(i));
    var j := 2 * i + if bit then 1 else 0;
    TableLeadsOn(j);
    if YMODES_INTRA4[j] > 0 then Walk(get, s', prob, YMODES_INTRA4[j]) else (-YMODES_INTRA4[j], s')
  }

  /** The decision tree written out, as used where tables are slow. */
  function HardCoded<S>(get: Reader<S>, s0: S, prob: int -> int): (int, S) {
    var (b0, s1) := get(s0, prob(0));
    if !b0 then (B_DC_PRED, s1) else
    var (b1, s2) := get(s1, prob(1));
    if !b1 then (B_TM_PRED, s2) else
    var (b2, s3) := get(s2, prob(2));
    if !b2 then (B_VE_PRED, s3) else
    var (b3, s4) := get(s3, prob(3));
    if !b3 then
      var (b4, s5) := get(s4, prob(4));
      if !b4 then (B_HE_PRED, s5) else
      var (b5, s6) := get(s5, prob(5));
      (if !b5 then B_RD_PRED else B_VR_PRED, s6)
    else
      var (b6, s5) := get(s4, prob(6));
      if !b6 then (B_LD_PRED, s5) else
      var (b7, s6) := get(s5, prob(7));
      if !b7 then (B_VL_PRED, s6) else
      var (b8, s7) := get(s6, prob(8));
      (if !b8 then B_HD_PRED else B_HU_PRED, s7)
  }

  /** Both forms read the same bits with the same probabilities and find the same mode. */
  lemma TableIsTree<S>(get: Reader<S>, s: S, prob: int -> int)
    ensures Walk(get, s, prob, 0) == HardCoded(get, s, prob)
    ensures 0 <= HardCoded(get, s, prob).0 <= 9
  {
    var s1 := get(s, prob(0)).1;
    var s2 := get(s1, prob(1)).1;
    var s3 := get(s2, prob(2)).1;
    var s4 := get(s3, prob(3)).1;
    assert Walk(get, s, prob, 0) == if get(s, prob(0)).0 then Walk(get, s1, prob, 1) else (B_DC_PRED, s1);
    assert Walk(get, s1, prob, 1) == if get(s1, prob(1)).0 then Walk(get, s2, prob, 2) else (B_TM_PRED, s2);
    assert Walk(get, s2, prob, 2) == if get(s2, prob(2)).0 then Walk(get, s3, prob, 3) else (B_VE_PRED, s3);
    assert Walk(get, s3, prob, 3) == Walk(get, s4, prob, if get(s3, prob(3)).0 then 6 else 4);
  }

  lemma WalkStep<S>(get: Reader<S>, s: S, prob: int -> int, i: nat, j: nat)
    requires 2 * i + 1 < |YMODES_INTRA4| && j == 2 * i + if get(s, prob(i)).0 then 1 else 0
    ensures var next := YMODES_INTRA4[j];
            && (next > 0 ==> next > i && 2 * next + 1 < |YMODES_INTRA4|)
            && Walk(get, s, prob, i) == if next > 0 then Walk(get, get(s, prob(i)).1, prob, next) else (-next, get(s, prob(i)).1)
  {
    TableLeadsOn(j);
  }

  /** The loop over the table. */
  method ReadMode<S>(get: Reader<S>, s: S, prob: int -> int) returns (mode: int, end: S)
    ensures (mode, end) == HardCoded(get, s, prob)
  {
    hide HardCoded, Walk;
    TableIsTree(get, s, prob);
    var (bit, state) := get(s, prob(0));
    var j := if bit then 1 else 0;
    WalkStep(get, s, prob, 0, j);
    var i := YMODES_INTRA4[j];
    while i > 0
      invariant i > 0 ==> 2 * i + 1 < |YMODES_INTRA4| && Walk(get, state, prob, i) == Walk(get, s, prob, 0)
      invariant i <= 0 ==> (-i, state) == Walk(get, s, prob, 0)
      decreases if i > 0 then |YMODES_INTRA4| - i else 0
    {
      var next := get(state, prob(i));
      j := 2 * i + if next.0 then 1 else 0;
      WalkStep(get, state, prob, i, j);
      state := next.1;
      i := YMODES_INTRA4[j];
    }
    return -i, state;
  }

  // ---- the reference: one map of all modes ----

  /** Modes of the 4x4 blocks parsed so far, by block column and row. */
  type Modes = map<(int, int), int>

  /** Outside the picture the mode is B_DC_PRED. */
  function At(m: Modes, x: int, y: int): int {
    if x >= 0 && y >= 0 && (x, y) in m then m[(x, y)] else B_DC_PRED
  }

  lemma AtUpdate(m: Modes, m': Modes, cx: nat, cy: nat, mode: int)
    requires m' == m[(cx as int, cy as int) := mode]
    ensures forall x, y :: At(m', x, y) == if x == cx && y == cy then mode else At(m, x, y)
  {
    forall x: int, y: int
      ensures At(m', x, y) == if x == cx && y == cy then mode else At(m, x, y)
    {
      assert (x, y) in m' <==> (x, y) in m || (x == cx && y == cy);
    }
  }

  /** What the frame header fixes. */
  datatype Header = Header(updateMap: bool, segments: (int, int, int), useSkip: bool, skipP: int,
                           modeProba: (int, int) -> (int -> int))   // kBModesProba[top][left]

  /** VP8MBData, as far as it is parsed here. */
  datatype Block = Block(segment: int, skip: bool, isI4x4: bool, imodes: seq<int>, uvmode: int)

  function ReadSegment<S>(get: Reader<S>, s: S, h: Header): (int, S) {
    if !h.updateMap then (0, s)
    else
      var (b0, s1) := get(s, h.segments.0);
      if !b0 then var (b1, s2) := get(s1, h.segments.1); (if b1 then 1 else 0, s2)
      else var (b2, s2) := get(s1, h.segments.2); (if b2 then 3 else 2, s2)
  }

  function ReadSkip<S>(get: Reader<S>, s: S, h: Header, old_: bool): (bool, S) {
    if h.useSkip then get(s, h.skipP) else (old_, s)
  }

  function ReadMode16<S>(get: Reader<S>, s: S): (int, S) {
    var (b0, s1) := get(s, 156);
    if b0 then var (b1, s2) := get(s1, 128); (if b1 then TM_PRED else H_PRED, s2)
    else var (b1, s2) := get(s1, 163); (if b1 then V_PRED else DC_PRED, s2)
  }

  function ReadUV<S>(get: Reader<S>, s: S): (int, S) {
    var (b0, s1) := get(s, 142);
    if !b0 then (DC_PRED, s1) else
    var (b1, s2) := get(s1, 114);
    if !b1 then (V_PRED, s2) else
    var (b2, s3) := get(s2, 183);
    (if b2 then TM_PRED else H_PRED, s3)
  }

  /** The first k of the sixteen blocks of macroblock (mbX, mbY) in raster order, each
      read with the probabilities of the modes above it and to its left. */
  function Blocks<S>(get: Reader<S>, s: S, m: Modes, h: Header, mbX: nat, mbY: nat, k: nat): (S, Modes)
    requires k <= 16
  {
    if k == 0 then (s, m)
    else
      var (s', m') := Blocks(get, s, m, h, mbX, mbY, k - 1);
      var x, y := 4 * mbX + (k - 1) % 4, 4 * mbY + (k - 1) / 4;
      var (mode, s'') := HardCoded(get, s', h.modeProba(At(m', x, y - 1), At(m', x - 1, y)));
      (s'', m'[(x, y) := mode])
  }

  /** All sixteen blocks have the same mode. */
  function Filled(m: Modes, mbX: nat, mbY: nat, k: nat, mode: int): Modes
    requires k <= 16
  {
    if k == 0 then m else Filled(m, mbX, mbY, k - 1, mode)[(4 * mbX + (k - 1) % 4, 4 * mbY + (k - 1) / 4) := mode]
  }

  /** The sixteen modes of a macroblock in raster order. */
  function ModesOf(m: Modes, mbX: nat, mbY: nat): (s: seq<int>)
    ensures |s| == 16 && forall k :: 0 <= k < 16 ==> s[k] == At(m, 4 * mbX + k % 4, 4 * mbY + k / 4)
  {
    seq(16, k requires 0 <= k < 16 => At(m, 4 * mbX + k % 4, 4 * mbY + k / 4))
  }

  /** The luma modes of a macroblock. */
  function Luma<S>(get: Reader<S>, s: S, m: Modes, h: Header, mbX: nat, mbY: nat, isI4x4: bool): (S, Modes) {
    if isI4x4 then Blocks(get, s, m, h, mbX, mbY, 16)
    else var (mode, s') := ReadMode16(get, s); (s', Filled(m, mbX, mbY, 16, mode))
  }

  /** A whole macroblock. */
  function Macroblock<S>(get: Reader<S>, s: S, m: Modes, h: Header, mbX: nat, mbY: nat, oldSkip: bool): (Block, S, Modes) {
    var (segment, s1) := ReadSegment(get, s, h);
    var (skip, s2) := ReadSkip(get, s1, h, oldSkip);
    var (large, s3) := get(s2, 145);
    var (s4, m') := Luma(get, s3, m, h, mbX, mbY, !large);
    var (uvmode, s5) := ReadUV(get, s4);
    var imodes := if large then [At(m', 4 * mbX, 4 * mbY)] else ModesOf(m', mbX, mbY);
    (Block(segment, skip, !large, imodes, uvmode), s5, m')
  }

  // ---- the rolling contexts ----

  class Parser<!S(!new)> {
    const get: Reader<S>
    const eof: S -> bool        // br.eof
    const h: Header
    const mbW: nat
    var br: S
    const intraT: array<int>    // modes of the last row of blocks above
    const intraL: array<int>    // modes of the column of blocks to the left
    ghost var modes: Modes

    constructor (get: Reader<S>, eof: S -> bool, h: Header, mbW: nat, s: S)
      ensures this.get == get && this.eof == eof && this.h == h && this.mbW == mbW && br == s && modes == map[]
      ensures Valid() && Rolling(0, 0) && fresh(intraT) && fresh(intraL)
    {
      this.get, this.eof, this.h, this.mbW, br, modes := get, eof, h, mbW, s, map[];
      intraT := new int[4 * mbW](i => B_DC_PRED);
      intraL := new int[4](i => B_DC_PRED);
    }

    ghost predicate Valid() {
      intraT.Length == 4 * mbW && intraL.Length == 4 && intraT != intraL
    }

    /** Before macroblock (mbX, mbY): intra_t holds the modes just above what is not yet
        parsed, intra_l the modes just to the left. */
    ghost predicate Rolling(mbX: nat, mbY: nat)
      reads `modes, intraT, intraL
      requires Valid()
    {
      && (forall x :: 0 <= x < intraT.Length ==> intraT[x] == At(modes, x, if x < 4 * mbX then 4 * mbY + 3 else 4 * mbY - 1))
      && (forall y :: 0 <= y < 4 ==> intraL[y] == At(modes, 4 * mbX - 1, 4 * mbY + y))
    }

    /** Inside macroblock (mbX, mbY), before its block (x, y). */
    ghost predicate Inside(mbX: nat, mbY: nat, x: nat, y: nat)
      reads `modes, intraT, intraL
      requires Valid()
    {
      && (forall v :: 0 <= v < intraT.Length ==>
            intraT[v] == At(modes, v, if v < 4 * mbX then 4 * mbY + 3
                                      else if v < 4 * mbX + x then 4 * mbY + y
                                      else if v < 4 * mbX + 4 then 4 * mbY + y - 1
                                      else 4 * mbY - 1))
      && (forall v :: 0 <= v < 4 ==> intraL[v] == At(modes, if v < y then 4 * mbX + 3 else 4 * mbX - 1, 4 * mbY + v))
    }

    /** Block (x, y) of the macroblock; `ymode` is the mode to its left. */
    method ParseBlock(mbX: nat, ghost mbY: nat, x: nat, ghost y: nat, ymode: int, ghost s0: S, ghost m0: Modes) returns (mode: int)
      requires Valid() && mbX < mbW && x < 4 && y < 4 && Inside(mbX, mbY, x, y)
      requires ymode == At(modes, 4 * mbX + x - 1, 4 * mbY + y)
      requires (br, modes) == Blocks(get, s0, m0, h, mbX, mbY, 4 * y + x)
      modifies `br, `modes, intraT
      ensures Inside(mbX, mbY, x + 1, y) && mode == At(modes, 4 * mbX + x, 4 * mbY + y)
      ensures (br, modes) == Blocks(get, s0, m0, h, mbX, mbY, 4 * y + x + 1)
      ensures forall v, w :: v != 4 * mbX + x || w != 4 * mbY + y ==> At(modes, v, w) == At(old(modes), v, w)
    {
      hide HardCoded, Blocks, At;
      NextBlock(get, s0, m0, h, mbX, mbY, x, y);
      var prob := h.modeProba(intraT[4 * mbX + x], ymode);
      var state;
      mode, state := ReadMode(get, br, prob);
      br := state;
      ghost var cx, cy := 4 * mbX + x, 4 * mbY + y;
      ghost var next := modes[(cx as int, cy as int) := mode];
      AtUpdate(modes, next, cx, cy, mode);
      modes := next;
      intraT[4 * mbX + x] := mode;
    }

    /** One row of four blocks. */
    method ParseBlockRow(mbX: nat, ghost mbY: nat, y: nat, ghost s0: S, ghost m0: Modes) returns (row: seq<int>)
      requires Valid() && mbX < mbW && y < 4 && Inside(mbX, mbY, 0, y)
      requires (br, modes) == Blocks(get, s0, m0, h, mbX, mbY, 4 * y)
      modifies `br, `modes, intraT, intraL
      ensures Inside(mbX, mbY, 0, y + 1)
      ensures (br, modes) == Blocks(get, s0, m0, h, mbX, mbY, 4 * y + 4)
      ensures |row| == 4 && forall x :: 0 <= x < 4 ==> row[x] == At(modes, 4 * mbX + x, 4 * mbY + y)
      ensures forall v, w :: w < 4 * mbY + y ==> At(modes, v, w) == At(old(modes), v, w)
    {
      hide HardCoded, Blocks;
      var ymode := intraL[y];
      for x := 0 to 4
        modifies `br, `modes, intraT
        invariant Inside(mbX, mbY, x, y) && ymode == At(modes, 4 * mbX + x - 1, 4 * mbY + y)
        invariant (br, modes) == Blocks(get, s0, m0, h, mbX, mbY, 4 * y + x)
        invariant forall v, w :: w < 4 * mbY + y ==> At(modes, v, w) == At(old(modes), v, w)
      {
        ymode := ParseBlock(mbX, mbY, x, y, ymode, s0, m0);
      }
      row := intraT[4 * mbX..4 * mbX + 4];
      intraL[y] := ymode;
    }

    /** The sixteen 4x4 modes of a macroblock. */
    method ParseI4x4(mbX: nat, ghost mbY: nat) returns (imodes: seq<int>)
      requires Valid() && mbX < mbW && Rolling(mbX, mbY)
      modifies `br, `modes, intraT, intraL
      ensures Rolling(mbX + 1, mbY)
      ensures (br, modes) == Blocks(get, old(br), old(modes), h, mbX, mbY, 16)
      ensures imodes == ModesOf(modes, mbX, mbY)
    {
      hide HardCoded, Blocks;
      ghost var s0, m0 := br, modes;
      NoBlocks(get, s0, m0, h, mbX, mbY);
      imodes := [];
      for y := 0 to 4
        modifies `br, `modes, intraT, intraL
        invariant Inside(mbX, mbY, 0, y)
        invariant (br, modes) == Blocks(get, s0, m0, h, mbX, mbY, 4 * y)
        invariant |imodes| == 4 * y
        invariant forall k :: 0 <= k < |imodes| ==> imodes[k] == At(modes, 4 * mbX + k % 4, 4 * mbY + k / 4)
      {
        var row := ParseBlockRow(mbX, mbY, y, s0, m0);
        forall k | 4 * y <= k < 4 * y + 4
          ensures (imodes + row)[k] == At(modes, 4 * mbX + k % 4, 4 * mbY + k / 4)
        {
          assert k / 4 == y && k % 4 == k - 4 * y;
        }
        imodes := imodes + row;
      }
    }

    /** The one mode of a macroblock predicted as a whole. */
    method ParseI16x16(mbX: nat, ghost mbY: nat) returns (imodes: seq<int>)
      requires Valid() && mbX < mbW && Rolling(mbX, mbY)
      modifies `br, `modes, intraT, intraL
      ensures Rolling(mbX + 1, mbY)
      ensures (br, modes) == Luma(get, old(br), old(modes), h, mbX, mbY, false)
      ensures imodes == [At(modes, 4 * mbX, 4 * mbY)]
    {
      hide Filled;
      var r := get(br, 156);
      var ymode;
      if r.0 {
        r := get(r.1, 128);
        ymode := if r.0 then TM_PRED else H_PRED;
      } else {
        r := get(r.1, 163);
        ymode := if r.0 then V_PRED else DC_PRED;
      }
      br := r.1;
      ghost var before := modes;
      modes := Filled(modes, mbX, mbY, 16, ymode);
      FilledAt(before, mbX, mbY, 16, ymode);
      forall v | 0 <= v < 4 {
        intraT[4 * mbX + v] := ymode;
      }
      forall v | 0 <= v < 4 {
        intraL[v] := ymode;
      }
      imodes := [ymode];
    }

    /** ParseIntraMode. */
    method ParseIntraMode(mbX: nat, ghost mbY: nat, oldSkip: bool) returns (block: Block)
      requires Valid() && mbX < mbW && Rolling(mbX, mbY)
      modifies `br, `modes, intraT, intraL
      ensures Rolling(mbX + 1, mbY)
      ensures (block, br, modes) == Macroblock(get, old(br), old(modes), h, mbX, mbY, oldSkip)
    {
      hide HardCoded, Blocks, Filled, ReadMode16, Parser.Rolling;
      var segment, skip := 0, oldSkip;
      if h.updateMap {
        var r := get(br, h.segments.0);
        if !r.0 {
          r := get(r.1, h.segments.1);
          segment := if r.0 then 1 else 0;
        } else {
          r := get(r.1, h.segments.2);
          segment := (if r.0 then 1 else 0) + 2;
        }
        br := r.1;
      }
      if h.useSkip {
        skip, br := get(br, h.skipP).0, get(br, h.skipP).1;
      }
      var large := get(br, 145);
      br := large.1;
      var imodes;
      if large.0 {
        imodes := ParseI16x16(mbX, mbY);
      } else {
        imodes := ParseI4x4(mbX, mbY);
      }
      var uvmode := ParseUVMode();
      block := Block(segment, skip, !large.0, imodes, uvmode);
    }

    method ParseUVMode() returns (uvmode: int)
      modifies `br
      ensures (uvmode, br) == ReadUV(get, old(br))
    {
      var r := get(br, 142);
      if !r.0 {
        br := r.1;
        return DC_PRED;
      }
      r := get(r.1, 114);
      if !r.0 {
        br := r.1;
        return V_PRED;
      }
      r := get(r.1, 183);
      br := r.1;
      return if r.0 then TM_PRED else H_PRED;
    }

    /** VP8ParseIntraModeRow: false when the reader ran out of data somewhere in the row. */
    method ParseIntraModeRow(ghost mbY: nat, skips: seq<bool>) returns (row: seq<Block>, ok: bool)
      requires Valid() && Rolling(0, mbY) && |skips| == mbW
      modifies `br, `modes, intraT, intraL
      ensures Rolling(mbW, mbY)
      ensures (row, br, modes) == Row(get, old(br), old(modes), h, mbW, mbY, skips)
      ensures ok <==> !eof(br)
    {
      hide Macroblock;
      ghost var s0, m0 := br, modes;
      row := [];
      for mbX := 0 to mbW
        modifies `br, `modes, intraT, intraL
        invariant Rolling(mbX, mbY)
        invariant (row, br, modes) == Row(get, s0, m0, h, mbX, mbY, skips)
      {
        var block := ParseIntraMode(mbX, mbY, skips[mbX]);
        row := row + [block];
      }
      ok := !eof(br);
    }

    /** VP8InitScanline: the contexts stand at the next row. */
    method InitScanline(ghost mbY: nat)
      requires Valid() && Rolling(mbW, mbY)
      modifies intraL
      ensures Rolling(0, mbY + 1)
    {
      forall v | 0 <= v < 4 {
        intraL[v] := B_DC_PRED;
      }
    }

    /** The modes of ParseFrame, row by row. It stops behind the first row whose reader
        ran out, and succeeds if there is none. */
    method ParseFrame(mbH: nat, skips: seq<bool>) returns (rows: seq<seq<Block>>, ok: bool)
      requires Valid() && Rolling(0, 0) && |skips| == mbW && modes == map[]
      modifies `br, `modes, intraT, intraL
      ensures |rows| <= mbH && (rows, br, modes) == Frame(get, old(br), h, mbW, |rows|, skips)
      ensures forall n :: 1 <= n < |rows| ==> !eof(Frame(get, old(br), h, mbW, n, skips).1)
      ensures if ok then |rows| == mbH && (mbH > 0 ==> !eof(br)) else |rows| > 0 && eof(br)
    {
      hide Row, Parser.Rolling;
      ghost var s0 := br;
      rows := [];
      for mbY := 0 to mbH
        modifies `br, `modes, intraT, intraL
        invariant Rolling(0, mbY) && |rows| == mbY
        invariant (rows, br, modes) == Frame(get, s0, h, mbW, mbY, skips)
        invariant forall n :: 1 <= n <= mbY ==> !eof(Frame(get, s0, h, mbW, n, skips).1)
      {
        var row;
        row, ok := ParseIntraModeRow(mbY, skips);
        rows := rows + [row];
        if !ok {
          return;
        }
        InitScanline(mbY);
      }
      ok := true;
    }
  }

  /** The first n macroblocks of a row. */
  function Row<S>(get: Reader<S>, s: S, m: Modes, h: Header, n: nat, mbY: nat, skips: seq<bool>): (seq<Block>, S, Modes)
    requires n <= |skips|
  {
    if n == 0 then ([], s, m)
    else
      var (row, s', m') := Row(get, s, m, h, n - 1, mbY, skips);
      var (block, s'', m'') := Macroblock(get, s', m', h, n - 1, mbY, skips[n - 1]);
      (row + [block], s'', m'')
  }

  /** The first n rows of a picture, from an empty map. */
  function Frame<S>(get: Reader<S>, s: S, h: Header, mbW: nat, n: nat, skips: seq<bool>): (seq<seq<Block>>, S, Modes)
    requires mbW <= |skips|
  {
    if n == 0 then ([], s, map[])
    else
      var (rows, s', m') := Frame(get, s, h, mbW, n - 1, skips);
      var (row, s'', m'') := Row(get, s', m', h, mbW, n - 1, skips);
      (rows + [row], s'', m'')
  }

  lemma NoBlocks<S>(get: Reader<S>, s: S, m: Modes, h: Header, mbX: nat, mbY: nat)
    ensures Blocks(get, s, m, h, mbX, mbY, 0) == (s, m)
  {
  }

  lemma {:induction false} FilledAt(m: Modes, mbX: nat, mbY: nat, k: nat, mode: int)
    requires k <= 16
    ensures forall x, y :: At(Filled(m, mbX, mbY, k, mode), x, y) ==
              if 4 * mbX <= x < 4 * mbX + 4 && 4 * mbY <= y && 4 * (y - 4 * mbY) + x - 4 * mbX < k then mode else At(m, x, y)
  {
    if k > 0 {
      FilledAt(m, mbX, mbY, k - 1, mode);
      var cx, cy := 4 * mbX + (k - 1) % 4, 4 * mbY + (k - 1) / 4;
      forall x, y
        ensures At(Filled(m, mbX, mbY, k, mode), x, y) ==
                  if 4 * mbX <= x < 4 * mbX + 4 && 4 * mbY <= y && 4 * (y - 4 * mbY) + x - 4 * mbX < k then mode else At(m, x, y)
      {
        assert At(Filled(m, mbX, mbY, k, mode), x, y) == if x == cx && y == cy then mode else At(Filled(m, mbX, mbY, k - 1, mode), x, y);
        assert 4 * (cy - 4 * mbY) + cx - 4 * mbX == k - 1;
      }
    }
  }

  /** The reference one block further. */
  lemma NextBlock<S>(get: Reader<S>, s: S, m: Modes, h: Header, mbX: nat, mbY: nat, x: nat, y: nat)
    requires x < 4 && y < 4
    ensures var (s', m') := Blocks(get, s, m, h, mbX, mbY, 4 * y + x);
            var cx, cy := 4 * mbX + x, 4 * mbY + y;
            var (mode, s'') := HardCoded(get, s', h.modeProba(At(m', cx, cy - 1), At(m', cx - 1, cy)));
            Blocks(get, s, m, h, mbX, mbY, 4 * y + x + 1) == (s'', m'[(cx, cy) := mode])
  {
    hide HardCoded;
    assert (4 * y + x) / 4 == y && (4 * y + x) % 4 == x;
  }
}

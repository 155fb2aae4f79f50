/** What the encoder writes for the intra modes of a picture, and the round trip: the
    decoder's parser reads the picture back. A bit is written together with its
    probability, and given back only to a reader that asks with the same one. */
module ModeWriter {
  import opened IntraModes

  type Bits = seq<(bool, int)>

  /** VP8GetBit on such a list. */
  function Pull(s: Bits, prob: int): (bool, Bits) {
    if s != [] && s[0].1 == prob then (s[0].0, s[1..]) else (false, [])
  }

  /** VP8PutBit, in front of what follows. */
  function Put(bit: bool, prob: int, more: Bits): Bits { [(bit, prob)] + more }

  lemma PullOfPut(bit: bool, prob: int, more: Bits, rest: Bits)
    ensures Pull(Put(bit, prob, more) + rest, prob) == (bit, more + rest)
  {
    var s := Put(bit, prob, more) + rest;
    assert s[1..] == more + rest;
  }

  // ---- tree_enc.c ----

  /** PutI4Mode. */
  function I4Bits(mode: int, prob: int -> int): Bits {
    Put(mode != B_DC_PRED, prob(0), if mode == B_DC_PRED then [] else
      Put(mode != B_TM_PRED, prob(1), if mode == B_TM_PRED then [] else
        Put(mode != B_VE_PRED, prob(2), if mode == B_VE_PRED then [] else I4Rest(mode, prob))))
  }

  function I4Rest(mode: int, prob: int -> int): Bits {
    Put(mode >= B_LD_PRED, prob(3),
      if mode < B_LD_PRED then
        Put(mode != B_HE_PRED, prob(4), if mode == B_HE_PRED then [] else Put(mode != B_RD_PRED, prob(5), []))
      else
        Put(mode != B_LD_PRED, prob(6), if mode == B_LD_PRED then [] else
          Put(mode != B_VL_PRED, prob(7), if mode == B_VL_PRED then [] else Put(mode != B_HD_PRED, prob(8), []))))
  }

  /** PutI16Mode. */
  function I16Bits(mode: int): Bits {
    Put(mode == TM_PRED || mode == H_PRED, 156,
      if mode == TM_PRED || mode == H_PRED then Put(mode == TM_PRED, 128, []) else Put(mode == V_PRED, 163, []))
  }

  /** PutUVMode. */
  function UVBits(mode: int): Bits {
    Put(mode != DC_PRED, 142, if mode == DC_PRED then [] else
      Put(mode != V_PRED, 114, if mode == V_PRED then [] else Put(mode != H_PRED, 183, [])))
  }

  /** PutSegment. */
  function SegmentBits(s: int, p: (int, int, int)): Bits {
    Put(s >= 2, p.0, Put(s % 2 == 1, if s >= 2 then p.2 else p.1, []))
  }

  type Picture = seq<seq<Block>>

  /** The mode of a 4x4 block of the picture, in block columns and rows. */
  function ModeAt(pic: Picture, x: int, y: int): int {
    if x < 0 || y < 0 || y / 4 >= |pic| || x / 4 >= |pic[y / 4]| then B_DC_PRED
    else
      var b := pic[y / 4][x / 4];
      var k := if b.isI4x4 then 4 * (y % 4) + x % 4 else 0;
      if k < |b.imodes| then b.imodes[k] else B_DC_PRED
  }

  /** Blocks k .. 15 of a macroblock, each with the probabilities of the modes above it
      and to its left. */
  function BlockBits(pic: Picture, h: Header, mbX: nat, mbY: nat, k: nat): Bits
    requires k <= 16
    decreases 16 - k
  {
    if k == 16 then []
    else
      var x, y := 4 * mbX + k % 4, 4 * mbY + k / 4;
      I4Bits(ModeAt(pic, x, y), h.modeProba(ModeAt(pic, x, y - 1), ModeAt(pic, x - 1, y))) + BlockBits(pic, h, mbX, mbY, k + 1)
  }

  /** One macroblock of VP8CodeIntraModes. */
  function MbBits(pic: Picture, h: Header, mbX: nat, mbY: nat): Bits
    requires mbY < |pic| && mbX < |pic[mbY]|
  {
    var b := pic[mbY][mbX];
    (if h.updateMap then SegmentBits(b.segment, h.segments) else [])
    + ((if h.useSkip then Put(b.skip, h.skipP, []) else [])
       + Put(!b.isI4x4, 145,
             (if b.isI4x4 then BlockBits(pic, h, mbX, mbY, 0) else I16Bits(ModeAt(pic, 4 * mbX, 4 * mbY))) + UVBits(b.uvmode)))
  }

  /** Macroblocks mbX and up of a row. */
  function RowBits(pic: Picture, h: Header, mbX: nat, mbY: nat): Bits
    requires mbY < |pic| && mbX <= |pic[mbY]|
    decreases |pic[mbY]| - mbX
  {
    if mbX == |pic[mbY]| then [] else MbBits(pic, h, mbX, mbY) + RowBits(pic, h, mbX + 1, mbY)
  }

  /** Rows mbY and up. */
  function PictureBits(pic: Picture, h: Header, mbY: nat): Bits
    requires mbY <= |pic|
    decreases |pic| - mbY
  {
    if mbY == |pic| then [] else RowBits(pic, h, 0, mbY) + PictureBits(pic, h, mbY + 1)
  }

  predicate WholeMode(mode: int) { mode == DC_PRED || mode == V_PRED || mode == H_PRED || mode == TM_PRED }

  /** A macroblock that the encoder can have chosen; what is not written has its
      default. */
  predicate Sound(b: Block, h: Header, oldSkip: bool) {
    && (if h.updateMap then 0 <= b.segment < 4 else b.segment == 0) && (h.useSkip || b.skip == oldSkip)
    && (if b.isI4x4 then |b.imodes| == 16 && forall k :: 0 <= k < 16 ==> 0 <= b.imodes[k] <= 9
        else |b.imodes| == 1 && WholeMode(b.imodes[0]))
    && WholeMode(b.uvmode)
  }

  predicate SoundPicture(pic: Picture, h: Header, mbW: nat, skips: seq<bool>) {
    && |skips| == mbW
    && forall y :: 0 <= y < |pic| ==> |pic[y]| == mbW && forall x :: 0 <= x < mbW ==> Sound(pic[y][x], h, skips[x])
  }

  // ---- single trees ----

  lemma ReadI4(mode: int, prob: int -> int, rest: Bits)
    requires 0 <= mode <= 9
    ensures HardCoded(Pull, I4Bits(mode, prob) + rest, prob) == (mode, rest)
  {
    hide Pull, Put;
    assert [] + rest == rest;
    var s3 := if mode <= B_VE_PRED then [] else I4Rest(mode, prob);
    var s2 := if mode <= B_TM_PRED then [] else Put(mode != B_VE_PRED, prob(2), s3);
    var s1 := if mode == B_DC_PRED then [] else Put(mode != B_TM_PRED, prob(1), s2);
    PullOfPut(mode != B_DC_PRED, prob(0), s1, rest);
    PullOfPut(mode != B_TM_PRED, prob(1), s2, rest);
    PullOfPut(mode != B_VE_PRED, prob(2), s3, rest);
    if mode > B_VE_PRED {
      ReadI4Rest(mode, prob, rest);
    }
  }

  /** The part of the tree behind its third bit. */
  lemma ReadI4Rest(mode: int, prob: int -> int, rest: Bits)
    requires 3 <= mode <= 9
    ensures var (b3, s4) := Pull(I4Rest(mode, prob) + rest, prob(3));
            b3 == (mode >= B_LD_PRED) &&
            if !b3 then
              var (b4, s5) := Pull(s4, prob(4));
              b4 == (mode != B_HE_PRED) &&
              if !b4 then s5 == rest else Pull(s5, prob(5)) == (mode != B_RD_PRED, rest)
            else
              var (b6, s5) := Pull(s4, prob(6));
              b6 == (mode != B_LD_PRED) &&
              if !b6 then s5 == rest
              else
                var (b7, s6) := Pull(s5, prob(7));
                b7 == (mode != B_VL_PRED) && if !b7 then s6 == rest else Pull(s6, prob(8)) == (mode != B_HD_PRED, rest)
  {
    hide Pull, Put;
    assert [] + rest == rest;
    if mode < B_LD_PRED {
      var t5 := if mode == B_HE_PRED then [] else Put(mode != B_RD_PRED, prob(5), []);
      var t4 := Put(mode != B_HE_PRED, prob(4), t5);
      PullOfPut(false, prob(3), t4, rest);
      PullOfPut(mode != B_HE_PRED, prob(4), t5, rest);
      PullOfPut(mode != B_RD_PRED, prob(5), [], rest);
    } else {
      var t8 := if mode <= B_VL_PRED then [] else Put(mode != B_HD_PRED, prob(8), []);
      var t7 := if mode == B_LD_PRED then [] else Put(mode != B_VL_PRED, prob(7), t8);
      var t6 := Put(mode != B_LD_PRED, prob(6), t7);
      PullOfPut(true, prob(3), t6, rest);
      PullOfPut(mode != B_LD_PRED, prob(6), t7, rest);
      PullOfPut(mode != B_VL_PRED, prob(7), t8, rest);
      PullOfPut(mode != B_HD_PRED, prob(8), [], rest);
    }
  }

  lemma ReadI16(mode: int, rest: Bits)
    requires WholeMode(mode)
    ensures ReadMode16(Pull, I16Bits(mode) + rest) == (mode, rest)
  {
    hide Pull, Put;
    assert [] + rest == rest;
    var large := mode == TM_PRED || mode == H_PRED;
    PullOfPut(large, 156, if large then Put(mode == TM_PRED, 128, []) else Put(mode == V_PRED, 163, []), rest);
    PullOfPut(mode == TM_PRED, 128, [], rest);
    PullOfPut(mode == V_PRED, 163, [], rest);
  }

  lemma ReadUVMode(mode: int, rest: Bits)
    requires WholeMode(mode)
    ensures ReadUV(Pull, UVBits(mode) + rest) == (mode, rest)
  {
    hide Pull, Put;
    assert [] + rest == rest;
    var t3 := if mode == V_PRED then [] else Put(mode != H_PRED, 183, []);
    var t2 := if mode == DC_PRED then [] else Put(mode != V_PRED, 114, t3);
    PullOfPut(mode != DC_PRED, 142, t2, rest);
    PullOfPut(mode != V_PRED, 114, t3, rest);
    PullOfPut(mode != H_PRED, 183, [], rest);
  }

  lemma ReadSegmentBits(s: int, h: Header, rest: Bits)
    requires if h.updateMap then 0 <= s < 4 else s == 0
    ensures ReadSegment(Pull, (if h.updateMap then SegmentBits(s, h.segments) else []) + rest, h) == (s, rest)
  {
    hide Pull, Put;
    assert [] + rest == rest;
    var p := if s >= 2 then h.segments.2 else h.segments.1;
    PullOfPut(s >= 2, h.segments.0, Put(s % 2 == 1, p, []), rest);
    PullOfPut(s % 2 == 1, p, [], rest);
  }

  // ---- the map of modes ----

  /** Block (x, y) comes before block k of macroblock (mbX, mbY). */
  predicate Earlier(x: int, y: int, mbX: nat, mbY: nat, k: nat) {
    y / 4 < mbY || (y / 4 == mbY && (x / 4 < mbX || (x / 4 == mbX && 4 * (y % 4) + x % 4 < k)))
  }

  predicate InPicture(pic: Picture, x: int, y: int) {
    0 <= x && 0 <= y && y / 4 < |pic| && x / 4 < |pic[y / 4]|
  }

  /** The map holds the modes of all blocks read so far. */
  ghost predicate Parsed(m: Modes, pic: Picture, mbX: nat, mbY: nat, k: nat) {
    forall x, y :: InPicture(pic, x, y) && Earlier(x, y, mbX, mbY, k) ==> At(m, x, y) == ModeAt(pic, x, y)
  }

  /** The next block of a macroblock predicted block by block. */
  lemma NextIsRead(pic: Picture, h: Header, m: Modes, mbX: nat, mbY: nat, k: nat, rest: Bits)
    requires k < 16 && mbY < |pic| && mbX < |pic[mbY]| && pic[mbY][mbX].isI4x4 && Parsed(m, pic, mbX, mbY, k)
    requires |pic[mbY][mbX].imodes| == 16 && forall j :: 0 <= j < 16 ==> 0 <= pic[mbY][mbX].imodes[j] <= 9
    requires mbY > 0 ==> mbX < |pic[mbY - 1]|
    ensures var x, y := 4 * mbX + k % 4, 4 * mbY + k / 4;
            var mode := ModeAt(pic, x, y);
            && HardCoded(Pull, BlockBits(pic, h, mbX, mbY, k) + rest, h.modeProba(At(m, x, y - 1), At(m, x - 1, y)))
               == (mode, BlockBits(pic, h, mbX, mbY, k + 1) + rest)
            && Parsed(m[(x, y) := mode], pic, mbX, mbY, k + 1)
  {
    hide HardCoded, I4Bits, Pull, Parsed, At, ModeAt, BlockBits;
    var x, y := 4 * mbX + k % 4, 4 * mbY + k / 4;
    AboveAndLeft(pic, m, mbX, mbY, k);
    ModeOfBlock(pic, mbX, mbY, k);
    var mode, prob := ModeAt(pic, x, y), h.modeProba(ModeAt(pic, x, y - 1), ModeAt(pic, x - 1, y));
    var more := BlockBits(pic, h, mbX, mbY, k + 1);
    FirstBlockBits(pic, h, mbX, mbY, k, rest);
    ReadI4(mode, prob, more + rest);
    OneBlockMore(pic, m, mbX, mbY, k);
  }

  lemma FirstBlockBits(pic: Picture, h: Header, mbX: nat, mbY: nat, k: nat, rest: Bits)
    requires k < 16
    ensures var x, y := 4 * mbX + k % 4, 4 * mbY + k / 4;
            BlockBits(pic, h, mbX, mbY, k) + rest
            == I4Bits(ModeAt(pic, x, y), h.modeProba(ModeAt(pic, x, y - 1), ModeAt(pic, x - 1, y)))
               + (BlockBits(pic, h, mbX, mbY, k + 1) + rest)
  {
    hide I4Bits, ModeAt;
  }

  lemma ModeOfBlock(pic: Picture, mbX: nat, mbY: nat, k: nat)
    requires k < 16 && mbY < |pic| && mbX < |pic[mbY]| && pic[mbY][mbX].isI4x4 && |pic[mbY][mbX].imodes| == 16
    ensures ModeAt(pic, 4 * mbX + k % 4, 4 * mbY + k / 4) == pic[mbY][mbX].imodes[k]
  {
    BlockPlace(mbX, mbY, k);
  }

  lemma BlockPlace(mbX: nat, mbY: nat, k: nat)
    requires k < 16
    ensures var x, y := 4 * mbX + k % 4, 4 * mbY + k / 4;
            x / 4 == mbX && y / 4 == mbY && x % 4 == k % 4 && y % 4 == k / 4 && 4 * (y % 4) + x % 4 == k
  {
  }

  /** The blocks above and to the left are read already, or outside the picture. */
  lemma AboveAndLeft(pic: Picture, m: Modes, mbX: nat, mbY: nat, k: nat)
    requires k < 16 && mbY < |pic| && mbX < |pic[mbY]| && Parsed(m, pic, mbX, mbY, k) && (mbY > 0 ==> mbX < |pic[mbY - 1]|)
    ensures var x, y := 4 * mbX + k % 4, 4 * mbY + k / 4;
            At(m, x, y - 1) == ModeAt(pic, x, y - 1) && At(m, x - 1, y) == ModeAt(pic, x - 1, y)
  {
    hide ModeAt;
    var x, y := 4 * mbX + k % 4, 4 * mbY + k / 4;
    BlockPlace(mbX, mbY, k);
    if y > 0 {
      assert if k < 4 then (y - 1) / 4 == mbY - 1 else (y - 1) / 4 == mbY && (y - 1) % 4 == k / 4 - 1;
      assert InPicture(pic, x, y - 1) && Earlier(x, y - 1, mbX, mbY, k);
    } else {
      OutsideIsDC(pic, m, x, y - 1);
    }
    if x > 0 {
      assert if k % 4 == 0 then (x - 1) / 4 == mbX - 1 else (x - 1) / 4 == mbX && (x - 1) % 4 == k % 4 - 1;
      assert InPicture(pic, x - 1, y) && Earlier(x - 1, y, mbX, mbY, k);
    } else {
      OutsideIsDC(pic, m, x - 1, y);
    }
  }

  lemma OutsideIsDC(pic: Picture, m: Modes, x: int, y: int)
    requires x < 0 || y < 0
    ensures At(m, x, y) == B_DC_PRED == ModeAt(pic, x, y)
  {
  }

  lemma OneBlockMore(pic: Picture, m: Modes, mbX: nat, mbY: nat, k: nat)
    requires k < 16 && Parsed(m, pic, mbX, mbY, k)
    ensures var x, y := 4 * mbX + k % 4, 4 * mbY + k / 4;
            Parsed(m[(x, y) := ModeAt(pic, x, y)], pic, mbX, mbY, k + 1)
  {
    hide ModeAt;
    var cx, cy := 4 * mbX + k % 4, 4 * mbY + k / 4;
    BlockPlace(mbX, mbY, k);
    var m' := m[(cx, cy) := ModeAt(pic, cx, cy)];
    forall x, y | InPicture(pic, x, y) && Earlier(x, y, mbX, mbY, k + 1)
      ensures At(m', x, y) == ModeAt(pic, x, y)
    {
      if !Earlier(x, y, mbX, mbY, k) {
        assert 4 * (y % 4) + x % 4 == k;
        assert x == 4 * (x / 4) + x % 4 && y == 4 * (y / 4) + y % 4;
        assert x == cx && y == cy;
      } else {
        assert x != cx || y != cy;
      }
    }
  }

  // ---- macroblocks, rows, the picture ----

  lemma {:induction false} BlocksAreRead(pic: Picture, h: Header, m: Modes, mbX: nat, mbY: nat, k: nat, rest: Bits)
    requires k <= 16 && mbY < |pic| && mbX < |pic[mbY]| && pic[mbY][mbX].isI4x4 && Parsed(m, pic, mbX, mbY, 0)
    requires |pic[mbY][mbX].imodes| == 16 && forall j :: 0 <= j < 16 ==> 0 <= pic[mbY][mbX].imodes[j] <= 9
    requires mbY > 0 ==> mbX < |pic[mbY - 1]|
    ensures var (s', m') := Blocks(Pull, BlockBits(pic, h, mbX, mbY, 0) + rest, m, h, mbX, mbY, k);
            s' == BlockBits(pic, h, mbX, mbY, k) + rest && Parsed(m', pic, mbX, mbY, k)
  {
    hide HardCoded, Pull, Parsed, At, ModeAt, BlockBits;
    if k > 0 {
      BlocksAreRead(pic, h, m, mbX, mbY, k - 1, rest);
      var m' := Blocks(Pull, BlockBits(pic, h, mbX, mbY, 0) + rest, m, h, mbX, mbY, k - 1).1;
      NextIsRead(pic, h, m', mbX, mbY, k - 1, rest);
    }
  }

  lemma NoBlockBits(pic: Picture, h: Header, mbX: nat, mbY: nat)
    ensures BlockBits(pic, h, mbX, mbY, 16) == []
  {
  }

  /** The luma modes of a macroblock. */
  lemma LumaIsRead(pic: Picture, h: Header, m: Modes, mbX: nat, mbY: nat, oldSkip: bool, rest: Bits)
    requires mbY < |pic| && mbX < |pic[mbY]| && Sound(pic[mbY][mbX], h, oldSkip) && Parsed(m, pic, mbX, mbY, 0)
    requires mbY > 0 ==> mbX < |pic[mbY - 1]|
    ensures var b := pic[mbY][mbX];
            var bits := if b.isI4x4 then BlockBits(pic, h, mbX, mbY, 0) else I16Bits(ModeAt(pic, 4 * mbX, 4 * mbY));
            var (s', m') := Luma(Pull, bits + rest, m, h, mbX, mbY, b.isI4x4);
            && s' == rest && Parsed(m', pic, mbX + 1, mbY, 0)
            && b.imodes == if b.isI4x4 then ModesOf(m', mbX, mbY) else [At(m', 4 * mbX, 4 * mbY)]
  {
    hide HardCoded, Pull, BlockBits, Blocks, Filled, I16Bits, ReadMode16;
    var b := pic[mbY][mbX];
    if b.isI4x4 {
      BlocksAreRead(pic, h, m, mbX, mbY, 16, rest);
      NoBlockBits(pic, h, mbX, mbY);
      assert [] + rest == rest;
      var m' := Blocks(Pull, BlockBits(pic, h, mbX, mbY, 0) + rest, m, h, mbX, mbY, 16).1;
      MacroblockIsDone(m', pic, mbX, mbY);
      SixteenModes(m', pic, mbX, mbY);
    } else {
      var mode := b.imodes[0];
      BlockPlace(mbX, mbY, 0);
      assert ModeAt(pic, 4 * mbX, 4 * mbY) == mode;
      ReadI16(mode, rest);
      FilledIsParsed(m, pic, mbX, mbY, mode);
    }
  }

  lemma MacroblockIsDone(m: Modes, pic: Picture, mbX: nat, mbY: nat)
    requires Parsed(m, pic, mbX, mbY, 16)
    ensures Parsed(m, pic, mbX + 1, mbY, 0)
  {
    hide At, ModeAt;
    forall x, y | InPicture(pic, x, y) && Earlier(x, y, mbX + 1, mbY, 0)
      ensures At(m, x, y) == ModeAt(pic, x, y)
    {
      assert Earlier(x, y, mbX, mbY, 16);
    }
  }

  lemma SixteenModes(m: Modes, pic: Picture, mbX: nat, mbY: nat)
    requires mbY < |pic| && mbX < |pic[mbY]| && pic[mbY][mbX].isI4x4 && |pic[mbY][mbX].imodes| == 16
    requires Parsed(m, pic, mbX + 1, mbY, 0)
    ensures ModesOf(m, mbX, mbY) == pic[mbY][mbX].imodes
  {
    hide At, ModeAt;
    forall k | 0 <= k < 16 ensures ModesOf(m, mbX, mbY)[k] == pic[mbY][mbX].imodes[k] {
      BlockPlace(mbX, mbY, k);
      ModeOfBlock(pic, mbX, mbY, k);
      assert InPicture(pic, 4 * mbX + k % 4, 4 * mbY + k / 4);
    }
  }

  lemma FilledIsParsed(m: Modes, pic: Picture, mbX: nat, mbY: nat, mode: int)
    requires mbY < |pic| && mbX < |pic[mbY]| && !pic[mbY][mbX].isI4x4 && pic[mbY][mbX].imodes == [mode]
    requires Parsed(m, pic, mbX, mbY, 0)
    ensures Parsed(Filled(m, mbX, mbY, 16, mode), pic, mbX + 1, mbY, 0)
    ensures At(Filled(m, mbX, mbY, 16, mode), 4 * mbX, 4 * mbY) == mode
  {
    hide At, Filled;
    FilledAt(m, mbX, mbY, 16, mode);
    var m' := Filled(m, mbX, mbY, 16, mode);
    forall x, y | InPicture(pic, x, y) && Earlier(x, y, mbX + 1, mbY, 0)
      ensures At(m', x, y) == ModeAt(pic, x, y)
    {
      assert x == 4 * (x / 4) + x % 4 && y == 4 * (y / 4) + y % 4;
      if x / 4 == mbX && y / 4 == mbY {
        assert ModeAt(pic, x, y) == mode;
      } else {
        assert Earlier(x, y, mbX, mbY, 0);
      }
    }
  }

  /** A macroblock is read back. */
  lemma MacroblockIsRead(pic: Picture, h: Header, m: Modes, mbX: nat, mbY: nat, oldSkip: bool, rest: Bits)
    requires mbY < |pic| && mbX < |pic[mbY]| && Sound(pic[mbY][mbX], h, oldSkip) && Parsed(m, pic, mbX, mbY, 0)
    requires mbY > 0 ==> mbX < |pic[mbY - 1]|
    ensures var (b, s', m') := Macroblock(Pull, MbBits(pic, h, mbX, mbY) + rest, m, h, mbX, mbY, oldSkip);
            b == pic[mbY][mbX] && s' == rest && Parsed(m', pic, mbX + 1, mbY, 0)
  {
    hide Pull, Put, Parsed, At, ModeAt, BlockBits, Luma, ReadUV, ReadSegment, I16Bits, UVBits, SegmentBits, ModesOf;
    var b := pic[mbY][mbX];
    var luma := if b.isI4x4 then BlockBits(pic, h, mbX, mbY, 0) else I16Bits(ModeAt(pic, 4 * mbX, 4 * mbY));
    var s4 := UVBits(b.uvmode) + rest;
    var s2 := Put(!b.isI4x4, 145, luma + UVBits(b.uvmode)) + rest;
    var skip := if h.useSkip then Put(b.skip, h.skipP, []) else [];
    var segment := if h.updateMap then SegmentBits(b.segment, h.segments) else [];
    assert MbBits(pic, h, mbX, mbY) + rest == segment + (skip + s2);
    ReadSegmentBits(b.segment, h, skip + s2);
    PullOfPut(b.skip, h.skipP, [], s2);
    assert [] + s2 == s2;
    PullOfPut(!b.isI4x4, 145, luma + UVBits(b.uvmode), rest);
    assert luma + UVBits(b.uvmode) + rest == luma + s4;
    LumaIsRead(pic, h, m, mbX, mbY, oldSkip, s4);
    ReadUVMode(b.uvmode, rest);
  }

  lemma {:induction false} RowIsRead(pic: Picture, h: Header, m: Modes, mbW: nat, mbY: nat, skips: seq<bool>, n: nat, rest: Bits)
    requires SoundPicture(pic, h, mbW, skips) && mbY < |pic| && n <= mbW && Parsed(m, pic, 0, mbY, 0)
    ensures var (row, s', m') := Row(Pull, RowBits(pic, h, 0, mbY) + rest, m, h, n, mbY, skips);
            row == pic[mbY][..n] && s' == RowBits(pic, h, n, mbY) + rest && Parsed(m', pic, n, mbY, 0)
  {
    hide Pull, Parsed, Macroblock, MbBits, Sound;
    if n > 0 {
      RowIsRead(pic, h, m, mbW, mbY, skips, n - 1, rest);
      var m' := Row(Pull, RowBits(pic, h, 0, mbY) + rest, m, h, n - 1, mbY, skips).2;
      var more := RowBits(pic, h, n, mbY) + rest;
      assert RowBits(pic, h, n - 1, mbY) + rest == MbBits(pic, h, n - 1, mbY) + more;
      MacroblockIsRead(pic, h, m', n - 1, mbY, skips[n - 1], more);
      assert pic[mbY][..n] == pic[mbY][..n - 1] + [pic[mbY][n - 1]];
    }
  }

  lemma RowIsDone(m: Modes, pic: Picture, mbW: nat, mbY: nat)
    requires mbY < |pic| && |pic[mbY]| == mbW && Parsed(m, pic, mbW, mbY, 0)
    ensures Parsed(m, pic, 0, mbY + 1, 0)
  {
    hide At, ModeAt;
    forall x, y | InPicture(pic, x, y) && Earlier(x, y, 0, mbY + 1, 0)
      ensures At(m, x, y) == ModeAt(pic, x, y)
    {
      assert Earlier(x, y, mbW, mbY, 0);
    }
  }

  /** Whatever picture the encoder has written, the decoder reads it back, with all its
      modes, segments and skip bits, and leaves what follows. */
  lemma {:induction false} PictureIsRead(pic: Picture, h: Header, mbW: nat, skips: seq<bool>, n: nat, rest: Bits)
    requires SoundPicture(pic, h, mbW, skips) && n <= |pic|
    ensures var (rows, s', m') := Frame(Pull, PictureBits(pic, h, 0) + rest, h, mbW, n, skips);
            rows == pic[..n] && s' == PictureBits(pic, h, n) + rest && Parsed(m', pic, 0, n, 0)
  {
    hide Pull, Parsed, Row, RowBits, Sound;
    if n == 0 {
      NothingParsed(pic);
    } else {
      PictureIsRead(pic, h, mbW, skips, n - 1, rest);
      var m' := Frame(Pull, PictureBits(pic, h, 0) + rest, h, mbW, n - 1, skips).2;
      var more := PictureBits(pic, h, n) + rest;
      assert PictureBits(pic, h, n - 1) + rest == RowBits(pic, h, 0, n - 1) + more;
      RowIsRead(pic, h, m', mbW, n - 1, skips, mbW, more);
      assert pic[n - 1][..mbW] == pic[n - 1];
      NoRowBits(pic, h, n - 1, more);
      var m'' := Row(Pull, RowBits(pic, h, 0, n - 1) + more, m', h, mbW, n - 1, skips).2;
      RowIsDone(m'', pic, mbW, n - 1);
      assert pic[..n] == pic[..n - 1] + [pic[n - 1]];
    }
  }

  lemma NothingParsed(pic: Picture)
    ensures Parsed(map[], pic, 0, 0, 0)
  {
  }

  lemma NoRowBits(pic: Picture, h: Header, mbY: nat, rest: Bits)
    requires mbY < |pic|
    ensures RowBits(pic, h, |pic[mbY]|, mbY) + rest == rest
  {
  }

  /** The round trip through the parser itself. */
  method ParseWritten(pic: Picture, h: Header, mbW: nat, skips: seq<bool>) returns (rows: Picture, ok: bool)
    requires SoundPicture(pic, h, mbW, skips)
    ensures ok && rows == pic
  {
    hide Frame, PictureBits;
    var parser := new Parser(Pull, (s: Bits) => false, h, mbW, PictureBits(pic, h, 0));
    rows, ok := parser.ParseFrame(|pic|, skips);
    PictureIsRead(pic, h, mbW, skips, |pic|, []);
    assert PictureBits(pic, h, 0) + [] == PictureBits(pic, h, 0) && pic[..|pic|] == pic;
  }
}

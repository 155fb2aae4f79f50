/** Incremental decompression of the alpha plane.

    FinishRow asks for a few rows at a time, in order. Rows are unfiltered from
    the row above; when the encoder reduced the alpha levels and the caller wants
    dithering, the plane is smoothed at the end, so it has to be decoded in one
    go. The reference decodes the whole plane at once. */
module AlphaRows {
  import opened Options
  import opened RowGeometry

  /** The ALPH chunk: compression method, pre-processing and rows. */
  datatype Method = NoCompression | Lossless
  datatype Stream = Stream(method_: Method, levels: bool, rows: seq<Row>)

  /** The unfilter of one row from the row above it (none for the first), and
      the dequantizer, which smooths the rows from crop_top on. */
  datatype Kernels = Kernels(unfilter: (Option<Row>, Row) -> Row, dequantize: (int, seq<Row>) -> seq<Row>) {
    ghost predicate Valid() {
      forall strength: int, s: seq<Row> :: |dequantize(strength, s)| == |s|
    }

    lemma SmoothLength(strength: int, s: seq<Row>)
      requires Valid()
      ensures |dequantize(strength, s)| == |s|
    {
    }
  }

  /** The first n rows of the plane before dequantizing. Rows of a losslessly
      compressed plane come out of the VP8L decoder unfiltered already. */
  function Unfiltered(ks: Kernels, st: Stream, n: nat): (plane: seq<Row>)
    requires n <= |st.rows|
    ensures |plane| == n
  {
    if n == 0 then []
    else
      var above := Unfiltered(ks, st, n - 1);
      above + [if st.method_ == Lossless then st.rows[n - 1]
               else ks.unfilter(if n == 1 then None else Some(above[n - 2]), st.rows[n - 1])]
  }

  /** The alpha plane the caller must see, of `height` = crop_bottom rows. */
  function OneShot(ks: Kernels, st: Stream, height: nat, cropTop: nat, dithering: int): (plane: seq<Row>)
    requires ks.Valid() && cropTop <= height <= |st.rows|
    ensures |plane| == height
  {
    var p := Unfiltered(ks, st, height);
    if st.levels && dithering > 0 then p[..cropTop] + ks.dequantize(dithering, p[cropTop..]) else p
  }

  lemma {:induction false} UnfilteredPrefix(ks: Kernels, st: Stream, m: nat, n: nat)
    requires m <= n <= |st.rows|
    ensures Unfiltered(ks, st, n)[..m] == Unfiltered(ks, st, m)
  {
    if m < n {
      UnfilteredPrefix(ks, st, m, n - 1);
      assert Unfiltered(ks, st, n)[..m] == Unfiltered(ks, st, n - 1)[..m];
    }
  }

  /** Row r of the plane, whatever the number of rows. */
  lemma UnfilteredAt(ks: Kernels, st: Stream, n: nat, r: nat)
    requires r < n <= |st.rows|
    ensures var p := Unfiltered(ks, st, n);
            p[r] == if st.method_ == Lossless then st.rows[r]
                    else ks.unfilter(if r == 0 then None else Some(p[r - 1]), st.rows[r])
  {
    var p, q := Unfiltered(ks, st, n), Unfiltered(ks, st, r + 1);
    UnfilteredPrefix(ks, st, r + 1, n);
    assert p[r] == p[..r + 1][r] && q == Unfiltered(ks, st, r) + [q[r]];
    if r > 0 { assert p[r - 1] == p[..r + 1][r - 1]; }
  }

  /** Row r is its own row of the stream, for raw data unfiltered from the row above. */
  predicate Chained(ks: Kernels, st: Stream, raw: seq<Row>, r: nat)
    requires r < |raw| && r < |st.rows|
  {
    if st.method_ == Lossless then raw[r] == st.rows[r]
    else if r == 0 then raw[r] == ks.unfilter(None, st.rows[r])
    else raw[r] == ks.unfilter(Some(raw[r - 1]), st.rows[r])
  }

  /** The reference in so many words: whatever rows come out of the chain of unfilters,
      each from the row above it, they are the plane, and smoothed from the cropping
      window on if the levels were reduced and dithering is wanted. */
  lemma OneShotIs(ks: Kernels, st: Stream, height: nat, cropTop: nat, dithering: int, raw: seq<Row>)
    requires ks.Valid() && cropTop <= height <= |st.rows| && |raw| == height
    requires forall r :: 0 <= r < height ==> Chained(ks, st, raw, r)
    ensures OneShot(ks, st, height, cropTop, dithering) ==
              if st.levels && dithering > 0 then raw[..cropTop] + ks.dequantize(dithering, raw[cropTop..]) else raw
  {
    ChainIsUnfiltered(ks, st, height, raw);
    assert raw[..height] == raw;
  }

  lemma {:induction false} ChainIsUnfiltered(ks: Kernels, st: Stream, n: nat, raw: seq<Row>)
    requires n <= |raw| <= |st.rows|
    requires forall r :: 0 <= r < |raw| ==> Chained(ks, st, raw, r)
    ensures Unfiltered(ks, st, n) == raw[..n]
  {
    if n == 0 {
      assert raw[..0] == [];
    } else {
      ChainIsUnfiltered(ks, st, n - 1, raw);
      var above := Unfiltered(ks, st, n - 1);
      assert Chained(ks, st, raw, n - 1);
      assert n > 1 ==> above[n - 2] == raw[n - 2];
      assert Unfiltered(ks, st, n) == above + [raw[n - 1]];
      assert raw[..n] == raw[..n - 1] + [raw[n - 1]];
    }
  }

  /** Whether the parts that are not modelled succeed: ALPHInit with its allocations,
      VP8LDecodeAlphaImageStream, WebPDequantizeLevels. */
  datatype Answers = Answers(init: bool, stream: bool, smooth: bool)

  /** The alpha side of VP8Decoder. */
  class AlphaDecoder {
    const ks: Kernels
    const stream: Stream
    const cropTop: nat
    const height: nat            // io->crop_bottom: rows below are never needed
    const requested: int         // the dithering strength the caller asked for
    const plane: array<Row>      // alpha_plane
    ghost const expected: seq<Row>
    var started: bool            // alph_dec was created
    var isDecoded: bool          // is_alpha_decoded
    var dithering: int           // alpha_dithering
    var prevLine: Option<Row>    // alpha_prev_line
    ghost var ready: nat         // rows decoded so far

    ghost predicate Valid() reads this, plane {
      && Fixed()
      && ready <= height
      && (!started ==> !isDecoded && ready == 0 && dithering == requested)
      && (started ==> dithering == if stream.levels then requested else 0)
      && (isDecoded <==> started && ready == height)
      && (started && stream.levels ==> isDecoded)
      && (!isDecoded && ready > 0 && stream.method_ == NoCompression ==> prevLine == Some(Unfiltered(ks, stream, ready)[ready - 1]))
      && (ready == 0 ==> prevLine == None)
      && plane[..ready] == expected[..ready]
    }

    ghost predicate Fixed() {
      && ks.Valid() && cropTop < height <= |stream.rows| && plane.Length == height
      && expected == OneShot(ks, stream, height, cropTop, requested)
    }

    constructor (ks: Kernels, stream: Stream, cropTop: nat, height: nat, dithering: int)
      requires ks.Valid() && cropTop < height <= |stream.rows|
      ensures Valid() && !started && fresh(plane)
      ensures this.ks == ks && this.stream == stream && this.cropTop == cropTop
      ensures this.height == height && this.requested == dithering && ready == 0
    {
      this.ks, this.stream, this.cropTop, this.height := ks, stream, cropTop, height;
      this.requested, this.dithering := dithering, dithering;
      plane := new Row[height](i => []);
      expected := OneShot(ks, stream, height, cropTop, dithering);
      started, isDecoded, prevLine, ready := false, false, None, 0;
    }

    /** ALPHDecode: unfilters `numRows` rows starting from `row`; the rows above
        were decoded by earlier calls. It fails exactly when the lossless stream is
        used and broken. */
    method ALPHDecode(row: nat, numRows: nat, streamOk: bool) returns (ok: bool)
      requires Fixed()
      requires row + numRows <= height && 0 < numRows
      requires stream.method_ == NoCompression ==>
                 prevLine == if row == 0 then None else Some(Unfiltered(ks, stream, row)[row - 1])
      modifies `prevLine, `isDecoded, plane
      ensures ok <==> stream.method_ == NoCompression || streamOk
      ensures isDecoded == (old(isDecoded) || (ok && row + numRows == height))
      ensures plane[..row] == old(plane[..row])
      ensures ok ==> plane[row..row + numRows] == Unfiltered(ks, stream, row + numRows)[row..]
      ensures stream.method_ == NoCompression ==>
                prevLine == Some(Unfiltered(ks, stream, row + numRows)[row + numRows - 1])
      ensures stream.method_ == Lossless ==> prevLine == old(prevLine)
    {
      hide Unfiltered, OneShot;
      ok := stream.method_ == NoCompression || streamOk;
      if !ok {
        return;
      }
      ghost var all := Unfiltered(ks, stream, row + numRows);
      if row > 0 {
        UnfilteredPrefix(ks, stream, row, row + numRows);
        assert all[row - 1] == all[..row][row - 1];
      }
      for y := 0 to numRows
        invariant plane[..row] == old(plane[..row])
        invariant forall r :: row <= r < row + y ==> plane[r] == all[r]
        invariant stream.method_ == NoCompression ==> prevLine == if row + y == 0 then None else Some(all[row + y - 1])
        invariant stream.method_ == Lossless ==> prevLine == old(prevLine)
        invariant isDecoded == old(isDecoded)
      {
        UnfilteredAt(ks, stream, row + numRows, row + y);
        if stream.method_ == NoCompression {
          plane[row + y] := ks.unfilter(prevLine, stream.rows[row + y]);
          prevLine := Some(plane[row + y]);
        } else {
          plane[row + y] := stream.rows[row + y];
        }
      }
      if row + numRows >= height {
        isDecoded := true;
      }
    }

    /** WebPDequantizeLevels over the cropped part of the plane. */
    method Dequantize()
      requires Fixed()
      modifies plane
      ensures plane[..] == old(plane[..cropTop]) + ks.dequantize(dithering, old(plane[cropTop..]))
    {
      ghost var before := plane[..];
      var crop := plane[cropTop..];
      var smooth := ks.dequantize(dithering, crop);
      ks.SmoothLength(dithering, crop);
      for r := 0 to |smooth|
        invariant forall y :: 0 <= y < height ==>
                    plane[y] == if cropTop <= y < cropTop + r then smooth[y - cropTop] else before[y]
      {
        plane[cropTop + r] := smooth[r];
      }
    }

    /** The first call: parses the header and settles dithering and row count. */
    method Start(row: nat, numRows0: nat) returns (numRows: nat)
      requires !started && row + numRows0 <= height
      modifies `started, `dithering
      ensures started && dithering == (if stream.levels then old(dithering) else 0)
      ensures numRows == if stream.levels then height - row else numRows0
    {
      started, numRows := true, numRows0;
      if !stream.levels {
        dithering := 0;
      } else {
        // Smoothing needs the whole plane.
        numRows := height - row;
      }
    }

    /** Rows decoded now continue the rows decoded before. */
    lemma Continues(before: seq<Row>, now: seq<Row>, row: nat)
      requires Fixed() && |before| == row && row + |now| <= height
      requires before == Unfiltered(ks, stream, height)[..row]
      requires now == Unfiltered(ks, stream, row + |now|)[row..]
      ensures before + now == Unfiltered(ks, stream, height)[..row + |now|]
    {
      var n := row + |now|;
      UnfilteredPrefix(ks, stream, row, n);
      UnfilteredPrefix(ks, stream, n, height);
      UnfilteredPrefix(ks, stream, row, height);
    }

    /** The unfiltered rows are the final ones unless the plane gets smoothed. */
    lemma Unsmoothed()
      requires Fixed() && !(stream.levels && requested > 0)
      ensures expected == Unfiltered(ks, stream, height)
    {
    }

    /** Smooths the plane once it is complete. The rows above row were handed out. */
    method SmoothIfDone(ghost row: nat, answers: Answers) returns (ok: bool)
      requires Fixed() && row <= ready <= height && (isDecoded <==> ready == height)
      requires stream.levels ==> row == 0 && ready == height
      requires dithering == if stream.levels then requested else 0
      requires plane[..ready] == Unfiltered(ks, stream, height)[..ready]
      modifies plane
      ensures ok <==> (stream.levels && requested > 0 ==> answers.smooth)
      ensures ok ==> plane[..ready] == expected[..ready]
      ensures plane[..row] == old(plane[..row])
    {
      hide OneShot, Unfiltered;
      if isDecoded && dithering > 0 {
        if !answers.smooth {
          return false;
        }
        assert plane[..] == plane[..height] == Unfiltered(ks, stream, height);
        Dequantize();
        SmoothedIsExpected(plane[..]);
      } else {
        Unsmoothed();
      }
      return true;
    }

    /** Decodes the rows and, once the plane is complete, smooths it if needed. */
    method DecodeAndSmooth(row: nat, numRows: nat, answers: Answers) returns (ok: bool)
      requires Fixed()
      requires started && !isDecoded && row == ready && 0 < numRows && row + numRows <= height
      requires dithering == if stream.levels then requested else 0
      requires stream.levels ==> row == 0 && numRows == height
      requires stream.method_ == NoCompression ==>
                 prevLine == if row == 0 then None else Some(Unfiltered(ks, stream, row)[row - 1])
      requires plane[..row] == expected[..row]
      modifies `prevLine, `isDecoded, `ready, plane
      ensures ok ==> ready == row + numRows && (isDecoded <==> ready == height)
      ensures ok && stream.method_ == NoCompression ==> prevLine == Some(Unfiltered(ks, stream, ready)[ready - 1])
      ensures ok && stream.method_ == Lossless ==> prevLine == old(prevLine)
      ensures ok ==> plane[..ready] == expected[..ready] && plane[..row] == old(plane[..row])
      ensures ok <==> (stream.method_ == NoCompression || answers.stream) && (stream.levels && requested > 0 ==> answers.smooth)
    {
      hide OneShot, Unfiltered;
      ok := DecodeOn(row, numRows, answers.stream);
      if ok {
        ready := row + numRows;
        ok := SmoothIfDone(row, answers);
      }
    }

    /** ALPHDecode, behind rows that are those of the whole plane. */
    method DecodeOn(row: nat, numRows: nat, streamOk: bool) returns (ok: bool)
      requires Fixed() && !isDecoded && 0 < numRows && row + numRows <= height && (stream.levels ==> row == 0)
      requires stream.method_ == NoCompression ==>
                 prevLine == if row == 0 then None else Some(Unfiltered(ks, stream, row)[row - 1])
      requires plane[..row] == expected[..row]
      modifies `prevLine, `isDecoded, plane
      ensures ok <==> stream.method_ == NoCompression || streamOk
      ensures isDecoded <==> ok && row + numRows == height
      ensures ok && stream.method_ == NoCompression ==>
                prevLine == Some(Unfiltered(ks, stream, row + numRows)[row + numRows - 1])
      ensures stream.method_ == Lossless ==> prevLine == old(prevLine)
      ensures plane[..row] == old(plane[..row])
      ensures ok ==> plane[..row + numRows] == Unfiltered(ks, stream, height)[..row + numRows]
    {
      hide OneShot, Unfiltered;
      ok := ALPHDecode(row, numRows, streamOk);
      if ok {
        if row > 0 {
          Unsmoothed();
        }
        ghost var before, now := plane[..row], plane[row..row + numRows];
        Continues(before, now, row);
        assert plane[..row + numRows] == before + now;
      }
    }

    lemma SmoothedIsExpected(p: seq<Row>)
      requires Fixed() && stream.levels && requested > 0
      requires var raw := Unfiltered(ks, stream, height); p == raw[..cropTop] + ks.dequantize(requested, raw[cropTop..])
      ensures p == expected
    {
    }

    /** VP8DecompressAlphaRows: after success the requested rows are those of the
        one-shot plane, and rows handed out earlier keep their values. It fails exactly
        for rows outside the picture and when a part that is still needed fails. */
    method DecompressAlphaRows(row: int, numRows0: int, answers: Answers) returns (ok: bool)
      requires Valid() && row <= ready && (!isDecoded ==> row == ready)
      modifies this, plane
      ensures ok ==> Valid() && row + numRows0 <= ready
      ensures ok ==> ready == (if stream.levels || old(isDecoded) then height else row + numRows0)
      ensures ok ==> plane[..old(ready)] == old(plane[..ready])
      ensures ok <==> 0 <= row && 0 < numRows0 && row + numRows0 <= height && (old(isDecoded) || Succeeds(answers, old(started)))
    {
      hide OneShot, Unfiltered;
      if row < 0 || numRows0 <= 0 || row + numRows0 > height {
        return false;
      }
      if !isDecoded {
        var numRows := numRows0;
        if !started {
          if !answers.init {
            return false;
          }
          numRows := Start(row, numRows0);
        }
        ok := DecodeAndSmooth(row, numRows, answers);
        return;
      }
      return true;
    }

    /** The parts that decoding more rows needs. */
    predicate Succeeds(answers: Answers, begun: bool) {
      && (begun || answers.init)
      && (stream.method_ == NoCompression || answers.stream)
      && (stream.levels && requested > 0 ==> answers.smooth)
    }
  }
}

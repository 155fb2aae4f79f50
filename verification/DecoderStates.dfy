/** The control states of the incremental decoder: what a sequence of calls to
    WebPIAppend and WebPIUpdate, ended by WebPIDelete, can do. What parsing,
    decoding and the operating system answer is a parameter of each call, so a
    statement about all answers covers every outcome. */
module DecoderStates {
  import I = IncrementalBuffer

  datatype State = WEBP_HEADER | VP8_HEADER | VP8_PARTS0 | VP8_DATA | VP8L_HEADER | VP8L_DATA | DONE | ERROR

  datatype Status = OK | OUT_OF_MEMORY | INVALID_PARAM | BITSTREAM_ERROR | UNSUPPORTED_FEATURE
                  | SUSPENDED | USER_ABORT | NOT_ENOUGH_DATA

  /** The order in which the source lists the states. */
  function Rank(s: State): nat {
    match s
    case WEBP_HEADER => 0 case VP8_HEADER => 1 case VP8_PARTS0 => 2 case VP8_DATA => 3
    case VP8L_HEADER => 4 case VP8L_DATA => 5 case DONE => 6 case ERROR => 7
  }

  predicate Final(s: State) { s == DONE || s == ERROR }

  predicate Waits(s: Status) { s == SUSPENDED || s == NOT_ENOUGH_DATA }

  /** What one call finds for a macroblock row: whether its intra modes parse, for
      how many macroblocks the data lasts, whether more than MAX_MB_SIZE bytes of a
      single partition were at hand when it ran out, and the answers of the worker
      and of the row's output. */
  datatype RowAnswer = RowAnswer(intraOk: bool, blocks: nat, plenty: bool, syncOk: bool, processOk: bool)

  datatype Answers = Answers(
    bufferOk: bool, // AppendToMemBuffer, RemapMemBuffer
    webpHeaders: Status, lossless: bool, newOk: bool,
    frameHeaderThere: bool, infoOk: bool,
    partition0There: bool, vp8Headers: Status, output: Status, parts0: Status, setup: Status,
    initFrame: Status, mbW: nat, mbH: nat,
    row: nat -> RowAnswer,
    exitOk: bool, finish: Status,
    vp8lHeaderThere: bool, vp8lHeader: Status, truncated: bool, vp8lImage: Status)
  {
    /** Allocation, setup and finishing never ask for more data. */
    ghost predicate Sane() {
      !Waits(output) && !Waits(parts0) && !Waits(setup) && !Waits(initFrame) && !Waits(finish)
      && webpHeaders != SUSPENDED
    }

    /** Nothing is wrong with the file and no callee fails; data may be missing. */
    ghost predicate Sound() {
      && (webpHeaders == OK || webpHeaders == NOT_ENOUGH_DATA) && newOk && infoOk
      && (vp8Headers == OK || Waits(vp8Headers)) && output == OK && parts0 == OK && setup == OK && initFrame == OK
      && (forall r :: row(r).intraOk && !row(r).plenty && row(r).syncOk && row(r).processOk) && exitOk
      && (vp8lHeader == OK || WaitsForHeader()) && (vp8lImage == OK || Waits(vp8lImage))
    }

    /** Row r of mbW macroblocks, of which x are decoded, is finished in this call. */
    predicate RowFine(r: nat, x: nat, parsed: bool, mbW: nat) {
      (parsed || row(r).intraOk) && x + row(r).blocks >= mbW && row(r).processOk
    }

    /** So are all rows from y on; of row y, x macroblocks are decoded. */
    ghost predicate RowsFine(y: nat, x: nat, parsed: bool, mbW: nat, mbH: nat) {
      (y < mbH ==> RowFine(y, x, parsed, mbW)) && forall r :: y < r < mbH ==> RowFine(r, 0, false, mbW)
    }

    /** VP8LDecodeHeader found the data cut short. */
    predicate WaitsForHeader() { Waits(vp8lHeader) || (vp8lHeader == BITSTREAM_ERROR && truncated) }
  }

  function Upto(n: nat): seq<nat> { seq(n, i => i) }

  class Decoder {
    var state: State
    var mode: I.Mode
    var hasDec: bool        // idec->dec != NULL
    var isLossless: bool
    var ready: bool         // dec->ready
    var lastMbY: int
    var mbX: nat
    var mbY: nat
    var mbW: nat
    var mbH: nat
    // What the calls did.
    ghost var enters: nat           // successful VP8EnterCritical
    ghost var exits: nat            // VP8ExitCritical, each of which runs io->teardown
    ghost var intraRows: seq<nat>   // rows given to VP8ParseIntraModeRow
    ghost var rows: seq<nat>        // rows given to VP8ProcessRow

    /** The critical section is open exactly in state VP8_DATA, and was opened at
        most once. */
    ghost predicate Balanced()
      reads `state, `enters, `exits
    {
      && enters == exits + (if state == VP8_DATA then 1 else 0) && enters <= 1
      && (!Final(state) && state != VP8_DATA ==> enters == 0)
    }

    ghost predicate DecoderFits()
      reads `state, `hasDec, `isLossless
    {
      && (state in {VP8_HEADER, VP8_PARTS0, VP8_DATA} ==> hasDec && !isLossless)
      && (state in {VP8L_HEADER, VP8L_DATA} ==> hasDec && isLossless)
    }

    /** Rows are parsed and handed on once each, in order; the current row was
        parsed at most once, however often decoding stopped in the middle of it. */
    ghost predicate RowsInOrder()
      reads `state, `ready, `lastMbY, `mbX, `mbY, `mbW, `mbH, `intraRows, `rows, `isLossless
    {
      && (Rank(state) < Rank(VP8_DATA) ==> lastMbY == -1 && mbX == 0 && mbY == 0 && rows == [] && intraRows == [])
      && (state == VP8_DATA ==>
            && ready && mbY <= mbH && mbX <= mbW
            && (lastMbY == mbY as int - 1 || lastMbY == mbY) && (mbX > 0 ==> lastMbY == mbY)
            && rows == Upto(mbY) && |intraRows| == lastMbY + 1)
      && (state == DONE && !isLossless ==> rows == Upto(mbH))
      && rows == Upto(|rows|) && intraRows == Upto(|intraRows|) && |rows| <= |intraRows| <= |rows| + 1
    }

    ghost predicate Inv()
      reads this
    {
      Balanced() && DecoderFits() && RowsInOrder()
    }

    /** What a status returned by IDecode tells about the state. */
    ghost predicate Tells(status: Status, w: Answers)
      reads `state
    {
      && (status == OK ==> state == DONE)
      && (status == SUSPENDED ==> !Final(state))
      && status != NOT_ENOUGH_DATA
      && (!Final(state) ==> status == SUSPENDED || (status == OUT_OF_MEMORY && state == WEBP_HEADER && !w.newOk))
      && (state == DONE ==> status == w.finish)
    }

    /** The stage reached lacks data. */
    ghost predicate Stuck(w: Answers)
      reads `state, `mbX, `mbY, `mbW, `mbH
    {
      match state
      case WEBP_HEADER => w.webpHeaders == NOT_ENOUGH_DATA
      case VP8_HEADER => !w.frameHeaderThere
      case VP8_PARTS0 => !w.partition0There || Waits(w.vp8Headers)
      case VP8_DATA => mbY < mbH && w.row(mbY).blocks <= mbX < mbW
      case VP8L_HEADER => !w.vp8lHeaderThere || w.WaitsForHeader()
      case VP8L_DATA => Waits(w.vp8lImage)
      case _ => false
    }

    /** Everything that is still to be done is there and succeeds. */
    ghost predicate Completes(w: Answers)
      reads `state, `lastMbY, `mbX, `mbY, `mbW, `mbH
    {
      && !Final(state)
      && (state == WEBP_HEADER ==> w.webpHeaders == OK && w.newOk)
      && if state in {VP8L_HEADER, VP8L_DATA} || (state == WEBP_HEADER && w.lossless) then
           && (state != VP8L_DATA ==> w.vp8lHeaderThere && w.vp8lHeader == OK && w.output == OK)
           && w.vp8lImage == OK
         else
           && (state in {WEBP_HEADER, VP8_HEADER} ==> w.frameHeaderThere && w.infoOk)
           && (state != VP8_DATA ==> w.partition0There && w.vp8Headers == OK)
           && (state != VP8_DATA ==> w.output == OK && w.parts0 == OK && w.setup == OK && w.initFrame == OK)
           && (if state == VP8_DATA then w.RowsFine(mbY, mbX, lastMbY == mbY, mbW, mbH) else w.RowsFine(0, 0, false, w.mbW, w.mbH))
           && w.exitOk
    }

    constructor ()
      ensures Inv() && state == WEBP_HEADER && mode == I.Unset && enters == exits == 0
    {
      state, mode, hasDec, isLossless, ready := WEBP_HEADER, I.Unset, false, false, false;
      lastMbY, mbX, mbY, mbW, mbH := -1, 0, 0, 0, 0;
      enters, exits, intraRows, rows := 0, 0, [], [];
    }

    method IDecError(error: Status) returns (status: Status)
      requires enters == exits + (if state == VP8_DATA then 1 else 0)
      modifies `state, `exits
      ensures status == error && state == ERROR && enters == exits
    {
      if state == VP8_DATA {
        exits := exits + 1;
      }
      state := ERROR;
      return error;
    }

    method FinishDecoding(w: Answers) returns (status: Status)
      requires state != VP8_DATA || enters == exits
      modifies `state
      ensures state == DONE && status == w.finish
    {
      state := DONE;
      return w.finish;
    }

    method DecodeWebPHeaders(w: Answers) returns (status: Status)
      requires Inv() && w.Sane() && state == WEBP_HEADER
      modifies this
      ensures Inv() && mode == old(mode) && enters == old(enters)
      ensures status == OK ==> state == (if w.lossless then VP8L_HEADER else VP8_HEADER)
      ensures status != OK ==> Tells(status, w) && (state == WEBP_HEADER || state == ERROR)
      ensures status == SUSPENDED ==> Stuck(w)
      ensures w.Sound() ==> state != ERROR
      ensures status == OUT_OF_MEMORY && state == WEBP_HEADER ==> !w.newOk
      ensures status == OK <==> w.webpHeaders == OK && w.newOk
      ensures if status == OK then old(Completes(w)) <==> Completes(w) else !old(Completes(w))
      ensures state == ERROR <==> w.webpHeaders != OK && w.webpHeaders != NOT_ENOUGH_DATA
      ensures state == ERROR ==> status == w.webpHeaders
    {
      if w.webpHeaders == NOT_ENOUGH_DATA {
        return SUSPENDED;
      } else if w.webpHeaders != OK {
        status := IDecError(w.webpHeaders);
        return;
      }
      isLossless := w.lossless;
      if !w.newOk {
        return OUT_OF_MEMORY;
      }
      hasDec := true;
      state := if w.lossless then VP8L_HEADER else VP8_HEADER;
      return OK;
    }

    method DecodeVP8FrameHeader(w: Answers) returns (status: Status)
      requires Inv() && state == VP8_HEADER
      modifies this
      ensures Inv() && mode == old(mode) && enters == old(enters)
      ensures status == OK ==> state == VP8_PARTS0
      ensures status != OK ==> Tells(status, w) && (state == VP8_HEADER || state == ERROR)
      ensures status == SUSPENDED ==> Stuck(w)
      ensures w.Sound() ==> state != ERROR
      ensures status == if !w.frameHeaderThere then SUSPENDED else if w.infoOk then OK else BITSTREAM_ERROR
      ensures if status == OK then old(Completes(w)) <==> Completes(w) else !old(Completes(w))
    {
      if !w.frameHeaderThere {
        return SUSPENDED;
      }
      if !w.infoOk {
        status := IDecError(BITSTREAM_ERROR);
        return;
      }
      state := VP8_PARTS0;
      return OK;
    }

    method DecodePartition0(w: Answers) returns (status: Status)
      requires Inv() && w.Sane() && state == VP8_PARTS0
      modifies this
      ensures Inv() && mode == old(mode)
      ensures status == OK ==> state == VP8_DATA && mbW == w.mbW && mbH == w.mbH
      ensures status != OK ==> Tells(status, w) && (state == VP8_PARTS0 || state == ERROR)
      ensures enters == old(enters) +
                if w.partition0There && w.vp8Headers == OK && w.output == OK && w.parts0 == OK && w.setup == OK then 1 else 0
      ensures status == SUSPENDED ==> Stuck(w)
      ensures w.Sound() ==> state != ERROR
      ensures status == if !w.partition0There || Waits(w.vp8Headers) then SUSPENDED
                        else if w.vp8Headers != OK then w.vp8Headers else if w.output != OK then w.output
                        else if w.parts0 != OK then w.parts0 else if w.setup != OK then w.setup else w.initFrame
      ensures status == OK ==> mbX == 0 && mbY == 0 && lastMbY == -1
      ensures if status == OK then old(Completes(w)) <==> Completes(w) else !old(Completes(w))
    {
      hide Answers.RowsFine, Completes;
      CompletesHeaders(w);
      if !w.partition0There {
        return SUSPENDED;
      }
      if w.vp8Headers != OK {
        if Waits(w.vp8Headers) {
          return SUSPENDED;
        }
        status := IDecError(w.vp8Headers);
        return;
      }
      status := SetUp(w);
      if status == OK {
        CompletesRows(w);
      }
    }

    /** The rest of DecodePartition0, once VP8GetHeaders has succeeded. */
    method SetUp(w: Answers) returns (status: Status)
      requires Inv() && w.Sane() && state == VP8_PARTS0
      modifies this
      ensures Inv() && mode == old(mode)
      ensures status == OK ==> state == VP8_DATA && mbW == w.mbW && mbH == w.mbH && mbX == 0 && mbY == 0 && lastMbY == -1
      ensures status != OK ==> Tells(status, w) && state == ERROR
      ensures enters == old(enters) + if w.output == OK && w.parts0 == OK && w.setup == OK then 1 else 0
      ensures status == if w.output != OK then w.output else if w.parts0 != OK then w.parts0
                        else if w.setup != OK then w.setup else w.initFrame
    {
      ready, mbW, mbH := true, w.mbW, w.mbH;
      if w.output != OK {
        status := IDecError(w.output);
        return;
      }
      if w.parts0 != OK {
        status := IDecError(w.parts0);
        return;
      }
      if w.setup != OK {
        status := IDecError(w.setup);
        return;
      }
      enters := enters + 1;
      state := VP8_DATA;
      if w.initFrame != OK {
        status := IDecError(w.initFrame);
        return;
      }
      return OK;
    }

    lemma CompletesHeaders(w: Answers)
      requires state == VP8_PARTS0
      ensures Completes(w) <==>
                && w.partition0There && w.vp8Headers == OK && w.output == OK && w.parts0 == OK && w.setup == OK && w.initFrame == OK
                && w.RowsFine(0, 0, false, w.mbW, w.mbH) && w.exitOk
    {
      hide Answers.RowsFine;
    }

    /** The macroblocks of the current row. */
    method DecodeRow(w: Answers) returns (status: Status)
      requires Inv() && state == VP8_DATA && mbY < mbH && lastMbY == mbY
      modifies this
      ensures Inv() && mode == old(mode) && mbY == old(mbY) && mbH == old(mbH) && enters == old(enters)
      ensures status == OK ==> state == VP8_DATA && mbX == mbW && lastMbY == mbY
      ensures status != OK ==> Tells(status, w) && (state == VP8_DATA || state == ERROR)
      ensures status == if w.row(mbY).blocks >= mbW - old(mbX) then OK
                        else if w.row(mbY).plenty || !w.row(mbY).syncOk then BITSTREAM_ERROR else SUSPENDED
      ensures status == SUSPENDED ==> mbX == old(mbX) + w.row(mbY).blocks
      ensures mbW == old(mbW)
    {
      var left := w.row(mbY).blocks;
      while mbX < mbW
        invariant Inv() && state == VP8_DATA && mbY == old(mbY) && mbH == old(mbH) && lastMbY == mbY
        invariant mode == old(mode) && enters == old(enters) && mbW == old(mbW)
        invariant mbX + left == old(mbX) + w.row(mbY).blocks
      {
        if left == 0 {
          if w.row(mbY).plenty {
            status := IDecError(BITSTREAM_ERROR);
            return;
          }
          if !w.row(mbY).syncOk {
            status := IDecError(BITSTREAM_ERROR);
            return;
          }
          return SUSPENDED;
        }
        left := left - 1;
        mbX := mbX + 1;
      }
      return OK;
    }

    /** The intra modes of a row, when it is reached for the first time. */
    method ParseIntraModeRow(w: Answers) returns (status: Status)
      requires Inv() && state == VP8_DATA && mbY < mbH && lastMbY != mbY
      modifies `intraRows, `lastMbY, `state, `exits
      ensures Inv() && intraRows == old(intraRows) + [mbY]
      ensures status == OK ==> state == VP8_DATA && lastMbY == mbY
      ensures status != OK ==> status == BITSTREAM_ERROR && state == ERROR
      ensures status == OK <==> w.row(mbY).intraOk
    {
      intraRows := intraRows + [mbY];
      if !w.row(mbY).intraOk {
        status := IDecError(BITSTREAM_ERROR);
        return;
      }
      lastMbY := mbY;
      return OK;
    }

    /** The end of a row: VP8InitScanline, VP8ProcessRow, next row. */
    method ProcessRow(w: Answers) returns (status: Status)
      requires Inv() && state == VP8_DATA && mbY < mbH && lastMbY == mbY
      modifies `mbX, `rows, `mbY, `state, `exits
      ensures Inv() && rows == old(rows) + [old(mbY)]
      ensures status == OK ==> state == VP8_DATA && mbY == old(mbY) + 1
      ensures status != OK ==> status == USER_ABORT && state == ERROR && mbY == old(mbY)
      ensures status == OK <==> w.row(old(mbY)).processOk
      ensures mbX == 0
    {
      mbX := 0;
      rows := rows + [mbY];
      if !w.row(mbY).processOk {
        status := IDecError(USER_ABORT);
        return;
      }
      mbY := mbY + 1;
      return OK;
    }

    method ExitAndFinish(w: Answers) returns (status: Status)
      requires Inv() && w.Sane() && state == VP8_DATA && mbY == mbH
      modifies this
      ensures Inv() && mode == old(mode) && enters == old(enters)
      ensures Tells(status, w) && Final(state)
      ensures if w.exitOk then state == DONE else state == ERROR && status == USER_ABORT
      ensures mbY == old(mbY) && mbH == old(mbH) && mbW == old(mbW)
    {
      exits := exits + 1;
      if !w.exitOk {
        state := ERROR;
        status := IDecError(USER_ABORT);
        return;
      }
      ready := false;
      status := FinishDecoding(w);
    }

    /** The body of the row loop. */
    method DecodeWholeRow(w: Answers) returns (status: Status)
      requires Inv() && w.Sane() && state == VP8_DATA && mbY < mbH
      modifies this
      ensures Inv() && mode == old(mode) && enters == old(enters) && mbH == old(mbH) && mbW == old(mbW)
      ensures status == OK ==> state == VP8_DATA && mbY == old(mbY) + 1 && mbX == 0 && lastMbY == old(mbY)
      ensures status != OK ==> Tells(status, w) && (state == VP8_DATA || state == ERROR) && mbY == old(mbY)
      ensures status == SUSPENDED ==> Stuck(w)
      ensures w.Sound() ==> state != ERROR
      ensures status != OK && state == VP8_DATA ==> mbX == old(mbX) + w.row(mbY).blocks
      ensures var row := w.row(old(mbY));
              status == if old(lastMbY) != old(mbY) && !row.intraOk then BITSTREAM_ERROR
                        else if old(mbX) + row.blocks < mbW then if row.plenty || !row.syncOk then BITSTREAM_ERROR else SUSPENDED
                        else if row.processOk then OK else USER_ABORT
    {
      hide DecoderFits, RowsInOrder;
      if lastMbY != mbY {
        status := ParseIntraModeRow(w);
        if status != OK {
          return;
        }
      }
      status := DecodeRow(w);
      if status != OK {
        return;
      }
      status := ProcessRow(w);
    }

    /** Row by row. If not all rows can be finished, it stops in the first that cannot,
        waits if that lacks data, and fails otherwise. */
    method DecodeRemaining(w: Answers) returns (status: Status)
      requires Inv() && w.Sane() && state == VP8_DATA
      modifies this
      ensures Inv() && mode == old(mode) && enters == old(enters)
      ensures Tells(status, w) && state in {VP8_DATA, DONE, ERROR}
      ensures status == SUSPENDED ==> Stuck(w)
      ensures w.Sound() ==> state != ERROR
      ensures state == VP8_DATA ==> mbX == (if mbY == old(mbY) then old(mbX) else 0) + w.row(mbY).blocks
      ensures old(mbY) <= mbY <= mbH == old(mbH) && mbW == old(mbW)
      ensures w.RowsFine(old(mbY), old(mbX), old(lastMbY) == old(mbY), mbW, mbY)
      ensures state == DONE <==> w.RowsFine(old(mbY), old(mbX), old(lastMbY) == old(mbY), mbW, mbH) && w.exitOk
      ensures mbY == mbH ==> if w.exitOk then state == DONE else state == ERROR && status == USER_ABORT
      ensures mbY < mbH ==>
                var row, x := w.row(mbY), if mbY == old(mbY) then old(mbX) else 0;
                var parsed := mbY == old(mbY) && old(lastMbY) == old(mbY);
                && !w.RowFine(mbY, x, parsed, mbW) && state != DONE
                && status == if !parsed && !row.intraOk then BITSTREAM_ERROR
                             else if x + row.blocks < mbW then if row.plenty || !row.syncOk then BITSTREAM_ERROR else SUSPENDED
                             else USER_ABORT
    {
      hide DecoderFits, RowsInOrder;
      // dec->ready holds here, so the source's check of it never fails.
      RowBound();
      while mbY < mbH
        invariant Inv() && state == VP8_DATA && mode == old(mode) && enters == old(enters)
        invariant old(mbY) <= mbY <= mbH == old(mbH) && mbW == old(mbW)
        invariant mbX == (if mbY == old(mbY) then old(mbX) else 0) && lastMbY == if mbY == old(mbY) then old(lastMbY) else mbY - 1
        invariant w.RowsFine(old(mbY), old(mbX), old(lastMbY) == old(mbY), mbW, mbY)
        decreases mbH - mbY
      {
        status := DecodeWholeRow(w);
        if status != OK {
          assert mbY > old(mbY) ==> !w.RowFine(mbY, 0, false, mbW);
          return;
        }
      }
      status := ExitAndFinish(w);
    }

    lemma RowBound()
      requires Inv() && state == VP8_DATA
      ensures mbY <= mbH
    {
    }

    method ErrorStatusLossless(error: Status) returns (status: Status)
      requires Inv() && error != OK && state in {VP8L_HEADER, VP8L_DATA}
      modifies this
      ensures Inv() && mode == old(mode) && enters == old(enters)
      ensures if Waits(error) then status == SUSPENDED && state == old(state) else status == error && state == ERROR
    {
      if Waits(error) {
        return SUSPENDED;
      }
      status := IDecError(error);
    }

    method DecodeVP8LHeader(w: Answers) returns (status: Status)
      requires Inv() && w.Sane() && state == VP8L_HEADER
      modifies this
      ensures Inv() && mode == old(mode) && enters == old(enters)
      ensures status == OK ==> state == VP8L_DATA
      ensures status != OK ==> Tells(status, w) && (state == VP8L_HEADER || state == ERROR)
      ensures status == SUSPENDED ==> Stuck(w)
      ensures w.Sound() ==> state != ERROR
      ensures status == if !w.vp8lHeaderThere || Waits(w.vp8lHeader) || (w.vp8lHeader == BITSTREAM_ERROR && w.truncated) then SUSPENDED
                        else if w.vp8lHeader != OK then w.vp8lHeader else w.output
      ensures if status == OK then old(Completes(w)) <==> Completes(w) else !old(Completes(w))
    {
      if !w.vp8lHeaderThere {
        status := ErrorStatusLossless(SUSPENDED);
        return;
      }
      if w.vp8lHeader != OK {
        status := ErrorStatusLossless(if w.vp8lHeader == BITSTREAM_ERROR && w.truncated then SUSPENDED else w.vp8lHeader);
        return;
      }
      if w.output != OK {
        status := IDecError(w.output);
        return;
      }
      state := VP8L_DATA;
      return OK;
    }

    method DecodeVP8LData(w: Answers) returns (status: Status)
      requires Inv() && w.Sane() && state == VP8L_DATA
      modifies this
      ensures Inv() && mode == old(mode) && enters == old(enters)
      ensures Tells(status, w) && state in {VP8L_DATA, DONE, ERROR}
      ensures status == SUSPENDED ==> Stuck(w)
      ensures w.Sound() ==> state != ERROR
      ensures state == DONE <==> w.vp8lImage == OK
      ensures state == DONE <==> old(Completes(w))
      ensures state == ERROR <==> w.vp8lImage != OK && !Waits(w.vp8lImage)
      ensures state == ERROR ==> status == w.vp8lImage
    {
      if w.vp8lImage != OK {
        status := ErrorStatusLossless(w.vp8lImage);
        return;
      }
      status := FinishDecoding(w);
    }

    /** IDecode: as far through the states as the data allows. */
    method IDecode(w: Answers) returns (status: Status)
      requires Inv() && w.Sane() && !Final(state)
      modifies this
      ensures Inv() && mode == old(mode)
      ensures Tells(status, w) && Rank(old(state)) <= Rank(state)
      ensures old(enters) <= enters
      ensures status == SUSPENDED ==> Stuck(w)
      ensures w.Sound() ==> state != ERROR
      ensures old(state) == WEBP_HEADER && w.lossless ==> state !in {VP8_HEADER, VP8_PARTS0, VP8_DATA}
      ensures state == DONE <==> old(Completes(w))
    {
      hide Balanced, DecoderFits, RowsInOrder, Completes, Answers.RowsFine, Answers.Sound, Stuck;
      status := SUSPENDED;
      if state == WEBP_HEADER {
        status := DecodeWebPHeaders(w);
      }
      if state == VP8_HEADER {
        status := DecodeVP8FrameHeader(w);
      }
      if state == VP8_PARTS0 {
        status := DecodePartition0(w);
      }
      if state == VP8_DATA {
        CompletesRows(w);
        status := DecodeRemaining(w);
      }
      if state == VP8L_HEADER {
        status := DecodeVP8LHeader(w);
      }
      if state == VP8L_DATA {
        status := DecodeVP8LData(w);
      }
    }

    lemma CompletesRows(w: Answers)
      requires state == VP8_DATA
      ensures Completes(w) <==> w.RowsFine(mbY, mbX, lastMbY == mbY, mbW, mbH) && w.exitOk
    {
    }

    function IDecCheckStatus(): Status
      reads `state
    {
      if state == ERROR then BITSTREAM_ERROR else if state == DONE then OK else SUSPENDED
    }

    /** WebPIAppend (how == Append) and WebPIUpdate (how == Map), which differ in how
        the data reaches the buffer. */
    method Feed(how: I.Mode, hasData: bool, w: Answers) returns (status: Status)
      requires Inv() && w.Sane() && how != I.Unset
      modifies this
      ensures Inv()
      ensures Rank(old(state)) <= Rank(state) && old(enters) <= enters
      ensures !hasData ==> status == INVALID_PARAM && unchanged(this)
      ensures hasData && Final(old(state)) ==> unchanged(this) && status == if state == DONE then OK else BITSTREAM_ERROR
      ensures hasData && !Final(old(state)) && !I.ModeFits(old(mode), how) ==> status == INVALID_PARAM && unchanged(this)
      ensures mode == if old(mode) == I.Unset && hasData && !Final(old(state)) then how else old(mode)
      ensures hasData && !Final(old(state)) && I.ModeFits(old(mode), how) && w.bufferOk ==> Tells(status, w)
      ensures status == OK ==> state == DONE
      ensures status == SUSPENDED ==> !Final(state)
      ensures state == DONE != old(state) ==> status == w.finish
      ensures status == SUSPENDED ==> Stuck(w)
      ensures old(state) == WEBP_HEADER && w.lossless ==> state !in {VP8_HEADER, VP8_PARTS0, VP8_DATA}
      ensures hasData && w.Sound() && !Final(old(state)) ==> state != ERROR
      ensures hasData && !Final(old(state)) && I.ModeFits(old(mode), how) && w.bufferOk ==> (state == DONE <==> old(Completes(w)))
      ensures hasData && !Final(old(state)) && !w.bufferOk ==>
                state == old(state) && status == if mode != how || how == I.Map then INVALID_PARAM else OUT_OF_MEMORY
    {
      hide Balanced, DecoderFits, RowsInOrder, Completes, Answers.Sound, Stuck;
      if !hasData {
        return INVALID_PARAM;
      }
      status := IDecCheckStatus();
      if status != SUSPENDED {
        return;
      }
      if !I.ModeFits(mode, how) {
        return INVALID_PARAM;
      }
      mode := how;
      if !w.bufferOk {
        return if how == I.Append then OUT_OF_MEMORY else INVALID_PARAM;
      }
      status := IDecode(w);
    }

    /** What the rows of a decoder are at any time. */
    lemma Finished()
      requires Inv()
      ensures rows == Upto(|rows|) && intraRows == Upto(|intraRows|)
      ensures state == DONE && !isLossless ==> rows == Upto(mbH)
    {
    }

    /** WebPIDelete, up to freeing memory. */
    method Delete()
      requires Inv()
      modifies `exits
      ensures enters == exits <= 1
      ensures exits == old(exits) + if state == VP8_DATA then 1 else 0
    {
      if hasDec && !isLossless && state == VP8_DATA {
        exits := exits + 1;
      }
    }
  }

  datatype Call = Call(how: I.Mode, hasData: bool, w: Answers)

  datatype Return = Return(status: Status, state: State)

  /** Call i is the one that leaves the decoder in DONE. */
  predicate FirstDone(log: seq<Return>, i: nat)
    requires i < |log|
  {
    log[i].state == DONE && (i == 0 || log[i - 1].state != DONE)
  }

  /** States only move forward. */
  ghost predicate Forward(log: seq<Return>) {
    forall i, j :: 0 <= i < j < |log| ==> Rank(log[i].state) <= Rank(log[j].state)
  }

  /** DONE and ERROR are kept, and every later call reports them. */
  ghost predicate Absorbing(calls: seq<Call>, log: seq<Return>)
    requires |log| == |calls|
  {
    forall i, j :: 0 <= i < j < |log| && Final(log[i].state) ==>
      && log[j].state == log[i].state
      && log[j].status == if !calls[j].hasData then INVALID_PARAM else if log[i].state == DONE then OK else BITSTREAM_ERROR
  }

  /** OK means DONE, and the call that leads to DONE returns what finishing returned. */
  ghost predicate Truthful(calls: seq<Call>, log: seq<Return>)
    requires |log| == |calls|
  {
    && (forall i :: 0 <= i < |log| && log[i].status == OK ==> log[i].state == DONE)
    && (forall i :: 0 <= i < |log| && FirstDone(log, i) ==> log[i].status == calls[i].w.finish)
  }

  /** Whoever appended may not update, and the other way round. */
  ghost predicate Unmixed(calls: seq<Call>, log: seq<Return>)
    requires |log| == |calls|
  {
    forall i, j :: 0 <= i < j < |log| && calls[i].hasData && calls[j].hasData && calls[i].how != calls[j].how
                   && log[i].status == SUSPENDED ==>
      log[j].status == INVALID_PARAM || Final(log[j].state)
  }

  /** The properties of a decoder's life, over what its calls returned and left. */
  ghost predicate OneWay(calls: seq<Call>, log: seq<Return>)
    requires |log| == |calls|
  {
    Forward(log) && Absorbing(calls, log) && Truthful(calls, log) && Unmixed(calls, log)
  }

  /** One more call keeps it. */
  lemma OneWayGrows(calls: seq<Call>, log: seq<Return>, c: Call, r: Return)
    requires |log| == |calls| && OneWay(calls, log)
    requires forall k :: 0 <= k < |log| ==> Rank(log[k].state) <= Rank(r.state)
    requires forall k :: 0 <= k < |log| && Final(log[k].state) ==>
               && r.state == log[k].state
               && r.status == if !c.hasData then INVALID_PARAM else if r.state == DONE then OK else BITSTREAM_ERROR
    requires r.status == OK ==> r.state == DONE
    requires r.state == DONE && (log == [] || log[|log| - 1].state != DONE) ==> r.status == c.w.finish
    requires forall k :: 0 <= k < |log| && calls[k].hasData && c.hasData && calls[k].how != c.how && log[k].status == SUSPENDED ==>
               r.status == INVALID_PARAM || Final(r.state)
    ensures OneWay(calls + [c], log + [r])
  {
    assert Forward(log + [r]) by { hide Absorbing, Truthful, Unmixed; }
    assert Absorbing(calls + [c], log + [r]) by { hide Forward, Truthful, Unmixed; }
    assert Unmixed(calls + [c], log + [r]) by { hide Forward, Truthful, Absorbing; }
    hide Forward, Absorbing, Unmixed;
    TruthfulGrows(calls, log, c, r);
  }

  lemma TruthfulGrows(calls: seq<Call>, log: seq<Return>, c: Call, r: Return)
    requires |log| == |calls| && Truthful(calls, log) && (r.status == OK ==> r.state == DONE)
    requires r.state == DONE && (log == [] || log[|log| - 1].state != DONE) ==> r.status == c.w.finish
    ensures Truthful(calls + [c], log + [r])
  {
    var calls', log' := calls + [c], log + [r];
    forall i | 0 <= i < |log'| && FirstDone(log', i) ensures log'[i].status == calls'[i].w.finish {
      if i < |log| {
        assert FirstDone(log, i);
      }
    }
  }

  /** Later calls say OK whatever happened; that is true exactly when the call which
      left DONE said so too. */
  lemma LaterOk(calls: seq<Call>, log: seq<Return>, i: nat, j: nat)
    requires |log| == |calls| && OneWay(calls, log) && i < j < |log| && FirstDone(log, i) && calls[j].hasData
    ensures log[j].status == OK && (log[i].status == OK <==> calls[i].w.finish == OK)
  {
  }

  /** A whole life of a decoder: any calls, then WebPIDelete. The states only move
      forward, DONE and ERROR are kept, whoever appended may not update, and every
      critical section that was entered is left exactly once. */
  method Life(calls: seq<Call>) returns (log: seq<Return>, d: Decoder)
    requires forall c <- calls :: c.w.Sane() && c.how != I.Unset
    ensures |log| == |calls| && OneWay(calls, log)
    ensures d.enters == d.exits <= 1
    ensures d.rows == Upto(|d.rows|) && d.intraRows == Upto(|d.intraRows|)
    ensures d.state == DONE && !d.isLossless ==> d.rows == Upto(d.mbH)
  {
    hide OneWay, Answers.Sane, Answers.Sound, Decoder.Balanced, Decoder.DecoderFits, Decoder.RowsInOrder, Decoder.Tells, Decoder.Stuck;
    d := new Decoder();
    log := [];
    assert OneWay(calls[..0], log) by { NoCalls(); }
    for i := 0 to |calls|
      invariant fresh(d) && d.Inv()
      invariant |log| == i && OneWay(calls[..i], log)
      invariant forall k :: 0 <= k < i ==> Rank(log[k].state) <= Rank(d.state)
      invariant forall k :: 0 <= k < i && Final(log[k].state) ==> d.state == log[k].state
      invariant d.state == if i == 0 then WEBP_HEADER else log[i - 1].state
      invariant forall k :: 0 <= k < i && calls[k].hasData && log[k].status == SUSPENDED ==> d.mode == calls[k].how
    {
      var c := calls[i];
      assert c in calls;
      var status := d.Feed(c.how, c.hasData, c.w);
      OneWayGrows(calls[..i], log, c, Return(status, d.state));
      assert calls[..i + 1] == calls[..i] + [c];
      log := log + [Return(status, d.state)];
    }
    assert calls[..|calls|] == calls;
    d.Finished();
    d.Delete();
  }

  lemma NoCalls()
    ensures OneWay([], [])
  {
  }

  /** What a sound lossless file finds, all of it there, when the last step fails. */
  const FINISH_FAILS := Answers(true, OK, true, true, true, true, true, OK, OK, OK, OK, OK, 1, 1,
                                (r: nat) => RowAnswer(true, 1, false, true, true), true, OUT_OF_MEMORY, true, OK, false, OK)

  /** Such a file: the call that completes it reports the error, the next one OK. */
  method ErrorThenOk() returns (log: seq<Return>)
    ensures log == [Return(OUT_OF_MEMORY, DONE), Return(OK, DONE)]
  {
    var w := FINISH_FAILS;
    var d := new Decoder();
    var first := d.Feed(I.Append, true, w);
    log := [Return(first, d.state)];
    var second := d.Feed(I.Append, true, w);
    log := log + [Return(second, d.state)];
  }
}

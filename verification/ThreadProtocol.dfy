/** Multi-threaded decoding (mt_method 2): the main thread parses one macroblock
    row into mb_data and f_info while the worker reconstructs, filters, dithers and
    outputs the previous one from the other halves of the same buffers. VP8ProcessRow
    waits for the worker, swaps the halves and launches the next job.

    Every access to a macroblock entry is a step of its own, so a run is any
    interleaving of single reads and writes of the two threads. Each entry holds
    the number of the row it was written for. */
module ThreadProtocol {

  datatype Config = Config(mbW: nat, mbH: nat, slots: nat, filtering: bool, dithering: bool,
                           tlMbX: nat, brMbX: nat, tlMbY: nat, brMbY: nat) {
    predicate Valid() { tlMbX < brMbX <= mbW && slots > 0 }

    predicate FilterRow(mbY: nat) { filtering && tlMbY <= mbY <= brMbY }
  }

  datatype Entry = Unset | Row(n: nat)

  /** dec->thread_ctx, as filled by VP8ProcessRow. */
  datatype Job = Job(mbY: nat, slot: nat, filterRow: bool)

  /** Where the worker is: waiting in ThreadLoop, or inside FinishRow. */
  datatype Worker =
    | Idle
    | Reconstructing(x: nat)
    | Filtering(x: nat)
    | Dithering(x: nat)
    | Emitting

  datatype Main = Parsing | Done | Failed

  datatype Buffer = MbData | FInfo

  /** An access by the worker: job row, macroblock, which buffer, and what the entry said. */
  datatype Read = Read(mbY: nat, x: nat, buffer: Buffer, found: Entry)

  datatype State = State(
    main: Main, mbY: nat, mbX: nat, cacheId: nat,
    mbData: seq<seq<Entry>>, mainData: nat, ctxData: nat,   // the two halves, and who holds which
    fInfo: seq<seq<Entry>>, mainInfo: nat, ctxInfo: nat,
    worker: Worker, job: Job, hadError: bool,
    seen: seq<Read>, puts: seq<Job>)

  datatype Event =
    | ParseMb          // main: VP8ParseIntraModeRow / VP8DecodeMB write one entry
    | ProcessRow       // main: Sync, fill the context, swap, Launch
    | ExitCritical     // main: last Sync
    | ReconstructMb    // worker: ReconstructRow reads one mb_data entry
    | FilterMb         // worker: FilterRow reads one f_info entry
    | DitherMb         // worker: DitherRow reads one mb_data entry
    | Put(ok: bool)    // worker: put(), rotate, done

  function Blank(mbW: nat): seq<Entry> { seq(mbW, i => Unset) }

  /** After VP8InitFrame. */
  function Init(c: Config): State {
    State(Parsing, 0, 0, 0, [Blank(c.mbW), Blank(c.mbW)], 0, 1, [Blank(c.mbW), Blank(c.mbW)], 0, 1,
          Idle, Job(0, 0, false), false, [], [])
  }

  predicate Shaped(c: Config, s: State) {
    && |s.mbData| == |s.fInfo| == 2
    && (forall h :: 0 <= h < 2 ==> |s.mbData[h]| == |s.fInfo[h]| == c.mbW)
    && s.mainData < 2 && s.ctxData < 2 && s.mainInfo < 2 && s.ctxInfo < 2
  }

  predicate Enabled(c: Config, s: State, e: Event) {
    match e
    case ParseMb => s.main == Parsing && s.mbY < c.mbH && s.mbX < c.mbW
    case ProcessRow => s.main == Parsing && s.mbY < c.mbH && s.mbX == c.mbW && s.worker == Idle
    case ExitCritical => s.main == Parsing && s.mbY == c.mbH && s.worker == Idle
    case ReconstructMb => s.worker.Reconstructing? && s.worker.x < c.mbW
    case FilterMb => s.worker.Filtering? && s.worker.x < c.brMbX
    case DitherMb => s.worker.Dithering? && s.worker.x < c.brMbX
    case Put(_) => s.worker.Emitting?
  }

  /** What the worker does after its last entry of a phase. */
  function AfterRecon(c: Config, job: Job, x: nat): Worker {
    if x < c.mbW then Reconstructing(x) else if job.filterRow then Filtering(c.tlMbX) else AfterFilter(c, c.brMbX)
  }

  function AfterFilter(c: Config, x: nat): Worker {
    if x < c.brMbX then Filtering(x) else AfterDither(c, if c.dithering then c.tlMbX else c.brMbX)
  }

  function AfterDither(c: Config, x: nat): Worker {
    if x < c.brMbX then Dithering(x) else Emitting
  }

  function Step(c: Config, s: State, e: Event): (s': State)
    requires c.Valid() && Shaped(c, s) && Enabled(c, s, e)
    ensures Shaped(c, s')
  {
    match e
    case ParseMb =>
      s.(mbData := s.mbData[s.mainData := s.mbData[s.mainData][s.mbX := Row(s.mbY)]],
         fInfo := if c.filtering then s.fInfo[s.mainInfo := s.fInfo[s.mainInfo][s.mbX := Row(s.mbY)]] else s.fInfo,
         mbX := s.mbX + 1)
    case ProcessRow =>
      if s.hadError then s.(main := Failed)
      else
        var filterRow := c.FilterRow(s.mbY);
        s.(job := Job(s.mbY, s.cacheId, filterRow),
           mainData := s.ctxData, ctxData := s.mainData,
           mainInfo := if filterRow then s.ctxInfo else s.mainInfo,
           ctxInfo := if filterRow then s.mainInfo else s.ctxInfo,
           worker := Reconstructing(0),
           cacheId := if s.cacheId + 1 == c.slots then 0 else s.cacheId + 1,
           mbY := s.mbY + 1, mbX := 0)
    case ExitCritical => s.(main := if s.hadError then Failed else Done)
    case ReconstructMb =>
      var x := s.worker.x;
      s.(seen := s.seen + [Read(s.job.mbY, x, MbData, s.mbData[s.ctxData][x])], worker := AfterRecon(c, s.job, x + 1))
    case FilterMb =>
      var x := s.worker.x;
      s.(seen := s.seen + [Read(s.job.mbY, x, FInfo, s.fInfo[s.ctxInfo][x])],
         worker := AfterFilter(c, x + 1))
    case DitherMb =>
      var x := s.worker.x;
      s.(seen := s.seen + [Read(s.job.mbY, x, MbData, s.mbData[s.ctxData][x])], worker := AfterDither(c, x + 1))
    case Put(ok) =>
      s.(puts := s.puts + [s.job], hadError := s.hadError || !ok, worker := Idle)
  }

  /** The states a sequence of events leads through; None if one is not enabled. */
  ghost predicate Reaches(c: Config, events: seq<Event>, s: State)
    requires c.Valid()
    decreases |events|
  {
    if events == [] then s == Init(c)
    else exists p: State :: Shaped(c, p) && Reaches(c, events[..|events| - 1], p)
           && Enabled(c, p, events[|events| - 1]) && s == Step(c, p, events[|events| - 1])
  }

  // ---- the invariant ----

  /** The rows handed to put() so far, in order, each in its cache slot. */
  ghost function Jobs(c: Config, n: nat): seq<Job>
    requires c.Valid()
  {
    seq(n, i requires 0 <= i => Job(i, i % c.slots, c.FilterRow(i)))
  }

  predicate Filled(half: seq<Entry>, n: nat, upTo: nat) {
    upTo <= |half| && forall x :: 0 <= x < upTo ==> half[x] == Row(n)
  }

  ghost predicate Inv(c: Config, s: State) {
    && c.Valid() && Shaped(c, s)
    && s.mbY <= c.mbH && s.mbX <= c.mbW && s.cacheId == s.mbY % c.slots
    // each half is held by exactly one thread
    && s.mainData != s.ctxData && s.mainInfo != s.ctxInfo
    // the main thread's halves hold the row being parsed
    && Filled(s.mbData[s.mainData], s.mbY, s.mbX)
    && (c.filtering ==> Filled(s.fInfo[s.mainInfo], s.mbY, s.mbX))
    // the worker's halves hold its job's row, the one before
    && (s.worker != Idle ==> s.mbY > 0 && s.job == Job(s.mbY - 1, (s.mbY - 1) % c.slots, c.FilterRow(s.mbY - 1)))
    && (s.worker != Idle ==> Filled(s.mbData[s.ctxData], s.job.mbY, c.mbW))
    && (s.worker != Idle && s.job.filterRow ==> Filled(s.fInfo[s.ctxInfo], s.job.mbY, c.mbW))
    && (s.worker.Reconstructing? ==> s.worker.x < c.mbW)
    && (s.worker.Filtering? ==> s.job.filterRow && c.tlMbX <= s.worker.x < c.brMbX)
    && (s.worker.Dithering? ==> c.dithering && c.tlMbX <= s.worker.x < c.brMbX)
    // everything read so far was right, and rows were output in order
    && (forall i :: 0 <= i < |s.seen| ==> s.seen[i].found == Row(s.seen[i].mbY))
    && s.puts == Jobs(c, if s.worker == Idle then s.mbY else s.mbY - 1)
    && (s.main != Parsing ==> s.worker == Idle)
    && (s.main == Done ==> s.mbY == c.mbH && !s.hadError)
    && (s.main == Failed ==> s.hadError)
  }

  lemma InitInv(c: Config)
    requires c.Valid()
    ensures Inv(c, Init(c))
  {
  }

  lemma StepInv(c: Config, s: State, e: Event)
    requires Inv(c, s) && Enabled(c, s, e)
    ensures Inv(c, Step(c, s, e))
  {
    if e == ProcessRow && !s.hadError {
      NextSlot(s.mbY, c.slots);
    }
    if e.Put? {
      assert Jobs(c, s.mbY) == Jobs(c, s.mbY - 1) + [s.job];
    }
  }

  lemma NextSlot(n: nat, slots: nat)
    requires slots > 0
    ensures (n + 1) % slots == if n % slots + 1 == slots then 0 else n % slots + 1
  {
    var q, r := n / slots, n % slots;
    assert n == q * slots + r;
    if r + 1 == slots {
      assert n + 1 == (q + 1) * slots + 0;
      Quotient(n + 1, q + 1, slots, 0);
    } else {
      Quotient(n + 1, q, slots, r + 1);
    }
  }

  lemma Quotient(n: nat, q: nat, m: nat, r: nat)
    requires r < m && n == q * m + r
    ensures n % m == r
  {
    var k := n / m;
    assert n == k * m + n % m;
    if k < q {
      Grows(q - k, m);
    } else if q < k {
      Grows(k - q, m);
    }
  }

  lemma Grows(a: nat, b: nat)
    requires a > 0
    ensures a * b >= b
  {
    assert a * b == (a - 1) * b + b;
  }

  // ---- what holds of every run ----

  lemma {:induction false} ReachableInv(c: Config, events: seq<Event>, s: State)
    requires c.Valid() && Reaches(c, events, s)
    ensures Inv(c, s)
    decreases |events|
  {
    if events == [] {
      InitInv(c);
    } else {
      var last := events[|events| - 1];
      var p :| Shaped(c, p) && Reaches(c, events[..|events| - 1], p) && Enabled(c, p, last) && s == Step(c, p, last);
      ReachableInv(c, events[..|events| - 1], p);
      StepInv(c, p, last);
    }
  }

  /** Whatever the interleaving, the worker finishing a row reads exactly the
      entries parsed for that row. */
  lemma WorkerReadsItsRow(c: Config, events: seq<Event>, s: State, i: nat)
    requires c.Valid() && Reaches(c, events, s) && i < |s.seen|
    ensures s.seen[i].found == Row(s.seen[i].mbY)
  {
    ReachableInv(c, events, s);
  }

  // ---- what the worker reads ----

  /** Reads of row n, if it is finished by a worker: all of mb_data to reconstruct, then
      f_info of the selected macroblocks if the row is filtered, then mb_data of the
      selected ones again if the picture is dithered. */
  function ReadsOfRow(c: Config, n: nat): seq<Read>
    requires c.Valid()
  {
    var filters := c.filtering && c.tlMbY <= n && n <= c.brMbY;
    seq(c.mbW, x requires 0 <= x => Read(n, x, MbData, Row(n)))
    + (if filters then Selected(c, n, FInfo) else [])
    + (if c.dithering then Selected(c, n, MbData) else [])
  }

  function Selected(c: Config, n: nat, buffer: Buffer): seq<Read>
    requires c.Valid()
  {
    seq(c.brMbX - c.tlMbX, j requires 0 <= j => Read(n, c.tlMbX + j, buffer, Row(n)))
  }

  /** Reads of rows 0 .. n-1. */
  function ReadsOfRows(c: Config, n: nat): seq<Read>
    requires c.Valid()
  {
    if n == 0 then [] else ReadsOfRows(c, n - 1) + ReadsOfRow(c, n - 1)
  }

  /** How many reads of its row the worker has behind it. */
  ghost function Position(c: Config, s: State): nat
    requires Inv(c, s)
  {
    match s.worker
    case Idle => 0
    case Reconstructing(x) => x
    case Filtering(x) => c.mbW + x - c.tlMbX
    case Dithering(x) => c.mbW + (if s.job.filterRow then c.brMbX - c.tlMbX else 0) + x - c.tlMbX
    case Emitting => |ReadsOfRow(c, s.job.mbY)|
  }

  /** Everything read so far: all of the rows that were put, and the beginning of the
      row the worker is in. */
  ghost predicate ReadsSoFar(c: Config, s: State)
    requires Inv(c, s)
  {
    if s.worker == Idle then s.seen == ReadsOfRows(c, s.mbY)
    else
      && Position(c, s) <= |ReadsOfRow(c, s.job.mbY)|
      && s.seen == ReadsOfRows(c, s.job.mbY) + ReadsOfRow(c, s.job.mbY)[..Position(c, s)]
  }

  /** The read that comes next. */
  lemma NextRead(c: Config, s: State, e: Event)
    requires Inv(c, s) && Enabled(c, s, e) && (e == ReconstructMb || e == FilterMb || e == DitherMb)
    ensures Inv(c, Step(c, s, e)) && Step(c, s, e).job == s.job
    ensures Position(c, s) < |ReadsOfRow(c, s.job.mbY)|
    ensures Position(c, Step(c, s, e)) == Position(c, s) + 1
    ensures Step(c, s, e).seen == s.seen + [ReadsOfRow(c, s.job.mbY)[Position(c, s)]]
  {
    hide ReadsOfRow;
    StepInv(c, s, e);
    ReadAt(c, s.job.mbY, Position(c, s));
  }

  /** The read at place i of a row. */
  lemma ReadAt(c: Config, n: nat, i: nat)
    requires c.Valid()
    ensures var width, row := c.brMbX - c.tlMbX, ReadsOfRow(c, n);
            var filter := if c.FilterRow(n) then width else 0;
            && |row| == c.mbW + filter + (if c.dithering then width else 0)
            && (i < |row| ==>
                  row[i] == if i < c.mbW then Read(n, i, MbData, Row(n))
                            else if i < c.mbW + filter then Read(n, c.tlMbX + (i - c.mbW), FInfo, Row(n))
                            else Read(n, c.tlMbX + (i - c.mbW - filter), MbData, Row(n)))
  {
  }

  lemma StepReads(c: Config, s: State, e: Event)
    requires c.Valid() && Inv(c, s) && Enabled(c, s, e) && ReadsSoFar(c, s)
    ensures Inv(c, Step(c, s, e)) && ReadsSoFar(c, Step(c, s, e))
  {
    hide Inv, ReadsOfRow;
    StepInv(c, s, e);
    match e {
      case ReconstructMb => OneReadMore(c, s, e);
      case FilterMb => OneReadMore(c, s, e);
      case DitherMb => OneReadMore(c, s, e);
      case ProcessRow => Launched(c, s);
      case Put(ok) => Finished(c, s, ok);
      case _ =>
    }
  }

  lemma OneReadMore(c: Config, s: State, e: Event)
    requires c.Valid() && Inv(c, s) && Enabled(c, s, e) && ReadsSoFar(c, s)
    requires e == ReconstructMb || e == FilterMb || e == DitherMb
    ensures Inv(c, Step(c, s, e)) && ReadsSoFar(c, Step(c, s, e))
  {
    hide Inv, ReadsOfRow, Position;
    NextRead(c, s, e);
    var all, n := ReadsOfRow(c, s.job.mbY), Position(c, s);
    assert all[..n + 1] == all[..n] + [all[n]];
  }

  lemma Launched(c: Config, s: State)
    requires Inv(c, s) && Enabled(c, s, ProcessRow) && ReadsSoFar(c, s)
    ensures Inv(c, Step(c, s, ProcessRow)) && ReadsSoFar(c, Step(c, s, ProcessRow))
  {
    hide ReadsOfRow;
    StepInv(c, s, ProcessRow);
  }

  lemma Finished(c: Config, s: State, ok: bool)
    requires Inv(c, s) && Enabled(c, s, Put(ok)) && ReadsSoFar(c, s)
    ensures Inv(c, Step(c, s, Put(ok))) && ReadsSoFar(c, Step(c, s, Put(ok)))
  {
    hide ReadsOfRow;
    StepInv(c, s, Put(ok));
    var all := ReadsOfRow(c, s.job.mbY);
    assert all[..|all|] == all;
  }

  lemma {:induction false} ReachableReads(c: Config, events: seq<Event>, s: State)
    requires c.Valid() && Reaches(c, events, s)
    ensures Inv(c, s) && ReadsSoFar(c, s)
    decreases |events|
  {
    hide Inv, ReadsSoFar;
    if events == [] {
      assert Inv(c, s) && ReadsSoFar(c, s) by { NothingRead(c); }
    } else {
      var last := events[|events| - 1];
      var p :| Shaped(c, p) && Reaches(c, events[..|events| - 1], p) && Enabled(c, p, last) && s == Step(c, p, last);
      ReachableReads(c, events[..|events| - 1], p);
      StepReads(c, p, last);
    }
  }

  lemma NothingRead(c: Config)
    requires c.Valid()
    ensures Inv(c, Init(c)) && ReadsSoFar(c, Init(c))
  {
  }

  /** Whatever the interleaving: behind each put() the worker has read, for each row
      put so far and in this order, every entry that reconstructing it takes, every
      entry that filtering it takes if it is filtered, every entry that dithering it
      takes if it is dithered, each once and filled for that row. */
  lemma WorkerReadsAll(c: Config, events: seq<Event>, s: State)
    requires c.Valid() && Reaches(c, events, s) && s.worker == Idle
    ensures s.seen == ReadsOfRows(c, |s.puts|)
  {
    ReachableReads(c, events, s);
  }

  /** At any other time it has read some first part of what its row takes, and all of it
      when it calls put(). */
  lemma WorkerReadsInOrder(c: Config, events: seq<Event>, s: State)
    requires c.Valid() && Reaches(c, events, s) && s.worker != Idle
    ensures s.job.mbY == |s.puts|
    ensures ReadsOfRows(c, |s.puts|) <= s.seen <= ReadsOfRows(c, |s.puts| + 1)
    ensures s.worker == Emitting ==> s.seen == ReadsOfRows(c, |s.puts| + 1)
  {
    hide ReadsOfRow;
    ReachableReads(c, events, s);
    var row := ReadsOfRow(c, s.job.mbY);
    assert row[..|row|] == row;
  }

  // ---- errors ----

  /** An error of put() is kept: decoding fails exactly when some put() failed. */
  lemma {:induction false} ErrorsAreKept(c: Config, events: seq<Event>, s: State)
    requires c.Valid() && Reaches(c, events, s)
    ensures s.hadError <==> Put(false) in events
    ensures s.main == Done ==> Put(false) !in events
    ensures s.main == Failed ==> Put(false) in events
    decreases |events|
  {
    hide Inv, Step, Enabled;
    if events != [] {
      var n := |events| - 1;
      var p :| Shaped(c, p) && Reaches(c, events[..n], p) && Enabled(c, p, events[n]) && s == Step(c, p, events[n]);
      ErrorsAreKept(c, events[..n], p);
      StepError(c, p, events[n]);
      assert events == events[..n] + [events[n]];
    }
    ReachableInv(c, events, s);
    assert (s.main == Done ==> !s.hadError) && (s.main == Failed ==> s.hadError) by { EndStates(c, s); }
  }

  lemma StepError(c: Config, s: State, e: Event)
    requires c.Valid() && Shaped(c, s) && Enabled(c, s, e)
    ensures Step(c, s, e).hadError <==> s.hadError || e == Put(false)
  {
  }

  lemma EndStates(c: Config, s: State)
    requires Inv(c, s)
    ensures (s.main == Done ==> !s.hadError) && (s.main == Failed ==> s.hadError)
  {
  }

  /** The main thread never writes an entry of a half that the worker holds. */
  lemma MainWritesElsewhere(c: Config, events: seq<Event>, s: State)
    requires c.Valid() && Reaches(c, events, s) && Enabled(c, s, ParseMb)
    ensures var s' := Step(c, s, ParseMb);
            s'.mbData[s.ctxData] == s.mbData[s.ctxData] && s'.fInfo[s.ctxInfo] == s.fInfo[s.ctxInfo]
  {
    ReachableInv(c, events, s);
  }

  /** put() is called for rows 0, 1, 2, ... in order, as a single thread would,
      and for all of them when decoding is done; an error keeps it a prefix. */
  lemma PutsInOrder(c: Config, events: seq<Event>, s: State)
    requires c.Valid() && Reaches(c, events, s)
    ensures |s.puts| <= c.mbH && s.puts == Jobs(c, |s.puts|)
    ensures s.main == Done ==> |s.puts| == c.mbH && !s.hadError
    ensures s.worker == Idle ==> |s.puts| == s.mbY
  {
    ReachableInv(c, events, s);
  }

  /** An aborted put() stops the decoder: no further job is ever launched. */
  lemma ErrorStops(c: Config, events: seq<Event>, s: State, e: Event)
    requires c.Valid() && Reaches(c, events, s) && s.hadError && s.worker == Idle && Enabled(c, s, e)
    ensures Step(c, s, e).worker == Idle && Step(c, s, e).puts == s.puts && Step(c, s, e).main != Done
  {
    ReachableInv(c, events, s);
  }

  /** Nobody waits forever: until the main thread is finished some step is possible. */
  lemma NoDeadlock(c: Config, events: seq<Event>, s: State) returns (e: Event)
    requires c.Valid() && Reaches(c, events, s) && s.main == Parsing
    ensures Enabled(c, s, e)
  {
    ReachableInv(c, events, s);
    e := match s.worker
         case Idle => if s.mbY == c.mbH then ExitCritical else if s.mbX < c.mbW then ParseMb else ProcessRow
         case Reconstructing(_) => ReconstructMb
         case Filtering(_) => FilterMb
         case Dithering(_) => DitherMb
         case Emitting => Put(true);
  }

  /** Steps still to be taken at most. */
  function Remaining(c: Config, s: State): int {
    (c.mbH - s.mbY) * (4 * c.mbW + 2) + (c.mbW - s.mbX) + (if s.main == Parsing then 1 else 0)
    + WorkerLeft(c, s.worker)
  }

  function WorkerLeft(c: Config, worker: Worker): int {
    match worker
    case Idle => 0
    case Emitting => 1
    case Dithering(x) => c.mbW - x + 1
    case Filtering(x) => 2 * c.mbW - x + 1
    case Reconstructing(x) => 3 * c.mbW - x + 1
  }

  lemma StepProgress(c: Config, s: State, e: Event)
    requires Inv(c, s) && Enabled(c, s, e)
    ensures Remaining(c, Step(c, s, e)) < Remaining(c, s)
  {
    if e == ProcessRow && !s.hadError {
      assert (c.mbH - s.mbY) * (4 * c.mbW + 2) == (c.mbH - (s.mbY + 1)) * (4 * c.mbW + 2) + (4 * c.mbW + 2);
    }
  }

  /** Every run is finite. */
  lemma {:induction false} EveryRunEnds(c: Config, events: seq<Event>, s: State)
    requires c.Valid() && Reaches(c, events, s)
    ensures |events| + Remaining(c, s) <= Remaining(c, Init(c))
    decreases |events|
  {
    hide Inv, Step, Enabled, Remaining, Init;
    if events != [] {
      var last := events[|events| - 1];
      var p :| Shaped(c, p) && Reaches(c, events[..|events| - 1], p) && Enabled(c, p, last) && s == Step(c, p, last);
      ReachableInv(c, events[..|events| - 1], p);
      StepProgress(c, p, last);
      EveryRunEnds(c, events[..|events| - 1], p);
    }
  }

  /** It has at most (mbH + 1) * (4 * mbW + 2) steps. */
  lemma RunLength(c: Config, events: seq<Event>, s: State)
    requires c.Valid() && Reaches(c, events, s)
    ensures |events| <= (c.mbH + 1) * (4 * c.mbW + 2)
  {
    hide Inv, Reaches, Remaining;
    EveryRunEnds(c, events, s);
    ReachableInv(c, events, s);
    Nonnegative(c, s);
    InitialWork(c);
  }

  lemma InitialWork(c: Config)
    requires c.Valid()
    ensures Remaining(c, Init(c)) <= (c.mbH + 1) * (4 * c.mbW + 2)
  {
    assert (c.mbH + 1) * (4 * c.mbW + 2) == c.mbH * (4 * c.mbW + 2) + (4 * c.mbW + 2);
  }

  lemma Nonnegative(c: Config, s: State)
    requires Inv(c, s)
    ensures Remaining(c, s) >= 0
  {
    hide Inv;
    CountersInRange(c, s);
    var rows, k := c.mbH - s.mbY, 4 * c.mbW + 2;
    if rows > 0 { Grows(rows, k); }
  }

  lemma CountersInRange(c: Config, s: State)
    requires Inv(c, s)
    ensures s.mbY <= c.mbH && s.mbX <= c.mbW && WorkerLeft(c, s.worker) >= 0
  {
  }
}

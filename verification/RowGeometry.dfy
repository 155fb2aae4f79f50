/** Planes and macroblocks, the part of the picture that VP8EnterCritical selects for
    a cropping window, and which rows FinishRow hands to put() after each macroblock
    row, given the rows held back for the loop filter. */
module RowGeometry {

  /** A row of samples of one plane. */
  type Row = seq<int>

  datatype FilterType = Off | Simple | Complex

  /** kFilterExtraRows */
  function ExtraRows(f: FilterType): nat {
    match f case Off => 0 case Simple => 2 case Complex => 8
  }

  /** Shape of a plane: a macroblock is a square of 16 luma or 8 chroma samples.
      Of every macroblock row `extra` rows are held back. */
  datatype Shape = Shape(luma: bool, extra: nat) {
    predicate Valid() { extra <= Unit() }

    function Unit(): nat { if luma then 16 else 8 }

    /** Position of the first row (or column) of macroblock row (or column) n. */
    function Base(n: nat): nat { if luma then 16 * n else 8 * n }

    /** First row of the window that finishing macroblock row n may touch. */
    function Low(n: nat): nat
      requires Valid()
    {
      if n == 0 then 0 else Base(n) - extra
    }
  }

  /** Size and cropping window of the picture. */
  datatype Window = Window(width: nat, height: nat, cropLeft: nat, cropRight: nat,
                           cropTop: nat, cropBottom: nat, filter: FilterType) {

    /** What WebPIoInitFromOptions guarantees: a non-empty window inside the
        picture, snapped to an even top row. */
    predicate Valid() {
      && cropLeft < cropRight <= width
      && cropTop < cropBottom <= height && cropTop % 2 == 0
    }

    function Extra(): nat { ExtraRows(filter) }

    function MbH(): nat { (height + 15) / 16 }

    function MbW(): nat { (width + 15) / 16 }

    /** VP8EnterCritical: the columns from br_mb_x on are not needed. */
    function BrMbX(): nat {
      var br := (cropRight + 15 + Extra()) / 16;
      if br > MbW() then MbW() else br
    }

    /** VP8EnterCritical: without the complex filter the work may start just left of
        the window. */
    function TlMbX(): nat {
      if filter == Complex || cropLeft < Extra() then 0 else (cropLeft - Extra()) / 16
    }

    /** VP8EnterCritical: the rows from br_mb_y on are not needed. */
    function BrMbY(): nat {
      var br := (cropBottom + 15 + Extra()) / 16;
      if br > MbH() then MbH() else br
    }

    /** VP8EnterCritical: without the complex filter the work may start just above
        the window. */
    function TlMbY(): nat {
      if filter == Complex || cropTop < Extra() then 0 else (cropTop - Extra()) / 16
    }

    /** Rows y_start and y_end computed by FinishRow, before cropping at the top. */
    function YStart(n: nat): int { if n == 0 then 0 else 16 * n - Extra() }

    function YEnd(n: nat): int {
      var e := if n + 1 >= BrMbY() then 16 * (n + 1) else 16 * (n + 1) - Extra();
      if e > cropBottom then cropBottom else e
    }

    /** The band of rows put() receives while macroblock row n is finished; it is
        empty unless PutStart(n) < YEnd(n). */
    function PutStart(n: nat): int { if YStart(n) < cropTop then cropTop else YStart(n) }

    predicate Puts(n: nat) { PutStart(n) < YEnd(n) }

    /** Rows of the picture available for output once n macroblock rows are done. */
    function Avail(n: nat): nat
      requires Valid()
    {
      if n == 0 then 0
      else if n >= BrMbY() || 16 * n - Extra() > cropBottom then cropBottom
      else 16 * n - Extra()
    }

    /** Rows of the cropping window delivered once n macroblock rows are done. */
    function Frontier(n: nat): nat
      requires Valid()
    {
      if Avail(n) < cropTop then 0 else Avail(n) - cropTop
    }
  }

  /** The macroblocks selected are those that overlap the window widened by the rows
      held back for the filter; with the complex filter, also all before them. */
  lemma SelectedExactly(w: Window, m: nat)
    requires w.Valid()
    ensures m < w.MbW() ==>
              (w.TlMbX() <= m < w.BrMbX() <==>
                 16 * m < w.cropRight + w.Extra() && (w.filter == Complex || w.cropLeft - w.Extra() < 16 * (m + 1)))
    ensures m < w.MbH() ==>
              (w.TlMbY() <= m < w.BrMbY() <==>
                 16 * m < w.cropBottom + w.Extra() && (w.filter == Complex || w.cropTop - w.Extra() < 16 * (m + 1)))
  {
    var e := w.Extra();
    Sixteens(w.cropRight + e, w.cropLeft as int - e, m);
    Sixteens(w.cropBottom + e, w.cropTop as int - e, m);
  }

  lemma Sixteens(end: nat, begin: int, m: nat)
    ensures m < (end + 15) / 16 <==> 16 * m < end
    ensures begin >= 0 ==> (begin / 16 <= m <==> begin < 16 * (m + 1))
  {
  }

  /** Every macroblock row extends the available rows exactly from where the
      previous one stopped; rows from br_mb_y on add nothing. */
  lemma StepOfRow(w: Window, n: nat)
    requires w.Valid() && n < w.MbH()
    ensures w.Avail(n) <= w.Avail(n + 1) <= w.cropBottom
    ensures w.YStart(n) < w.YEnd(n) <==> w.Avail(n) < w.Avail(n + 1)
    ensures w.YStart(n) < w.YEnd(n) ==> w.YStart(n) == w.Avail(n) && w.YEnd(n) == w.Avail(n + 1)
    ensures n >= w.BrMbY() ==> w.Avail(n) == w.cropBottom && w.YStart(n) >= w.YEnd(n)
    ensures w.Puts(n) ==> w.PutStart(n) == w.cropTop + w.Frontier(n) && w.YEnd(n) == w.cropTop + w.Frontier(n + 1)
    ensures !w.Puts(n) ==> w.Frontier(n) == w.Frontier(n + 1)
  {
    var br := (w.cropBottom + 15 + w.Extra()) / 16;
    assert 16 * br >= w.cropBottom + w.Extra();
    if w.BrMbY() < w.MbH() { assert w.BrMbY() == br; }
  }

  /** All rows of the window are out when the last needed macroblock row is done. */
  lemma AllRowsOut(w: Window)
    requires w.Valid()
    ensures 0 < w.BrMbY() <= w.MbH()
    ensures w.Frontier(w.BrMbY()) == w.Frontier(w.MbH()) == w.cropBottom - w.cropTop
    ensures w.BrMbY() == w.MbH() || 16 * w.BrMbY() - w.Extra() >= w.cropBottom
  {
    var br := (w.cropBottom + 15 + w.Extra()) / 16;
    assert 16 * br >= w.cropBottom + w.Extra();
  }

  /** Bands start on an even row of the window, row 2 * s, and only the last can
      be of odd height. */
  lemma BandsAreEven(w: Window, n: nat) returns (s: nat, h: nat)
    requires w.Valid() && n < w.MbH() && w.Puts(n)
    ensures w.PutStart(n) - w.cropTop == 2 * s
    ensures w.YEnd(n) < w.cropBottom ==> w.YEnd(n) - w.PutStart(n) == 2 * h
  {
    var half := match w.filter case Off => 0 case Simple => 1 case Complex => 4;
    var top := w.cropTop / 2;
    assert w.cropTop == 2 * top;
    s := if w.YStart(n) < w.cropTop then 0 else if n == 0 then 0 else 8 * n - half - top;
    var end := if n + 1 >= w.BrMbY() then 8 * (n + 1) else 8 * (n + 1) - half;
    h := if w.YEnd(n) < w.cropBottom then end - s - top else 0;
  }

  /** The macroblock row whose put() carries row r of the picture. */
  function Carrier(w: Window, r: nat, n: nat): (m: nat)
    requires w.Valid() && w.cropTop <= r < w.Avail(n) && n <= w.MbH()
    ensures m < n && w.Avail(m) <= r < w.Avail(m + 1)
  {
    StepOfRow(w, n - 1);
    if r >= w.Avail(n - 1) then n - 1 else Carrier(w, r, n - 1)
  }

  /** The put() calls tile the cropping window: every row of it is in the band of
      exactly one macroblock row. */
  lemma PutsTileTheWindow(w: Window, r: nat) returns (n: nat)
    requires w.Valid() && w.cropTop <= r < w.cropBottom
    ensures n < w.BrMbY() && w.PutStart(n) <= r < w.YEnd(n)
    ensures forall m :: 0 <= m < w.MbH() && w.PutStart(m) <= r < w.YEnd(m) ==> m == n
  {
    AllRowsOut(w);
    n := Carrier(w, r, w.BrMbY());
    StepOfRow(w, n);
    forall m | 0 <= m < w.MbH() && w.PutStart(m) <= r < w.YEnd(m)
      ensures m == n
    {
      StepOfRow(w, m);
    }
  }
}

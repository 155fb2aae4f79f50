/** One plane of the lossy decoder's sample cache (dec->cache_y, cache_u or
    cache_v): a few slots of one macroblock row each, preceded by the rows that
    the loop filter of the next macroblock row may still change.

    The reference has no cache: it runs over a whole plane that is already
    reconstructed, the loop filter of macroblock row 0 first, then row 1, 2, ... */
module DelayLine {
  import opened LoopFilter
  import opened RowGeometry

  /** What the loop filter and the ditherer do to a window of rows while
      macroblock row n is finished. The window is the macroblock row itself
      preceded by the held-back rows; nothing outside it is touched. */
  type Kernel = (nat, seq<Row>) -> seq<Row>

  ghost predicate LengthPreserving(k: Kernel) {
    forall n: nat, w: seq<Row> :: |k(n, w)| == |w|
  }

  ghost predicate Plane(sh: Shape, k: Kernel, recon: seq<Row>, mbH: nat) {
    sh.Valid() && LengthPreserving(k) && |recon| == sh.Base(mbH)
  }

  /** The whole plane after the filters of macroblock rows 0 .. n-1 ran over it
      in order, starting from the fully reconstructed plane. */
  ghost function Filtered(sh: Shape, k: Kernel, recon: seq<Row>, mbH: nat, n: nat): (pic: seq<Row>)
    requires Plane(sh, k, recon, mbH) && n <= mbH
    ensures |pic| == |recon|
    decreases n
  {
    if n == 0 then recon else
      var before := Filtered(sh, k, recon, mbH, n - 1);
      var lo, hi := sh.Low(n - 1), sh.Base(n);
      before[..lo] + k(n - 1, before[lo..hi]) + before[hi..]
  }

  /** Filtering never runs ahead of the reconstruction: rows of macroblock row n
      and below are still as reconstructed. */
  lemma {:induction false} BelowUntouched(sh: Shape, k: Kernel, recon: seq<Row>, mbH: nat, n: nat)
    requires Plane(sh, k, recon, mbH) && n <= mbH
    ensures Filtered(sh, k, recon, mbH, n)[sh.Base(n)..] == recon[sh.Base(n)..]
  {
    if n > 0 {
      BelowUntouched(sh, k, recon, mbH, n - 1);
      var before := Filtered(sh, k, recon, mbH, n - 1);
      var after := Filtered(sh, k, recon, mbH, n);
      forall r | sh.Base(n) <= r < |recon| ensures after[r] == recon[r] {
        assert before[sh.Base(n - 1)..][r - sh.Base(n - 1)] == recon[sh.Base(n - 1)..][r - sh.Base(n - 1)];
      }
    }
  }

  /** Rows more than `extra` above the filtered frontier are final: no later
      macroblock row changes them. */
  lemma {:induction false} AboveFinal(sh: Shape, k: Kernel, recon: seq<Row>, mbH: nat, n: nat, m: nat)
    requires Plane(sh, k, recon, mbH) && n <= m <= mbH
    ensures n > 0 ==> Filtered(sh, k, recon, mbH, m)[..sh.Low(n)] == Filtered(sh, k, recon, mbH, n)[..sh.Low(n)]
    decreases m
  {
    if n < m && n > 0 {
      AboveFinal(sh, k, recon, mbH, n, m - 1);
      var before := Filtered(sh, k, recon, mbH, m - 1);
      var lo, hi := sh.Low(m - 1), sh.Base(m);
      PrefixStays(before, k(m - 1, before[lo..hi]), lo, hi, sh.Low(n));
    }
  }

  lemma PrefixStays(before: seq<Row>, rows: seq<Row>, lo: nat, hi: nat, n: nat)
    requires n <= lo <= hi <= |before|
    ensures (before[..lo] + rows + before[hi..])[..n] == before[..n]
  {
  }

  class PlaneCache {
    const sh: Shape
    const slots: nat
    const width: nat
    const rows: array<Row>  // rows[sh.extra] is where dec->cache_y points

    ghost predicate Valid() {
      sh.Valid() && slots > 0 && rows.Length == sh.extra + sh.Base(slots)
    }

    /** All rows have the width of the plane. */
    ghost predicate Rect()
      reads rows
    {
      forall i :: 0 <= i < rows.Length ==> |rows[i]| == width
    }

    /** AllocateMemory: room for the held-back rows and `slots` macroblock rows. */
    constructor (sh: Shape, slots: nat, width: nat)
      requires sh.Valid() && slots > 0
      ensures Valid() && Rect() && fresh(rows) && this.sh == sh && this.slots == slots && this.width == width
    {
      this.sh, this.slots, this.width := sh, slots, width;
      var blank := seq(width, i => 0);
      rows := new Row[sh.extra + sh.Base(slots)](i => blank);
    }

    /** The held-back rows just above a slot. */
    ghost function Above(slot: nat): seq<Row>
      requires Valid() && slot < slots
      reads rows
    {
      rows[sh.Base(slot)..sh.Base(slot) + sh.extra]
    }

    /** Where the rows worked on for macroblock row n begin: at the slot for the first
        row, else at the rows held back in front of it. */
    function First(slot: nat, n: nat): nat {
      if n == 0 then sh.Base(slot) + sh.extra else sh.Base(slot)
    }

    /** The rows that finishing macroblock row n works on. */
    ghost function Window(slot: nat, n: nat): (w: seq<Row>)
      requires Valid() && slot < slots
      reads rows
      ensures |w| == sh.Base(n + 1) - sh.Low(n)
    {
      rows[First(slot, n)..sh.Base(slot) + sh.extra + sh.Unit()]
    }

    lemma WindowAt(slot: nat, n: nat, j: nat)
      requires Valid() && slot < slots && j < sh.Base(n + 1) - sh.Low(n)
      ensures Window(slot, n)[j] == rows[First(slot, n) + j]
    {
    }

    /** memcpy of n rows; source and destination do not overlap. */
    method Copy(src: seq<Row>, at: nat)
      requires at + |src| <= rows.Length
      modifies rows
      ensures rows[..] == old(rows[..at]) + src + old(rows[at + |src|..])
    {
      for i := 0 to |src|
        invariant rows[..] == old(rows[..at]) + src[..i] + old(rows[at + i..])
      {
        rows[at + i] := src[i];
        assert src[..i + 1] == src[..i] + [src[i]];
      }
      assert src[..|src|] == src;
    }

    /** ReconstructRow: the unfiltered samples of one macroblock row land in a slot;
        no other row of the cache changes. */
    method Reconstruct(slot: nat, samples: seq<Row>)
      requires Valid() && slot < slots && |samples| == sh.Unit()
      modifies rows
      ensures Above(slot) == old(Above(slot))
      ensures rows[sh.Base(slot) + sh.extra..sh.Base(slot) + sh.extra + sh.Unit()] == samples
      ensures Beside(rows, sh.Base(slot) + sh.extra, sh.Unit())
      ensures old(Rect()) && Sized(samples, width) ==> Rect()
    {
      ghost var at := sh.Base(slot) + sh.extra;
      ghost var want := rows[..at] + samples + rows[at + |samples|..];
      Copy(samples, sh.Base(slot) + sh.extra);
      forall i | 0 <= i < rows.Length ensures rows[i] == want[i] {
        assert rows[..][i] == want[i];
      }
    }

    /** FilterRow: the rows of the window are filtered in place; no other row of the
        cache changes. */
    method FilterRow(slot: nat, n: nat, e: EdgeFilter, from: nat, end: nat)
      requires Valid() && slot < slots && Rect() && e.Valid() && e.sh == sh && e.Width() == width && from <= end <= e.mbW
      modifies rows
      ensures e.Covers(n, old(Window(slot, n)), sh.Low(n)) && e.AllIn(RowSteps(sh, from, end, n), n)
      ensures Window(slot, n) == e.Run(RowSteps(sh, from, end, n), n, old(Window(slot, n)), sh.Low(n))
      ensures Beside(rows, First(slot, n), sh.Base(n + 1) - sh.Low(n)) && Rect()
    {
      hide EdgeFilter.Run, RowSteps;
      ghost var w := Window(slot, n);
      WindowHolds(slot, n);
      LoopFilter.FilterRow(e, from, end, n, rows, First(slot, n), sh.Low(n), w);
      ghost var now := e.Run(RowSteps(sh, from, end, n), n, w, sh.Low(n));
      assert Window(slot, n) == now;
      StillRect(old(rows[..]), First(slot, n), now);
    }

    /** DitherRow, for a chroma plane. */
    method DitherRow(slot: nat, n: nat, noise: Noise, from: nat, end: nat)
      requires Valid() && slot < slots && Rect() && !sh.luma && from <= end && sh.Base(end) <= width
      modifies rows
      ensures Window(slot, n) == Dithered(sh, noise, from, end, n, old(Window(slot, n)), sh.Low(n))
      ensures Beside(rows, First(slot, n), sh.Base(n + 1) - sh.Low(n)) && Rect()
    {
      hide Dithered;
      ghost var w := Window(slot, n);
      WindowHolds(slot, n);
      LoopFilter.DitherRow(sh, noise, from, end, n, rows, First(slot, n), sh.Low(n), w);
      ghost var now := Dithered(sh, noise, from, end, n, w, sh.Low(n));
      assert Window(slot, n) == now;
      StillRect(old(rows[..]), First(slot, n), now);
    }

    /** The window lies in the cache, and its rows have the width of the plane. */
    lemma WindowHolds(slot: nat, n: nat)
      requires Valid() && slot < slots && Rect()
      ensures Holds(rows, First(slot, n), Window(slot, n)) && Sized(Window(slot, n), width)
    {
    }

    /** Rows of the right width in the place of others. */
    lemma StillRect(was: seq<Row>, at: nat, now: seq<Row>)
      requires |was| == rows.Length && Sized(was, width) && Sized(now, width) && Holds(rows, at, now)
      requires forall i :: 0 <= i < rows.Length && !(at <= i < at + |now|) ==> rows[i] == was[i]
      ensures Rect()
    {
      forall i | 0 <= i < rows.Length ensures |rows[i]| == width {
        if at <= i < at + |now| { assert rows[at + (i - at)] == now[i - at]; }
      }
    }

    /** The tail of FinishRow: after the last slot, the held-back rows move to
        the front, so that they sit just above slot 0 again. */
    method Rotate(slot: nat)
      requires Valid() && slot < slots
      modifies rows
      ensures Above(if slot + 1 == slots then 0 else slot + 1)
           == old(rows[sh.Base(slot) + sh.Unit()..sh.Base(slot) + sh.Unit() + sh.extra])
      ensures Beside(rows, 0, if slot + 1 == slots then sh.extra else 0)
      ensures old(Rect()) ==> Rect()
    {
      if slot + 1 == slots {
        var tail := rows[sh.Base(slot) + sh.Unit()..sh.Base(slot) + sh.Unit() + sh.extra];
        ghost var want := tail + rows[sh.extra..];
        Copy(tail, 0);
        forall i | 0 <= i < rows.Length ensures rows[i] == want[i] {
          assert rows[..][i] == want[i];
        }
      }
    }
  }
}

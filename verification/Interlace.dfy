/** The four passes in which an interlaced GIF frame sends its rows, Appendix E of the
    GIF89a specification: every 8th row from 0, every 8th from 4, every 4th from 2,
    every 2nd from 1. */
module Interlace {

  const OFFSETS: seq<nat> := [0, 4, 2, 1]
  const JUMPS: seq<nat> := [8, 8, 4, 2]

  /** The pass that a row belongs to. */
  function PassOf(y: nat): (p: nat)
    ensures p < 4
  {
    if y % 8 == 0 then 0 else if y % 8 == 4 then 1 else if y % 4 == 2 then 2 else 3
  }

  /** How many of the first h rows belong to passes before p. */
  function Before(h: nat, p: nat): nat
    requires p <= 4
  {
    match p
    case 0 => 0
    case 1 => (h + 7) / 8
    case 2 => (h + 7) / 8 + (h + 3) / 8
    case 3 => (h + 7) / 8 + (h + 3) / 8 + (h + 1) / 4
    case _ => h
  }

  /** Which row is sent as number k. */
  function RowSent(h: nat, k: nat): nat {
    if k < Before(h, 1) then 8 * k
    else if k < Before(h, 2) then 8 * (k - Before(h, 1)) + 4
    else if k < Before(h, 3) then 4 * (k - Before(h, 2)) + 2
    else 2 * (k - Before(h, 3)) + 1
  }

  /** As what number row y is sent. */
  function Position(h: nat, y: nat): nat {
    Before(h, PassOf(y)) + y / JUMPS[PassOf(y)]
  }

  /** The passes visit each row exactly once: sending order and rows are one to one. */
  lemma EachRowOnce(h: nat, y: nat, k: nat)
    requires y < h && k < h
    ensures Position(h, y) < h && RowSent(h, Position(h, y)) == y
    ensures RowSent(h, k) < h && Position(h, RowSent(h, k)) == k
  {
    Quarters(h);
    PositionInPass(h, y);
    SentInPass(h, k);
  }

  lemma Quarters(h: nat)
    ensures Before(h, 3) + h / 2 == h
    ensures Before(h, 1) <= Before(h, 2) <= Before(h, 3) <= h
  {
    var q, r := h / 8, h % 8;
    assert h == 8 * q + r;
    assert (h + 7) / 8 == q + if r >= 1 then 1 else 0;
    assert (h + 3) / 8 == q + if r >= 5 then 1 else 0;
    assert (h + 1) / 4 == 2 * q + if r >= 7 then 2 else if r >= 3 then 1 else 0;
    assert h / 2 == 4 * q + r / 2;
  }

  /** Row number q of pass p. */
  function RowOf(p: nat, q: nat): nat
    requires p < 4
  {
    match p case 0 => 8 * q case 1 => 8 * q + 4 case 2 => 4 * q + 2 case _ => 2 * q + 1
  }

  lemma InPass0(h: nat, q: nat)
    ensures PassOf(8 * q) == 0 && Position(h, 8 * q) == Before(h, 0) + q
    ensures 8 * q < h <==> Before(h, 0) + q < Before(h, 1)
    ensures 8 * q < h ==> RowSent(h, Before(h, 0) + q) == 8 * q
  {
    Quarters(h);
    assert 8 * q / 8 == q && 8 * q % 8 == 0;
  }

  lemma InPass1(h: nat, q: nat)
    ensures PassOf(8 * q + 4) == 1 && Position(h, 8 * q + 4) == Before(h, 1) + q
    ensures 8 * q + 4 < h <==> Before(h, 1) + q < Before(h, 2)
    ensures 8 * q + 4 < h ==> RowSent(h, Before(h, 1) + q) == 8 * q + 4
  {
    Quarters(h);
    assert (8 * q + 4) / 8 == q && (8 * q + 4) % 8 == 4;
  }

  lemma InPass2(h: nat, q: nat)
    ensures PassOf(4 * q + 2) == 2 && Position(h, 4 * q + 2) == Before(h, 2) + q
    ensures 4 * q + 2 < h <==> Before(h, 2) + q < Before(h, 3)
    ensures 4 * q + 2 < h ==> RowSent(h, Before(h, 2) + q) == 4 * q + 2
  {
    Quarters(h);
    assert (4 * q + 2) / 4 == q && (4 * q + 2) % 4 == 2 && (4 * q + 2) % 8 == if q % 2 == 0 then 2 else 6;
  }

  lemma InPass3(h: nat, q: nat)
    ensures PassOf(2 * q + 1) == 3 && Position(h, 2 * q + 1) == Before(h, 3) + q
    ensures 2 * q + 1 < h <==> Before(h, 3) + q < Before(h, 4)
    ensures 2 * q + 1 < h ==> RowSent(h, Before(h, 3) + q) == 2 * q + 1
  {
    hide PassOf;
    Quarters(h);
    OddRow(q);
    assert (2 * q + 1) / 2 == q;
  }

  lemma OddRow(q: nat)
    ensures PassOf(2 * q + 1) == 3
  {
    var m, r := q / 4, q % 4;
    assert 2 * q + 1 == 8 * m + (2 * r + 1);
  }

  lemma InPass(h: nat, p: nat, q: nat)
    requires p < 4
    ensures PassOf(RowOf(p, q)) == p && Position(h, RowOf(p, q)) == Before(h, p) + q
    ensures RowOf(p, q) < h <==> Before(h, p) + q < Before(h, p + 1)
    ensures RowOf(p, q) < h ==> RowSent(h, Before(h, p) + q) == RowOf(p, q)
    ensures RowOf(p, q + 1) == RowOf(p, q) + JUMPS[p]
  {
    hide Position, RowSent, Before, PassOf;
    match p {
      case 0 => InPass0(h, q);
      case 1 => InPass1(h, q);
      case 2 => InPass2(h, q);
      case _ => InPass3(h, q);
    }
  }

  /** Every row is one of a pass. */
  lemma RowIs(y: nat) returns (q: nat)
    ensures y == RowOf(PassOf(y), q)
  {
    var m, r := y / 8, y % 8;
    assert y == 8 * m + r;
    if r == 0 || r == 4 {
      q := m;
    } else if r == 2 || r == 6 {
      assert y % 4 == 2;
      q := 2 * m + if r == 6 then 1 else 0;
    } else {
      assert y % 4 != 2;
      q := 4 * m + r / 2;
    }
  }

  lemma PositionInPass(h: nat, y: nat)
    requires y < h
    ensures Position(h, y) < Before(h, PassOf(y) + 1)
    ensures RowSent(h, Position(h, y)) == y
  {
    hide Position, RowOf, RowSent, Before;
    var q := RowIs(y);
    InPass(h, PassOf(y), q);
  }

  lemma SentInPass(h: nat, k: nat)
    requires k < h
    ensures RowSent(h, k) < h && Position(h, RowSent(h, k)) == k
  {
    hide Position, RowOf, Before, PassOf;
    Quarters(h);
    StartAndEnd(h);
    var p := if k < Before(h, 1) then 0 else if k < Before(h, 2) then 1 else if k < Before(h, 3) then 2 else 3;
    InPass(h, p, k - Before(h, p));
  }

  /** The order in so many words: every eighth row, then every eighth from the fourth
      on, then every fourth from the second on, then the odd ones, each from top to
      bottom. */
  lemma SendingOrder(h: nat, y: nat, z: nat)
    requires y < h && z < h
    ensures var a := if y % 8 == 0 then 1 else if y % 8 == 4 then 2 else if y % 2 == 0 then 3 else 4;
            var b := if z % 8 == 0 then 1 else if z % 8 == 4 then 2 else if z % 2 == 0 then 3 else 4;
            Position(h, y) < Position(h, z) <==> a < b || (a == b && y < z)
  {
    hide Position, RowOf, RowSent, Before, PassOf;
    Quarters(h);
    StartAndEnd(h);
    var p := RowIs(y);
    var q := RowIs(z);
    PassIs(y);
    PassIs(z);
    PositionInPass(h, y);
    PositionInPass(h, z);
    InPass(h, PassOf(y), p);
    InPass(h, PassOf(z), q);
    RowsOfPassGrow(PassOf(y), p, q);
  }

  lemma PassIs(y: nat)
    ensures PassOf(y) == if y % 8 == 0 then 0 else if y % 8 == 4 then 1 else if y % 2 == 0 then 2 else 3
  {
    var m, r := y / 8, y % 8;
    Residues(m, r);
    assert r == 0 || r == 1 || r == 2 || r == 3 || r == 4 || r == 5 || r == 6 || r == 7;
  }

  lemma Residues(m: nat, r: nat)
    requires r < 8
    ensures (8 * m + r) % 4 == r % 4 && (8 * m + r) % 2 == r % 2
  {
    Mod4(2 * m + r / 4, r % 4);
    Mod2(4 * m + r / 2, r % 2);
    assert 4 * (2 * m + r / 4) + r % 4 == 8 * m + r == 2 * (4 * m + r / 2) + r % 2;
  }

  lemma Mod4(q: nat, r: nat)
    requires r < 4
    ensures (4 * q + r) % 4 == r
  {
  }

  lemma Mod2(q: nat, r: nat)
    requires r < 2
    ensures (2 * q + r) % 2 == r
  {
  }

  lemma RowsOfPassGrow(p: nat, q: nat, r: nat)
    requires p < 4
    ensures RowOf(p, q) < RowOf(p, r) <==> q < r
  {
  }

  /** A step within a pass is the next row sent; its last row ends the pass. */
  lemma NextInPass(h: nat, y: nat)
    requires y < h
    ensures var next := y + JUMPS[PassOf(y)];
            && PassOf(next) == PassOf(y)
            && (next < h ==> Position(h, next) == Position(h, y) + 1)
            && (next >= h ==> Position(h, y) + 1 == Before(h, PassOf(y) + 1))
  {
    hide Position, RowOf, RowSent, Before, PassOf;
    var q := RowIs(y);
    InPass(h, PassOf(y), q);
    InPass(h, PassOf(y), q + 1);
  }

  lemma FirstOfPass(h: nat, p: nat)
    requires p < 4
    ensures PassOf(OFFSETS[p]) == p
    ensures OFFSETS[p] < h ==> Position(h, OFFSETS[p]) == Before(h, p)
    ensures OFFSETS[p] >= h ==> Before(h, p) == Before(h, p + 1)
  {
    Quarters(h);
    assert p == 0 || p == 1 || p == 2 || p == 3;
  }

  /** The loop of GIFReadFrame over an interlaced image: lines come in sending order
      until they run out, rows are stored from top to bottom. */
  method ReadInterlaced<T>(lines: seq<T>, rows: array<T>) returns (ok: bool)
    modifies rows
    ensures ok <==> |lines| >= rows.Length
    ensures ok ==> forall y :: 0 <= y < rows.Length ==> Position(rows.Length, y) < |lines| && rows[y] == lines[Position(rows.Length, y)]
  {
    hide Position, Before;
    var h := rows.Length;
    var n := 0;
    StartAndEnd(h);
    for pass := 0 to 4
      invariant n == Before(h, pass) && n <= h && n <= |lines|
      invariant Stored(h, rows[..], lines, n)
    {
      var y := OFFSETS[pass];
      FirstOfPass(h, pass);
      while y < h
        invariant n <= |lines| && n <= h && PassOf(y) == pass
        invariant if y < h then n == Position(h, y) else n == Before(h, pass + 1)
        invariant Stored(h, rows[..], lines, n)
      {
        EachRowOnce(h, y, y);
        if n >= |lines| {
          return false;
        }
        StoreNext(h, rows[..], lines, n, y);
        rows[y] := lines[n];
        n := n + 1;
        NextInPass(h, y);
        y := y + JUMPS[pass];
      }
    }
    forall y | 0 <= y < h
      ensures Position(h, y) < |lines| && rows[y] == lines[Position(h, y)]
    {
      EachRowOnce(h, y, y);
      assert rows[..][y] == rows[y];
    }
    return true;
  }

  lemma StartAndEnd(h: nat)
    ensures Before(h, 0) == 0 && Before(h, 4) == h
  {
  }

  /** The first n lines are in their rows. */
  ghost predicate Stored<T>(h: nat, rows: seq<T>, lines: seq<T>, n: nat) {
    |rows| == h && n <= |lines| && forall y :: 0 <= y < |rows| && Position(h, y) < n ==> rows[y] == lines[Position(h, y)]
  }

  lemma StoreNext<T>(h: nat, rows: seq<T>, lines: seq<T>, n: nat, y: nat)
    requires Stored(h, rows, lines, n) && n < |lines| && y < h && Position(h, y) == n
    ensures Stored(h, rows[y := lines[n]], lines, n + 1)
  {
    hide Position;
    forall v | 0 <= v < h && Position(h, v) < n + 1 && v != y
      ensures Position(h, v) < n
    {
      EachRowOnce(h, v, v);
      EachRowOnce(h, y, y);
    }
  }

  /** The lines of a picture in sending order. */
  function Interlaced<T>(picture: seq<T>): (lines: seq<T>)
    ensures |lines| == |picture|
  {
    seq(|picture|, k requires 0 <= k < |picture| => (EachRowOnce(|picture|, k, k); picture[RowSent(|picture|, k)]))
  }

  /** Reading an interlaced picture gives the picture. */
  method RoundTrip<T(0)>(picture: seq<T>) returns (rows: array<T>)
    ensures rows[..] == picture
  {
    rows := new T[|picture|];
    var ok := ReadInterlaced(Interlaced(picture), rows);
    forall y | 0 <= y < |picture|
      ensures rows[y] == picture[y]
    {
      EachRowOnce(|picture|, y, y);
    }
  }
}

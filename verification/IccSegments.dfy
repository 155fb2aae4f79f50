/** Reassembly of an ICC profile from the APP2 markers of a JPEG file, Annex B.4 of
    ICC.1:2010. */
module IccSegments {

  type byte = x: int | 0 <= x < 256

  const JPEG_APP2 := 0xe2
  const SIGNATURE: seq<byte> := [0x49, 0x43, 0x43, 0x5f, 0x50, 0x52, 0x4f, 0x46, 0x49, 0x4c, 0x45, 0x00]   // "ICC_PROFILE\0"
  const SKIP := 14   // signature, sequence number, count

  datatype Marker = Marker(code: int, data: seq<byte>)

  /** What an ICC marker says: which part this is, of how many, and the part. */
  datatype Part = Part(number: int, count: int, data: seq<byte>)

  predicate IsIcc(m: Marker) {
    m.code == JPEG_APP2 && |m.data| > SKIP && m.data[..12] == SIGNATURE
  }

  function PartOf(m: Marker): Part
    requires IsIcc(m)
  {
    Part(m.data[12], m.data[13], m.data[SKIP..])
  }

  /** The parts in the order of the file. */
  function Parts(markers: seq<Marker>): (r: seq<Part>)
    ensures forall p <- r :: 0 <= p.number < 256 && p.data != []
  {
    if markers == [] then []
    else
      var rest := Parts(markers[..|markers| - 1]);
      var last := markers[|markers| - 1];
      if IsIcc(last) then rest + [PartOf(last)] else rest
  }

  // ---- what is asked for ----

  /** The parts are numbers 1 to n, each once, and all say that there are n. */
  ghost predicate Complete(parts: seq<Part>) {
    && (forall i :: 0 <= i < |parts| ==> parts[i].count == |parts| && 1 <= parts[i].number <= |parts|)
    && (forall i, j :: 0 <= i < j < |parts| ==> parts[i].number != parts[j].number)
  }

  /** The data of part number q. */
  function Data(parts: seq<Part>, q: int): seq<byte> {
    if parts == [] then []
    else if parts[|parts| - 1].number == q then parts[|parts| - 1].data
    else Data(parts[..|parts| - 1], q)
  }

  /** Parts 1 to n in order of their numbers. */
  function Assembled(parts: seq<Part>, n: nat): seq<byte> {
    if n == 0 then [] else Assembled(parts, n - 1) + Data(parts, n)
  }

  // ---- numbers 1 to n, by pigeonhole ----

  function Numbers(parts: seq<Part>): set<int> { set p <- parts :: p.number }

  function Upto(n: nat): (s: set<int>)
    ensures forall k :: k in s <==> 1 <= k <= n
    ensures |s| == n
  {
    if n == 0 then {} else Upto(n - 1) + {n}
  }

  /** n different numbers from 1 to n are all of them. */
  lemma Pigeonhole(s: set<int>, n: nat)
    requires s <= Upto(n) && |s| == n
    ensures s == Upto(n)
  {
    var missing := Upto(n) - s;
    assert Upto(n) == s + missing;
    assert |missing| == 0;
  }

  /** Different parts have as many numbers as there are parts. */
  lemma {:induction false} NumbersOfDistinct(parts: seq<Part>)
    requires forall i, j :: 0 <= i < j < |parts| ==> parts[i].number != parts[j].number
    ensures |Numbers(parts)| == |parts|
  {
    if parts == [] {
      assert Numbers(parts) == {};
    } else {
      var rest, last := parts[..|parts| - 1], parts[|parts| - 1];
      NumbersOfDistinct(rest);
      assert parts == rest + [last];
      assert Numbers(parts) == Numbers(rest) + {last.number};
      assert last.number !in Numbers(rest);
    }
  }

  /** The largest number of a complete list is its length. */
  lemma CompleteNumbers(parts: seq<Part>)
    requires Complete(parts)
    ensures Numbers(parts) == Upto(|parts|)
  {
    NumbersOfDistinct(parts);
    Pigeonhole(Numbers(parts), |parts|);
  }

  /** Conversely: distinct numbers from 1 to the number of parts. */
  lemma CompleteByCount(parts: seq<Part>, max: int)
    requires forall i, j :: 0 <= i < j < |parts| ==> parts[i].number != parts[j].number
    requires forall i :: 0 <= i < |parts| ==> parts[i].count == |parts| && 1 <= parts[i].number <= max
    requires max == |parts|
    ensures Complete(parts) && Numbers(parts) == Upto(|parts|)
  {
    CompleteNumbers(parts);
  }

  // ---- the order of the markers does not matter ----

  lemma {:induction false} DataIn(parts: seq<Part>, p: Part)
    requires p in parts && forall i, j :: 0 <= i < j < |parts| ==> parts[i].number != parts[j].number
    ensures Data(parts, p.number) == p.data
  {
    var rest, last := parts[..|parts| - 1], parts[|parts| - 1];
    if p != last {
      assert parts == rest + [last];
      assert p in rest;
      var k :| 0 <= k < |rest| && rest[k] == p;
      assert parts[k].number != parts[|parts| - 1].number;
      DataIn(rest, p);
    }
  }

  lemma DataOf(parts: seq<Part>, p: Part)
    requires Complete(parts) && p in parts
    ensures Data(parts, p.number) == p.data
  {
    hide Data;
    DataIn(parts, p);
  }

  lemma PartNumbered(parts: seq<Part>, n: nat) returns (p: Part)
    requires Complete(parts) && 1 <= n <= |parts|
    ensures p in parts && p.number == n
  {
    hide Complete;
    CompleteNumbers(parts);
    assert n in Upto(|parts|);
    p :| p in parts && p.number == n;
  }

  /** The profile is made of the parts behind each other: part n begins where the first
      n - 1 end. */
  lemma {:induction false} PartIsInPlace(parts: seq<Part>, n: nat, m: nat, p: Part)
    requires Complete(parts) && p in parts && p.number == n && 1 <= n <= m <= |parts|
    ensures var begin := |Assembled(parts, n - 1)|;
            begin + |p.data| <= |Assembled(parts, m)| && Assembled(parts, m)[begin..begin + |p.data|] == p.data
    ensures |Assembled(parts, n)| == |Assembled(parts, n - 1)| + |p.data|
  {
    hide Complete, Data;
    DataOf(parts, p);
    var begin := |Assembled(parts, n - 1)|;
    if n == m {
      assert Assembled(parts, m)[begin..] == p.data;
    } else {
      PartIsInPlace(parts, n, m - 1, p);
      var before := Assembled(parts, m - 1);
      assert (before + Data(parts, m))[begin..begin + |p.data|] == before[begin..begin + |p.data|];
    }
  }

  lemma {:induction false} SameAssembled(a: seq<Part>, b: seq<Part>, n: nat)
    requires Complete(a) && Complete(b) && multiset(a) == multiset(b) && n <= |a| == |b|
    ensures Assembled(a, n) == Assembled(b, n)
  {
    hide Complete, Data, Numbers;
    if n > 0 {
      SameAssembled(a, b, n - 1);
      var p := PartNumbered(a, n);
      assert p in multiset(a) && p in multiset(b);
      DataOf(a, p);
      DataOf(b, p);
    }
  }

  /** Distinctness, counted: a complete list stays complete when rearranged. */
  lemma CompleteInAnyOrder(a: seq<Part>, b: seq<Part>)
    requires Complete(a) && multiset(a) == multiset(b)
    ensures Complete(b) && |a| == |b| && Assembled(a, |a|) == Assembled(b, |b|)
  {
    assert |multiset(a)| == |a| && |multiset(b)| == |b|;
    forall i | 0 <= i < |b|
      ensures b[i].count == |b| && 1 <= b[i].number <= |b|
    {
      assert b[i] in multiset(a);
    }
    CompleteNumbers(a);
    assert Numbers(b) == Upto(|b|) by {
      forall k | k in Upto(|b|) ensures k in Numbers(b) {
        assert k in Numbers(a);
        var p :| p in a && p.number == k;
        assert p in multiset(a) && p in multiset(b);
      }
    }
    DistinctBySize(b);
    SameAssembled(a, b, |a|);
  }

  /** As many numbers as parts: no number twice. */
  lemma {:induction false} DistinctBySize(parts: seq<Part>)
    requires |Numbers(parts)| == |parts|
    ensures forall i, j :: 0 <= i < j < |parts| ==> parts[i].number != parts[j].number
  {
    if parts != [] {
      var rest, last := parts[..|parts| - 1], parts[|parts| - 1];
      assert parts == rest + [last];
      assert Numbers(parts) == Numbers(rest) + {last.number};
      AtMost(rest);
      OneMore(Numbers(rest), last.number);
      DistinctBySize(rest);
      forall i | 0 <= i < |rest| ensures parts[i].number != last.number {
        assert rest[i] in rest;
      }
    }
  }

  lemma OneMore(s: set<int>, x: int)
    ensures |s + {x}| == |s| + if x in s then 0 else 1
  {
    if x in s {
      assert s + {x} == s;
    }
  }

  lemma {:induction false} AtMost(parts: seq<Part>)
    ensures |Numbers(parts)| <= |parts|
  {
    if parts == [] {
      assert Numbers(parts) == {};
    } else {
      var rest, last := parts[..|parts| - 1], parts[|parts| - 1];
      AtMost(rest);
      assert parts == rest + [last];
      assert Numbers(parts) == Numbers(rest) + {last.number};
    }
  }

  // ---- the program ----

  /** ICCPSegment; no data means an empty slot. */
  datatype Segment = Segment(data: seq<byte>, number: int)

  predicate Ascending(s: seq<Segment>) {
    forall i, j :: 0 <= i < j < |s| ==> s[i].number <= s[j].number
  }

  predicate Permutation(s: seq<Segment>, t: seq<Segment>) { multiset(s) == multiset(t) }

  predicate StrictlyAscending(s: seq<Segment>) {
    forall i, j :: 0 <= i < j < |s| ==> s[i].number < s[j].number
  }

  lemma LastIsSame(s: seq<Segment>, t: seq<Segment>)
    requires s != [] && StrictlyAscending(s) && Permutation(s, t) && Ascending(t)
    ensures |t| == |s| && s[|s| - 1] == t[|t| - 1]
  {
    assert |multiset(s)| == |s| && |multiset(t)| == |t|;
    var a, b := s[|s| - 1], t[|t| - 1];
    assert a in multiset(t) && b in multiset(s);
    var k :| 0 <= k < |t| && t[k] == a;
    var l :| 0 <= l < |s| && s[l] == b;
    assert k < |t| - 1 ==> a.number <= b.number;
    assert l < |s| - 1 ==> b.number < a.number;
  }

  lemma WithoutLast(s: seq<Segment>, t: seq<Segment>)
    requires s != [] && Permutation(s, t) && |t| == |s| && s[|s| - 1] == t[|t| - 1]
    ensures Permutation(s[..|s| - 1], t[..|t| - 1])
  {
    assert s == s[..|s| - 1] + [s[|s| - 1]];
    assert t == t[..|t| - 1] + [t[|t| - 1]];
    assert multiset(s[..|s| - 1]) == multiset(s) - multiset{s[|s| - 1]};
  }

  lemma PrefixAscending(s: seq<Segment>)
    requires s != []
    ensures StrictlyAscending(s) ==> StrictlyAscending(s[..|s| - 1])
    ensures Ascending(s) ==> Ascending(s[..|s| - 1])
  {
  }

  /** Sorting slots that are in order already changes nothing, whatever qsort does with
      equal keys: the sorted arrangement of different numbers is unique. */
  lemma {:induction false} SortedAlready(s: seq<Segment>, t: seq<Segment>)
    requires StrictlyAscending(s) && Permutation(s, t) && Ascending(t)
    ensures s == t
  {
    if s == [] {
      assert |multiset(t)| == 0;
    } else {
      hide Permutation, StrictlyAscending, Ascending;
      LastIsSame(s, t);
      WithoutLast(s, t);
      PrefixAscending(s);
      PrefixAscending(t);
      SortedAlready(s[..|s| - 1], t[..|t| - 1]);
      assert s == s[..|s| - 1] + [s[|s| - 1]] && t == t[..|t| - 1] + [t[|t| - 1]];
    }
  }

  /** What the slots hold after some markers: part q in slot q - 1, or nothing. */
  ghost predicate Holds(slots: seq<Segment>, parts: seq<Part>) {
    && |slots| == 255
    && (forall k :: 0 <= k < |slots| ==>
          if k + 1 in Numbers(parts) then slots[k] == Segment(Data(parts, k + 1), k + 1) && slots[k].data != []
          else slots[k].data == [])
  }

  /** What the marker loop knows of the parts it accepted. */
  ghost predicate Accepted(parts: seq<Part>, expected: int, max: int) {
    && (forall i, j :: 0 <= i < j < |parts| ==> parts[i].number != parts[j].number)
    && (forall i :: 0 <= i < |parts| ==> parts[i].count == expected && 1 <= parts[i].number <= max)
    && (parts == [] <==> expected == 0) && (parts == [] ==> max == 0)
    && (parts != [] ==> exists i :: 0 <= i < |parts| && parts[i].number == max)
    && 0 <= max <= 255 && 0 <= expected <= 255
  }

  lemma NoneYet()
    ensures Accepted([], 0, 0) && Numbers([]) == {}
  {
  }

  lemma OnePartMore(parts: seq<Part>, p: Part, expected: int, max: int)
    requires Accepted(parts, expected, max) && 1 <= p.number <= 255 && 1 <= p.count <= 255
    requires (expected == 0 || expected == p.count) && p.number !in Numbers(parts)
    ensures Accepted(parts + [p], p.count, if p.number > max then p.number else max)
  {
    var all := parts + [p];
    forall i | 0 <= i < |parts| ensures all[i].number != p.number {
      assert parts[i] in parts;
    }
    if parts != [] && p.number <= max {
      var i :| 0 <= i < |parts| && parts[i].number == max;
      assert all[i].number == max;
    } else {
      assert all[|parts|].number == p.number;
    }
  }

  /** A list of parts that goes on from a refused one is not complete. */
  lemma Refused(parts: seq<Part>, p: Part, expected: int, max: int, all: seq<Part>)
    requires Accepted(parts, expected, max) && parts + [p] <= all
    requires p.number == 0 || p.count == 0 || (expected != 0 && expected != p.count) || p.number in Numbers(parts)
    ensures !Complete(all)
  {
    assert all[|parts|] == p && forall i :: 0 <= i < |parts| ==> all[i] == parts[i];
    if p.number in Numbers(parts) {
      var q :| q in parts && q.number == p.number;
      var i :| 0 <= i < |parts| && parts[i] == q;
      assert all[i].number == all[|parts|].number;
    } else if expected != 0 && expected != p.count {
      assert all[0].count == expected;
    }
  }

  lemma {:induction false} PartsGrow(markers: seq<Marker>, n: nat)
    requires n <= |markers|
    ensures Parts(markers[..n]) <= Parts(markers)
    decreases |markers|
  {
    if n < |markers| {
      PartsGrow(markers[..|markers| - 1], n);
      assert markers[..|markers| - 1][..n] == markers[..n];
    } else {
      assert markers[..n] == markers;
    }
  }

  lemma NumbersGrow(parts: seq<Part>, p: Part)
    ensures Numbers(parts + [p]) == Numbers(parts) + {p.number}
    ensures forall q :: Data(parts + [p], q) == if q == p.number then p.data else Data(parts, q)
  {
    assert (parts + [p])[..|parts|] == parts;
  }

  /** One ICC marker: the checks, then its slot. */
  method StorePart(slots: array<Segment>, p: Part, expected: int, ghost parts: seq<Part>, ghost max: int) returns (ok: bool)
    requires slots.Length == 255 && Holds(slots[..], parts) && Accepted(parts, expected, max)
    requires 0 <= p.number < 256 && 0 <= p.count < 256 && p.data != []
    modifies slots
    ensures ok <==> !(p.number == 0 || p.count == 0 || (expected != 0 && expected != p.count) || p.number in Numbers(parts))
    ensures ok ==> Holds(slots[..], parts + [p])
  {
    if p.count == 0 || p.number == 0 {
      return false;
    }
    if expected != 0 && expected != p.count {
      return false;
    }
    assert slots[p.number - 1] == slots[..][p.number - 1];
    if slots[p.number - 1].data != [] {
      return false;
    }
    NumbersGrow(parts, p);
    slots[p.number - 1] := Segment(p.data, p.number);
    return true;
  }

  /** The end of StoreICCP: the slots, sorted, one behind the other. */
  method Assemble(slots: array<Segment>, n: nat, totalSize: nat, qsort: seq<Segment> -> seq<Segment>, ghost parts: seq<Part>)
    returns (bytes: seq<byte>)
    requires slots.Length == 255 && n <= 255 && Holds(slots[..], parts) && Numbers(parts) == Upto(n)
    requires forall s :: Permutation(s, qsort(s)) && Ascending(qsort(s))
    requires totalSize == |Assembled(parts, n)|
    ensures bytes == Assembled(parts, n) && |bytes| == totalSize
  {
    hide Holds, Numbers, Permutation, StrictlyAscending, Ascending, Data;
    SlotsInOrder(slots[..], n, parts);
    assert slots[..][..n] == slots[..n];
    var sorted := qsort(slots[..n]);
    SortedAlready(slots[..n], sorted);
    bytes := [];
    for i := 0 to n
      invariant bytes == Assembled(parts, i)
    {
      bytes := bytes + sorted[i].data;
    }
  }

  lemma SlotsInOrder(slots: seq<Segment>, n: nat, parts: seq<Part>)
    requires n <= 255 && Holds(slots, parts) && Numbers(parts) == Upto(n)
    ensures |slots| == 255 && StrictlyAscending(slots[..n])
    ensures forall k :: 0 <= k < n ==> slots[..n][k].data == Data(parts, k + 1)
  {
    forall k | 0 <= k < n
      ensures slots[k] == Segment(Data(parts, k + 1), k + 1)
    {
      assert k + 1 in Numbers(parts);
    }
  }

  lemma {:induction false} SizeWithPart(parts: seq<Part>, p: Part, n: nat)
    requires p.number !in Numbers(parts) && 1 <= p.number
    ensures |Assembled(parts + [p], n)| == |Assembled(parts, n)| + if p.number <= n then |p.data| else 0
  {
    NumbersGrow(parts, p);
    if n > 0 {
      SizeWithPart(parts, p, n - 1);
      if p.number == n {
        NoData(parts, n);
      }
    }
  }

  lemma {:induction false} NoData(parts: seq<Part>, q: int)
    requires q !in Numbers(parts)
    ensures Data(parts, q) == []
  {
    if parts != [] {
      var rest, last := parts[..|parts| - 1], parts[|parts| - 1];
      assert parts == rest + [last];
      NumbersGrow(rest, last);
      NoData(rest, q);
    }
  }

  lemma {:induction false} NothingAssembled(n: nat)
    ensures Assembled([], n) == []
  {
    if n > 0 {
      NothingAssembled(n - 1);
    }
  }

  /** No part is numbered above the highest seen. */
  lemma {:induction false} SizeUpToMax(parts: seq<Part>, max: int, n: nat)
    requires 0 <= max <= n && forall q <- Numbers(parts) :: q <= max
    ensures |Assembled(parts, n)| == |Assembled(parts, max)|
  {
    if max < n {
      SizeUpToMax(parts, max, n - 1);
      NoData(parts, n);
    }
  }

  /** StoreICCP: the profile of the file, if its parts are complete; `mallocOk` is the
      answer of malloc, `qsort` the library's. */
  method StoreICCP(markers: seq<Marker>, qsort: seq<Segment> -> seq<Segment>, mallocOk: bool) returns (ok: bool, iccp: seq<byte>)
    requires forall s :: Permutation(s, qsort(s)) && Ascending(qsort(s))
    ensures var parts := Parts(markers);
            && (ok <==> parts == [] || (Complete(parts) && mallocOk))
            && iccp == if ok then Assembled(parts, |parts|) else []
  {
    hide Complete, Accepted, Holds, Assembled, Numbers;
    iccp := [];
    var expected, actual, max, total := 0, 0, 0, 0;
    var slots := new Segment[255](i => Segment([], 0));
    ghost var parts: seq<Part> := [];
    NoneYet();
    NothingAssembled(255);
    assert Holds(slots[..], []) by { EmptyHolds(slots[..]); }
    for i := 0 to |markers|
      invariant parts == Parts(markers[..i]) && |parts| == actual
      invariant Accepted(parts, expected, max) && Holds(slots[..], parts)
      invariant total == |Assembled(parts, 255)|
    {
      var m := markers[i];
      PartsGrow(markers, i + 1);
      assert markers[..i + 1][..i] == markers[..i];
      if m.code == JPEG_APP2 && |m.data| > SKIP && m.data[..12] == SIGNATURE {
        var p := Part(m.data[12], m.data[13], m.data[SKIP..]);
        ok := StorePart(slots, p, expected, parts, max);
        if !ok {
          Refused(parts, p, expected, max, Parts(markers));
          return;
        }
        OnePartMore(parts, p, expected, max);
        SizeWithPart(parts, p, 255);
        if expected == 0 {
          expected := p.count;
        }
        total := total + |p.data|;
        if p.number > max {
          max := p.number;
        }
        actual := actual + 1;
        parts := parts + [p];
      }
    }
    assert markers[..|markers|] == markers;
    if actual == 0 {
      NothingAssembled(0);
      return true, [];
    }
    CompleteMeans(parts, expected, max);
    if max != actual {
      return false, [];
    }
    if expected != actual {
      return false, [];
    }
    IsComplete(parts, expected, max);
    if !mallocOk {
      return false, [];
    }
    SizeUpToMax(parts, max, 255);
    iccp := Assemble(slots, actual, total, qsort, parts);
    return true, iccp;
  }

  lemma EmptyHolds(slots: seq<Segment>)
    requires |slots| == 255 && forall k :: 0 <= k < 255 ==> slots[k] == Segment([], 0)
    ensures Holds(slots, [])
  {
  }

  lemma CompleteMeans(parts: seq<Part>, expected: int, max: int)
    requires Accepted(parts, expected, max) && parts != []
    ensures Complete(parts) ==> max == expected == |parts|
  {
    if Complete(parts) {
      CompleteNumbers(parts);
      var i :| 0 <= i < |parts| && parts[i].number == max;
      assert |parts| in Numbers(parts);
      var p :| p in parts && p.number == |parts|;
    }
  }

  lemma IsComplete(parts: seq<Part>, expected: int, max: int)
    requires Accepted(parts, expected, max) && parts != [] && max == expected == |parts|
    ensures Complete(parts) && Numbers(parts) == Upto(|parts|) && forall q <- Numbers(parts) :: q <= max
    ensures max <= 255
  {
    CompleteByCount(parts, max);
  }
}

// memory/heap.cpp on values: the list of heap segments in address order, and what malloc, split, free
// and combining do to it.
module Segments {
  import opened Words

  // A segment header of 32 bytes at `addr`, followed by `length` bytes.
  datatype Seg = Seg(addr: uint64, length: uint64, free: bool)

  const HEADER: nat := 32

  // `split` computes the length of the new segment in 64-bit arithmetic, where it wraps around when
  // too little is left. `OverIntegers` is the same test without the wrap-around.
  datatype Reading = AsWritten | OverIntegers

  function Rounded(size: uint64): (need: uint64)
    ensures size > 0 ==> need >= 16
  {
    if size % 0x10 != 0 then size % 0x10 + 0x10 else size
  }

  function RestLength(length: uint64, need: uint64): uint64 { Sub64(Sub64(length, need), 2 * HEADER) }

  predicate Splits(reading: Reading, length: uint64, need: uint64) {
    && need >= 0x10
    && match reading
       case AsWritten => RestLength(length, need) >= 0x10
       case OverIntegers => length - need - 2 * HEADER >= 0x10
  }

  predicate Fits(s: Seg, need: uint64) { s.free && s.length >= need }

  function FirstFitFrom(s: seq<Seg>, need: uint64, from: nat): (r: Option<nat>)
    requires from <= |s| && forall j: nat :: j < from ==> !Fits(s[j], need)
    ensures r.Some? ==> r.value < |s| && Fits(s[r.value], need) && forall j: nat :: j < r.value ==> !Fits(s[j], need)
    ensures r.None? ==> forall j: nat :: j < |s| ==> !Fits(s[j], need)
    decreases |s| - from
  {
    if from == |s| then None
    else if Fits(s[from], need) then Some(from)
    else FirstFitFrom(s, need, from + 1)
  }

  // The first free segment in list order that is large enough; none exactly when there is none.
  function FirstFit(s: seq<Seg>, need: uint64): (r: Option<nat>)
    ensures r.Some? ==> r.value < |s| && Fits(s[r.value], need) && forall j: nat :: j < r.value ==> !Fits(s[j], need)
    ensures r.None? <==> forall j: nat :: j < |s| ==> !Fits(s[j], need)
  {
    FirstFitFrom(s, need, 0)
  }

  function SplitAt(reading: Reading, s: seq<Seg>, i: nat, need: uint64): seq<Seg>
    requires i < |s|
  {
    if !Splits(reading, s[i].length, need) then s
    else
      s[..i] + [Seg(s[i].addr, need, s[i].free),
                Seg(Add64(s[i].addr, Add64(need, HEADER)), RestLength(s[i].length, need), s[i].free)] + s[i + 1..]
  }

  function Occupy(s: seq<Seg>, i: nat): seq<Seg>
    requires i < |s|
  {
    s[i := s[i].(free := false)]
  }

  predicate MallocSplits(reading: Reading, s: seq<Seg>, size: uint64) {
    && size > 0
    && FirstFit(s, Rounded(size)).Some?
    && var found := s[FirstFit(s, Rounded(size)).value];
       found.length > Rounded(size) && Splits(reading, found.length, Rounded(size))
  }

  function Malloc(reading: Reading, s: seq<Seg>, size: uint64): seq<Seg> {
    if size == 0 then s
    else
      match FirstFit(s, Rounded(size))
      case None => s
      case Some(i) =>
        if s[i].length > Rounded(size) then Occupy(SplitAt(reading, s, i, Rounded(size)), i) else Occupy(s, i)
  }

  // ----- headers in memory -----

  // Two headers share a byte of memory; addresses wrap around at 2^64.
  predicate HeadersOverlap(a: uint64, b: uint64) { Sub64(a, b) < HEADER || Sub64(b, a) < HEADER }

  function SplitAddress(s: seq<Seg>, i: nat, need: uint64): uint64
    requires i < |s|
  {
    Add64(s[i].addr, Add64(need, HEADER))
  }

  // The header that a split writes lies on top of one that is there.
  ghost predicate SplitClobbers(s: seq<Seg>, i: nat, need: uint64) {
    && i < |s| && Splits(AsWritten, s[i].length, need)
    && exists j: nat :: j < |s| && HeadersOverlap(SplitAddress(s, i, need), s[j].addr)
  }

  // Then the source overwrites lengths and links, and `Malloc` says nothing about it. `ClobbersExactly` in
  // HeapRuns.dfy says when this happens.
  ghost predicate Clobbers(s: seq<Seg>, size: uint64) {
    && MallocSplits(AsWritten, s, size)
    && SplitClobbers(s, FirstFit(s, Rounded(size)).value, Rounded(size))
  }

  // Where the value-level account of malloc is one of the code.
  ghost predicate Faithful(reading: Reading, s: seq<Seg>, size: uint64) { reading.AsWritten? ==> !Clobbers(s, size) }

  // All headers of a list have memory of their own.
  ghost predicate HeadersApart(s: seq<Seg>) {
    forall i: nat, j: nat :: i < j < |s| ==> !HeadersOverlap(s[i].addr, s[j].addr)
  }

  function Merged(a: Seg, b: Seg): Seg { Seg(a.addr, Add64(Add64(a.length, b.length), HEADER), a.free) }

  // Segment i swallows its successor when that one is free.
  function CombineForward(s: seq<Seg>, i: nat): seq<Seg>
    requires i < |s|
  {
    if i + 1 < |s| && s[i + 1].free
    then s[..i] + [Merged(s[i], s[i + 1])] + s[i + 2..]
    else s
  }

  function Free(s: seq<Seg>, i: nat): seq<Seg>
    requires i < |s|
  {
    var s1 := CombineForward(s[i := s[i].(free := true)], i);
    if i > 0 && s1[i - 1].free then CombineForward(s1, i - 1) else s1
  }

  // ----- what a heap must be -----

  function End(s: Seg): nat { s.addr + HEADER + s.length }

  // Strictly address-ordered segments that do not overlap and lie inside the heap.
  ghost predicate Integrity(s: seq<Seg>, start: nat, end: nat) {
    && s != [] && s[0].addr == start && End(s[|s| - 1]) <= end
    && forall i: nat :: i + 1 < |s| ==> End(s[i]) <= s[i + 1].addr
  }

  ghost predicate Coalesced(s: seq<Seg>) {
    forall i: nat :: i + 1 < |s| ==> !(s[i].free && s[i + 1].free)
  }

  function Bytes(s: seq<Seg>): nat {
    if s == [] then 0 else s[0].length + HEADER + Bytes(s[1..])
  }

  lemma {:induction false} BytesConcat(s: seq<Seg>, t: seq<Seg>)
    ensures Bytes(s + t) == Bytes(s) + Bytes(t)
  {
    if s == [] {
      assert s + t == t;
    } else {
      assert (s + t)[1..] == s[1..] + t;
      BytesConcat(s[1..], t);
    }
  }

  lemma {:induction false} OrderedAcross(s: seq<Seg>, start: nat, end: nat, i: nat, j: nat)
    requires Integrity(s, start, end) && i < j < |s|
    ensures End(s[i]) <= s[j].addr
    decreases j
  {
    if i + 1 < j {
      OrderedAcross(s, start, end, i, j - 1);
      assert End(s[j - 1]) <= s[j - 1 + 1].addr;
    }
  }

  lemma {:induction false} InsideHeap(s: seq<Seg>, start: nat, end: nat, i: nat)
    requires Integrity(s, start, end) && i < |s|
    ensures start <= s[i].addr && End(s[i]) <= end
  {
    if i > 0 {
      OrderedAcross(s, start, end, 0, i);
    }
    if i < |s| - 1 {
      OrderedAcross(s, start, end, i, |s| - 1);
    }
  }

  // The list with segments i up to j replaced by others.
  function Replaced(s: seq<Seg>, i: nat, j: nat, u: seq<Seg>): seq<Seg>
    requires i <= j <= |s|
  {
    s[..i] + u + s[j..]
  }

  // Replacing neighbours by segments that fit in their place keeps the heap in order.
  lemma ReplacedKeepsIntegrity(s: seq<Seg>, i: nat, j: nat, u: seq<Seg>, start: nat, end: nat)
    requires Integrity(s, start, end) && i < j <= |s| && Integrity(u, s[i].addr, End(s[j - 1]))
    ensures Integrity(Replaced(s, i, j, u), start, end)
  {
  }

  lemma ReplacedBytes(s: seq<Seg>, i: nat, j: nat, u: seq<Seg>)
    requires i <= j <= |s|
    ensures Bytes(Replaced(s, i, j, u)) + Bytes(s[i..j]) == Bytes(s) + Bytes(u)
  {
    BytesConcat(s[..i] + u, s[j..]);
    BytesConcat(s[..i], u);
    BytesUpTo(s, i, j);
    BytesUpTo(s, j, |s|);
    assert s[..|s|] == s;
  }

  lemma BytesUpTo(s: seq<Seg>, i: nat, j: nat)
    requires i <= j <= |s|
    ensures Bytes(s[..j]) == Bytes(s[..i]) + Bytes(s[i..j])
  {
    assert s[..j] == s[..i] + s[i..j];
    BytesConcat(s[..i], s[i..j]);
  }

  lemma BytesOne(a: Seg)
    ensures Bytes([a]) == a.length + HEADER
  {
  }

  lemma BytesTwo(a: Seg, b: Seg)
    ensures Bytes([a, b]) == a.length + HEADER + b.length + HEADER
  {
    assert [a, b][1..] == [b];
    BytesOne(b);
  }

  // ----- malloc, read over integers -----

  function Halves(a: Seg, need: uint64): seq<Seg> {
    [Seg(a.addr, need, a.free), Seg(Add64(a.addr, Add64(need, HEADER)), RestLength(a.length, need), a.free)]
  }

  lemma HalvesFit(a: Seg, need: uint64)
    requires End(a) < TWO64 && Splits(OverIntegers, a.length, need)
    ensures Integrity(Halves(a, need), a.addr, End(a))
    ensures Bytes(Halves(a, need)) + HEADER == a.length + HEADER
  {
    BytesTwo(Halves(a, need)[0], Halves(a, need)[1]);
  }

  // Splitting keeps the heap in order and loses exactly one header of 32 bytes.
  lemma SplitKeepsIntegrity(s: seq<Seg>, i: nat, need: uint64, start: nat, end: nat)
    requires Integrity(s, start, end) && end < TWO64 && i < |s| && Splits(OverIntegers, s[i].length, need)
    ensures Integrity(SplitAt(OverIntegers, s, i, need), start, end)
    ensures Bytes(SplitAt(OverIntegers, s, i, need)) + HEADER == Bytes(s)
  {
    InsideHeap(s, start, end, i);
    HalvesFit(s[i], need);
    hide Integrity, Splits, Bytes;
    var u := Halves(s[i], need);
    assert SplitAt(OverIntegers, s, i, need) == Replaced(s, i, i + 1, u);
    ReplacedKeepsIntegrity(s, i, i + 1, u, start, end);
    ReplacedBytes(s, i, i + 1, u);
    assert s[i..i + 1] == [s[i]];
    BytesOne(s[i]);
  }

  lemma MarkKeepsIntegrity(s: seq<Seg>, i: nat, free: bool, start: nat, end: nat)
    requires Integrity(s, start, end) && i < |s|
    ensures Integrity(s[i := s[i].(free := free)], start, end)
    ensures Bytes(s[i := s[i].(free := free)]) == Bytes(s)
  {
    var u := [s[i].(free := free)];
    assert s[i := s[i].(free := free)] == Replaced(s, i, i + 1, u);
    ReplacedKeepsIntegrity(s, i, i + 1, u, start, end);
    ReplacedBytes(s, i, i + 1, u);
    assert s[i..i + 1] == [s[i]];
    BytesOne(s[i]);
    BytesOne(u[0]);
  }

  lemma MergedFits(a: Seg, b: Seg)
    requires End(a) <= b.addr && End(b) < TWO64
    ensures Integrity([Merged(a, b)], a.addr, End(b))
    ensures Bytes([Merged(a, b)]) == Bytes([a, b])
  {
    BytesTwo(a, b);
    BytesOne(Merged(a, b));
  }

  lemma CombineReplaces(s: seq<Seg>, i: nat)
    requires i + 1 < |s| && s[i + 1].free
    ensures CombineForward(s, i) == Replaced(s, i, i + 2, [Merged(s[i], s[i + 1])])
    ensures s[i..i + 2] == [s[i], s[i + 1]]
  {
  }

  lemma NeighboursInOrder(s: seq<Seg>, i: nat, start: nat, end: nat)
    requires Integrity(s, start, end) && end < TWO64 && i + 1 < |s|
    ensures End(s[i]) <= s[i + 1].addr && End(s[i + 1]) < TWO64
  {
    InsideHeap(s, start, end, i + 1);
  }

  lemma CombineKeepsIntegrity(s: seq<Seg>, i: nat, start: nat, end: nat)
    requires Integrity(s, start, end) && end < TWO64 && i < |s|
    ensures Integrity(CombineForward(s, i), start, end)
    ensures Bytes(CombineForward(s, i)) == Bytes(s)
  {
    hide Integrity, Bytes, Merged, Replaced, End;
    if i + 1 < |s| && s[i + 1].free {
      NeighboursInOrder(s, i, start, end);
      MergedFits(s[i], s[i + 1]);
      CombineReplaces(s, i);
      ReplacedKeepsIntegrity(s, i, i + 2, [Merged(s[i], s[i + 1])], start, end);
      ReplacedBytes(s, i, i + 2, [Merged(s[i], s[i + 1])]);
    }
  }

  // Conservation: malloc loses 32 bytes when it splits, and nothing otherwise.
  lemma MallocKeepsIntegrity(s: seq<Seg>, size: uint64, start: nat, end: nat)
    requires Integrity(s, start, end) && end < TWO64
    ensures Integrity(Malloc(OverIntegers, s, size), start, end)
    ensures Bytes(Malloc(OverIntegers, s, size)) + (if MallocSplits(OverIntegers, s, size) then HEADER else 0)
         == Bytes(s)
  {
    if size > 0 && FirstFit(s, Rounded(size)).Some? {
      var need, i := Rounded(size), FirstFit(s, Rounded(size)).value;
      var t := if s[i].length > need then SplitAt(OverIntegers, s, i, need) else s;
      if MallocSplits(OverIntegers, s, size) {
        SplitKeepsIntegrity(s, i, need, start, end);
      }
      MarkKeepsIntegrity(t, i, false, start, end);
    }
  }

  // Freeing conserves all bytes.
  lemma FreeKeepsIntegrity(s: seq<Seg>, i: nat, start: nat, end: nat)
    requires Integrity(s, start, end) && end < TWO64 && i < |s|
    ensures Integrity(Free(s, i), start, end)
    ensures Bytes(Free(s, i)) == Bytes(s)
  {
    var s0 := s[i := s[i].(free := true)];
    MarkKeepsIntegrity(s, i, true, start, end);
    CombineKeepsIntegrity(s0, i, start, end);
    if i > 0 {
      CombineKeepsIntegrity(CombineForward(s0, i), i - 1, start, end);
    }
  }

  // ----- full coalescing -----

  // malloc never leaves two free neighbours, whichever way `split` is read.
  lemma MallocKeepsCoalesced(reading: Reading, s: seq<Seg>, size: uint64)
    requires Coalesced(s) && Faithful(reading, s, size)
    ensures Coalesced(Malloc(reading, s, size))
  {
  }

  function OccupiedHalves(a: Seg, need: uint64): (u: seq<Seg>)
    ensures |u| == 2 && u == [u[0], u[1]] && !u[0].free
  {
    [Halves(a, need)[0].(free := false), Halves(a, need)[1]]
  }

  lemma MallocReplaces(reading: Reading, s: seq<Seg>, size: uint64)
    requires MallocSplits(reading, s, size)
    ensures var i := FirstFit(s, Rounded(size)).value;
      Malloc(reading, s, size) == Replaced(s, i, i + 1, OccupiedHalves(s[i], Rounded(size)))
  {
  }

  // free merges on both sides, so that again no two free neighbours are left.
  lemma FreeKeepsCoalesced(s: seq<Seg>, i: nat)
    requires Coalesced(s) && i < |s| && !s[i].free
    ensures Coalesced(Free(s, i))
  {
    var s0 := s[i := s[i].(free := true)];
    var s1 := CombineForward(s0, i);
    var r := Free(s, i);
    forall k: nat | k + 1 < |s1|
      ensures s1[k].free && s1[k + 1].free ==> k + 1 == i
    {
      if |s1| == |s| {
        assert !(s[k].free && s[k + 1].free);
      } else if k >= i {
        assert s1[k + 1] == s[k + 2] && !(s[k + 1].free && s[k + 1 + 1].free);
      } else {
        assert !(s[k].free && s[k + 1].free);
      }
    }
    forall k: nat | k + 1 < |r|
      ensures !(r[k].free && r[k + 1].free)
    {
      if |r| == |s1| {
        assert s1[k].free && s1[k + 1].free ==> k + 1 == i;
      } else if k < i - 1 {
        assert r[k] == s1[k];
        assert s1[k].free && s1[k + 1].free ==> k + 1 == i;
        assert r[k + 1].free == s1[k + 1].free;
      } else {
        assert r[k + 1] == s1[k + 2];
        assert s1[k + 1].free && s1[k + 1 + 1].free ==> k + 2 == i;
      }
    }
  }

  // ----- conservation in the code's own arithmetic -----

  // As long as no header is written over, modulo 2^64 a split loses exactly 32 bytes, and nothing else does,
  // also when the length of the new segment has wrapped around.
  lemma MallocConserves(reading: Reading, s: seq<Seg>, size: uint64)
    requires Faithful(reading, s, size)
    ensures Congruent(Bytes(Malloc(reading, s, size)) + (if MallocSplits(reading, s, size) then HEADER else 0),
                      Bytes(s))
  {
    CongruentSelf(Bytes(s));
    if size > 0 && FirstFit(s, Rounded(size)).Some? {
      var need, i := Rounded(size), FirstFit(s, Rounded(size)).value;
      if MallocSplits(reading, s, size) {
        MallocReplaces(reading, s, size);
        HalvesConserve(s, i, need);
      } else {
        OccupyConserves(s, i);
      }
    }
  }

  lemma OccupyConserves(s: seq<Seg>, i: nat)
    requires i < |s|
    ensures Bytes(Occupy(s, i)) == Bytes(s)
  {
    var u := [s[i].(free := false)];
    assert Occupy(s, i) == Replaced(s, i, i + 1, u);
    ReplacedBytes(s, i, i + 1, u);
    assert s[i..i + 1] == [s[i]];
    BytesOne(s[i]);
    BytesOne(u[0]);
  }

  lemma HalvesConserve(s: seq<Seg>, i: nat, need: uint64)
    requires i < |s|
    ensures Congruent(Bytes(Replaced(s, i, i + 1, OccupiedHalves(s[i], need))) + HEADER, Bytes(s))
  {
    var u := OccupiedHalves(s[i], need);
    ReplacedBytes(s, i, i + 1, u);
    assert s[i..i + 1] == [s[i]];
    BytesOne(s[i]);
    BytesTwo(u[0], u[1]);
    RestIsCongruent(s[i].length, need);
    var k :| RestLength(s[i].length, need) == s[i].length - need - 2 * HEADER + Turns(k);
    assert Bytes(Replaced(s, i, i + 1, u)) + HEADER == Bytes(s) + Turns(k);
  }

  lemma RestIsCongruent(length: uint64, need: uint64)
    ensures Congruent(RestLength(length, need), length - need - 2 * HEADER)
  {
    CongruentSelf(length);
    SubCongruent(length, need, 0, length);
    SubCongruent(Sub64(length, need), 2 * HEADER, 0, length - need);
  }
}

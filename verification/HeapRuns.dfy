// What the kernel heap guarantees to its callers: over one call, over whole runs, and exactly when the
// 64-bit arithmetic of `split` gives it up.
module HeapRuns {
  import opened Words
  import opened Segments

  // ----- one call -----

  // The handle malloc returns: the address of the header, or null.
  function MallocResult(s: seq<Seg>, size: uint64): Option<uint64> {
    if size == 0 then None
    else
      match FirstFit(s, Rounded(size))
      case None => None
      case Some(i) => Some(s[i].addr)
  }

  ghost predicate IsFirstFit(s: seq<Seg>, need: uint64, i: nat) {
    i < |s| && Fits(s[i], need) && forall j: nat :: j < i ==> !Fits(s[j], need)
  }

  ghost predicate GrantsFirstFit(reading: Reading, s: seq<Seg>, size: uint64, i: nat) {
    && IsFirstFit(s, Rounded(size), i)
    && MallocResult(s, size) == Some(s[i].addr)
    && (Faithful(reading, s, size) ==> Grants(s, Malloc(reading, s, size), i, Rounded(size)))
  }

  // malloc is first fit: null exactly when no segment fits; otherwise the first one that does becomes
  // an allocation of at least the rounded size, and all other segments stay as they were, unless the header
  // of the rest is written over one of them.
  lemma MallocIsFirstFit(reading: Reading, s: seq<Seg>, size: uint64)
    requires size > 0
    ensures MallocResult(s, size).None? <==> forall j: nat :: j < |s| ==> !Fits(s[j], Rounded(size))
    ensures MallocResult(s, size).None? ==> Malloc(reading, s, size) == s
    ensures MallocResult(s, size).Some? ==> exists i: nat :: GrantsFirstFit(reading, s, size, i)
  {
    var r := Malloc(reading, s, size);
    if FirstFit(s, Rounded(size)).Some? {
      var i := FirstFit(s, Rounded(size)).value;
      assert r[..i] == s[..i];
      assert GrantsFirstFit(reading, s, size, i);
    }
  }

  // Segment i of s became an allocation; everything behind it kept its place in the list. When it was
  // split the rest is free and starts where the allocation ends.
  ghost predicate Grants(s: seq<Seg>, r: seq<Seg>, i: nat, need: uint64) {
    && i < |s| <= |r| <= |s| + 1
    && r[..i] == s[..i] && r[|r| - (|s| - i - 1)..] == s[i + 1..]
    && !r[i].free && r[i].addr == s[i].addr
    && (|r| == |s| ==> r[i].length == s[i].length)
    && (|r| == |s| + 1 ==> r[i].length == need && r[i + 1].free)
    && (|r| == |s| + 1 ==> r[i + 1].addr == Add64(r[i].addr, Add64(r[i].length, HEADER)))
  }

  // Freeing what malloc has just returned gives the heap back, except that a split costs its header:
  // the segment comes back 32 bytes shorter.
  lemma MallocThenFree(s: seq<Seg>, size: uint64)
    requires Coalesced(s) && size > 0 && FirstFit(s, Rounded(size)).Some?
    ensures var i := FirstFit(s, Rounded(size)).value;
      Free(Malloc(OverIntegers, s, size), i)
      == if MallocSplits(OverIntegers, s, size) then s[i := s[i].(length := s[i].length - HEADER)] else s
  {
    var i, need := FirstFit(s, Rounded(size)).value, Rounded(size);
    var r := Malloc(OverIntegers, s, size);
    if i > 0 {
      NotBothFree(s, i - 1);
    }
    var r0 := r[i := r[i].(free := true)];
    if MallocSplits(OverIntegers, s, size) {
      assert Splits(OverIntegers, s[i].length, need) && r == Occupy(SplitAt(OverIntegers, s, i, need), i);
      assert r0[..i] == s[..i] && r0[i + 2..] == s[i + 1..];
      assert Merged(r0[i], r0[i + 1]) == s[i].(length := s[i].length - HEADER);
    } else {
      if i + 1 < |s| {
        NotBothFree(s, i);
      }
      assert r0 == s;
    }
  }

  lemma NotBothFree(s: seq<Seg>, k: nat)
    requires Coalesced(s) && k + 1 < |s|
    ensures s[k].free ==> !s[k + 1].free
  {
  }

  // The rounding keeps only the last hexadecimal digit of a size, so it does not always cover the
  // request: exactly the multiples of 16 and the sizes below 32 are safe in every heap.
  lemma RoundingCoversRequest(size: uint64)
    requires size > 0
    ensures Rounded(size) >= size <==> size % 0x10 == 0 || size < 0x20
    ensures Rounded(100) == 20
  {
  }

  // ----- the two readings of split -----

  // The first segment that fits is larger than needed, but too small to be split.
  predicate InWindow(s: seq<Seg>, size: uint64) {
    && size > 0
    && FirstFit(s, Rounded(size)).Some?
    && Rounded(size) < s[FirstFit(s, Rounded(size)).value].length < Rounded(size) + 2 * HEADER
  }

  lemma ReadingsOfSplit(length: uint64, need: uint64)
    requires need >= 0x10 && length > need
    ensures Splits(AsWritten, length, need) <==> Splits(OverIntegers, length, need) || length < need + 2 * HEADER
    ensures length < need + 2 * HEADER ==>
              !Splits(OverIntegers, length, need) && RestLength(length, need) >= TWO64 - 2 * HEADER
  {
  }

  // The source's test and its intended reading give the same heap exactly outside the window.
  lemma ReadingsAgree(s: seq<Seg>, size: uint64)
    ensures Malloc(AsWritten, s, size) == Malloc(OverIntegers, s, size) <==> !InWindow(s, size)
  {
  }

  // As written, malloc keeps the heap in order exactly outside the window.
  lemma MallocAsWrittenKeepsIntegrity(s: seq<Seg>, size: uint64, start: nat, end: nat)
    requires Integrity(s, start, end) && end < TWO64
    ensures Integrity(Malloc(AsWritten, s, size), start, end) <==> !InWindow(s, size)
  {
    ReadingsAgree(s, size);
    MallocKeepsIntegrity(s, size, start, end);
    if InWindow(s, size) && Integrity(Malloc(AsWritten, s, size), start, end) {
      var i, need := FirstFit(s, Rounded(size)).value, Rounded(size);
      ReadingsOfSplit(s[i].length, need);
      InsideHeap(s, start, end, i);
      InsideHeap(Malloc(AsWritten, s, size), start, end, i + 1);
    }
  }

  // A heap of 64 bytes, asked for 16: the new segment gets a length of 2^64 - 16.
  lemma WindowExample()
    ensures var s := [Seg(0x1000, 64, true)];
      && Integrity(s, 0x1000, 0x1000 + 96) && InWindow(s, 16)
      && Malloc(AsWritten, s, 16) == [Seg(0x1000, 16, false), Seg(0x1030, TWO64 - 16, true)]
      && !Integrity(Malloc(AsWritten, s, 16), 0x1000, 0x1000 + 96)
  {
  }

  // ----- runs -----

  datatype HeapOp = DoMalloc(size: uint64) | DoFree(addr: uint64)

  ghost predicate LiveAt(s: seq<Seg>, i: nat, addr: uint64) { i < |s| && s[i].addr == addr && !s[i].free }

  // Callers free live handles only.
  ghost predicate HeapStep(reading: Reading, s: seq<Seg>, op: HeapOp, r: seq<Seg>) {
    match op
    case DoMalloc(size) => r == Malloc(reading, s, size)
    case DoFree(addr) => exists i: nat :: LiveAt(s, i, addr) && r == Free(s, i)
  }

  function InitialHeap(start: uint64, length: uint64): seq<Seg> { [Seg(start, Sub64(length, HEADER), true)] }

  ghost predicate HeapRun(reading: Reading, states: seq<seq<Seg>>, ops: seq<HeapOp>, start: uint64, length: uint64) {
    && |states| == |ops| + 1
    && HEADER <= length && start + length < TWO64
    && states[0] == InitialHeap(start, length)
    && forall k: nat :: k < |ops| ==> HeapStep(reading, states[k], ops[k], states[k + 1])
  }

  // The splits among the first k operations.
  ghost function SplitCount(reading: Reading, states: seq<seq<Seg>>, ops: seq<HeapOp>, k: nat): nat
    requires k <= |ops| && k < |states|
    decreases k
  {
    if k == 0 then 0
    else if ops[k - 1].DoMalloc? && MallocSplits(reading, states[k - 1], ops[k - 1].size)
    then SplitCount(reading, states, ops, k - 1) + 1
    else SplitCount(reading, states, ops, k - 1)
  }

  // Heap integrity, full coalescing and conservation over every run.
  lemma {:induction false} RunKeepsHeap(states: seq<seq<Seg>>, ops: seq<HeapOp>, start: uint64, length: uint64, k: nat)
    requires HeapRun(OverIntegers, states, ops, start, length) && k < |states|
    ensures Integrity(states[k], start, start + length)
    ensures Coalesced(states[k])
    ensures Bytes(states[k]) + HEADER * SplitCount(OverIntegers, states, ops, k) == length
    decreases k
  {
    hide Integrity, Bytes, Coalesced, Malloc, Free, MallocSplits;
    if k == 0 {
      InitialHeapIsSound(start, length);
    } else {
      RunKeepsHeap(states, ops, start, length, k - 1);
      var s, op, r := states[k - 1], ops[k - 1], states[k];
      assert HeapStep(OverIntegers, s, op, r);
      match op
      case DoMalloc(size) =>
        MallocKeepsIntegrity(s, size, start, start + length);
        MallocKeepsCoalesced(OverIntegers, s, size);
      case DoFree(addr) =>
        var i: nat :| LiveAt(s, i, addr) && r == Free(s, i);
        FreeKeepsIntegrity(s, i, start, start + length);
        FreeKeepsCoalesced(s, i);
    }
  }

  lemma InitialHeapIsSound(start: uint64, length: uint64)
    requires HEADER <= length && start + length < TWO64
    ensures Integrity(InitialHeap(start, length), start, start + length)
    ensures Coalesced(InitialHeap(start, length)) && Bytes(InitialHeap(start, length)) == length
  {
  }

  // The code as written behaves as intended up to the first malloc that falls into the window, and there
  // the heap breaks: all states are sound exactly when no malloc of the run does.
  lemma {:induction false} RunAsWritten(states: seq<seq<Seg>>, ops: seq<HeapOp>, start: uint64, length: uint64, k: nat)
    requires HeapRun(AsWritten, states, ops, start, length) && k < |states|
    ensures (forall j: nat :: j <= k ==> Integrity(states[j], start, start + length))
       <==> (forall j: nat :: j < k && ops[j].DoMalloc? ==> !InWindow(states[j], ops[j].size))
    decreases k
  {
    hide Integrity, Bytes, Coalesced, Malloc, Free, InWindow;
    if k == 0 {
      InitialHeapIsSound(start, length);
    } else {
      RunAsWritten(states, ops, start, length, k - 1);
      if Integrity(states[k - 1], start, start + length) {
        var s, op, r := states[k - 1], ops[k - 1], states[k];
        assert HeapStep(AsWritten, s, op, r);
        match op
        case DoMalloc(size) => MallocAsWrittenKeepsIntegrity(s, size, start, start + length);
        case DoFree(addr) =>
          var i: nat :| LiveAt(s, i, addr) && r == Free(s, i);
          FreeKeepsIntegrity(s, i, start, start + length);
      }
    }
  }

  // Outside the window a run of the code is a run of its intended reading, so that all its laws apply.
  lemma RunIsIntended(states: seq<seq<Seg>>, ops: seq<HeapOp>, start: uint64, length: uint64)
    requires HeapRun(AsWritten, states, ops, start, length)
    requires forall j: nat :: j < |ops| && ops[j].DoMalloc? ==> !InWindow(states[j], ops[j].size)
    ensures HeapRun(OverIntegers, states, ops, start, length)
  {
  }

  // ----- outstanding allocations -----

  lemma CombineKeepsAllocation(s: seq<Seg>, i: nat, a: Seg)
    requires i < |s| && s[i].free && a in s && !a.free
    ensures a in CombineForward(s, i)
  {
  }

  lemma MallocKeepsAllocation(reading: Reading, s: seq<Seg>, size: uint64, a: Seg)
    requires a in s && !a.free && Faithful(reading, s, size)
    ensures a in Malloc(reading, s, size)
  {
    hide Splits;
    var j: nat :| j < |s| && s[j] == a;
    var r := Malloc(reading, s, size);
    if size > 0 && FirstFit(s, Rounded(size)).Some? {
      var i := FirstFit(s, Rounded(size)).value;
      assert r[if j < i || |r| == |s| then j else j + 1] == a;
    } else {
      assert r[j] == a;
    }
  }

  lemma FreeKeepsAllocation(s: seq<Seg>, i: nat, a: Seg)
    requires i < |s| && a in s && !a.free && a.addr != s[i].addr
    ensures a in Free(s, i)
  {
    var s0 := s[i := s[i].(free := true)];
    var j: nat :| j < |s| && s[j] == a;
    assert s0[j] == a;
    CombineKeepsAllocation(s0, i, a);
    var s1 := CombineForward(s0, i);
    if i > 0 && s1[i - 1].free {
      CombineKeepsAllocation(s1, i - 1, a);
    }
  }

  ghost predicate FaithfulStep(reading: Reading, s: seq<Seg>, op: HeapOp) {
    op.DoMalloc? ==> Faithful(reading, s, op.size)
  }

  lemma StepKeepsAllocation(reading: Reading, s: seq<Seg>, op: HeapOp, r: seq<Seg>, a: Seg)
    requires HeapStep(reading, s, op, r) && a in s && !a.free && op != DoFree(a.addr)
    requires FaithfulStep(reading, s, op)
    ensures a in r
  {
    hide Malloc, Free;
    match op
    case DoMalloc(size) => MallocKeepsAllocation(reading, s, size, a);
    case DoFree(addr) =>
      var i: nat :| LiveAt(s, i, addr) && r == Free(s, i);
      FreeKeepsAllocation(s, i, a);
  }

  // Every outstanding allocation keeps its address and length until it is freed, as long as no malloc of the
  // run writes a header over another.
  lemma {:induction false} AllocationsStay(reading: Reading, states: seq<seq<Seg>>, ops: seq<HeapOp>,
                                           start: uint64, length: uint64, j: nat, k: nat, a: Seg)
    requires HeapRun(reading, states, ops, start, length) && j <= k < |states|
    requires a in states[j] && !a.free
    requires forall i: nat :: j <= i < k ==> ops[i] != DoFree(a.addr)
    requires forall i: nat :: i < k ==> FaithfulStep(reading, states[i], ops[i])
    ensures a in states[k]
    decreases k
  {
    if j < k {
      AllocationsStay(reading, states, ops, start, length, j, k - 1, a);
      assert HeapStep(reading, states[k - 1], ops[k - 1], states[k]);
      StepKeepsAllocation(reading, states[k - 1], ops[k - 1], states[k], a);
    }
  }

  // ----- headers written over -----

  lemma HeadersOverlapMeans(a: uint64, b: uint64)
    ensures HeadersOverlap(a, b)
       <==> exists p: uint64, q: uint64 :: p < HEADER && q < HEADER && Add64(a, p) == Add64(b, q)
  {
    if Sub64(a, b) < HEADER {
      assert Add64(a, 0) == Add64(b, Sub64(a, b));
    } else if Sub64(b, a) < HEADER {
      assert Add64(a, Sub64(b, a)) == Add64(b, 0);
    }
  }

  // The rest that the first fit would leave begins so late that its header reaches the next one,
  // or beyond the end of the address space the first one.
  ghost predicate RestReachesHeader(s: seq<Seg>, size: uint64) {
    && InWindow(s, size)
    && var i := FirstFit(s, Rounded(size)).value;
       || (i + 1 < |s| && s[i + 1].addr < s[i].addr + Rounded(size) + 2 * HEADER)
       || s[0].addr + TWO64 < s[i].addr + Rounded(size) + 2 * HEADER
  }

  // When malloc, as written, destroys a header of a sound heap.
  lemma ClobbersExactly(s: seq<Seg>, size: uint64, start: nat, end: nat)
    requires Integrity(s, start, end) && end < TWO64
    ensures Clobbers(s, size) <==> RestReachesHeader(s, size)
  {
    if size > 0 && FirstFit(s, Rounded(size)).Some? {
      var i, need := FirstFit(s, Rounded(size)).value, Rounded(size);
      if s[i].length > need {
        ReadingsOfSplit(s[i].length, need);
        RestAddress(s, i, need, start, end);
        RestHitsExactly(s, i, need, start, end);
      }
    }
  }

  lemma RestAddress(s: seq<Seg>, i: nat, need: uint64, start: nat, end: nat)
    requires Integrity(s, start, end) && end < TWO64 && i < |s| && s[i].length > need
    ensures SplitAddress(s, i, need) == s[i].addr + need + HEADER
  {
    InsideHeap(s, start, end, i);
  }

  lemma RestHitsExactly(s: seq<Seg>, i: nat, need: uint64, start: nat, end: nat)
    requires Integrity(s, start, end) && end < TWO64 && i < |s| && s[i].length > need >= 0x10
    requires SplitAddress(s, i, need) == s[i].addr + need + HEADER
    ensures (exists j: nat :: j < |s| && HeadersOverlap(SplitAddress(s, i, need), s[j].addr))
       <==> || (i + 1 < |s| && s[i + 1].addr < s[i].addr + need + 2 * HEADER)
            || s[0].addr + TWO64 < s[i].addr + need + 2 * HEADER
  {
    forall j: nat | j < |s|
      ensures HeadersOverlap(SplitAddress(s, i, need), s[j].addr)
         <==> || (i < j && s[j].addr < s[i].addr + need + 2 * HEADER)
              || s[j].addr + TWO64 < s[i].addr + need + 2 * HEADER
    {
      InsideHeap(s, start, end, i);
      InsideHeap(s, start, end, j);
      if i < j {
        OrderedAcross(s, start, end, i, j);
      } else if j < i {
        OrderedAcross(s, start, end, j, i);
      }
    }
    forall j: nat | j < |s|
      ensures s[0].addr <= s[j].addr
      ensures i + 1 < |s| && i < j ==> s[i + 1].addr <= s[j].addr
    {
      InsideHeap(s, start, end, j);
      if i + 1 < j {
        OrderedAcross(s, start, end, i + 1, j);
      }
    }
  }

  // A malloc keeps the headers apart exactly when it does not write one over another.
  lemma MallocKeepsHeadersApart(s: seq<Seg>, size: uint64)
    requires HeadersApart(s)
    ensures HeadersApart(Malloc(AsWritten, s, size)) <==> !Clobbers(s, size)
  {
    hide HeadersOverlap, Splits;
    var r := Malloc(AsWritten, s, size);
    if MallocSplits(AsWritten, s, size) {
      var i, need := FirstFit(s, Rounded(size)).value, Rounded(size);
      assert |r| == |s| + 1 && r[i + 1].addr == SplitAddress(s, i, need);
      forall j: nat | j < |s|
        ensures s[j].addr == r[if j <= i then j else j + 1].addr
      {
      }
      InsertedApart(s, r, i);
    } else {
      assert |r| == |s| && forall j: nat :: j < |s| ==> r[j].addr == s[j].addr;
    }
  }

  // One header more, behind segment i.
  lemma InsertedApart(s: seq<Seg>, r: seq<Seg>, i: nat)
    requires HeadersApart(s) && i < |s| && |r| == |s| + 1
    requires forall j: nat :: j < |s| ==> s[j].addr == r[if j <= i then j else j + 1].addr
    ensures HeadersApart(r) <==> forall j: nat :: j < |s| ==> !HeadersOverlap(r[i + 1].addr, s[j].addr)
  {
    hide HeadersOverlap;
    OverlapIsSymmetric();
    forall j: nat | j < |s|
      ensures HeadersApart(r) ==> !HeadersOverlap(r[i + 1].addr, s[j].addr)
    {
      var k := if j <= i then j else j + 1;
      assert s[j].addr == r[k].addr;
    }
    if forall j: nat :: j < |s| ==> !HeadersOverlap(r[i + 1].addr, s[j].addr) {
      forall a: nat, b: nat | a < b < |r|
        ensures !HeadersOverlap(r[a].addr, r[b].addr)
      {
        assert a <= i ==> s[a].addr == r[a].addr;
        assert a > i + 1 ==> s[a - 1].addr == r[a].addr;
        assert b <= i ==> s[b].addr == r[b].addr;
        assert b > i + 1 ==> s[b - 1].addr == r[b].addr;
      }
    }
  }

  lemma OverlapIsSymmetric()
    ensures forall a: uint64, b: uint64 :: HeadersOverlap(a, b) <==> HeadersOverlap(b, a)
  {
  }

  lemma CombineKeepsHeadersApart(s: seq<Seg>, i: nat)
    requires HeadersApart(s) && i < |s|
    ensures HeadersApart(CombineForward(s, i))
  {
    hide HeadersOverlap;
    var r := CombineForward(s, i);
    if |r| < |s| {
      forall j: nat | j < |r|
        ensures r[j].addr == s[if j <= i then j else j + 1].addr
      {
      }
    }
  }

  lemma FreeKeepsHeadersApart(s: seq<Seg>, i: nat)
    requires HeadersApart(s) && i < |s|
    ensures HeadersApart(Free(s, i))
  {
    hide HeadersOverlap;
    var s0 := s[i := s[i].(free := true)];
    CombineKeepsHeadersApart(s0, i);
    if i > 0 {
      CombineKeepsHeadersApart(CombineForward(s0, i), i - 1);
    }
  }

  // In a run of the code all headers have memory of their own exactly as long as no malloc writes one
  // over another.
  lemma {:induction false} RunKeepsHeadersApart(states: seq<seq<Seg>>, ops: seq<HeapOp>, start: uint64, length: uint64,
                                                k: nat)
    requires HeapRun(AsWritten, states, ops, start, length) && k < |states|
    ensures (forall j: nat :: j <= k ==> HeadersApart(states[j]))
       <==> (forall j: nat :: j < k ==> FaithfulStep(AsWritten, states[j], ops[j]))
    decreases k
  {
    hide HeadersApart, Malloc, Free, Clobbers;
    if k == 0 {
      OneHeaderApart(start, length);
    } else {
      RunKeepsHeadersApart(states, ops, start, length, k - 1);
      if HeadersApart(states[k - 1]) {
        var s, op, r := states[k - 1], ops[k - 1], states[k];
        assert HeapStep(AsWritten, s, op, r);
        match op
        case DoMalloc(size) => MallocKeepsHeadersApart(s, size);
        case DoFree(addr) =>
          var i: nat :| LiveAt(s, i, addr) && r == Free(s, i);
          FreeKeepsHeadersApart(s, i);
      }
    }
  }

  lemma OneHeaderApart(start: uint64, length: uint64)
    ensures HeadersApart(InitialHeap(start, length))
  {
  }

  // The heap before and after malloc(24), malloc(32), the free of the first and malloc(16).
  function FourStates(start: uint64, length: uint64): seq<seq<Seg>>
    requires 256 <= length && start + length < TWO64
  {
    var second, rest := Seg(start + 56, 32, false), Seg(start + 120, length - 216, true);
    [InitialHeap(start, length),
     [Seg(start, 24, false), Seg(start + 56, length - 120, true)],
     [Seg(start, 24, false), second, rest],
     [Seg(start, 24, true), second, rest],
     [Seg(start, 16, false), Seg(start + 48, TWO64 - 56, true), second, rest]]
  }

  function FourCalls(start: uint64): seq<HeapOp> { [DoMalloc(24), DoMalloc(32), DoFree(start), DoMalloc(16)] }

  // Four calls are enough: with the first header at `start` and the second allocation's at start + 56,
  // the last malloc puts a header at start + 48.
  lemma FourCallsClobber(start: uint64, length: uint64)
    requires 256 <= length && start + length < TWO64
    ensures HeapRun(AsWritten, FourStates(start, length), FourCalls(start), start, length)
    ensures Clobbers(FourStates(start, length)[3], 16)
    ensures HeadersOverlap(FourStates(start, length)[4][1].addr, FourStates(start, length)[4][2].addr)
  {
    var states := FourStates(start, length);
    FirstTwoCalls(start, length);
    assert LiveAt(states[2], 0, start) && Free(states[2], 0) == states[3];
    LastCall(start, length);
  }

  lemma FirstTwoCalls(start: uint64, length: uint64)
    requires 256 <= length && start + length < TWO64
    ensures Malloc(AsWritten, FourStates(start, length)[0], 24) == FourStates(start, length)[1]
    ensures Malloc(AsWritten, FourStates(start, length)[1], 32) == FourStates(start, length)[2]
  {
    var states := FourStates(start, length);
    assert FirstFit(states[0], 24) == Some(0);
    assert !Fits(states[1][0], 32) && Fits(states[1][1], 32);
    assert FirstFit(states[1], 32) == Some(1);
  }

  lemma LastCall(start: uint64, length: uint64)
    requires 256 <= length && start + length < TWO64
    ensures var states := FourStates(start, length);
      && Malloc(AsWritten, states[3], 16) == states[4] && Clobbers(states[3], 16)
      && HeadersOverlap(states[4][1].addr, states[4][2].addr)
  {
    var s := FourStates(start, length)[3];
    assert FirstFit(s, 16) == Some(0);
    assert SplitAddress(s, 0, 16) == start + 48;
    assert HeadersOverlap(SplitAddress(s, 0, 16), s[1].addr);
  }

  // In a sound heap two different allocations occupy disjoint memory, headers included.
  lemma AllocationsAreDisjoint(s: seq<Seg>, start: nat, end: nat, i: nat, j: nat)
    requires Integrity(s, start, end) && i < j < |s|
    ensures start <= s[i].addr < End(s[i]) <= s[j].addr < End(s[j]) <= end
  {
    InsideHeap(s, start, end, i);
    InsideHeap(s, start, end, j);
    OrderedAcross(s, start, end, i, j);
  }
}

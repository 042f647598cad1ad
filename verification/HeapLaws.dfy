// What single calls of the heap do, said in addresses and bytes: when malloc splits and what the pieces are, and which
// memory free gives back.
module HeapLaws {
  import opened Words
  import opened Segments
  import opened HeapRuns

  // ----- malloc -----

  // A multiple of 16 is kept, anything else becomes its last hexadecimal digit plus 16.
  lemma RoundedSizes(size: uint64)
    ensures size % 16 == 0 ==> Rounded(size) == size
    ensures size % 16 != 0 ==> 16 < Rounded(size) < 32 && Rounded(size) % 16 == size % 16
  {
  }

  // With n the rounded size, the first fit is split exactly when at least n + 80 bytes long, or, as written, when
  // longer than n by less than 64 bytes. The allocation then has exactly n bytes and the rest what remains behind
  // two headers, modulo 2^64; otherwise the allocation keeps the whole length.
  lemma MallocSplitsExactly(reading: Reading, s: seq<Seg>, size: uint64, i: nat)
    requires size > 0 && IsFirstFit(s, Rounded(size), i)
    ensures var n, f, r := Rounded(size), s[i], Malloc(reading, s, size);
      && (|r| == |s| + 1 || |r| == |s|)
      && (|r| == |s| + 1 <==> f.length >= n + 80 || (reading.AsWritten? && n < f.length < n + 64))
      && (|r| == |s| ==> r[i] == Seg(f.addr, f.length, false))
      && (|r| == |s| + 1 ==>
            && r[i] == Seg(f.addr, n, false) && r[i + 1].free
            && r[i + 1].length == f.length - n - 64 + if f.length >= n + 64 then 0 else 0x1_0000_0000_0000_0000)
  {
    assert FirstFit(s, Rounded(size)) == Some(i);
  }

  // ----- free -----

  predicate PrevFree(s: seq<Seg>, i: nat)
    requires i < |s|
  {
    i > 0 && s[i - 1].free
  }

  predicate NextFree(s: seq<Seg>, i: nat)
    requires i < |s|
  {
    i + 1 < |s| && s[i + 1].free
  }

  // The neighbours that are free are merged with segment i, and nothing else happens.
  function Low(s: seq<Seg>, i: nat): nat
    requires i < |s|
  {
    if PrevFree(s, i) then i - 1 else i
  }

  function High(s: seq<Seg>, i: nat): (h: nat)
    requires i < |s|
    ensures h < |s|
  {
    if NextFree(s, i) then i + 1 else i
  }

  lemma FreeMerges(s: seq<Seg>, i: nat)
    requires i < |s|
    ensures var lo, hi, r := Low(s, i), High(s, i), Free(s, i);
      && |r| == |s| - (hi - lo) && lo < |r|
      && r[..lo] == s[..lo] && r[lo + 1..] == s[hi + 1..]
      && r[lo].free && r[lo].addr == s[lo].addr
  {
    var s0 := s[i := s[i].(free := true)];
    var s1 := CombineForward(s0, i);
    assert s1[..i] == s[..i] && s1[i + 1..] == s[High(s, i) + 1..] && s1[i].free && s1[i].addr == s[i].addr;
    if PrevFree(s, i) {
      assert s1[i - 1] == s[i - 1];
      assert Free(s, i)[..i - 1] == s1[..i - 1] == s[..i - 1];
      assert Free(s, i)[i..] == s1[i + 1..];
    }
  }

  // Where each segment of the result comes from.
  lemma FreePlaces(s: seq<Seg>, i: nat, k: nat)
    requires i < |s| && k < |Free(s, i)|
    ensures k < Low(s, i) ==> Free(s, i)[k] == s[k]
    ensures k == Low(s, i) ==> Free(s, i)[k].free
    ensures k > Low(s, i) ==>
              k + High(s, i) - Low(s, i) < |s| && Free(s, i)[k] == s[k + High(s, i) - Low(s, i)]
  {
    FreeMerges(s, i);
    hide Free, CombineForward;
    var lo, hi, r := Low(s, i), High(s, i), Free(s, i);
    if k < lo {
      assert r[k] == r[..lo][k] == s[k];
    } else if k > lo {
      assert r[k] == r[lo + 1..][k - lo - 1] == s[hi + 1..][k - lo - 1];
    }
  }

  // And where each segment that is not merged goes.
  lemma FreeKeepsPlaces(s: seq<Seg>, i: nat, j: nat)
    requires i < |s| && j < |s| && !(Low(s, i) <= j <= High(s, i))
    ensures var k := if j < i then j else j - (High(s, i) - Low(s, i)); k < |Free(s, i)| && Free(s, i)[k] == s[j]
  {
    hide Free, CombineForward;
    FreeMerges(s, i);
    FreePlaces(s, i, if j < i then j else j - (High(s, i) - Low(s, i)));
  }

  function Gap(s: seq<Seg>, j: nat): int
    requires j + 1 < |s|
  {
    s[j + 1].addr - End(s[j])
  }

  // The bytes that merging leaves outside: the gaps between what is merged.
  function Lost(s: seq<Seg>, i: nat): int
    requires i < |s|
  {
    (if PrevFree(s, i) then Gap(s, i - 1) else 0) + if NextFree(s, i) then Gap(s, i) else 0
  }

  function MergedLength(s: seq<Seg>, i: nat): nat
    requires i < |s|
  {
    s[i].length + (if PrevFree(s, i) then s[i - 1].length + 32 else 0)
                + (if NextFree(s, i) then s[i + 1].length + 32 else 0)
  }

  lemma FreeLength(s: seq<Seg>, i: nat)
    requires i < |s| && MergedLength(s, i) < TWO64
    ensures Low(s, i) < |Free(s, i)| && Free(s, i)[Low(s, i)].length == MergedLength(s, i)
  {
    FreeMerges(s, i);
    var s0 := s[i := s[i].(free := true)];
    var s1 := CombineForward(s0, i);
    assert s1[i].length == s[i].length + if NextFree(s, i) then s[i + 1].length + 32 else 0;
    if PrevFree(s, i) {
      assert s1[i - 1] == s[i - 1];
    }
  }

  lemma GapsInOrder(s: seq<Seg>, i: nat, start: nat, end: nat)
    requires Integrity(s, start, end) && end < TWO64 && i < |s|
    ensures End(s[High(s, i)]) <= end
    ensures i > 0 ==> Gap(s, i - 1) >= 0
    ensures i + 1 < |s| ==> Gap(s, i) >= 0
  {
    InsideHeap(s, start, end, High(s, i));
  }

  // The merged segment has the bytes of its parts, each with its header of 32; it ends before its last part does by
  // the gaps between them.
  lemma FreeEnds(s: seq<Seg>, i: nat, start: nat, end: nat)
    requires Integrity(s, start, end) && end < TWO64 && i < |s|
    ensures Lost(s, i) >= 0 && Low(s, i) < |Free(s, i)|
    ensures var f := Free(s, i)[Low(s, i)];
      && f.free && f.addr == s[Low(s, i)].addr && f.length == MergedLength(s, i)
      && End(f) == End(s[High(s, i)]) - Lost(s, i)
  {
    hide Integrity, Free, CombineForward;
    GapsInOrder(s, i, start, end);
    FreeMerges(s, i);
    FreeLength(s, i);
  }

  predicate CoversSegment(f: Seg, a: Seg) { f.free && f.addr <= a.addr && End(a) <= End(f) }

  // The segments that are not merged lie outside the merged ones.
  lemma OthersOutside(s: seq<Seg>, i: nat, start: nat, end: nat, k: nat)
    requires Integrity(s, start, end) && end < TWO64 && i < |s| && k < |Free(s, i)| && k != Low(s, i)
    ensures End(Free(s, i)[k]) <= s[Low(s, i)].addr || End(s[High(s, i)]) <= Free(s, i)[k].addr
  {
    hide Integrity, Free, CombineForward;
    FreePlaces(s, i, k);
    if k < Low(s, i) {
      OrderedAcross(s, start, end, k, Low(s, i));
    } else {
      OrderedAcross(s, start, end, High(s, i), k + High(s, i) - Low(s, i));
    }
  }

  lemma PartsInside(s: seq<Seg>, i: nat, start: nat, end: nat, j: nat)
    requires Integrity(s, start, end) && end < TWO64 && i < |s| && Low(s, i) <= j <= High(s, i)
    ensures s[Low(s, i)].addr <= s[j].addr && End(s[j]) <= End(s[High(s, i)])
  {
    hide Integrity;
    if Low(s, i) < j {
      OrderedAcross(s, start, end, Low(s, i), j);
    }
    if j < High(s, i) {
      OrderedAcross(s, start, end, j, High(s, i));
    }
  }

  // Some free segment of the result covers all that was allocated, header included, exactly when the gap before it,
  // if it is merged across one, is no larger than what is merged behind it.
  lemma FreeCoversExactly(s: seq<Seg>, i: nat, start: nat, end: nat)
    requires Integrity(s, start, end) && end < TWO64 && i < |s|
    ensures (exists k: nat :: k < |Free(s, i)| && CoversSegment(Free(s, i)[k], s[i]))
       <==> !PrevFree(s, i) || Gap(s, i - 1) <= if NextFree(s, i) then 32 + s[i + 1].length else 0
  {
    hide Integrity, Free, CombineForward;
    var lo, r := Low(s, i), Free(s, i);
    FreeEnds(s, i, start, end);
    PartsInside(s, i, start, end, i);
    forall k: nat | k < |r| && k != lo
      ensures !CoversSegment(r[k], s[i])
    {
      OthersOutside(s, i, start, end, k);
    }
    assert CoversSegment(r[lo], s[i]) <==> End(s[i]) <= End(r[lo]);
  }

  // A byte of free memory, headers of free segments included.
  ghost predicate FreeByte(s: seq<Seg>, b: nat) { exists j: nat :: j < |s| && s[j].free && s[j].addr <= b < End(s[j]) }

  // The free bytes after free: those from the first to the last merged segment, short of the gaps, and outside them the
  // old ones.
  lemma FreeBytesExactly(s: seq<Seg>, i: nat, start: nat, end: nat, b: nat)
    requires Integrity(s, start, end) && end < TWO64 && i < |s|
    ensures FreeByte(Free(s, i), b)
       <==> if s[Low(s, i)].addr <= b < End(s[High(s, i)]) then b < End(s[High(s, i)]) - Lost(s, i) else FreeByte(s, b)
  {
    hide Integrity, Free, CombineForward, End, Lost;
    var lo, hi, r := Low(s, i), High(s, i), Free(s, i);
    FreeEnds(s, i, start, end);
    if s[lo].addr <= b < End(s[hi]) {
      if FreeByte(r, b) {
        var k: nat :| k < |r| && r[k].free && r[k].addr <= b < End(r[k]);
        if k != lo {
          OthersOutside(s, i, start, end, k);
        }
      }
    } else if FreeByte(r, b) {
      var k: nat :| k < |r| && r[k].free && r[k].addr <= b < End(r[k]);
      FreePlaces(s, i, k);
    } else if FreeByte(s, b) {
      var j: nat :| j < |s| && s[j].free && s[j].addr <= b < End(s[j]);
      if lo <= j <= hi {
        PartsInside(s, i, start, end, j);
      }
      FreeKeepsPlaces(s, i, j);
    }
  }

  // The allocations after free are those before it without the one at that address.
  lemma FreeReleases(s: seq<Seg>, i: nat, a: Seg)
    requires HeadersApart(s) && i < |s| && !a.free
    ensures a in Free(s, i) <==> a in s && a.addr != s[i].addr
  {
    hide Free, CombineForward, HeadersApart;
    var r := Free(s, i);
    if a in r {
      var k: nat :| k < |r| && r[k] == a;
      FreePlaces(s, i, k);
      var j := if k < Low(s, i) then k else k + High(s, i) - Low(s, i);
      if s[j].addr == s[i].addr {
        SameAddressSameSegment(s, i, j);
      }
    }
    if a in s && a.addr != s[i].addr {
      var j: nat :| j < |s| && s[j] == a;
      FreeKeepsPlaces(s, i, j);
    }
  }

  lemma SameAddressSameSegment(s: seq<Seg>, i: nat, j: nat)
    requires HeadersApart(s) && i < |s| && j < |s| && s[i].addr == s[j].addr
    ensures i == j
  {
    assert HeadersOverlap(s[i].addr, s[j].addr);
  }

  lemma SoundHeadersApart(s: seq<Seg>, start: nat, end: nat)
    requires Integrity(s, start, end) && end < TWO64
    ensures HeadersApart(s)
  {
    forall i: nat, j: nat | i < j < |s|
      ensures !HeadersOverlap(s[i].addr, s[j].addr)
    {
      OrderedAcross(s, start, end, i, j);
      InsideHeap(s, start, end, i);
      InsideHeap(s, start, end, j);
    }
  }

  lemma StepReleases(reading: Reading, s: seq<Seg>, addr: uint64, r: seq<Seg>, a: Seg)
    requires HeapStep(reading, s, DoFree(addr), r) && HeadersApart(s) && !a.free
    ensures a in r <==> a in s && a.addr != addr
  {
    hide Free, HeadersApart;
    var i: nat :| LiveAt(s, i, addr) && r == Free(s, i);
    FreeReleases(s, i, a);
  }

  // In a run, once an address is freed no allocation has it, and all other allocations are still there.
  lemma RunReleases(reading: Reading, states: seq<seq<Seg>>, ops: seq<HeapOp>, start: uint64, length: uint64, k: nat,
                    a: Seg)
    requires HeapRun(reading, states, ops, start, length) && k < |ops| && ops[k].DoFree? && !a.free
    requires forall j: nat :: j < k ==> FaithfulStep(reading, states[j], ops[j])
    ensures a in states[k + 1] <==> a in states[k] && a.addr != ops[k].addr
  {
    hide Integrity, Coalesced, HeadersApart, Clobbers, Malloc, Free, HeapStep;
    assert HeapStep(reading, states[k], ops[k], states[k + 1]);
    if reading.OverIntegers? {
      RunKeepsHeap(states, ops, start, length, k);
      SoundHeadersApart(states[k], start, start + length);
    } else {
      RunKeepsHeadersApart(states, ops, start, length, k);
    }
    StepReleases(reading, states[k], ops[k].addr, states[k + 1], a);
  }

  // ----- a tail that is lost -----

  // The heap before and after malloc(256), malloc(16), malloc(16), the free of the first, malloc(16) and the free of
  // the second.
  function TailStates(a: uint64, length: uint64): seq<seq<Seg>>
    requires 1024 <= length && a + length < TWO64
  {
    var third, rest := Seg(a + 336, 16, false), Seg(a + 384, length - 512, true);
    [InitialHeap(a, length),
     [Seg(a, 256, false), Seg(a + 288, length - 352, true)],
     [Seg(a, 256, false), Seg(a + 288, 16, false), Seg(a + 336, length - 432, true)],
     [Seg(a, 256, false), Seg(a + 288, 16, false), third, rest],
     [Seg(a, 256, true), Seg(a + 288, 16, false), third, rest],
     [Seg(a, 16, false), Seg(a + 48, 176, true), Seg(a + 288, 16, false), third, rest],
     [Seg(a, 16, false), Seg(a + 48, 224, true), third, rest]]
  }

  function TailCalls(a: uint64): seq<HeapOp>
    requires a + 288 < TWO64
  {
    [DoMalloc(256), DoMalloc(16), DoMalloc(16), DoFree(a), DoMalloc(16), DoFree(a + 288)]
  }

  lemma TailMallocs(a: uint64, length: uint64)
    requires 1024 <= length && a + length < TWO64
    ensures var t := TailStates(a, length);
      && t[1] == Malloc(AsWritten, t[0], 256) && t[2] == Malloc(AsWritten, t[1], 16)
  {
    var t := TailStates(a, length);
    assert FirstFit(t[0], 256) == Some(0);
    assert !Fits(t[1][0], 16) && Fits(t[1][1], 16);
    assert FirstFit(t[1], 16) == Some(1);
  }

  lemma MoreTailMallocs(a: uint64, length: uint64)
    requires 1024 <= length && a + length < TWO64
    ensures var t := TailStates(a, length);
      && t[3] == Malloc(AsWritten, t[2], 16) && t[5] == Malloc(AsWritten, t[4], 16)
  {
    var t := TailStates(a, length);
    assert !Fits(t[2][0], 16) && !Fits(t[2][1], 16) && Fits(t[2][2], 16);
    assert FirstFit(t[2], 16) == Some(2);
    assert FirstFit(t[4], 16) == Some(0);
  }

  // After these calls the last 32 bytes of the second allocation are in no segment any more.
  lemma FreedTailIsLost(a: uint64, length: uint64)
    requires 1024 <= length && a + length < TWO64
    ensures HeapRun(AsWritten, TailStates(a, length), TailCalls(a), a, length)
    ensures Integrity(TailStates(a, length)[5], a, a + length)
    ensures End(TailStates(a, length)[5][2]) == a + 336
    ensures forall b: nat :: a + 304 <= b < a + 336 ==> !FreeByte(TailStates(a, length)[6], b)
  {
    var t, ops := TailStates(a, length), TailCalls(a);
    TailMallocs(a, length);
    MoreTailMallocs(a, length);
    assert LiveAt(t[3], 0, a) && t[4] == Free(t[3], 0);
    assert LiveAt(t[5], 2, a + 288) && t[6] == Free(t[5], 2);
    forall k: nat | k < |ops|
      ensures HeapStep(AsWritten, t[k], ops[k], t[k + 1])
    {
    }
  }
}

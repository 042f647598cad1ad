// memory/pmm.cpp: the physical frame allocator over the packed bitmap.
module Pmm {
  import opened Words
  import opened Ledger
  import B = Bitmap

  // One entry of the boot loader's memory map; type 1 is usable memory.
  datatype MmapEntry = MmapEntry(base: uint64, length: uint64, kind: nat) {
    predicate Usable() { kind == 1 }
    function FirstFrame(): nat { base / 4096 }
    function Pages(): nat { length / 4096 }
  }

  const MIB: nat := 0x100000

  // 2^64 bytes of addresses hold this many frames.
  const MAX_FRAMES: nat := 0x10_0000_0000_0000

  // ----- what the boot code computes from the memory map -----

  // End of the last usable entry, before rounding down to whole MiB.
  function LastUsableEnd(mm: seq<MmapEntry>): uint64 {
    if mm == [] then 0
    else
      var last := mm[|mm| - 1];
      if last.Usable() then Add64(last.base, last.length) else LastUsableEnd(mm[..|mm| - 1])
  }

  function TotalMemory(mm: seq<MmapEntry>): uint64 { LastUsableEnd(mm) / MIB * MIB }

  function BitmapBytes(total: uint64): nat { total / 4096 / 8 + 1 }

  function BitmapFrames(total: uint64): nat { 8 * BitmapBytes(total) }

  datatype Segment = Segment(base: uint64, size: uint64)

  // The usable entry with the most whole pages; the first of them on a tie.
  function LargestUsable(mm: seq<MmapEntry>): Segment {
    if mm == [] then Segment(0, 0)
    else
      var best, last := LargestUsable(mm[..|mm| - 1]), mm[|mm| - 1];
      if last.Usable() && last.Pages() * 4096 > best.size then Segment(last.base, last.Pages() * 4096) else best
  }

  lemma {:induction false} LargestUsableIsLargest(mm: seq<MmapEntry>)
    ensures forall k: nat :: k < |mm| && mm[k].Usable() ==> mm[k].Pages() * 4096 <= LargestUsable(mm).size
    ensures LargestUsable(mm).size > 0 ==>
              exists k: nat :: k < |mm| && mm[k].Usable() && mm[k].base == LargestUsable(mm).base
                            && mm[k].Pages() * 4096 == LargestUsable(mm).size
                            && forall j: nat :: j < k && mm[j].Usable() ==> mm[j].Pages() < mm[k].Pages()
  {
    if mm != [] {
      var front, last := mm[..|mm| - 1], mm[|mm| - 1];
      LargestUsableIsLargest(front);
      var best := LargestUsable(front);
      if last.Usable() && last.Pages() * 4096 > best.size {
        assert mm[|mm| - 1] == last;
      } else if best.size > 0 {
        var k: nat :| k < |front| && front[k].Usable() && front[k].base == best.base
                      && front[k].Pages() * 4096 == best.size
                      && forall j: nat :: j < k && front[j].Usable() ==> front[j].Pages() < front[k].Pages();
        assert mm[k] == front[k] && forall j: nat :: j < k ==> mm[j] == front[j];
      }
    }
  }

  predicate Withheld(e: MmapEntry, total: uint64) { !e.Usable() && e.base < total }

  predicate RangeFits(first: nat, n: nat, frames: nat) { first + n <= frames }

  ghost predicate EntriesFit(mm: seq<MmapEntry>, total: uint64, frames: nat) {
    forall e :: e in mm && Withheld(e, total) ==> RangeFits(e.FirstFrame(), e.Pages(), frames)
  }

  function OwnFirst(mm: seq<MmapEntry>): nat { LargestUsable(mm).base / 4096 }

  function OwnPages(mm: seq<MmapEntry>): nat { BitmapBytes(TotalMemory(mm)) / 4096 + 1 }

  // What the boot code needs of its inputs: each range it books lies inside the bitmap.
  ghost predicate BootFits(mm: seq<MmapEntry>, kernelStart: uint64, kernelPages: uint64) {
    var frames := BitmapFrames(TotalMemory(mm));
    && EntriesFit(mm, TotalMemory(mm), frames)
    && RangeFits(OwnFirst(mm), OwnPages(mm), frames)
    && RangeFits(0, 256, frames)
    && RangeFits(kernelStart / 4096, kernelPages, frames)
  }

  lemma BitmapFramesBound(mm: seq<MmapEntry>)
    ensures BitmapFrames(TotalMemory(mm)) <= MAX_FRAMES
  {
  }

  // The memory size is the end of the last usable entry, rounded down to a whole MiB.
  lemma TotalIsWholeMiB(mm: seq<MmapEntry>)
    ensures TotalMemory(mm) % 0x10_0000 == 0
    ensures TotalMemory(mm) <= LastUsableEnd(mm) < TotalMemory(mm) + 0x10_0000
  {
    var e := LastUsableEnd(mm);
    assert TotalMemory(mm) == e - e % 0x10_0000;
  }

  // With the k-th entry the last usable one, this is the end of that entry modulo 2^64; without usable memory it is 0.
  lemma TotalFollowsLastUsable(mm: seq<MmapEntry>, k: nat)
    requires k < |mm| && mm[k].kind == 1 && forall j: nat :: k < j < |mm| ==> mm[j].kind != 1
    ensures var sum := mm[k].base + mm[k].length;
      var e := if sum < 0x1_0000_0000_0000_0000 then sum else sum - 0x1_0000_0000_0000_0000;
      TotalMemory(mm) % 0x10_0000 == 0 && TotalMemory(mm) <= e < TotalMemory(mm) + 0x10_0000
  {
    hide TotalMemory;
    LastUsableEntryDecides(mm, k);
    TotalIsWholeMiB(mm);
  }

  lemma {:induction false} NoUsableMemory(mm: seq<MmapEntry>)
    requires forall j: nat :: j < |mm| ==> mm[j].kind != 1
    ensures TotalMemory(mm) == 0 && LargestUsable(mm) == Segment(0, 0)
  {
    if mm != [] {
      NoUsableMemory(mm[..|mm| - 1]);
    }
  }

  // The bitmap has eight bits more than the memory has frames, so a request may hand out a frame
  // beyond the memory size.
  lemma BitmapOvershoots(mm: seq<MmapEntry>)
    ensures BitmapFrames(TotalMemory(mm)) == TotalMemory(mm) / 4096 + 8
  {
    var mib := LastUsableEnd(mm) / MIB;
    assert TotalMemory(mm) == 0x100000 * mib;
    assert TotalMemory(mm) / 4096 == 256 * mib && 256 * mib / 8 == 32 * mib;
  }

  // The memory size follows the last usable entry of the list, wherever it lies in memory.
  lemma {:induction false} LastUsableEntryDecides(mm: seq<MmapEntry>, k: nat)
    requires k < |mm| && mm[k].Usable()
    requires forall j: nat :: k < j < |mm| ==> !mm[j].Usable()
    ensures LastUsableEnd(mm) == Add64(mm[k].base, mm[k].length)
  {
    if k < |mm| - 1 {
      assert !mm[|mm| - 1].Usable();
      LastUsableEntryDecides(mm[..|mm| - 1], k);
    }
  }

  function EmptyLedger(total: uint64): (r: Ledger)
    ensures |r.bits| == BitmapFrames(total)
  {
    Ledger(seq(BitmapFrames(total), _ => false), total, 0, 0, total)
  }

  ghost function WithholdEntries(l: Ledger, mm: seq<MmapEntry>, total: uint64): (r: Ledger)
    requires EntriesFit(mm, total, |l.bits|)
    ensures |r.bits| == |l.bits|
  {
    if mm == [] then l
    else
      var front, last := mm[..|mm| - 1], mm[|mm| - 1];
      assert last in mm;
      var m := WithholdEntries(l, front, total);
      if Withheld(last, total) then BookRange(m, last.FirstFrame(), last.Pages(), AsReserved) else m
  }

  // The four stages of the boot-time bookkeeping.
  ghost function AfterEntries(mm: seq<MmapEntry>): (r: Ledger)
    requires EntriesFit(mm, TotalMemory(mm), BitmapFrames(TotalMemory(mm)))
    ensures |r.bits| == BitmapFrames(TotalMemory(mm))
  {
    WithholdEntries(EmptyLedger(TotalMemory(mm)), mm, TotalMemory(mm))
  }

  ghost function AfterOwnPages(mm: seq<MmapEntry>): (r: Ledger)
    requires BootFits(mm, 0, 0)
    ensures |r.bits| == BitmapFrames(TotalMemory(mm))
  {
    BookRange(AfterEntries(mm), OwnFirst(mm), OwnPages(mm), AsUsed)
  }

  ghost function AfterLowPages(mm: seq<MmapEntry>): (r: Ledger)
    requires BootFits(mm, 0, 0)
    ensures |r.bits| == BitmapFrames(TotalMemory(mm))
  {
    BookRange(AfterOwnPages(mm), 0, 256, AsReserved)
  }

  ghost function BootLedger(mm: seq<MmapEntry>, kernelStart: uint64, kernelPages: uint64): (r: Ledger)
    requires BootFits(mm, kernelStart, kernelPages)
    ensures |r.bits| == BitmapFrames(TotalMemory(mm))
  {
    BookRange(AfterLowPages(mm), kernelStart / 4096, kernelPages, AsReserved)
  }

  predicate InRange(i: nat, first: nat, n: nat) { first <= i < first + n }

  ghost predicate IsWithheld(i: nat, mm: seq<MmapEntry>, total: uint64) {
    exists e :: e in mm && Withheld(e, total) && InRange(i, e.FirstFrame(), e.Pages())
  }

  ghost predicate IsBitmapPage(i: nat, mm: seq<MmapEntry>) { InRange(i, OwnFirst(mm), OwnPages(mm)) }

  lemma {:induction false} EmptyLedgerAccounts(total: uint64)
    ensures Accounts(EmptyLedger(total))
  {
    AllClear(EmptyLedger(total).bits);
    CongruentSelf(0);
    CongruentSelf(total);
  }

  lemma {:induction false} AllClear(bits: seq<bool>)
    requires forall i :: 0 <= i < |bits| ==> !bits[i]
    ensures SetCount(bits) == 0
  {
    if bits != [] {
      AllClear(bits[1..]);
    }
  }

  lemma {:induction false} WithholdSets(l: Ledger, mm: seq<MmapEntry>, total: uint64)
    requires EntriesFit(mm, total, |l.bits|)
    ensures forall i: nat :: i < |l.bits| ==>
              (WithholdEntries(l, mm, total).bits[i] <==> l.bits[i] || IsWithheld(i, mm, total))
  {
    if mm != [] {
      var front, last := mm[..|mm| - 1], mm[|mm| - 1];
      WithholdSets(l, front, total);
      if Withheld(last, total) {
        BookRangeSets(WithholdEntries(l, front, total), last.FirstFrame(), last.Pages(), AsReserved);
      }
      forall i: nat | i < |l.bits|
        ensures IsWithheld(i, mm, total)
           <==> IsWithheld(i, front, total) || (Withheld(last, total) && InRange(i, last.FirstFrame(), last.Pages()))
      {
        assert forall e :: e in mm <==> e in front || e == last;
      }
    }
  }

  lemma {:induction false} WithholdAccounts(l: Ledger, mm: seq<MmapEntry>, total: uint64)
    requires EntriesFit(mm, total, |l.bits|) && Accounts(l)
    ensures var r := WithholdEntries(l, mm, total); Accounts(r) && r.used == l.used && r.total == l.total
  {
    if mm != [] {
      var front, last := mm[..|mm| - 1], mm[|mm| - 1];
      WithholdAccounts(l, front, total);
      var m := WithholdEntries(l, front, total);
      if Withheld(last, total) {
        assert last in mm;
        BookRangeBytes(m, last.FirstFrame(), last.Pages(), AsReserved);
        BookRangeKeepsAccounts(m, last.FirstFrame(), last.Pages(), AsReserved);
      }
    }
  }

  // After boot exactly the withheld ranges, the bitmap's own pages, the first MiB and the kernel are taken.
  lemma BootTakesExactly(mm: seq<MmapEntry>, kernelStart: uint64, kernelPages: uint64, i: nat)
    requires BootFits(mm, kernelStart, kernelPages) && i < BitmapFrames(TotalMemory(mm))
    ensures BootLedger(mm, kernelStart, kernelPages).bits[i]
       <==> || IsWithheld(i, mm, TotalMemory(mm))
            || IsBitmapPage(i, mm)
            || i < 256
            || InRange(i, kernelStart / 4096, kernelPages)
  {
    WithholdSets(EmptyLedger(TotalMemory(mm)), mm, TotalMemory(mm));
    BookRangeSets(AfterEntries(mm), OwnFirst(mm), OwnPages(mm), AsUsed);
    BookRangeSets(AfterOwnPages(mm), 0, 256, AsReserved);
    BookRangeSets(AfterLowPages(mm), kernelStart / 4096, kernelPages, AsReserved);
  }

  // The same entry by entry: type and base decide what is withheld, and whole pages are counted.
  lemma BootTakesByKind(mm: seq<MmapEntry>, kernelStart: uint64, kernelPages: uint64, i: nat)
    requires BootFits(mm, kernelStart, kernelPages) && i < BitmapFrames(TotalMemory(mm))
    ensures BootLedger(mm, kernelStart, kernelPages).bits[i]
       <==> || (exists k: nat :: k < |mm| && mm[k].kind != 1 && mm[k].base < TotalMemory(mm)
                          && mm[k].base / 4096 <= i < mm[k].base / 4096 + mm[k].length / 4096)
            || LargestUsable(mm).base / 4096 <= i
               <= LargestUsable(mm).base / 4096 + (TotalMemory(mm) / 32768 + 1) / 4096
            || i < 256
            || kernelStart / 4096 <= i < kernelStart / 4096 + kernelPages
  {
    hide BootLedger, TotalMemory, LargestUsable, BitmapFrames, BootFits;
    BootTakesExactly(mm, kernelStart, kernelPages, i);
    OwnPagesInNumbers(mm, i);
    WithheldInNumbers(mm, i);
  }

  lemma WithheldInNumbers(mm: seq<MmapEntry>, i: nat)
    ensures IsWithheld(i, mm, TotalMemory(mm))
       <==> exists k: nat :: k < |mm| && mm[k].kind != 1 && mm[k].base < TotalMemory(mm)
                      && mm[k].base / 4096 <= i < mm[k].base / 4096 + mm[k].length / 4096
  {
    hide TotalMemory;
    if IsWithheld(i, mm, TotalMemory(mm)) {
      var e :| e in mm && Withheld(e, TotalMemory(mm)) && InRange(i, e.FirstFrame(), e.Pages());
      var k: nat :| k < |mm| && mm[k] == e;
    }
    forall k: nat | k < |mm| && mm[k].kind != 1 && mm[k].base < TotalMemory(mm)
                    && mm[k].base / 4096 <= i < mm[k].base / 4096 + mm[k].length / 4096
      ensures IsWithheld(i, mm, TotalMemory(mm))
    {
      assert mm[k] in mm && Withheld(mm[k], TotalMemory(mm)) && InRange(i, mm[k].FirstFrame(), mm[k].Pages());
    }
  }

  lemma OwnPagesInNumbers(mm: seq<MmapEntry>, i: nat)
    ensures IsBitmapPage(i, mm)
       <==> LargestUsable(mm).base / 4096 <= i
            <= LargestUsable(mm).base / 4096 + (TotalMemory(mm) / 32768 + 1) / 4096
  {
    hide TotalMemory, LargestUsable;
    assert TotalMemory(mm) / 4096 / 8 == TotalMemory(mm) / 32768;
  }

  // The segment for the bitmap is the largest in whole pages among the entries of type 1.
  lemma LargestByKind(mm: seq<MmapEntry>)
    ensures forall k: nat :: k < |mm| && mm[k].kind == 1 ==>
              mm[k].length - mm[k].length % 4096 <= LargestUsable(mm).size
    ensures LargestUsable(mm).size > 0 ==>
              exists k: nat :: k < |mm| && mm[k].kind == 1 && mm[k].base == LargestUsable(mm).base
                            && mm[k].length - mm[k].length % 4096 == LargestUsable(mm).size
  {
    LargestUsableIsLargest(mm);
  }

  // ----- pages and bytes -----

  function FrameAt(base: nat, k: nat): nat { (base + k) / 4096 }

  // `size / 4096 + 1` pages from the base's page on hold all bytes exactly when the parts of a page that base and
  // size leave over fit into one page.
  lemma PagesHoldBytes(base: nat, size: nat)
    requires size > 0
    ensures (forall k: nat :: k < size ==> InRange(FrameAt(base, k), base / 4096, size / 4096 + 1))
       <==> base % 4096 + size % 4096 <= 4096
  {
    var b, q, m := base % 4096, size / 4096, size % 4096;
    var last := FrameAt(base, size - 1);
    assert base + size - 1 == 4096 * (base / 4096 + q) + (b + m - 1);
    assert last <= base / 4096 + q <==> b + m <= 4096;
    forall k: nat | k < size
      ensures base / 4096 <= FrameAt(base, k) <= last
    {
    }
  }

  // `size / 4096` pages hold all bytes exactly when base and size are whole pages.
  lemma WholePagesHoldBytes(base: nat, size: nat)
    ensures (forall k: nat :: k < size ==> InRange(FrameAt(base, k), base / 4096, size / 4096))
       <==> size == 0 || (base % 4096 == 0 && size % 4096 == 0)
  {
    if size > 0 {
      var b, q, m := base % 4096, size / 4096, size % 4096;
      var last := FrameAt(base, size - 1);
      assert base + size - 1 == 4096 * (base / 4096 + q) + (b + m - 1);
      assert last < base / 4096 + q <==> b + m == 0;
      forall k: nat | k < size
        ensures base / 4096 <= FrameAt(base, k) <= last
      {
      }
    }
  }

  // The booked pages hold every byte of the bitmap exactly when its base and size do not run over a page together;
  // a page-aligned entry is always enough.
  lemma OwnPagesHoldBitmap(mm: seq<MmapEntry>)
    ensures var base, size := LargestUsable(mm).base, BitmapBytes(TotalMemory(mm));
      (forall k: nat :: k < size ==> IsBitmapPage(FrameAt(base, k), mm)) <==> base % 4096 + size % 4096 <= 4096
  {
    hide LargestUsable, TotalMemory;
    PagesHoldBytes(LargestUsable(mm).base, BitmapBytes(TotalMemory(mm)));
  }

  // The pages booked for a withheld entry hold every byte of it exactly when it consists of whole pages.
  lemma WithheldPagesHoldEntry(e: MmapEntry)
    ensures (forall k: nat :: k < e.length ==> InRange(FrameAt(e.base, k), e.FirstFrame(), e.Pages()))
       <==> e.length == 0 || (e.base % 4096 == 0 && e.length % 4096 == 0)
  {
    WholePagesHoldBytes(e.base, e.length);
  }

  // So no byte of such an entry is in a frame that is handed out after boot.
  lemma WithheldBytesAreTaken(mm: seq<MmapEntry>, kernelStart: uint64, kernelPages: uint64, e: MmapEntry, k: nat)
    requires BootFits(mm, kernelStart, kernelPages) && e in mm && Withheld(e, TotalMemory(mm)) && k < e.length
    requires e.base % 4096 == 0 && e.length % 4096 == 0
    ensures var taken := BootLedger(mm, kernelStart, kernelPages).bits;
      FrameAt(e.base, k) < |taken| && taken[FrameAt(e.base, k)]
  {
    hide BootLedger, TotalMemory, BitmapFrames;
    var i := FrameAt(e.base, k);
    WithheldPagesHoldEntry(e);
    assert InRange(i, e.FirstFrame(), e.Pages()) && RangeFits(e.FirstFrame(), e.Pages(), BitmapFrames(TotalMemory(mm)));
    BootTakesExactly(mm, kernelStart, kernelPages, i);
  }

  // A memory map on which the bitmap's last byte lies in a frame that is clear after boot.
  lemma BitmapRunsOver()
    ensures var mm := [MmapEntry(0x10_0040, 0x7df_ffc0, 1)];
      && LargestUsable(mm).base == 0x10_0040 && BitmapBytes(TotalMemory(mm)) == 4065
      && FrameAt(0x10_0040, 4064) == 0x101
      && BootFits(mm, 0x20_0000, 256) && !BootLedger(mm, 0x20_0000, 256).bits[0x101]
  {
    var mm := [MmapEntry(0x10_0040, 0x7df_ffc0, 1)];
    assert mm[..0] == [];
    assert LargestUsable([]) == Segment(0, 0);
    assert LargestUsable(mm) == Segment(0x10_0040, 0x7dff * 4096);
    assert TotalMemory(mm) == 0x7f0_0000;
    assert forall e :: e in mm ==> e.Usable();
    BootTakesExactly(mm, 0x20_0000, 256, 0x101);
  }

  // ----- accounts after boot -----

  // The counters after boot tell the same story as the bitmap: every taken frame is charged once.
  lemma BootAccounts(mm: seq<MmapEntry>, kernelStart: uint64, kernelPages: uint64)
    requires BootFits(mm, kernelStart, kernelPages)
    ensures Accounts(BootLedger(mm, kernelStart, kernelPages))
  {
    EmptyLedgerAccounts(TotalMemory(mm));
    WithholdAccounts(EmptyLedger(TotalMemory(mm)), mm, TotalMemory(mm));
    BookRangeKeepsAccounts(AfterEntries(mm), OwnFirst(mm), OwnPages(mm), AsUsed);
    BookRangeKeepsAccounts(AfterOwnPages(mm), 0, 256, AsReserved);
    BookRangeKeepsAccounts(AfterLowPages(mm), kernelStart / 4096, kernelPages, AsReserved);
  }

  // The bitmap's own pages that no withheld entry covers.
  ghost function OwnUncovered(mm: seq<MmapEntry>): set<nat> {
    set i: nat | i < OwnFirst(mm) + OwnPages(mm) && IsBitmapPage(i, mm) && !IsWithheld(i, mm, TotalMemory(mm))
  }

  // Of all boot ranges only the bitmap's own pages are charged as used, and only those
  // of them that no withheld entry covers.
  lemma BootUsed(mm: seq<MmapEntry>, kernelStart: uint64, kernelPages: uint64)
    requires BootFits(mm, kernelStart, kernelPages)
    ensures BootLedger(mm, kernelStart, kernelPages).total == TotalMemory(mm)
    ensures Congruent(BootLedger(mm, kernelStart, kernelPages).used, 4096 * |OwnUncovered(mm)|)
  {
    EmptyLedgerAccounts(TotalMemory(mm));
    WithholdAccounts(EmptyLedger(TotalMemory(mm)), mm, TotalMemory(mm));
    BookRangeBytes(AfterEntries(mm), OwnFirst(mm), OwnPages(mm), AsUsed);
    BookRangeBytes(AfterOwnPages(mm), 0, 256, AsReserved);
    BookRangeBytes(AfterLowPages(mm), kernelStart / 4096, kernelPages, AsReserved);
    OwnPagesTaken(mm);
  }

  lemma OwnPagesTaken(mm: seq<MmapEntry>)
    requires BootFits(mm, 0, 0)
    ensures SetCount(AfterOwnPages(mm).bits) == SetCount(AfterEntries(mm).bits) + |OwnUncovered(mm)|
  {
    WithholdSets(EmptyLedger(TotalMemory(mm)), mm, TotalMemory(mm));
    BookRangeCount(AfterEntries(mm), OwnFirst(mm), OwnPages(mm), AsUsed);
    assert ClearIn(AfterEntries(mm).bits, OwnFirst(mm), OwnPages(mm)) == OwnUncovered(mm);
  }

  // No later request hands out a frame taken at boot, unless it was released first.
  lemma BootFramesStayTaken(mm: seq<MmapEntry>, kernelStart: uint64, kernelPages: uint64, ops: seq<Op>, k: nat,
                            frame: nat)
    requires BootFits(mm, kernelStart, kernelPages)
    requires var l := BootLedger(mm, kernelStart, kernelPages);
      k < |ops| && InBoundsAll(ops, |l.bits|) && frame < |l.bits|
    requires IsWithheld(frame, mm, TotalMemory(mm)) || IsBitmapPage(frame, mm) || frame < 256
          || InRange(frame, kernelStart / 4096, kernelPages)
    requires forall m: nat :: m < k ==> !Releases(ops[m], frame)
    ensures Obtained(BootLedger(mm, kernelStart, kernelPages), ops, k) != Some(frame)
  {
    BootTakesExactly(mm, kernelStart, kernelPages, frame);
    TakenIsNeverObtained(BootLedger(mm, kernelStart, kernelPages), ops, 0, k, frame);
  }

  // The address of the t-th page of a range that lies inside the bitmap.
  function PageStep(address: uint64, t: nat, n: nat): (page: uint64)
    requires t < n && address / 4096 + n <= MAX_FRAMES
    ensures page / 4096 == address / 4096 + t
  {
    address + t * 4096
  }

  // ----- the allocator itself -----

  class FrameAllocator {
    const pageBitmapMap: B.PackedBitmap
    var bitmapAddress: uint64
    var freeMemorySize: uint64
    var usedMemorySize: uint64
    var totalMemorySize: uint64
    var reservedMemorySize: uint64
    var memorySizeBytes: uint64
    var initialized: bool

    constructor ()
      ensures Valid() && fresh(pageBitmapMap) && fresh(pageBitmapMap.buffer)
      ensures !initialized && memorySizeBytes == 0
      ensures View() == Ledger([], 0, 0, 0, 0)
    {
      pageBitmapMap := new B.PackedBitmap();
      bitmapAddress, memorySizeBytes, initialized := 0, 0, false;
      freeMemorySize, usedMemorySize, totalMemorySize, reservedMemorySize := 0, 0, 0, 0;
    }

    ghost predicate Valid()
      reads this, pageBitmapMap, pageBitmapMap.buffer
    {
      pageBitmapMap.Valid()
    }

    ghost function View(): Ledger
      reads this, pageBitmapMap
    {
      Ledger(pageBitmapMap.bits, freeMemorySize, usedMemorySize, reservedMemorySize, totalMemorySize)
    }

    // What no operation but `Initialize` changes.
    twostate predicate SameSetup()
      reads this, pageBitmapMap
    {
      && pageBitmapMap.buffer == old(pageBitmapMap.buffer)
      && pageBitmapMap.size == old(pageBitmapMap.size)
      && bitmapAddress == old(bitmapAddress)
      && memorySizeBytes == old(memorySizeBytes)
      && initialized == old(initialized)
    }

    method LockPage(vaddress: uint64)
      requires Valid() && vaddress / 4096 < |View().bits|
      modifies this, pageBitmapMap`bits, pageBitmapMap.buffer
      ensures Valid() && SameSetup()
      ensures View() == Lock(old(View()), vaddress / 4096)
    {
      var index := vaddress / 4096;
      var taken := pageBitmapMap.Get(index);
      if taken {
        return;
      }
      pageBitmapMap.Set(index, true);
      freeMemorySize := Sub64(freeMemorySize, 4096);
      usedMemorySize := Add64(usedMemorySize, 4096);
    }

    method FreePage(vaddress: uint64)
      requires Valid() && vaddress / 4096 < |View().bits|
      modifies this, pageBitmapMap`bits, pageBitmapMap.buffer
      ensures Valid() && SameSetup()
      ensures View() == Free(old(View()), vaddress / 4096)
    {
      var index := vaddress / 4096;
      var taken := pageBitmapMap.Get(index);
      if !taken {
        return;
      }
      pageBitmapMap.Set(index, false);
      freeMemorySize := Add64(freeMemorySize, 4096);
      usedMemorySize := Sub64(usedMemorySize, 4096);
    }

    method ReservePage(vaddress: uint64)
      requires Valid() && vaddress / 4096 < |View().bits|
      modifies this, pageBitmapMap`bits, pageBitmapMap.buffer
      ensures Valid() && SameSetup()
      ensures View() == Reserve(old(View()), vaddress / 4096)
    {
      var index := vaddress / 4096;
      var taken := pageBitmapMap.Get(index);
      if taken {
        return;
      }
      pageBitmapMap.Set(index, true);
      freeMemorySize := Sub64(freeMemorySize, 4096);
      reservedMemorySize := Add64(reservedMemorySize, 4096);
    }

    method UnreservePage(vaddress: uint64)
      requires Valid() && vaddress / 4096 < |View().bits|
      modifies this, pageBitmapMap`bits, pageBitmapMap.buffer
      ensures Valid() && SameSetup()
      ensures View() == Unreserve(old(View()), vaddress / 4096)
    {
      var index := vaddress / 4096;
      var taken := pageBitmapMap.Get(index);
      if !taken {
        return;
      }
      pageBitmapMap.Set(index, false);
      freeMemorySize := Add64(freeMemorySize, 4096);
      reservedMemorySize := Sub64(reservedMemorySize, 4096);
    }

    method LockPages(vaddress: uint64, pageCount: nat)
      requires Valid() && vaddress / 4096 + pageCount <= |View().bits| <= MAX_FRAMES
      modifies this, pageBitmapMap`bits, pageBitmapMap.buffer
      ensures Valid() && SameSetup()
      ensures View() == BookRange(old(View()), vaddress / 4096, pageCount, AsUsed)
    {
      ghost var first := vaddress / 4096;
      for t := 0 to pageCount
        invariant Valid() && SameSetup()
        invariant View() == BookRange(old(View()), first, t, AsUsed)
      {
        var page := PageStep(vaddress, t, pageCount);
        LockPage(page);
      }
    }

    method ReservePages(vaddress: uint64, pageCount: nat)
      requires Valid() && vaddress / 4096 + pageCount <= |View().bits| <= MAX_FRAMES
      modifies this, pageBitmapMap`bits, pageBitmapMap.buffer
      ensures Valid() && SameSetup()
      ensures View() == BookRange(old(View()), vaddress / 4096, pageCount, AsReserved)
    {
      ghost var first := vaddress / 4096;
      for t := 0 to pageCount
        invariant Valid() && SameSetup()
        invariant View() == BookRange(old(View()), first, t, AsReserved)
      {
        var page := PageStep(vaddress, t, pageCount);
        ReservePage(page);
      }
    }

    method FreePages(vaddress: uint64, pageCount: nat)
      requires Valid() && vaddress / 4096 + pageCount <= |View().bits| <= MAX_FRAMES
      modifies this, pageBitmapMap`bits, pageBitmapMap.buffer
      ensures Valid() && SameSetup()
      ensures View() == UnbookRange(old(View()), vaddress / 4096, pageCount, AsUsed)
    {
      ghost var first := vaddress / 4096;
      for t := 0 to pageCount
        invariant Valid() && SameSetup()
        invariant View() == UnbookRange(old(View()), first, t, AsUsed)
      {
        var page := PageStep(vaddress, t, pageCount);
        FreePage(page);
      }
    }

    method UnreservePages(vaddress: uint64, pageCount: nat)
      requires Valid() && vaddress / 4096 + pageCount <= |View().bits| <= MAX_FRAMES
      modifies this, pageBitmapMap`bits, pageBitmapMap.buffer
      ensures Valid() && SameSetup()
      ensures View() == UnbookRange(old(View()), vaddress / 4096, pageCount, AsReserved)
    {
      ghost var first := vaddress / 4096;
      for t := 0 to pageCount
        invariant Valid() && SameSetup()
        invariant View() == UnbookRange(old(View()), first, t, AsReserved)
      {
        var page := PageStep(vaddress, t, pageCount);
        UnreservePage(page);
      }
    }

    // First fit. A null result means that no frame was clear, or that it is frame 0 that was handed out.
    method RequestPage() returns (page: uint64)
      requires Valid() && |View().bits| <= MAX_FRAMES
      modifies this, pageBitmapMap`bits, pageBitmapMap.buffer
      ensures Valid() && SameSetup()
      ensures View() == Request(old(View()))
      ensures match FirstClear(old(View().bits))
              case None => page == 0
              case Some(frame) => page == frame * 4096
    {
      var index := 0;
      while index < pageBitmapMap.size * 8
        invariant Valid() && View() == old(View()) && SameSetup()
        invariant index <= |View().bits|
        invariant forall j: nat :: j < index ==> View().bits[j]
      {
        var taken := pageBitmapMap.Get(index);
        if taken {
          index := index + 1;
          continue;
        }
        FirstClearIsUnique(View().bits, index);
        LockPage(index * 4096);
        return index * 4096;
      }
      return 0;
    }

    method GetTotalMemorySize(memoryMap: seq<MmapEntry>) returns (size: uint64)
      requires Valid()
      modifies `memorySizeBytes
      ensures size == memorySizeBytes
           == if old(memorySizeBytes) > 0 then old(memorySizeBytes) else TotalMemory(memoryMap)
    {
      if memorySizeBytes > 0 {
        return memorySizeBytes;
      }
      for i := 0 to |memoryMap|
        invariant memorySizeBytes == LastUsableEnd(memoryMap[..i])
      {
        assert memoryMap[..i + 1][..i] == memoryMap[..i];
        var desc := memoryMap[i];
        if desc.kind == 1 {
          memorySizeBytes := Add64(desc.base, desc.length);
        }
      }
      assert memoryMap[..|memoryMap|] == memoryMap;
      memorySizeBytes := memorySizeBytes / 0x100000;
      memorySizeBytes := memorySizeBytes * 0x100000;
      return memorySizeBytes;
    }

    method InitBitmap(bitmapSize: nat, address: uint64)
      requires Valid()
      modifies `bitmapAddress, pageBitmapMap
      ensures Valid() && fresh(pageBitmapMap.buffer)
      ensures pageBitmapMap.size == bitmapSize && bitmapAddress == address
      ensures pageBitmapMap.bits == seq(8 * bitmapSize, _ => false)
    {
      var buffer := new bv8[bitmapSize];
      for i := 0 to bitmapSize
        invariant forall j :: 0 <= j < i ==> buffer[j] == 0
      {
        buffer[i] := 0;
      }
      pageBitmapMap.bits := seq(8 * bitmapSize, _ => false);
      pageBitmapMap.size := bitmapSize;
      pageBitmapMap.buffer := buffer;
      bitmapAddress := address;
    }

    method FindLargestUsable(memoryMap: seq<MmapEntry>) returns (segment: uint64, segmentSize: uint64)
      ensures Segment(segment, segmentSize) == LargestUsable(memoryMap)
    {
      segment, segmentSize := 0, 0;
      for i := 0 to |memoryMap|
        invariant Segment(segment, segmentSize) == LargestUsable(memoryMap[..i])
      {
        assert memoryMap[..i + 1][..i] == memoryMap[..i];
        var desc := memoryMap[i];
        if desc.kind == 1 {
          if desc.length / 0x1000 * 4096 > segmentSize {
            segment := desc.base;
            segmentSize := desc.length / 0x1000 * 4096;
          }
        }
      }
      assert memoryMap[..|memoryMap|] == memoryMap;
    }

    // The loop of `initialize` that reserves every entry that is not usable memory.
    method WithholdAll(memoryMap: seq<MmapEntry>, memorySize: uint64)
      requires Valid() && |View().bits| <= MAX_FRAMES
      requires EntriesFit(memoryMap, memorySize, |View().bits|)
      modifies this, pageBitmapMap`bits, pageBitmapMap.buffer
      ensures Valid() && SameSetup()
      ensures View() == WithholdEntries(old(View()), memoryMap, memorySize)
    {
      for i := 0 to |memoryMap|
        invariant Valid() && SameSetup()
        invariant View() == WithholdEntries(old(View()), memoryMap[..i], memorySize)
      {
        assert memoryMap[..i + 1][..i] == memoryMap[..i];
        var desc := memoryMap[i];
        if desc.kind != 1 && desc.base < memorySize {
          assert desc in memoryMap;
          ReservePages(desc.base, desc.length / 0x1000);
        }
      }
      assert memoryMap[..|memoryMap|] == memoryMap;
    }

    // The kernel calls this once, on globals that are still zero.
    method Initialize(memoryMap: seq<MmapEntry>, kernelStart: uint64, kernelPages: uint64)
      requires Valid() && BootFits(memoryMap, kernelStart, kernelPages)
      requires !initialized ==> memorySizeBytes == 0 && usedMemorySize == 0 && reservedMemorySize == 0
      modifies this, pageBitmapMap
      ensures Valid() && initialized
      ensures old(initialized) ==> View() == old(View())
      ensures !old(initialized) ==>
                && fresh(pageBitmapMap.buffer)
                && View() == BootLedger(memoryMap, kernelStart, kernelPages)
                && bitmapAddress == LargestUsable(memoryMap).base
                && memorySizeBytes == TotalMemory(memoryMap)
    {
      hide LargestUsable, LastUsableEnd, BookRange, WithholdEntries, EntriesFit;
      if initialized {
        return;
      }
      initialized := true;
      var segment, _ := FindLargestUsable(memoryMap);
      var memorySize := GetTotalMemorySize(memoryMap);
      totalMemorySize := memorySize;
      freeMemorySize := memorySize;
      var bitmapSize := memorySize / 4096 / 8 + 1;
      InitBitmap(bitmapSize, segment);
      assert View() == EmptyLedger(memorySize);

      BitmapFramesBound(memoryMap);
      WithholdAll(memoryMap, memorySize);
      assert View() == AfterEntries(memoryMap);
      LockPages(bitmapAddress, pageBitmapMap.size / 4096 + 1);
      assert View() == AfterOwnPages(memoryMap);
      ReservePages(0, 0x100000 / 0x1000);
      assert View() == AfterLowPages(memoryMap);
      ReservePages(kernelStart, kernelPages);
    }
  }
}

// A machine on which everything the boot code needs is there: usable memory from 1 MiB to 64 MiB, with the bitmap
// at its start, a kernel of 256 pages at 2 MiB, and a framebuffer of 640 by 480 pixels below 4 GiB.
module SmallMachine {
  import opened Words
  import opened Ledger
  import opened PageEntry
  import opened PageTree
  import opened Translation
  import opened Frames
  import opened Paging
  import opened Boot
  import opened BootMap
  import opened Execution
  import opened Service
  import opened Budget
  import opened Kernel

  const MEMORY_MAP: seq<P.MmapEntry> := [P.MmapEntry(0x10_0000, 0x3f0_0000, 1)]
  const KERNEL_START: uint64 := 0x20_0000
  const KERNEL_PAGES: uint64 := 256
  const FRAMES: nat := 16392
  const SCREEN := Framebuffer(0xe000_0000, 640, 480, 32)

  // A page far away from all the others, in 1 TiB.
  const FAR_PAGE: nat := 0x1000_0000

  // The tables for the first frames, the heap page, the framebuffer and the far page.
  ghost function NeededTables(): set<Node> {
    PathsBelow(FRAMES) + Path(HEAP_PAGE) + Path(0xe_0000) + Path(FAR_PAGE)
  }

  lemma MemoryMapFits()
    ensures P.TotalMemory(MEMORY_MAP) == 0x400_0000 && P.BitmapFrames(0x400_0000) == FRAMES
    ensures P.BootFits(MEMORY_MAP, KERNEL_START, KERNEL_PAGES) && P.OwnPages(MEMORY_MAP) == 1
    ensures P.OwnFirst(MEMORY_MAP) == 256
  {
    assert MEMORY_MAP[..0] == [];
    assert P.LastUsableEnd(MEMORY_MAP) == 0x400_0000;
    assert P.LargestUsable([]) == P.Segment(0, 0);
    assert P.LargestUsable(MEMORY_MAP) == P.Segment(0x10_0000, 0x3f0_0000);
  }

  // Boot takes at most 513 frames.
  lemma EnoughFramesLeft()
    requires P.BootFits(MEMORY_MAP, KERNEL_START, KERNEL_PAGES)
    ensures ClearCount(P.BootLedger(MEMORY_MAP, KERNEL_START, KERNEL_PAGES).bits) >= FRAMES - 513
  {
    MemoryMapFits();
    var empty := P.EmptyLedger(0x400_0000);
    P.AllClear(empty.bits);
    NothingWithheld(empty);
    BookRangeCount(P.AfterEntries(MEMORY_MAP), P.OwnFirst(MEMORY_MAP), 1, AsUsed);
    BookRangeCount(P.AfterOwnPages(MEMORY_MAP), 0, 256, AsReserved);
    BookRangeCount(P.AfterLowPages(MEMORY_MAP), 512, KERNEL_PAGES, AsReserved);
  }

  lemma NothingWithheld(l: Ledger)
    requires P.EntriesFit(MEMORY_MAP, 0x400_0000, |l.bits|)
    ensures P.WithholdEntries(l, MEMORY_MAP, 0x400_0000) == l
  {
    assert MEMORY_MAP[..0] == [];
    assert P.WithholdEntries(l, [], 0x400_0000) == l;
  }

  // The first k page tables.
  function FirstTables(k: nat): set<Node> {
    if k == 0 then {} else FirstTables(k - 1) + {Node(1, k - 1)}
  }

  lemma {:induction false} FirstTablesSize(k: nat)
    ensures |FirstTables(k)| <= k
    ensures forall i: nat :: i < k ==> Node(1, i) in FirstTables(k)
  {
    if k > 0 {
      FirstTablesSize(k - 1);
    }
  }

  lemma FewTablesNeeded()
    ensures |NeededTables()| <= 44
  {
    FirstTablesSize(33);
    var few := FirstTables(33) + {Node(2, 0), Node(3, 0)};
    forall n | n in PathsBelow(FRAMES)
      ensures n in few
    {
      var x: nat :| x < FRAMES && n in Path(x);
      assert x / 512 < 33 && x / 512 / 512 == 0;
    }
    SubsetSize(PathsBelow(FRAMES), few);
    PathSize(HEAP_PAGE);
    PathSize(0xe_0000);
    PathSize(FAR_PAGE);
  }

  // All pages of the framebuffer share one page table.
  lemma ScreenNeeds(x: nat)
    requires SCREEN.FirstPage() <= x < SCREEN.FirstPage() + SCREEN.Rounds()
    ensures Path(x) <= NeededTables()
  {
    assert SCREEN.Size() == 1229824 && SCREEN.Rounds() == 301;
    assert x / 512 == 1792 && 0xe_0000 / 512 == 1792;
    assert Path(x) == Path(0xe_0000);
  }

  lemma TablesCover()
    ensures Covers(NeededTables(), FRAMES) && Path(HEAP_PAGE) <= NeededTables()
  {
    hide PathsBelow, Path;
    PathsBelowCover(FRAMES);
    var paths := PathsBelow(FRAMES);
    forall n | n in NeededTables()
      ensures 1 <= n.level <= 3
    {
      PathLevels(HEAP_PAGE);
      PathLevels(0xe_0000);
      PathLevels(FAR_PAGE);
    }
    assert paths <= NeededTables();
  }

  lemma PathLevels(page: nat)
    ensures forall n :: n in Path(page) ==> 1 <= n.level <= 3
  {
  }

  // It boots, and what is then left over is enough for 10000 frames more.
  lemma SmallMachineBoots(mem: seq<seq<Entry>>)
    requires |mem| == FRAMES && forall f: nat :: f < FRAMES ==> |mem[f]| == 512
    ensures CanBoot(mem, SCREEN, MEMORY_MAP, KERNEL_START, KERNEL_PAGES)
    ensures var s := BootsTo(mem, SCREEN, MEMORY_MAP, KERNEL_START, KERNEL_PAGES).value.space;
      && Booted(s, mem, P.BootLedger(MEMORY_MAP, KERNEL_START, KERNEL_PAGES).bits, 0x400_0000, SCREEN,
                BootsTo(mem, SCREEN, MEMORY_MAP, KERNEL_START, KERNEL_PAGES).value.last)
      && Slack(s, NeededTables()) >= 10000
  {
    hide PathsBelow, Path, NeededTables, Covers, P.BootFits, P.BootLedger, P.TotalMemory, P.BitmapFrames, ClearCount,
         BootTo, Booted, Slack;
    MemoryMapFits();
    EnoughFramesLeft();
    FewTablesNeeded();
    TablesCover();
    forall x: nat | SCREEN.FirstPage() <= x < SCREEN.FirstPage() + SCREEN.Rounds()
      ensures Path(x) <= NeededTables()
    {
      ScreenNeeds(x);
    }
    BootToServes(mem, P.BootLedger(MEMORY_MAP, KERNEL_START, KERNEL_PAGES).bits, 0x400_0000, SCREEN, NeededTables());
    BootedState(mem, SCREEN, MEMORY_MAP, KERNEL_START, KERNEL_PAGES);
  }

  // A program: two calls of `request_pages`, a page far away that needs tables of its own, which is donated, a frame of
  // the kernel written and freed, and page 768 donated.
  function Program(): seq<Call> {
    [RequestPagesCall(3), RequestPagesCall(2), MapCall(0x100_0000_0000, 0x30_0000, false), DonateCall(0x100_0000_0000),
     LockCall(0x3f0_0000), WriteCall(512, Zeros()), FreeCall(0x20_0000), RequestCall, DonateCall(0x30_0000)]
  }

  lemma ProgramDemands()
    ensures Demand(Program()) <= 10000
  {
    var p := Program();
    assert Demand(p) <= 7 by {
      forall n: nat | n <= 9
        ensures Demand(p[..n]) <= 7
      {
        DemandUpTo(n);
      }
      assert p[..9] == p;
    }
  }

  lemma {:induction false} DemandUpTo(n: nat)
    requires n <= 9
    ensures Demand(Program()[..n])
         == (if n >= 1 then 3 else 0) + (if n >= 2 then 2 else 0) + (if n >= 5 then 1 else 0) + if n >= 8 then 1 else 0
  {
    if n > 0 {
      DemandUpTo(n - 1);
      assert Program()[..n][..n - 1] == Program()[..n - 1];
    }
  }

  // What the program relies on.
  lemma BootedOffers(s: Space, start: seq<seq<Entry>>, taken: seq<bool>, last: nat)
    requires Booted(s, start, taken, 0x400_0000, SCREEN, last) && |start| == FRAMES && 512 < |taken| && taken[512]
    ensures WellFormed(s) && |s.mem| == |s.bits| == FRAMES && Held(s, 512) && Mapped(s, 768)
  {
    hide WellFormed, NoUserPages, TablesSelfMapped;
    assert MapsItself(s, 0x400_0000, SCREEN, 768);
    assert Translate(s, 768) == Some(768);
  }

  lemma KernelIsNotOwn()
    ensures 512 !in OwnFrames(MEMORY_MAP)
  {
    MemoryMapFits();
  }

  lemma NothingFreedYet(i: nat, f: nat)
    requires i <= 6
    ensures !Freed(Program()[..i], f)
  {
  }

  lemma FarPageIsNeeded()
    ensures Path(FAR_PAGE) <= NeededTables()
  {
  }

  lemma ProgramIsPermitted(own: set<nat>, s: Space, i: nat)
    requires |s.mem| == |s.bits| == FRAMES && Held(s, 512) && Mapped(s, 768) && 512 !in own && i < |Program()|
    ensures Permitted(own, s, NeededTables(), Program(), i)
  {
    hide Held, Mapped, PageOf, NeededTables, Path, Freed;
    ProgramAddresses();
    FarPageIsNeeded();
    if i <= 6 {
      NothingFreedYet(i, 512);
    }
    assert MapsPage(Program()[2], FAR_PAGE);
  }

  lemma ProgramAddresses()
    ensures PageOf(0x30_0000) == 768 && PageOf(0x100_0000_0000) == FAR_PAGE && 0x20_0000 / 4096 == 512
    ensures 0x3f0_0000 / 4096 < FRAMES
  {
  }

  lemma ProgramDonates()
    ensures forall x: nat :: Donated(Program(), x) <==> x == 768 || x == FAR_PAGE
  {
    ProgramAddresses();
    assert Program()[3] in Program() && Program()[8] in Program();
  }

  // The program finds all it needs.
  lemma ProgramIsServed(mem: seq<seq<Entry>>)
    requires |mem| == FRAMES && forall f: nat :: f < FRAMES ==> |mem[f]| == 512
    ensures CanBoot(mem, SCREEN, MEMORY_MAP, KERNEL_START, KERNEL_PAGES)
    ensures AfterCalls(OwnFrames(MEMORY_MAP), BootsTo(mem, SCREEN, MEMORY_MAP, KERNEL_START, KERNEL_PAGES).value.space,
                       Program()).Some?
  {
    hide WellFormed, NeededTables, Covers, P.BootFits, P.BootLedger, P.TotalMemory, P.BitmapFrames, BootTo, Booted,
         Slack, AfterCalls, Demand, Permitted, OwnFrames, Held, Mapped;
    SmallMachineBoots(mem);
    var h := BootsTo(mem, SCREEN, MEMORY_MAP, KERNEL_START, KERNEL_PAGES).value;
    var taken := P.BootLedger(MEMORY_MAP, KERNEL_START, KERNEL_PAGES).bits;
    KernelIsTaken();
    BootedOffers(h.space, mem, taken, h.last);
    KernelIsNotOwn();
    TablesCover();
    ProgramDemands();
    forall i: nat | i < |Program()|
      ensures Permitted(OwnFrames(MEMORY_MAP), h.space, NeededTables(), Program(), i)
    {
      ProgramIsPermitted(OwnFrames(MEMORY_MAP), h.space, i);
    }
    BudgetSuffices(OwnFrames(MEMORY_MAP), h.space, NeededTables(), Program());
  }

  lemma KernelIsTaken()
    requires P.BootFits(MEMORY_MAP, KERNEL_START, KERNEL_PAGES)
    ensures var taken := P.BootLedger(MEMORY_MAP, KERNEL_START, KERNEL_PAGES).bits; 512 < |taken| && taken[512]
  {
    MemoryMapFits();
    P.BootTakesExactly(MEMORY_MAP, KERNEL_START, KERNEL_PAGES, 512);
  }

  // It boots and serves the program, and afterwards the two donated pages are open to user mode, and no others.
  method BootSmallMachine() returns (space: AddressSpace)
    ensures space.Valid()
    ensures forall x: nat :: x < PAGE_LIMIT ==>
              (UserAccessible(space.Snapshot(), x) <==> x == 768 || x == FAR_PAGE)
  {
    hide WellFormed, UserAccessible, CanBoot, BootsTo, AfterCalls, OwnFrames, Donated, Held;
    var pmm := new P.FrameAllocator();
    var frame := seq(512, _ => ZERO);
    space := new AddressSpace(pmm, seq(FRAMES, _ => frame));
    ProgramIsServed(space.mem);
    BootAndServe(space, SCREEN, MEMORY_MAP, KERNEL_START, KERNEL_PAGES, Program());
    ProgramDonates();
  }
}

// boot/kconf.cpp: `setup_paging`, and `configure_memory` with its loop that maps the heap.
module Boot {
  import opened Words
  import opened Ledger
  import opened PageEntry
  import opened PageTree
  import opened TableWrites
  import opened Translation
  import opened Mapping
  import opened Frames
  import opened Runs
  import opened Paging
  import opened BootMap
  import opened Access

  type uint16 = n: int | 0 <= n < 0x1_0000

  datatype Framebuffer = Framebuffer(address: uint64, width: uint16, height: uint16, bpp: uint16) {
    function Size(): nat { width * height * (bpp / 8) + 1024 }
    function FirstPage(): nat { address / 4096 }
    // The rounds of the loop over it.
    function Rounds(): nat { PagesOf(Size()) }
  }

  // The pages that hold so many bytes.
  function PagesOf(size: nat): nat { (size + 4095) / 4096 }

  // The addresses the framebuffer loop visits.
  function Visit(fb: Framebuffer, k: nat): int { fb.address + k * 0x1000 }

  // The pages it maps: from the first page of the framebuffer on, as many as pages of 4096 bytes hold its bytes and
  // 1024 more.
  predicate OnScreen(fb: Framebuffer, x: nat) {
    fb.address / 4096 <= x && (x - fb.address / 4096) * 4096 < fb.width * fb.height * (fb.bpp / 8) + 1024
  }

  lemma VisitedPage(fb: Framebuffer, k: nat)
    ensures Visit(fb, k) / 4096 == fb.FirstPage() + k
    ensures Visit(fb, k) < fb.address + fb.Size() <==> k < fb.Rounds()
  {
  }

  lemma ScreenRange(fb: Framebuffer, x: nat)
    ensures OnScreen(fb, x) <==> InRange(x, fb.FirstPage(), fb.Rounds())
  {
  }

  lemma IdentityAddress(a: uint64)
    requires a / 4096 < PAGE_LIMIT
    ensures PageOf(a) == FrameOf(a) == a / 4096
  {
  }

  // ----- setup_paging as a function -----

  ghost function SetupTo(mem: seq<seq<Entry>>, bits: seq<bool>, total: nat, fb: Framebuffer): Option<Space> {
    match RootTo(mem, bits)
    case None => None
    case Some(s) =>
      match IdentityTo(s, 0, PagesOf(total), false)
      case None => None
      case Some(m) => IdentityTo(m, fb.FirstPage(), fb.Rounds(), true)
  }

  function SetupPages(root: nat, total: nat, fb: Framebuffer): set<nat> {
    {root} + PageRange(0, PagesOf(total)) + PageRange(fb.FirstPage(), fb.Rounds())
  }

  lemma SetupBoots(mem: seq<seq<Entry>>, bits: seq<bool>, total: nat, fb: Framebuffer)
    requires Shape(Bare(mem, bits)) && SetupTo(mem, bits, total, fb).Some?
    ensures RootTo(mem, bits).Some?
    ensures var r := SetupTo(mem, bits, total, fb).value;
      && WellFormed(r) && BootState(r, SetupPages(r.root, total, fb))
      && |mem| == |r.mem| == |r.bits| <= PAGE_LIMIT
      && TakenAreHeld(Bare(mem, bits), r)
  {
    hide WellFormed, BootState, TakenAreHeld, RootTo, IdentityTo, Shape, PageRange;
    var s := RootTo(mem, bits).value;
    RootToBoots(mem, bits);
    var m := IdentityTo(s, 0, PagesOf(total), false).value;
    IdentityToBoots(s, 0, PagesOf(total), false, {s.root});
    IdentityToBoots(m, fb.FirstPage(), fb.Rounds(), true, {s.root} + PageRange(0, PagesOf(total)));
    TakenAreHeldTrans(Bare(mem, bits), s, m);
    TakenAreHeldTrans(Bare(mem, bits), m, SetupTo(mem, bits, total, fb).value);
    SameSizes(Bare(mem, bits), SetupTo(mem, bits, total, fb).value);
  }

  lemma SameSizes(s: Space, r: Space)
    requires WellFormed(r) && TakenAreHeld(s, r)
    ensures |s.mem| == |r.mem| == |r.bits| <= PAGE_LIMIT
  {
  }

  // Where page x goes when exactly memory, framebuffer and tables are mapped, each page to itself.
  ghost predicate MapsItself(s: Space, total: nat, fb: Framebuffer, x: nat) {
    Translate(s, x) == if x * 4096 < total || OnScreen(fb, x) || IsTableFrame(s, x) then Some(x) else None
  }

  lemma SetupMaps(s: Space, root: nat, total: nat, fb: Framebuffer)
    requires BootState(s, SetupPages(root, total, fb)) && IsTableFrame(s, root)
    ensures forall x: nat :: x < PAGE_LIMIT ==> MapsItself(s, total, fb, x)
    ensures total <= 4096 * PAGE_LIMIT && forall x: nat :: OnScreen(fb, x) ==> x < PAGE_LIMIT
  {
    hide WellFormed, NoUserPages, IsTableFrame, OnScreen, Mapped;
    var pages := SetupPages(root, total, fb);
    forall x: nat
      ensures x in pages <==> x == root || x * 4096 < total || OnScreen(fb, x)
    {
      ScreenRange(fb, x);
    }
    assert PAGE_LIMIT !in pages && forall x: nat :: OnScreen(fb, x) ==> x in pages;
    forall x: nat | x < PAGE_LIMIT
      ensures MapsItself(s, total, fb, x)
    {
      assert Translate(s, x).Some? <==> Mapped(s, x);
    }
  }

  lemma RootIsTable(s: Space)
    ensures IsTableFrame(s, s.root)
  {
    assert IsTable(s, ROOT) && TableFrame(s, ROOT) == s.root;
  }

  // Every page that setup_paging maps can be written to.
  lemma SetupWritable(s0: Space, total: nat, fb: Framebuffer)
    requires Shape(s0) && SetupTo(s0.mem, s0.bits, total, fb).Some?
    ensures AllWritable(SetupTo(s0.mem, s0.bits, total, fb).value)
  {
    hide WellFormed, RootTo, IdentityTo, AllWritable;
    RootToAccess(s0.mem, s0.bits, 0);
    var s := RootTo(s0.mem, s0.bits).value;
    IdentityToKeepsWritable(s, 0, PagesOf(total), false);
    var m := IdentityTo(s, 0, PagesOf(total), false).value;
    IdentityToKeepsWritable(m, fb.FirstPage(), fb.Rounds(), true);
  }

  // Framebuffer pages above all frames have caching index 1, all other pages index 0.
  lemma SetupCaches(s0: Space, total: nat, fb: Framebuffer, x: nat)
    requires Shape(s0) && SetupTo(s0.mem, s0.bits, total, fb).Some? && x < PAGE_LIMIT
    requires Mapped(SetupTo(s0.mem, s0.bits, total, fb).value, x)
    ensures var r := SetupTo(s0.mem, s0.bits, total, fb).value;
      && (OnScreen(fb, x) && x >= |s0.mem| ==> PatIndex(r, x) == 1)
      && (!OnScreen(fb, x) ==> PatIndex(r, x) == 0)
  {
    hide WellFormed, RootTo, IdentityTo, AllWritable, Mapped, PatIndex, OnScreen, InRange, BootState, TakenAreHeld;
    RootToAccess(s0.mem, s0.bits, x);
    RootToBoots(s0.mem, s0.bits);
    var s := RootTo(s0.mem, s0.bits).value;
    var m := IdentityTo(s, 0, PagesOf(total), false).value;
    IdentityToKeepsWritable(s, 0, PagesOf(total), false);
    IdentitySize(s, 0, PagesOf(total), false);
    ScreenRange(fb, x);
    IdentityToCaches(m, fb.FirstPage(), fb.Rounds(), true, x);
    if Mapped(m, x) {
      IdentityToCaches(s, 0, PagesOf(total), false, x);
    }
  }

  // ----- setup_paging -----

  // The root table is requested, zeroed and mapped to itself.
  method SetupRoot(space: AddressSpace)
    requires space.pmm.Valid() && Accounts(space.pmm.View()) && Shape(space.Snapshot())
    requires RootTo(space.mem, space.pmm.pageBitmapMap.bits).Some?
    modifies space, space.pmm, space.pmm.pageBitmapMap`bits, space.pmm.pageBitmapMap.buffer
    ensures space.Valid() && space.pmm.SameSetup()
    ensures Some(space.Snapshot()) == RootTo(old(space.mem), old(space.pmm.pageBitmapMap.bits))
    ensures BootState(space.Snapshot(), {space.pml4 / 4096})
    ensures TakenAreHeld(old(space.Snapshot()), space.Snapshot())
  {
    hide WellFormed, Maps, BootState, Accounts, IsTableFrame, TakenAreHeld, Reaches, MapTo, LinksWritable,
         WritablePage, PatIndex;
    ghost var s, before, mem, bits := space.Snapshot(), space.pmm.View(), space.mem, space.pmm.pageBitmapMap.bits;
    RootToBoots(mem, bits);
    BareIsEnough(s, RootTo(mem, bits).value);
    ghost var f := FirstClear(bits).value;
    RootTableIsEmpty(mem, bits, f);
    space.pml4 := space.pmm.RequestPage();
    var root := space.pml4 / 4096;
    BookKeepsAccounts(before, root, AsUsed);
    space.mem := space.mem[root := Zeros()];
    space.tree := map[];
    assert space.Snapshot() == RootTable(mem, bits, root);
    FrameAddress(root);
    space.MapMemory(space.pml4, space.pml4, false);
  }

  // What was there before the root does not depend on the old tables.
  lemma BareIsEnough(s: Space, r: Space)
    requires TakenAreHeld(Bare(s.mem, s.bits), r)
    ensures TakenAreHeld(s, r)
  {
  }

  // The loop over all memory: afterwards every page below `total` is mapped to itself.
  method MapAllMemory(space: AddressSpace, total: uint64, ghost start: set<nat>)
    requires space.Valid() && IdentityTo(space.Snapshot(), 0, PagesOf(total), false).Some?
    requires BootState(space.Snapshot(), start)
    modifies space, space.pmm, space.pmm.pageBitmapMap`bits, space.pmm.pageBitmapMap.buffer
    ensures space.Valid() && space.pmm.SameSetup() && space.pml4 == old(space.pml4)
    ensures Some(space.Snapshot()) == IdentityTo(old(space.Snapshot()), 0, PagesOf(total), false)
    ensures BootState(space.Snapshot(), start + PageRange(0, PagesOf(total)))
    ensures LeavesHeld(old(space.Snapshot()), space.Snapshot())
  {
    hide WellFormed, Maps, BootState, Accounts, LeavesHeld, Reaches, MapTo, IdentityTo, PageRange, LinksWritable,
         WritablePage, PatIndex;
    ghost var s, n := space.Snapshot(), PagesOf(total);
    IdentityToBoots(s, 0, n, false, start);
    NoIdentity(s, 0, false);
    var t := 0;
    ghost var k := 0;
    while t < total
      invariant t == 4096 * k && k <= n
      invariant space.Valid() && space.pmm.SameSetup() && space.pml4 == old(space.pml4)
      invariant IdentityTo(s, 0, k, false) == Some(space.Snapshot())
    {
      IdentityToStep(s, 0, k, n, false);
      IdentityAddress(t);
      space.MapMemory(t, t, false);
      t := t + 0x1000;
      k := k + 1;
    }
  }

  lemma NoIdentity(s: Space, first: nat, quickwrite: bool)
    ensures IdentityTo(s, first, 0, quickwrite) == Some(s)
  {
  }

  // The loop over the framebuffer: afterwards every page it visited is mapped to itself.
  method MapFramebuffer(space: AddressSpace, fb: Framebuffer, ghost start: set<nat>)
    requires space.Valid() && IdentityTo(space.Snapshot(), fb.FirstPage(), fb.Rounds(), true).Some?
    requires BootState(space.Snapshot(), start)
    modifies space, space.pmm, space.pmm.pageBitmapMap`bits, space.pmm.pageBitmapMap.buffer
    ensures space.Valid() && space.pmm.SameSetup() && space.pml4 == old(space.pml4)
    ensures Some(space.Snapshot()) == IdentityTo(old(space.Snapshot()), fb.FirstPage(), fb.Rounds(), true)
    ensures BootState(space.Snapshot(), start + PageRange(fb.FirstPage(), fb.Rounds()))
    ensures LeavesHeld(old(space.Snapshot()), space.Snapshot())
  {
    hide WellFormed, Maps, BootState, Accounts, LeavesHeld, Reaches, MapTo, IdentityTo, PageRange, LinksWritable,
         WritablePage, PatIndex;
    ghost var s, first, n := space.Snapshot(), fb.FirstPage(), fb.Rounds();
    IdentityToBoots(s, first, n, true, start);
    NoIdentity(s, first, true);
    var base, size := fb.address, fb.Size();
    var t := base;
    ghost var k := 0;
    VisitedPage(fb, k);
    while t < base + size
      invariant t == Visit(fb, k) && k <= n
      invariant t < base + size <==> k < n
      invariant space.Valid() && space.pmm.SameSetup() && space.pml4 == old(space.pml4)
      invariant IdentityTo(s, first, k, true) == Some(space.Snapshot())
      decreases base + size - t
    {
      IdentityToStep(s, first, k, n, true);
      VisitedPage(fb, k);
      FramebufferAddress(t);
      IdentityAddress(t);
      space.MapMemory(t, t, true);
      t := t + 0x1000;
      k := k + 1;
      VisitedPage(fb, k);
    }
  }

  lemma FramebufferAddress(t: int)
    requires 0 <= t / 4096 < PAGE_LIMIT
    ensures 0 <= t < TWO64
  {
  }

  // The memory size is the one that `initialize` left in the memo of `get_total_memory_size`.
  method SetupPaging(space: AddressSpace, framebuffer: Framebuffer)
    requires space.pmm.Valid() && Accounts(space.pmm.View()) && Shape(space.Snapshot())
    requires space.pmm.memorySizeBytes > 0
    requires SetupTo(space.mem, space.pmm.pageBitmapMap.bits, space.pmm.memorySizeBytes, framebuffer).Some?
    modifies space, space.pmm, space.pmm.pageBitmapMap`bits, space.pmm.pageBitmapMap.buffer
    ensures space.Valid() && space.pmm.SameSetup()
    ensures Some(space.Snapshot())
         == SetupTo(old(space.mem), old(space.pmm.pageBitmapMap.bits), space.pmm.memorySizeBytes, framebuffer)
    ensures BootState(space.Snapshot(), SetupPages(space.pml4 / 4096, space.pmm.memorySizeBytes, framebuffer))
    ensures TakenAreHeld(old(space.Snapshot()), space.Snapshot())
    ensures forall x: nat :: x < PAGE_LIMIT ==>
              MapsItself(space.Snapshot(), space.pmm.memorySizeBytes, framebuffer, x)
    ensures AllWritable(space.Snapshot())
  {
    hide WellFormed, Accounts, BootState, LeavesHeld, TakenAreHeld, IdentityTo, RootTo, Shape, PageRange, Translate,
         IsTableFrame, MapsItself, AllWritable;
    ghost var s0 := space.Snapshot();
    SetupWritable(s0, space.pmm.memorySizeBytes, framebuffer);
    SetupRoot(space);
    ghost var s1 := space.Snapshot();
    var total := space.pmm.GetTotalMemorySize([]);
    MapAllMemory(space, total, {space.pml4 / 4096});
    ghost var s2 := space.Snapshot();
    MapFramebuffer(space, framebuffer, {space.pml4 / 4096} + PageRange(0, PagesOf(total)));
    TakenAreHeldTrans(s0, s1, s2);
    TakenAreHeldTrans(s0, s2, space.Snapshot());
    RootIsTable(space.Snapshot());
    SetupMaps(space.Snapshot(), space.pml4 / 4096, total, framebuffer);
  }

  // ----- the heap loop of configure_memory -----

  // The source resets `pos` on every iteration, so all 256 frames are mapped, one after the other,
  // to the same page: only the last one stays mapped.
  method MapHeap(space: AddressSpace) returns (ghost last: nat)
    requires space.Valid() && HeapTo(space.Snapshot(), 0x100).Some?
    modifies space, space.pmm, space.pmm.pageBitmapMap`bits, space.pmm.pageBitmapMap.buffer
    ensures space.Valid() && space.pmm.SameSetup()
    ensures HeapTo(old(space.Snapshot()), 0x100) == Some(Heaped(space.Snapshot(), last))
    ensures Pinned(old(space.Snapshot()), space.Snapshot(), HEAP_PAGE, Some(last))
    ensures Obtains(old(space.Snapshot()), space.Snapshot(), last)
    ensures LeavesHeld(old(space.Snapshot()), space.Snapshot())
    ensures NoUserPages(old(space.Snapshot())) ==> NoUserPages(space.Snapshot())
  {
    hide WellFormed, Accounts, Pinned, Maps, IsTableFrame, Translate, Obtains, LeavesHeld, NoUserPages, Reaches, MapTo,
         HeapTo, HeapRound, LinksWritable, WritablePage, PatIndex;
    ghost var s := space.Snapshot();
    HeapToPins(s, 0x100);
    NoHeap(s);
    last := 0;
    for t := 0 to 0x100
      invariant space.Valid() && space.pmm.SameSetup()
      invariant HeapTo(s, t) == Some(Heaped(space.Snapshot(), last))
    {
      HeapToStep(s, t, 0x100);
      last := HeapTo(s, t + 1).value.last;
      var pos := HEAP_ADDRESS;
      var page := space.RequestPage();
      FrameAddress(last);
      space.MapMemory(pos, page, false);
      pos := pos + 0x1000;
    }
  }

  lemma NoHeap(s: Space)
    ensures HeapTo(s, 0) == Some(Heaped(s, 0))
  {
  }

  // ----- configure_memory -----

  // The frames of the bitmap cover the memory it was sized for.
  lemma BitmapCoversMemory(total: uint64)
    ensures total <= 4096 * P.BitmapFrames(total)
  {
  }

  ghost predicate FreshGlobals(pmm: P.FrameAllocator)
    reads pmm
  {
    !pmm.initialized && pmm.memorySizeBytes == 0 && pmm.usedMemorySize == 0 && pmm.reservedMemorySize == 0
  }

  // What holds once the memory is configured: the first heap page shows the last frame of the heap loop, and apart
  // from it exactly memory, framebuffer and tables are mapped, each page to itself.
  ghost predicate Configured(s: Space, total: uint64, fb: Framebuffer, last: nat) {
    && Translate(s, HEAP_PAGE) == Some(last)
    && forall x: nat :: x < PAGE_LIMIT && x != HEAP_PAGE ==> MapsItself(s, total, fb, x)
  }

  lemma ConfiguredAfterHeap(s: Space, r: Space, total: uint64, fb: Framebuffer, last: nat)
    requires Pinned(s, r, HEAP_PAGE, Some(last))
    requires forall x: nat :: x < PAGE_LIMIT ==> MapsItself(s, total, fb, x)
    ensures Configured(r, total, fb, last)
  {
    hide Mapped, OnScreen, IsTableFrame;
    forall x: nat | x < PAGE_LIMIT && x != HEAP_PAGE
      ensures MapsItself(r, total, fb, x)
    {
      assert MapsItself(s, total, fb, x);
      assert Translate(r, x) == if IsNewTable(s, r, x) then Some(x) else Translate(s, x);
      assert IsTableFrame(s, x) ==> IsTableFrame(r, x);
    }
  }

  // In the kernel's own addresses: the heap begins at 0xffff_8000_0000_0000, and behind its first page nothing is
  // mapped unless memory or framebuffer reach that far.
  lemma HeapAfterBoot(s: Space, total: uint64, fb: Framebuffer, last: nat)
    requires WellFormed(s) && Configured(s, total, fb, last)
    ensures Translate(s, PageOf(0xffff_8000_0000_0000)) == Some(last)
    ensures |s.bits| <= 0x8_0000_0000 && total <= 0x8000_0000_0000
            && fb.address + fb.width * fb.height * (fb.bpp / 8) + 1024 <= 0x8000_0000_0000 ==>
              forall x: nat :: 0x8_0000_0000 < x < PAGE_LIMIT ==> Translate(s, x) == None
  {
    hide WellFormed, Translate;
    if |s.bits| <= 0x8_0000_0000 && total <= 0x8000_0000_0000
       && fb.address + fb.width * fb.height * (fb.bpp / 8) + 1024 <= 0x8000_0000_0000 {
      forall x: nat | 0x8_0000_0000 < x < PAGE_LIMIT
        ensures Translate(s, x) == None
      {
        assert MapsItself(s, total, fb, x);
        if IsTableFrame(s, x) {
          TableFramesArePages(s, x);
        }
      }
    }
  }

  lemma HeapKeepsSelfMap(s: Space, r: Space, pages: set<nat>, last: nat)
    requires WellFormed(r) && BootState(s, pages) && Pinned(s, r, HEAP_PAGE, Some(last))
    requires !IsTableFrame(r, HEAP_PAGE)
    ensures TablesSelfMapped(r)
  {
    hide WellFormed, NoUserPages, Translate;
    forall f: nat | IsTableFrame(r, f)
      ensures Translate(r, f) == Some(f)
    {
      TableFramesArePages(r, f);
    }
  }

  // The state that `configure_memory` leaves: a sound tree of identity mappings and one heap page, all writable,
  // nothing open to user mode, and every frame booked at boot held and untouched. The heap page shows a frame that was
  // free.
  ghost predicate Booted(s: Space, start: seq<seq<Entry>>, taken: seq<bool>, total: uint64, fb: Framebuffer,
                         last: nat) {
    && WellFormed(s)
    && Configured(s, total, fb, last)
    && NoUserPages(s) && AllWritable(s)
    && (!IsTableFrame(s, HEAP_PAGE) ==> TablesSelfMapped(s))
    && TakenAreHeld(Bare(start, taken), s)
    && last < |taken| && !taken[last] && Held(s, last)
  }

  lemma BootedAfterHeap(s0: Space, s: Space, r: Space, pages: set<nat>, total: uint64, fb: Framebuffer, last: nat)
    requires WellFormed(r) && Configured(r, total, fb, last) && BootState(s, pages)
    requires (NoUserPages(s) ==> NoUserPages(r)) && AllWritable(r)
    requires Pinned(s, r, HEAP_PAGE, Some(last)) && Obtains(s, r, last)
    requires s0 == Bare(s0.mem, s0.bits) && TakenAreHeld(s0, s) && LeavesHeld(s, r)
    ensures Booted(r, s0.mem, s0.bits, total, fb, last)
  {
    hide WellFormed, Configured, NoUserPages, TablesSelfMapped, Pinned, LeavesHeld, AllWritable;
    TakenAreHeldTrans(s0, s, r);
    if !IsTableFrame(r, HEAP_PAGE) {
      HeapKeepsSelfMap(s, r, pages, last);
    }
    ClearWasClear(s0, s, last);
  }

  // The whole of it as a function of memory and bitmap.
  ghost function BootTo(mem: seq<seq<Entry>>, bits: seq<bool>, total: nat, fb: Framebuffer): Option<Heaped> {
    match SetupTo(mem, bits, total, fb)
    case None => None
    case Some(s) => HeapTo(s, 0x100)
  }

  lemma BootToBoots(mem: seq<seq<Entry>>, bits: seq<bool>, total: uint64, fb: Framebuffer)
    requires Shape(Bare(mem, bits)) && BootTo(mem, bits, total, fb).Some?
    ensures var h := BootTo(mem, bits, total, fb).value; Booted(h.space, mem, bits, total, fb, h.last)
  {
    hide WellFormed, BootState, Pinned, Configured, MapsItself, OnScreen, Translate, IsTableFrame, AllWritable,
         TablesSelfMapped, TakenAreHeld, LeavesHeld, NoUserPages, Obtains, Booted, SetupTo, HeapTo, SetupPages, Shape;
    var s, h := SetupTo(mem, bits, total, fb).value, BootTo(mem, bits, total, fb).value;
    SetupBoots(mem, bits, total, fb);
    SetupWritable(Bare(mem, bits), total, fb);
    HeapToAccess(s, 0x100, 0);
    RootIsTable(s);
    SetupMaps(s, s.root, total, fb);
    HeapToPins(s, 0x100);
    ConfiguredAfterHeap(s, h.space, total, fb, h.last);
    BootedAfterHeap(Bare(mem, bits), s, h.space, SetupPages(s.root, total, fb), total, fb, h.last);
  }

  // After boot, too, the framebuffer alone is cached differently.
  lemma BootCaches(mem: seq<seq<Entry>>, bits: seq<bool>, total: uint64, fb: Framebuffer, x: nat)
    requires Shape(Bare(mem, bits)) && BootTo(mem, bits, total, fb).Some? && x < PAGE_LIMIT
    requires Mapped(BootTo(mem, bits, total, fb).value.space, x)
    ensures var r := BootTo(mem, bits, total, fb).value.space;
      && (OnScreen(fb, x) && x >= |mem| && x != HEAP_PAGE ==> PatIndex(r, x) == 1)
      && (!OnScreen(fb, x) || x == HEAP_PAGE ==> PatIndex(r, x) == 0)
  {
    hide WellFormed, Mapped, PatIndex, OnScreen, SetupTo, HeapTo, BootState, TakenAreHeld, AllWritable, Shape;
    SetupBoots(mem, bits, total, fb);
    HeapToAccess(SetupTo(mem, bits, total, fb).value, 0x100, x);
    if Mapped(SetupTo(mem, bits, total, fb).value, x) {
      SetupCaches(Bare(mem, bits), total, fb, x);
    }
  }

  // Boot takes one frame for the root, those of the heap loop, and the tables; with so many it succeeds.
  lemma BootToServes(mem: seq<seq<Entry>>, bits: seq<bool>, total: nat, fb: Framebuffer, needed: set<Node>)
    requires Shape(Bare(mem, bits)) && total <= 4096 * |mem| && fb.FirstPage() + fb.Rounds() <= PAGE_LIMIT
    requires Covers(needed, |mem|) && Path(HEAP_PAGE) <= needed
    requires forall x: nat :: fb.FirstPage() <= x < fb.FirstPage() + fb.Rounds() ==> Path(x) <= needed
    ensures BootTo(mem, bits, total, fb).Some? ==>
              Slack(BootTo(mem, bits, total, fb).value.space, needed) == ClearCount(bits) - 1 - |needed| - 0x100
    ensures ClearCount(bits) >= 1 + |needed| + 0x100 ==> BootTo(mem, bits, total, fb).Some?
  {
    hide WellFormed, Covers, Path, Slack, RootTo, IdentityTo, HeapTo, Shape, BootState, TakenAreHeld, ClearCount;
    MemorySize(mem, bits);
    RootToServes(mem, bits, needed);
    if RootTo(mem, bits).Some? {
      RootToBoots(mem, bits);
      var s := RootTo(mem, bits).value;
      forall x: nat | x < PagesOf(total)
        ensures Path(x) <= needed
      {
        CoversPath(needed, |mem|, x);
      }
      IdentityToServes(s, 0, PagesOf(total), false, needed);
      if IdentityTo(s, 0, PagesOf(total), false).Some? {
        var m := IdentityTo(s, 0, PagesOf(total), false).value;
        IdentityToServes(m, fb.FirstPage(), fb.Rounds(), true, needed);
        if SetupTo(mem, bits, total, fb).Some? {
          HeapToServes(SetupTo(mem, bits, total, fb).value, 0x100, needed);
        }
      }
    }
  }

  lemma MemorySize(mem: seq<seq<Entry>>, bits: seq<bool>)
    requires Shape(Bare(mem, bits))
    ensures |mem| == |bits| <= PAGE_LIMIT
  {
  }

  // What the boot code needs of the machine: the ranges it books lie inside the bitmap, and it finds a clear frame
  // for the root, for every table it links, and for every round of the heap loop.
  ghost predicate CanBoot(mem: seq<seq<Entry>>, fb: Framebuffer, memoryMap: seq<P.MmapEntry>,
                          kernelStart: uint64, kernelPages: uint64) {
    && P.BootFits(memoryMap, kernelStart, kernelPages) && P.TotalMemory(memoryMap) > 0
    && |mem| == P.BitmapFrames(P.TotalMemory(memoryMap)) <= PAGE_LIMIT
    && (forall f: nat :: f < |mem| ==> |mem[f]| == 512)
    && BootsTo(mem, fb, memoryMap, kernelStart, kernelPages).Some?
  }

  ghost function BootsTo(mem: seq<seq<Entry>>, fb: Framebuffer, memoryMap: seq<P.MmapEntry>,
                         kernelStart: uint64, kernelPages: uint64): Option<Heaped>
    requires P.BootFits(memoryMap, kernelStart, kernelPages)
  {
    BootTo(mem, P.BootLedger(memoryMap, kernelStart, kernelPages).bits, P.TotalMemory(memoryMap), fb)
  }

  // The state after boot, by the laws of its parts.
  lemma BootedState(mem: seq<seq<Entry>>, fb: Framebuffer, memoryMap: seq<P.MmapEntry>,
                    kernelStart: uint64, kernelPages: uint64)
    requires CanBoot(mem, fb, memoryMap, kernelStart, kernelPages)
    ensures var h := BootsTo(mem, fb, memoryMap, kernelStart, kernelPages).value;
      Booted(h.space, mem, P.BootLedger(memoryMap, kernelStart, kernelPages).bits, P.TotalMemory(memoryMap), fb, h.last)
  {
    hide BootTo, Booted, P.BootFits, P.TotalMemory;
    BitmapCoversMemory(P.TotalMemory(memoryMap));
    BootToBoots(mem, P.BootLedger(memoryMap, kernelStart, kernelPages).bits, P.TotalMemory(memoryMap), fb);
  }

  // The kernel's memory configuration, on globals that are still zero.
  method ConfigureMemory(space: AddressSpace, framebuffer: Framebuffer, memoryMap: seq<P.MmapEntry>,
                         kernelStart: uint64, kernelPages: uint64)
    returns (ghost last: nat)
    requires space.pmm.Valid() && FreshGlobals(space.pmm)
    requires CanBoot(space.mem, framebuffer, memoryMap, kernelStart, kernelPages)
    modifies space, space.pmm, space.pmm.pageBitmapMap
    ensures space.Valid() && fresh(space.pmm.pageBitmapMap.buffer)
    ensures BootsTo(old(space.mem), framebuffer, memoryMap, kernelStart, kernelPages)
         == Some(Heaped(space.Snapshot(), last))
    ensures Booted(space.Snapshot(), old(space.mem), P.BootLedger(memoryMap, kernelStart, kernelPages).bits,
                   P.TotalMemory(memoryMap), framebuffer, last)
  {
    hide WellFormed, Accounts, BootState, P.BootLedger, P.BootFits, P.TotalMemory, TakenAreHeld, LeavesHeld,
         NoUserPages, Obtains, Pinned, Booted, SetupTo, HeapTo, Translate, OnScreen, MapsItself, AllWritable;
    BootedState(space.mem, framebuffer, memoryMap, kernelStart, kernelPages);
    P.BootAccounts(memoryMap, kernelStart, kernelPages);
    space.pmm.Initialize(memoryMap, kernelStart, kernelPages);
    SetupPaging(space, framebuffer);
    last := MapHeap(space);
  }
}

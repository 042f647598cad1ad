// From an empty machine to any number of calls: the boot code of kconf.cpp, then callers at work.
module Kernel {
  import opened Words
  import opened Ledger
  import opened PageEntry
  import opened PageTree
  import opened Translation
  import opened Frames
  import opened Runs
  import opened Paging
  import opened Boot
  import opened BootMap
  import opened Execution
  import opened Service
  import opened Access

  // The frames booked for the bitmap. `OwnPagesHoldBitmap` in Pmm.dfy says when they hold all of it.
  function OwnFrames(memoryMap: seq<P.MmapEntry>): set<nat> {
    set i: nat | i < P.OwnFirst(memoryMap) + P.OwnPages(memoryMap)
      && P.InRange(i, P.OwnFirst(memoryMap), P.OwnPages(memoryMap))
  }

  lemma OwnFramesAreTaken(memoryMap: seq<P.MmapEntry>, kernelStart: uint64, kernelPages: uint64, f: nat)
    requires P.BootFits(memoryMap, kernelStart, kernelPages) && f in OwnFrames(memoryMap)
    ensures var taken := P.BootLedger(memoryMap, kernelStart, kernelPages).bits; f < |taken| && taken[f]
  {
    P.BootTakesExactly(memoryMap, kernelStart, kernelPages, f);
  }

  // They hold every byte of the bitmap exactly when its base and size do not run over a page together.
  lemma OwnFramesHoldBitmap(memoryMap: seq<P.MmapEntry>)
    ensures var base, size := P.LargestUsable(memoryMap).base, P.TotalMemory(memoryMap) / 32768 + 1;
      (forall k: nat :: k < size ==> P.FrameAt(base, k) in OwnFrames(memoryMap)) <==> base % 4096 + size % 4096 <= 4096
  {
    hide P.LargestUsable, P.TotalMemory;
    assert P.TotalMemory(memoryMap) / 4096 / 8 == P.TotalMemory(memoryMap) / 32768;
    P.OwnPagesHoldBitmap(memoryMap);
    assert forall i: nat :: i in OwnFrames(memoryMap) <==> P.IsBitmapPage(i, memoryMap);
  }

  // In every state of every run after boot, every page that is mapped can be written to.
  lemma MappedPagesAreWritable(own: set<nat>, states: seq<Space>, steps: seq<Step>, k: nat, x: nat,
                               start: seq<seq<Entry>>, taken: seq<bool>, total: uint64, fb: Framebuffer, last: nat)
    requires Run(own, states, steps) && k < |states| && x < PAGE_LIMIT
    requires Booted(states[0], start, taken, total, fb, last)
    ensures WritablePage(states[k], x) <==> Mapped(states[k], x)
  {
    hide WellFormed, Configured, TakenAreHeld, NoUserPages, Steps, LinksWritable, IsTableFrame, TablesSelfMapped;
    RunKeepsWritable(own, states, steps, k);
  }

  // In every state of every run after boot, the pages open to user mode are exactly those donated so far.
  lemma UserModeSeesDonatedPages(own: set<nat>, states: seq<Space>, steps: seq<Step>, k: nat, x: nat,
                                 start: seq<seq<Entry>>, taken: seq<bool>, total: uint64, fb: Framebuffer, last: nat)
    requires Run(own, states, steps) && k < |states| && x < PAGE_LIMIT
    requires Booted(states[0], start, taken, total, fb, last)
    ensures UserAccessible(states[k], x) <==> exists j: nat :: j < k && steps[j] == DonatePage(x)
  {
    hide WellFormed, Configured, TakenAreHeld, UserAccessible, Steps;
    UserPagesAreDonated(own, states, steps, k, x);
  }

  // A frame booked at boot stays out of the page tables over any run that does not free it; one that
  // holds the bitmap is not even written.
  lemma BootFramesAreLeftAlone(own: set<nat>, states: seq<Space>, steps: seq<Step>, k: nat, f: nat,
                               start: seq<seq<Entry>>, taken: seq<bool>, total: uint64, fb: Framebuffer, last: nat)
    requires Run(own, states, steps) && k < |states| && f < |taken| && taken[f]
    requires Booted(states[0], start, taken, total, fb, last)
    requires f in own || forall i: nat :: i < k ==> steps[i] != FreeFrame(f)
    ensures Held(states[k], f)
    ensures f in own ==> f < |start| == |states[k].mem| && states[k].mem[f] == start[f]
  {
    hide WellFormed, Configured, NoUserPages, TablesSelfMapped, Steps;
    assert Held(states[0], f);
    if f in own {
      OwnFramesAreLeftAlone(own, states, steps, k, f);
    } else {
      HeldFramesAreLeftAlone(own, states, steps, 0, k, f);
    }
  }

  // The kernel boots and serves its callers, as long as each call finds what it needs in the state that the boot code
  // and the calls before it have left. Only what was donated is open to user mode, and the frames booked for the
  // bitmap are as the boot code found them.
  method BootAndServe(space: AddressSpace, framebuffer: Framebuffer, memoryMap: seq<P.MmapEntry>,
                      kernelStart: uint64, kernelPages: uint64, calls: seq<Call>)
    requires space.pmm.Valid() && FreshGlobals(space.pmm)
    requires CanBoot(space.mem, framebuffer, memoryMap, kernelStart, kernelPages)
    requires AfterCalls(OwnFrames(memoryMap),
                        BootsTo(space.mem, framebuffer, memoryMap, kernelStart, kernelPages).value.space,
                        calls).Some?
    modifies space, space.pmm, space.pmm.pageBitmapMap
    ensures space.Valid()
    ensures space.Snapshot()
         == AfterCalls(OwnFrames(memoryMap),
                       BootsTo(old(space.mem), framebuffer, memoryMap, kernelStart, kernelPages).value.space,
                       calls).value.space
    ensures forall x: nat :: x < PAGE_LIMIT ==> (UserAccessible(space.Snapshot(), x) <==> Donated(calls, x))
    ensures AllWritable(space.Snapshot())
    ensures forall f :: f in OwnFrames(memoryMap) ==>
              Held(space.Snapshot(), f) && f < |space.mem| == old(|space.mem|) && space.mem[f] == old(space.mem)[f]
  {
    hide WellFormed, Accounts, P.BootLedger, P.BootFits, UserAccessible, Booted, BootTo, AfterCalls, Donated,
         OwnFrames, Held, IsRunOf, AllWritable;
    ghost var own, start := OwnFrames(memoryMap), space.mem;
    ghost var last := ConfigureMemory(space, framebuffer, memoryMap, kernelStart, kernelPages);
    ghost var s := space.Snapshot();
    PerformAll(space, calls, own);
    ServedWritable(own, calls, s, start, P.BootLedger(memoryMap, kernelStart, kernelPages).bits,
                   P.TotalMemory(memoryMap), framebuffer, last);
    ghost var r := space.Snapshot();
    forall x: nat | x < PAGE_LIMIT
      ensures UserAccessible(r, x) <==> Donated(calls, x)
    {
      BootedOpensNothing(s, start, P.BootLedger(memoryMap, kernelStart, kernelPages).bits,
                         P.TotalMemory(memoryMap), framebuffer, last, x);
      CallsOpenDonatedPages(own, s, calls, x);
    }
    forall f | f in own
      ensures Held(r, f) && f < |start| == |r.mem| && r.mem[f] == start[f]
    {
      OwnFramesAreTaken(memoryMap, kernelStart, kernelPages, f);
      ServedFrame(own, calls, s, f, start, P.BootLedger(memoryMap, kernelStart, kernelPages).bits,
                  P.TotalMemory(memoryMap), framebuffer, last);
    }
  }

  lemma BootedOpensNothing(s: Space, start: seq<seq<Entry>>, taken: seq<bool>, total: uint64, fb: Framebuffer,
                           last: nat, x: nat)
    requires Booted(s, start, taken, total, fb, last) && x < PAGE_LIMIT
    ensures WellFormed(s) && UserPathsOpen(s) && !UserAccessible(s, x)
  {
  }

  lemma ServedWritable(own: set<nat>, calls: seq<Call>, s: Space,
                       start: seq<seq<Entry>>, taken: seq<bool>, total: uint64, fb: Framebuffer, last: nat)
    requires AfterCalls(own, s, calls).Some? && Booted(s, start, taken, total, fb, last)
    ensures AllWritable(AfterCalls(own, s, calls).value.space)
  {
    hide WellFormed, Configured, NoUserPages, TablesSelfMapped, Steps, AfterCalls, TakenAreHeld, AllWritable;
    CallsAreRun(own, s, calls);
    var t := AfterCalls(own, s, calls).value;
    RunKeepsWritable(own, t.states, t.steps, |t.steps|);
  }

  lemma ServedFrame(own: set<nat>, calls: seq<Call>, s: Space, f: nat,
                    start: seq<seq<Entry>>, taken: seq<bool>, total: uint64, fb: Framebuffer, last: nat)
    requires AfterCalls(own, s, calls).Some? && f in own && f < |taken| && taken[f]
    requires Booted(s, start, taken, total, fb, last)
    ensures var r := AfterCalls(own, s, calls).value.space;
      Held(r, f) && f < |start| == |r.mem| && r.mem[f] == start[f]
  {
    hide WellFormed, Configured, NoUserPages, TablesSelfMapped, Steps, AfterCalls, TakenAreHeld;
    CallsAreRun(own, s, calls);
    var t := AfterCalls(own, s, calls).value;
    BootFramesAreLeftAlone(own, t.states, t.steps, |t.steps|, f, start, taken, total, fb, last);
  }
}

// Callers at work: what any list of calls to the allocator and the page tables does, as a function, and the
// operations of `AddressSpace` doing it. The function is undefined only where a call does not find what it needs
// in the very state that the calls before it have left.
module Execution {
  import opened Words
  import opened Ledger
  import opened PageEntry
  import opened PageTree
  import opened Translation
  import opened TableWrites
  import opened Mapping
  import opened Frames
  import opened Runs
  import opened Batches
  import opened Paging

  datatype Call =
    | RequestCall
    | RequestPagesCall(count: uint64)
    | LockCall(address: uint64)
    | FreeCall(address: uint64)
    | WriteCall(frame: nat, contents: seq<Entry>)
    | MapCall(virtualMemory: uint64, physicalMemory: uint64, quickwrite: bool)
    | DonateCall(virtualAddress: uint64)

  // The state in which calls leave the address space, and the run that leads there.
  datatype Trace = Trace(space: Space, states: seq<Space>, steps: seq<Step>)

  function NoStep(s: Space): Trace { Trace(s, [s], []) }

  function OneStep(s: Space, step: Step, r: Space): Trace { Trace(r, [s, r], [step]) }

  // ----- calls as functions -----

  // A call is undefined where `map_memory` would not find a clear frame for a table, where `request_pages` would
  // not find a frame, and on frames and pages that the caller may not use.
  ghost function AfterCall(own: set<nat>, s: Space, call: Call): (t: Option<Trace>)
    ensures t.Some? ==> t.value.states != []
  {
    match call
    case RequestCall =>
      (match FirstClear(s.bits)
       case None => Some(NoStep(s))
       case Some(f) => Some(OneStep(s, Request(f), Take(s, f))))
    case RequestPagesCall(n) =>
      (match PagesTo(s, n)
       case None => None
       case Some(b) => Some(Trace(b.space, b.states, b.steps)))
    case LockCall(a) =>
      if a / 4096 < |s.bits| then Some(OneStep(s, LockFrame(a / 4096), Take(s, a / 4096))) else None
    case FreeCall(a) =>
      if a / 4096 < |s.bits| && !IsTableFrame(s, a / 4096) && a / 4096 !in own
      then Some(OneStep(s, FreeFrame(a / 4096), Release(s, a / 4096))) else None
    case WriteCall(f, contents) =>
      if f < |s.mem| && !IsTableFrame(s, f) && f !in own && |contents| == 512
      then Some(OneStep(s, CallerWrites(f, contents), Scribble(s, f, contents))) else None
    case MapCall(v, p, quickwrite) =>
      (match MapTo(s, PageOf(v), FrameOf(p), quickwrite)
       case None => None
       case Some(r) => Some(OneStep(s, MapPage(PageOf(v), FrameOf(p), quickwrite), r)))
    case DonateCall(v) =>
      if WellFormed(s) && Mapped(s, PageOf(v))
      then
        PageInRange(v);
        Some(OneStep(s, DonatePage(PageOf(v)), DonateTo(s, PageOf(v))))
      else None
  }

  lemma PageInRange(a: uint64)
    ensures PageOf(a) < PAGE_LIMIT
  {
  }

  function Joined(t: Trace, u: Trace): Trace
    requires u.states != []
  {
    Trace(u.space, t.states + u.states[1..], t.steps + u.steps)
  }

  // One call after the other.
  ghost function AfterCalls(own: set<nat>, s: Space, calls: seq<Call>): Option<Trace> {
    if calls == [] then Some(NoStep(s))
    else
      match AfterCalls(own, s, calls[..|calls| - 1])
      case None => None
      case Some(t) =>
        match AfterCall(own, t.space, calls[|calls| - 1])
        case None => None
        case Some(u) => Some(Joined(t, u))
  }

  ghost predicate IsRunOf(own: set<nat>, s: Space, t: Trace) {
    WellFormed(t.space) && RunFromTo(own, t.states, t.steps, s, t.space)
  }

  lemma StepIsRun(own: set<nat>, s: Space, step: Step, r: Space)
    requires WellFormed(s) && Steps(own, s, step, r)
    ensures IsRunOf(own, s, OneStep(s, step, r))
  {
    hide WellFormed, Steps;
    StepKeepsTree(own, s, step, r);
  }

  // Each call is a run.
  lemma CallIsRun(own: set<nat>, s: Space, call: Call)
    requires WellFormed(s) && AfterCall(own, s, call).Some?
    ensures IsRunOf(own, s, AfterCall(own, s, call).value)
  {
    hide WellFormed, IsRunOf, Maps, Reaches, MapTo, PagesTo, DonateTo, Donates, Mapped, PageOf, FrameOf, IsTableFrame,
         Batch, LeavesHeld, SameUserPages, Allocating, Release, Scribble;
    var t := AfterCall(own, s, call).value;
    match call
    case RequestCall =>
      if FirstClear(s.bits).Some? {
        StepIsRun(own, s, Request(FirstClear(s.bits).value), t.space);
      } else {
        NothingIsRun(own, s);
      }
    case RequestPagesCall(n) => PagesAreRun(own, s, n);
    case LockCall(a) => StepIsRun(own, s, LockFrame(a / 4096), t.space);
    case FreeCall(a) => StepIsRun(own, s, FreeFrame(a / 4096), t.space);
    case WriteCall(f, contents) => StepIsRun(own, s, CallerWrites(f, contents), t.space);
    case MapCall(v, p, quickwrite) =>
      PageInRange(v);
      MapToMaps(s, PageOf(v), FrameOf(p), quickwrite);
      StepIsRun(own, s, MapPage(PageOf(v), FrameOf(p), quickwrite), t.space);
    case DonateCall(v) =>
      PageInRange(v);
      DonateToDonates(s, PageOf(v));
      StepIsRun(own, s, DonatePage(PageOf(v)), t.space);
  }

  lemma NothingIsRun(own: set<nat>, s: Space)
    requires WellFormed(s)
    ensures IsRunOf(own, s, NoStep(s))
  {
    hide WellFormed;
    EmptyRun(own, s);
  }

  lemma PagesAreRun(own: set<nat>, s: Space, n: nat)
    requires WellFormed(s) && PagesTo(s, n).Some?
    ensures var b := PagesTo(s, n).value; b.states != [] && IsRunOf(own, s, Trace(b.space, b.states, b.steps))
  {
    hide WellFormed, PagesTo, Steps, Batch, LeavesHeld, SameUserPages, Allocating, IsFirstClear;
    PagesToMaps(own, s, n);
  }

  lemma JoinedIsRun(own: set<nat>, s: Space, t: Trace, u: Trace)
    requires IsRunOf(own, s, t) && IsRunOf(own, t.space, u) && u.states != []
    ensures IsRunOf(own, s, Joined(t, u))
  {
    hide WellFormed, RunFromTo;
    RunConcat(own, t.states, t.steps, u.states, u.steps, s, t.space, u.space);
  }

  // Any list of calls is a run.
  lemma {:induction false} CallsAreRun(own: set<nat>, s: Space, calls: seq<Call>)
    requires WellFormed(s) && AfterCalls(own, s, calls).Some?
    ensures IsRunOf(own, s, AfterCalls(own, s, calls).value)
  {
    hide WellFormed, IsRunOf, AfterCall, Joined;
    if calls == [] {
      NothingIsRun(own, s);
    } else {
      var front, last := calls[..|calls| - 1], calls[|calls| - 1];
      CallsAreRun(own, s, front);
      var t := AfterCalls(own, s, front).value;
      RunEndsSound(own, s, t);
      CallIsRun(own, t.space, last);
      JoinedIsRun(own, s, t, AfterCall(own, t.space, last).value);
    }
  }

  lemma RunEndsSound(own: set<nat>, s: Space, t: Trace)
    requires IsRunOf(own, s, t)
    ensures WellFormed(t.space)
  {
  }

  lemma {:induction false} AfterCallsPrefix(own: set<nat>, s: Space, calls: seq<Call>, i: nat)
    requires i <= |calls| && AfterCalls(own, s, calls).Some?
    ensures AfterCalls(own, s, calls[..i]).Some?
  {
    hide AfterCall;
    if i < |calls| {
      AfterCallsPrefix(own, s, calls[..|calls| - 1], i);
      assert calls[..|calls| - 1][..i] == calls[..i];
    } else {
      assert calls[..i] == calls;
    }
  }

  // What the next call of a list finds.
  lemma AfterCallsStep(own: set<nat>, s: Space, calls: seq<Call>, i: nat)
    requires i < |calls| && AfterCalls(own, s, calls).Some?
    ensures AfterCalls(own, s, calls[..i]).Some? && AfterCalls(own, s, calls[..i + 1]).Some?
    ensures var m := AfterCalls(own, s, calls[..i]).value.space;
      && AfterCall(own, m, calls[i]).Some?
      && AfterCalls(own, s, calls[..i + 1]).value.space == AfterCall(own, m, calls[i]).value.space
  {
    hide AfterCall;
    AfterCallsPrefix(own, s, calls, i);
    AfterCallsPrefix(own, s, calls, i + 1);
    assert calls[..i + 1][..i] == calls[..i];
  }

  // ----- the operations perform them -----

  method Perform(space: AddressSpace, call: Call, ghost own: set<nat>)
    requires space.Valid() && AfterCall(own, space.Snapshot(), call).Some?
    modifies space, space.pmm, space.pmm.pageBitmapMap`bits, space.pmm.pageBitmapMap.buffer
    ensures space.Valid() && space.pmm.SameSetup()
    ensures space.Snapshot() == AfterCall(own, old(space.Snapshot()), call).value.space
  {
    hide WellFormed, Accounts, Maps, Donates, Reaches, MapTo, PagesTo, DonateTo, PageOf, FrameOf, IsTableFrame, Mapped,
         Batch, LeavesHeld, SameUserPages, Take, Release, Scribble;
    match call {
      case RequestCall =>
        var _ := space.RequestPage();
      case RequestPagesCall(n) =>
        var _, _ := space.RequestPages(n);
      case LockCall(a) =>
        space.LockPage(a);
      case FreeCall(a) =>
        space.FreePage(a);
      case WriteCall(f, contents) =>
        space.WriteFrame(f, contents);
      case MapCall(v, p, quickwrite) =>
        space.MapMemory(v, p, quickwrite);
      case DonateCall(v) =>
        space.DonateToUserspace(v);
    }
  }

  // Any list of calls, each of which finds what it needs, is performed as a run.
  method PerformAll(space: AddressSpace, calls: seq<Call>, ghost own: set<nat>)
    requires space.Valid() && AfterCalls(own, space.Snapshot(), calls).Some?
    modifies space, space.pmm, space.pmm.pageBitmapMap`bits, space.pmm.pageBitmapMap.buffer
    ensures space.Valid() && space.pmm.SameSetup()
    ensures space.Snapshot() == AfterCalls(own, old(space.Snapshot()), calls).value.space
    ensures IsRunOf(own, old(space.Snapshot()), AfterCalls(own, old(space.Snapshot()), calls).value)
  {
    hide WellFormed, Accounts, AfterCall, AfterCalls, IsRunOf;
    ghost var s := space.Snapshot();
    CallsAreRun(own, s, calls);
    NoCalls(own, s);
    assert calls[..0] == [];
    for i := 0 to |calls|
      invariant space.Valid() && space.pmm.SameSetup()
      invariant AfterCalls(own, s, calls[..i]).Some?
      invariant space.Snapshot() == AfterCalls(own, s, calls[..i]).value.space
    {
      AfterCallsStep(own, s, calls, i);
      Perform(space, calls[i], own);
    }
    assert calls[..|calls|] == calls;
  }

  lemma NoCalls(own: set<nat>, s: Space)
    ensures AfterCalls(own, s, []) == Some(NoStep(s))
  {
  }
}

// A budget that a caller can check beforehand: with so many frames any list of calls finds what it needs.
module Budget {
  import opened Words
  import opened Ledger
  import opened PageEntry
  import opened PageTree
  import opened TableWrites
  import opened Translation
  import opened Mapping
  import opened Frames
  import opened Runs
  import opened Batches
  import opened Paging
  import opened Execution
  import opened Service

  // The frames a call takes for its caller.
  function Cost(call: Call): nat {
    match call
    case RequestCall => 1
    case RequestPagesCall(n) => if n <= 1 then 0 else n
    case LockCall(_) => 1
    case _ => 0
  }

  function Demand(calls: seq<Call>): nat {
    if calls == [] then 0 else Demand(calls[..|calls| - 1]) + Cost(calls[|calls| - 1])
  }

  // What the call needs besides frames.
  ghost predicate Usable(own: set<nat>, s: Space, needed: set<Node>, call: Call) {
    match call
    case RequestCall => true
    case RequestPagesCall(n) => true
    case LockCall(a) => a / 4096 < |s.bits|
    case FreeCall(a) => Held(s, a / 4096) && a / 4096 !in own
    case WriteCall(f, contents) => Held(s, f) && f !in own && |contents| == 512
    case MapCall(v, p, quickwrite) => Path(PageOf(v)) <= needed
    case DonateCall(v) => Mapped(s, PageOf(v))
  }

  lemma TakeSlack(s: Space, f: nat, needed: set<Node>)
    requires f < |s.bits|
    ensures Slack(Take(s, f), needed) == Slack(s, needed) - if s.bits[f] then 0 else 1
  {
    SetCountUpdate(s.bits, f, true);
  }

  lemma ReleaseSlack(s: Space, f: nat, needed: set<Node>)
    requires f < |s.bits|
    ensures Slack(Release(s, f), needed) == Slack(s, needed) + if s.bits[f] then 1 else 0
  {
    SetCountUpdate(s.bits, f, false);
  }

  lemma DonateSlack(s: Space, r: Space, v: nat, needed: set<Node>)
    requires Donates(s, r, v)
    ensures Slack(r, needed) == Slack(s, needed)
  {
  }

  lemma CallServes(own: set<nat>, s: Space, call: Call, needed: set<Node>)
    requires WellFormed(s) && Covers(needed, |s.mem|) && Usable(own, s, needed, call) && Slack(s, needed) >= Cost(call)
    ensures AfterCall(own, s, call).Some?
    ensures Slack(AfterCall(own, s, call).value.space, needed) >= Slack(s, needed) - Cost(call)
  {
    hide WellFormed, Covers, Slack, MapTo, PagesTo, DonateTo, PageOf, FrameOf, Path, IsTableFrame, Take, Release,
         Donates, Mapped, Reaches;
    SoundSizes(s);
    match call
    case RequestCall =>
      if FirstClear(s.bits).Some? {
        TakeSlack(s, FirstClear(s.bits).value, needed);
      }
    case RequestPagesCall(n) => PagesToServes(s, n, needed);
    case LockCall(a) => TakeSlack(s, a / 4096, needed);
    case FreeCall(a) => ReleaseSlack(s, a / 4096, needed);
    case WriteCall(f, contents) => ScribbleSlack(s, f, contents, needed);
    case MapCall(v, p, quickwrite) =>
      PageInRange(v);
      MapToServes(s, PageOf(v), FrameOf(p), quickwrite, needed);
    case DonateCall(v) =>
      PageInRange(v);
      DonateToDonates(s, PageOf(v));
      DonateSlack(s, DonateTo(s, PageOf(v)), PageOf(v), needed);
  }

  lemma ScribbleSlack(s: Space, f: nat, contents: seq<Entry>, needed: set<Node>)
    requires f < |s.mem|
    ensures Slack(Scribble(s, f, contents), needed) == Slack(s, needed)
  {
  }

  // ----- lists of calls -----

  // What a caller can check of the i-th call before the first one: frames it frees or writes are held and not freed
  // before, pages it donates are mapped or mapped before by a call of the list.
  ghost predicate Permitted(own: set<nat>, s: Space, needed: set<Node>, calls: seq<Call>, i: nat)
    requires i < |calls|
  {
    match calls[i]
    case FreeCall(a) => Usable(own, s, needed, calls[i]) && !Freed(calls[..i], a / 4096)
    case WriteCall(f, contents) => Usable(own, s, needed, calls[i]) && !Freed(calls[..i], f)
    case DonateCall(v) => Usable(own, s, needed, calls[i]) || exists j: nat :: j < i && MapsPage(calls[j], PageOf(v))
    case _ => Usable(own, s, needed, calls[i])
  }

  predicate MapsPage(call: Call, x: nat) { call.MapCall? && PageOf(call.virtualMemory) == x }

  lemma CallKeepsMapped(own: set<nat>, s: Space, call: Call, x: nat)
    requires WellFormed(s) && AfterCall(own, s, call).Some? && x < PAGE_LIMIT
    ensures Mapped(s, x) || MapsPage(call, x) ==> Mapped(AfterCall(own, s, call).value.space, x)
  {
    hide WellFormed, Mapped, Steps, PagesTo, DonateTo, MapTo, PageOf, FrameOf, Maps, Reaches;
    CallIsRun(own, s, call);
    var t := AfterCall(own, s, call).value;
    if Mapped(s, x) {
      RunKeepsMapped(own, t.states, t.steps, |t.steps|, x);
    }
    if MapsPage(call, x) {
      MapToMaps(s, x, FrameOf(call.physicalMemory), call.quickwrite);
      MappingMaps(s, t.space, x, FrameOf(call.physicalMemory), call.quickwrite);
    }
  }

  lemma MappingMaps(s: Space, r: Space, x: nat, p: FrameNumber, quickwrite: bool)
    requires WellFormed(s) && WellFormed(r) && Maps(s, r, x, p, quickwrite) && x < PAGE_LIMIT
    ensures Mapped(r, x)
  {
    hide WellFormed, Maps;
    MapTranslates(s, r, x, p, quickwrite, x);
  }

  lemma {:induction false} CallsKeepMapped(own: set<nat>, s: Space, calls: seq<Call>, x: nat)
    requires WellFormed(s) && AfterCalls(own, s, calls).Some? && x < PAGE_LIMIT
    requires Mapped(s, x) || exists j: nat :: j < |calls| && MapsPage(calls[j], x)
    ensures Mapped(AfterCalls(own, s, calls).value.space, x)
  {
    hide WellFormed, Mapped, AfterCall, MapsPage, IsRunOf;
    if calls != [] {
      var front, last := calls[..|calls| - 1], calls[|calls| - 1];
      var t := AfterCalls(own, s, front).value;
      CallsAreRun(own, s, front);
      RunEndsSound(own, s, t);
      if !MapsPage(last, x) {
        assert forall j: nat :: j < |front| ==> front[j] == calls[j];
        CallsKeepMapped(own, s, front, x);
      }
      CallKeepsMapped(own, t.space, last, x);
    }
  }

  lemma PermittedIsUsable(own: set<nat>, s: Space, needed: set<Node>, calls: seq<Call>, i: nat)
    requires WellFormed(s) && i < |calls| && Permitted(own, s, needed, calls, i)
    requires AfterCalls(own, s, calls[..i]).Some?
    ensures var t := AfterCalls(own, s, calls[..i]).value;
      && WellFormed(t.space) && |t.space.mem| == |s.mem| && Usable(own, t.space, needed, calls[i])
  {
    hide WellFormed, AfterCalls, Held, Mapped, Path, Freed, Steps;
    var t := AfterCalls(own, s, calls[..i]).value;
    CallsAreRun(own, s, calls[..i]);
    RunKeepsTree(own, t.states, t.steps, 0, |t.steps|);
    match calls[i]
    case FreeCall(a) => CallsLeaveHeldFrames(own, s, calls[..i], a / 4096);
    case WriteCall(f, contents) => CallsLeaveHeldFrames(own, s, calls[..i], f);
    case DonateCall(v) =>
      PageInRange(v);
      if j: nat :| j < i && MapsPage(calls[j], PageOf(v)) {
        assert calls[..i][j] == calls[j];
      }
      CallsKeepMapped(own, s, calls[..i], PageOf(v));
    case _ =>
  }

  // With the frames that the calls ask for, and those for the tables that can come up, every call of the list
  // finds what it needs.
  lemma {:induction false} BudgetSuffices(own: set<nat>, s: Space, needed: set<Node>, calls: seq<Call>)
    requires WellFormed(s) && Covers(needed, |s.mem|) && Slack(s, needed) >= Demand(calls)
    requires forall i: nat :: i < |calls| ==> Permitted(own, s, needed, calls, i)
    ensures AfterCalls(own, s, calls).Some?
    ensures Slack(AfterCalls(own, s, calls).value.space, needed) >= Slack(s, needed) - Demand(calls)
  {
    hide WellFormed, Covers, Slack, AfterCall, Usable, Permitted, Cost;
    if calls != [] {
      var n := |calls| - 1;
      var front, last := calls[..n], calls[n];
      forall i: nat | i < n
        ensures Permitted(own, s, needed, front, i)
      {
        PermittedInFront(own, s, needed, calls, n, i);
      }
      BudgetSuffices(own, s, needed, front);
      PermittedIsUsable(own, s, needed, calls, n);
      CallServes(own, AfterCalls(own, s, front).value.space, last, needed);
    }
  }

  lemma PermittedInFront(own: set<nat>, s: Space, needed: set<Node>, calls: seq<Call>, n: nat, i: nat)
    requires i < n <= |calls| && Permitted(own, s, needed, calls, i)
    ensures Permitted(own, s, needed, calls[..n], i)
  {
    hide Usable, Freed;
    var front := calls[..n];
    assert front[..i] == calls[..i] && front[i] == calls[i];
    assert forall j: nat :: j < i ==> front[j] == calls[j];
  }
}

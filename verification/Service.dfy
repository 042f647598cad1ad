// What callers can rely on over any list of calls, and a budget with which such a list finds what it needs.
module Service {
  import opened Words
  import opened Ledger
  import opened PageEntry
  import opened PageTree
  import opened Translation
  import opened Mapping
  import opened Frames
  import opened Runs
  import opened Batches
  import opened Paging
  import opened Execution

  // ----- the steps of a list of calls -----

  // The step that a call makes, apart from requests and mappings.
  function StepOf(call: Call): Option<Step> {
    match call
    case LockCall(a) => Some(LockFrame(a / 4096))
    case FreeCall(a) => Some(FreeFrame(a / 4096))
    case WriteCall(f, contents) => Some(CallerWrites(f, contents))
    case DonateCall(v) => Some(DonatePage(PageOf(v)))
    case _ => None
  }

  ghost predicate Makes(calls: seq<Call>, steps: seq<Step>) {
    forall step: Step :: !step.Request? && !step.MapPage? ==>
      (step in steps <==> exists c :: c in calls && StepOf(c) == Some(step))
  }

  lemma CallSteps(own: set<nat>, s: Space, call: Call)
    requires WellFormed(s) && AfterCall(own, s, call).Some?
    ensures match StepOf(call)
            case Some(step) => AfterCall(own, s, call).value.steps == [step]
            case None => Allocating(AfterCall(own, s, call).value.steps)
  {
    hide WellFormed, PagesTo, MapTo, DonateTo, RunFromTo, LeavesHeld, SameUserPages, Batch;
    if call.RequestPagesCall? {
      PagesToMaps(own, s, call.count);
    }
  }

  lemma MakesOneMore(calls: seq<Call>, steps: seq<Step>, call: Call, more: seq<Step>)
    requires Makes(calls, steps)
    requires match StepOf(call) case Some(step) => more == [step] case None => Allocating(more)
    ensures Makes(calls + [call], steps + more)
  {
    forall step: Step | !step.Request? && !step.MapPage?
      ensures step in steps + more <==> exists c :: c in calls + [call] && StepOf(c) == Some(step)
    {
      assert step in more <==> StepOf(call) == Some(step);
      assert call in calls + [call];
      assert forall c :: c in calls + [call] <==> c in calls || c == call;
    }
  }

  lemma {:induction false} CallsMake(own: set<nat>, s: Space, calls: seq<Call>)
    requires WellFormed(s) && AfterCalls(own, s, calls).Some?
    ensures Makes(calls, AfterCalls(own, s, calls).value.steps)
  {
    hide WellFormed, IsRunOf, AfterCall, Makes, StepOf, Allocating;
    if calls == [] {
      MakesNothing();
    } else {
      var front, last := calls[..|calls| - 1], calls[|calls| - 1];
      CallsMake(own, s, front);
      CallsAreRun(own, s, front);
      var t := AfterCalls(own, s, front).value;
      RunEndsSound(own, s, t);
      CallSteps(own, t.space, last);
      MakesOneMore(front, t.steps, last, AfterCall(own, t.space, last).value.steps);
      assert calls == front + [last];
    }
  }

  lemma MakesNothing()
    ensures Makes([], [])
  {
  }

  // ----- what callers can rely on -----

  ghost predicate Donated(calls: seq<Call>, x: nat) {
    exists c :: c in calls && c.DonateCall? && PageOf(c.virtualAddress) == x
  }

  ghost predicate Freed(calls: seq<Call>, f: nat) { exists c :: c in calls && c.FreeCall? && c.address / 4096 == f }

  ghost predicate Overwritten(calls: seq<Call>, f: nat) { exists c :: c in calls && c.WriteCall? && c.frame == f }

  // Whatever the calls, the pages open to user mode afterwards are those open before and those donated.
  lemma CallsOpenDonatedPages(own: set<nat>, s: Space, calls: seq<Call>, x: nat)
    requires WellFormed(s) && AfterCalls(own, s, calls).Some? && UserPathsOpen(s) && x < PAGE_LIMIT
    ensures UserAccessible(AfterCalls(own, s, calls).value.space, x) <==> UserAccessible(s, x) || Donated(calls, x)
  {
    hide WellFormed, Steps, UserPathsOpen, UserAccessible, PageOf, AfterCalls;
    var t := AfterCalls(own, s, calls).value;
    CallsAreRun(own, s, calls);
    CallsMake(own, s, calls);
    UserPagesAreDonated(own, t.states, t.steps, |t.steps|, x);
    assert DonatePage(x) in t.steps <==> exists c :: c in calls && StepOf(c) == Some(DonatePage(x));
    assert forall c :: StepOf(c) == Some(DonatePage(x)) <==> c.DonateCall? && PageOf(c.virtualAddress) == x;
  }

  // Whatever the calls, a frame held before them is held afterwards unless it was freed, and it reads as
  // before unless its holder wrote to it.
  lemma CallsLeaveHeldFrames(own: set<nat>, s: Space, calls: seq<Call>, f: nat)
    requires WellFormed(s) && AfterCalls(own, s, calls).Some? && Held(s, f) && !Freed(calls, f)
    ensures var r := AfterCalls(own, s, calls).value.space;
      && Held(r, f) && f < |s.mem| == |r.mem|
      && (!Overwritten(calls, f) ==> r.mem[f] == s.mem[f])
  {
    hide WellFormed, Steps, Held, AfterCalls;
    var t := AfterCalls(own, s, calls).value;
    CallsAreRun(own, s, calls);
    CallsMake(own, s, calls);
    forall i: nat | i < |t.steps|
      ensures t.steps[i] != FreeFrame(f)
      ensures t.steps[i].CallerWrites? && t.steps[i].frame == f ==> Overwritten(calls, f)
    {
      assert t.steps[i] in t.steps;
    }
    HeldFramesAreLeftAlone(own, t.states, t.steps, 0, |t.steps|, f);
  }

  // What page x translates to after a list of calls: the target of the last of their mappings of x, or what it was
  // before. Only a page whose frame has become a table on the way is an exception.
  lemma CallsTranslate(own: set<nat>, s: Space, calls: seq<Call>, x: nat)
    requires WellFormed(s) && AfterCalls(own, s, calls).Some? && x < PAGE_LIMIT
    requires IsTableFrame(AfterCalls(own, s, calls).value.space, x) ==> IsTableFrame(s, x)
    ensures var t := AfterCalls(own, s, calls).value;
      Translate(t.space, x) == LastTarget(t.steps, x, Translate(s, x))
  {
    hide WellFormed, Steps, AfterCalls, IsTableFrame, Translate;
    var t := AfterCalls(own, s, calls).value;
    CallsAreRun(own, s, calls);
    RunTranslates(own, t.states, t.steps, |t.steps|, x);
    assert t.steps[..|t.steps|] == t.steps;
  }

  // Such a page was mapped to itself when the table came up, and translates by the mappings since then.
  lemma CallsTranslateTables(own: set<nat>, s: Space, calls: seq<Call>, x: nat) returns (j: nat)
    requires WellFormed(s) && AfterCalls(own, s, calls).Some? && x < PAGE_LIMIT
    requires IsTableFrame(AfterCalls(own, s, calls).value.space, x) && !IsTableFrame(s, x)
    ensures var t := AfterCalls(own, s, calls).value;
      && j < |t.steps| && t.steps[j].MapPage?
      && Translate(t.space, x) == LastTarget(t.steps[j..], x, Some(x))
  {
    hide WellFormed, Steps, AfterCalls, IsTableFrame, Translate;
    var t := AfterCalls(own, s, calls).value;
    CallsAreRun(own, s, calls);
    j := NewTableTranslates(own, t.states, t.steps, |t.steps|, x);
    assert t.steps[j..|t.steps|] == t.steps[j..];
  }

  // The mappings of single calls: one for `map_memory`, and one per frame for `request_pages`, on successive pages
  // from the first clear frame's on.
  lemma CallMaps(own: set<nat>, s: Space, call: Call, i: nat)
    requires AfterCall(own, s, call).Some?
    ensures call.MapCall? ==>
              AfterCall(own, s, call).value.steps
              == [MapPage(PageOf(call.virtualMemory), FrameOf(call.physicalMemory), call.quickwrite)]
    ensures call.RequestPagesCall? && i < call.count && call.count >= 2 ==>
              var b := PagesTo(s, call.count).value;
              && FirstClear(s.bits).Some? && |b.obtained| == call.count && b.obtained[i] < FRAME_LIMIT
              && |AfterCall(own, s, call).value.steps| == 2 * call.count
              && AfterCall(own, s, call).value.steps[2 * i] == Request(b.obtained[i])
              && AfterCall(own, s, call).value.steps[2 * i + 1]
                 == MapPage(FirstClear(s.bits).value + i, b.obtained[i], false)
  {
    hide MapTo, DonateTo, PageOf, FrameOf;
    if call.RequestPagesCall? && i < call.count && call.count >= 2 {
      RoundsSteps(s, FirstClear(s.bits).value, call.count, i);
    }
  }

  // Every table stays mapped to itself over any list of calls whose mappings put no table's page elsewhere.
  lemma CallsKeepSelfMap(own: set<nat>, s: Space, calls: seq<Call>)
    requires WellFormed(s) && AfterCalls(own, s, calls).Some? && TablesSelfMapped(s)
    requires var t := AfterCalls(own, s, calls).value;
      forall i: nat :: i < |t.steps| && t.steps[i].MapPage? && IsTableFrame(t.space, t.steps[i].page) ==>
        t.steps[i].target == t.steps[i].page
    ensures TablesSelfMapped(AfterCalls(own, s, calls).value.space)
  {
    hide WellFormed, Steps, AfterCalls, IsTableFrame, TablesSelfMapped;
    var t := AfterCalls(own, s, calls).value;
    CallsAreRun(own, s, calls);
    forall i: nat | i < |t.steps| && t.steps[i].MapPage? && IsTableFrame(t.states[i + 1], t.steps[i].page)
      ensures t.steps[i].target == t.steps[i].page
    {
      RunKeepsTree(own, t.states, t.steps, i + 1, |t.steps|);
    }
    RunKeepsSelfMap(own, t.states, t.steps, |t.steps|);
  }
}

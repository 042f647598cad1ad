// Whole runs of the frame allocator and the page tables, with callers that may do what they like with
// the frames they hold, as long as they neither free nor overwrite a live table.
module Runs {
  import opened Words
  import opened Ledger
  import opened PageEntry
  import opened PageTree
  import opened TableWrites
  import opened Translation
  import opened Frames

  datatype Step =
    | Request(frame: nat)
    | LockFrame(frame: nat)
    | FreeFrame(frame: nat)
    | CallerWrites(frame: nat, contents: seq<Entry>)
    | MapPage(page: nat, target: FrameNumber, quickwrite: bool)
    | DonatePage(page: nat)

  // One step. Callers neither free nor overwrite live tables and the frames of `own`, in which the
  // allocator keeps its bitmap. Mapping and donating are sequences of single writes with the effect that
  // the contracts of the operations describe; that the tree stays sound is no part of it.
  ghost predicate Steps(own: set<nat>, s: Space, step: Step, r: Space) {
    match step
    case Request(f) => IsFirstClear(s.bits, f) && r == Take(s, f)
    case LockFrame(f) => f < |s.bits| && r == Take(s, f)
    case FreeFrame(f) => f < |s.bits| && !IsTableFrame(s, f) && f !in own && r == Release(s, f)
    case CallerWrites(f, contents) =>
      f < |s.mem| && !IsTableFrame(s, f) && f !in own && |contents| == 512 && r == Scribble(s, f, contents)
    case MapPage(v, p, quickwrite) => v < PAGE_LIMIT && Reaches(s, r) && Maps(s, r, v, p, quickwrite)
    case DonatePage(v) => v < PAGE_LIMIT && Mapped(s, v) && Reaches(s, r) && Donates(s, r, v)
  }

  ghost predicate Run(own: set<nat>, states: seq<Space>, steps: seq<Step>) {
    && |states| == |steps| + 1
    && WellFormed(states[0])
    && forall k: nat :: k < |steps| ==> Steps(own, states[k], steps[k], states[k + 1])
  }

  ghost predicate RunFromTo(own: set<nat>, states: seq<Space>, steps: seq<Step>, s: Space, r: Space) {
    Run(own, states, steps) && states[0] == s && states[|steps|] == r
  }

  lemma StepKeepsTree(own: set<nat>, s: Space, step: Step, r: Space)
    requires WellFormed(s) && Steps(own, s, step, r)
    ensures WellFormed(r) && |r.bits| == |s.bits| && |r.mem| == |s.mem|
    ensures forall f: nat :: IsTableFrame(s, f) ==> IsTableFrame(r, f)
  {
    hide WellFormed, Reaches;
    match step
    case Request(f) => TakeKeepsTree(s, f, {}); SameTables(s, r);
    case LockFrame(f) => TakeKeepsTree(s, f, {}); SameTables(s, r);
    case FreeFrame(f) => ReleaseKeepsTree(s, f); SameTables(s, r);
    case CallerWrites(f, contents) => ScribbleKeepsTree(s, f, contents); SameTables(s, r);
    case MapPage(v, p, quickwrite) => TablesPersist(s, r); ReachesKeepsTree(s, r);
    case DonatePage(v) => ReachesKeepsTree(s, r);
  }

  // The tables form a sound tree in every state of every run, and no table is ever dropped.
  lemma {:induction false} RunKeepsTree(own: set<nat>, states: seq<Space>, steps: seq<Step>, j: nat, k: nat)
    requires Run(own, states, steps) && j <= k < |states|
    ensures WellFormed(states[k]) && |states[k].bits| == |states[j].bits| && |states[k].mem| == |states[j].mem|
    ensures forall f: nat :: IsTableFrame(states[j], f) ==> IsTableFrame(states[k], f)
    decreases k
  {
    hide WellFormed, IsTableFrame, Steps;
    if k > 0 {
      RunKeepsTree(own, states, steps, if j < k then j else k - 1, k - 1);
      StepKeepsTree(own, states[k - 1], steps[k - 1], states[k]);
    }
  }

  // ----- building runs -----

  // Operations that only take frames and map pages.
  ghost predicate Allocating(steps: seq<Step>) {
    forall i: nat :: i < |steps| ==> steps[i].Request? || steps[i].MapPage?
  }

  lemma EmptyRun(own: set<nat>, s: Space)
    requires WellFormed(s)
    ensures RunFromTo(own, [s], [], s, s)
  {
  }

  lemma RunAppend(own: set<nat>, states: seq<Space>, steps: seq<Step>, s: Space, m: Space, step: Step, r: Space)
    requires RunFromTo(own, states, steps, s, m) && Steps(own, m, step, r)
    ensures RunFromTo(own, states + [r], steps + [step], s, r)
  {
    hide WellFormed, Steps;
  }

  // A run goes on by requesting frame f and mapping page v to it.
  lemma RequestAndMap(own: set<nat>, states: seq<Space>, steps: seq<Step>, s: Space, m: Space, f: FrameNumber,
                      v: nat, r: Space)
    requires RunFromTo(own, states, steps, s, m) && Allocating(steps)
    requires IsFirstClear(m.bits, f) && v < PAGE_LIMIT
    requires Reaches(Take(m, f), r) && Maps(Take(m, f), r, v, f, false)
    ensures RunFromTo(own, states + [Take(m, f)] + [r], steps + [Request(f)] + [MapPage(v, f, false)], s, r)
    ensures Allocating(steps + [Request(f)] + [MapPage(v, f, false)])
  {
    hide RunFromTo, Reaches, Maps;
    var t := Take(m, f);
    RunAppend(own, states, steps, s, m, Request(f), t);
    RunAppend(own, states + [t], steps + [Request(f)], s, t, MapPage(v, f, false), r);
  }

  // One run after another.
  lemma RunConcat(own: set<nat>, states: seq<Space>, steps: seq<Step>, more: seq<Space>, moreSteps: seq<Step>,
                  s: Space, m: Space, r: Space)
    requires RunFromTo(own, states, steps, s, m) && RunFromTo(own, more, moreSteps, m, r)
    ensures more != [] && RunFromTo(own, states + more[1..], steps + moreSteps, s, r)
  {
    hide WellFormed, Steps;
    var all, allSteps, n := states + more[1..], steps + moreSteps, |steps|;
    forall k: nat | k < |allSteps|
      ensures Steps(own, all[k], allSteps[k], all[k + 1])
    {
      if k >= n {
        assert all[k] == more[k - n] && all[k + 1] == more[k + 1 - n] && allSteps[k] == moreSteps[k - n];
        assert Steps(own, more[k - n], moreSteps[k - n], more[k - n + 1]);
      }
    }
  }

  // ----- frames -----

  lemma StepKeepsHeld(own: set<nat>, s: Space, step: Step, r: Space, f: nat)
    requires WellFormed(s) && Steps(own, s, step, r) && Held(s, f) && step != FreeFrame(f)
    ensures Held(r, f)
    ensures !(step.CallerWrites? && step.frame == f) ==> f < |s.mem| && |r.mem| == |s.mem| && r.mem[f] == s.mem[f]
  {
    hide Reaches;
    StepKeepsTree(own, s, step, r);
    match step
    case Request(g) => SameTables(s, r);
    case LockFrame(g) => SameTables(s, r);
    case FreeFrame(g) => SameTables(s, r);
    case CallerWrites(g, contents) => SameTables(s, r);
    case MapPage(v, p, quickwrite) => FreshFramesAreNewTables(s, r, f);
    case DonatePage(v) =>
  }

  // A held frame never becomes a table while it is held, and only its holder's writes change it.
  lemma {:induction false} HeldFramesAreLeftAlone(own: set<nat>, states: seq<Space>, steps: seq<Step>, j: nat, k: nat,
                                                  f: nat)
    requires Run(own, states, steps) && j <= k < |states| && Held(states[j], f)
    requires forall i: nat :: j <= i < k ==> steps[i] != FreeFrame(f)
    ensures Held(states[k], f) && f < |states[j].mem| == |states[k].mem|
    ensures (forall i: nat :: j <= i < k ==> !(steps[i].CallerWrites? && steps[i].frame == f)) ==>
              states[k].mem[f] == states[j].mem[f]
    decreases k
  {
    hide WellFormed, IsTableFrame, Steps, Held;
    RunKeepsTree(own, states, steps, j, k);
    HeldFrameExists(own, states, steps, j, f);
    if j < k {
      RunKeepsTree(own, states, steps, j, k - 1);
      HeldFramesAreLeftAlone(own, states, steps, j, k - 1, f);
      StepKeepsHeld(own, states[k - 1], steps[k - 1], states[k], f);
    }
  }

  lemma HeldFrameExists(own: set<nat>, states: seq<Space>, steps: seq<Step>, j: nat, f: nat)
    requires Run(own, states, steps) && j < |states| && Held(states[j], f)
    ensures f < |states[j].mem|
  {
    RunKeepsTree(own, states, steps, j, j);
  }

  // In particular nothing ever touches the frames that hold the bitmap.
  lemma OwnFramesAreLeftAlone(own: set<nat>, states: seq<Space>, steps: seq<Step>, k: nat, f: nat)
    requires Run(own, states, steps) && k < |states| && f in own && Held(states[0], f)
    ensures Held(states[k], f) && f < |states[0].mem| == |states[k].mem| && states[k].mem[f] == states[0].mem[f]
  {
    hide WellFormed, IsTableFrame, Held;
    forall i: nat | i < k
      ensures steps[i] != FreeFrame(f) && !(steps[i].CallerWrites? && steps[i].frame == f)
    {
      assert Steps(own, states[i], steps[i], states[i + 1]);
    }
    HeldFramesAreLeftAlone(own, states, steps, 0, k, f);
  }

  // A request never hands out a live table: the frame it returns was a table at no earlier moment of
  // the run, and is none at any later one until the caller frees it.
  lemma RequestsAvoidTables(own: set<nat>, states: seq<Space>, steps: seq<Step>, j: nat, k: nat)
    requires Run(own, states, steps) && j < |states| && k < |steps| && steps[k].Request?
    requires forall i: nat :: k < i < j ==> steps[i] != FreeFrame(steps[k].frame)
    ensures !IsTableFrame(states[j], steps[k].frame)
  {
    hide WellFormed, IsTableFrame;
    var f := steps[k].frame;
    RunKeepsTree(own, states, steps, k, k);
    assert Steps(own, states[k], steps[k], states[k + 1]);
    TakeKeepsTree(states[k], f, {});
    if j <= k {
      RunKeepsTree(own, states, steps, j, k);
    } else {
      SameTables(states[k], states[k + 1]);
      HeldFramesAreLeftAlone(own, states, steps, k + 1, j, f);
    }
  }

  // ----- translations -----

  lemma SameTreeSameMeaning(s: Space, r: Space, x: nat)
    requires WellFormed(s) && WellFormed(r) && r.tree == s.tree && x < PAGE_LIMIT
    ensures Translate(r, x) == Translate(s, x)
    ensures UserAccessible(r, x) <==> UserAccessible(s, x)
  {
    hide WellFormed;
    WalkReadsTree(s, x);
    WalkReadsTree(r, x);
  }

  lemma StepTranslates(own: set<nat>, s: Space, step: Step, r: Space, x: nat)
    requires WellFormed(s) && WellFormed(r) && Steps(own, s, step, r) && x < PAGE_LIMIT
    requires !(step.MapPage? && step.page == x) && !IsNewTable(s, r, x)
    ensures Translate(r, x) == Translate(s, x)
  {
    hide WellFormed, Translate, IsTableFrame, Donates, Reaches;
    match step
    case MapPage(v, p, quickwrite) =>
      MapTranslates(s, r, v, p, quickwrite, x);
      FreshFramesAreNewTables(s, r, x);
    case DonatePage(v) => DonateKeepsTranslation(s, r, v, x);
    case _ => SameTreeSameMeaning(s, r, x);
  }

  // Between two moments of a run the translation of a page changes only by mapping that very page,
  // or by a new table taking the frame of that number.
  lemma {:induction false} TranslationIsStable(own: set<nat>, states: seq<Space>, steps: seq<Step>, j: nat, k: nat,
                                               x: nat)
    requires Run(own, states, steps) && j <= k < |states| && x < PAGE_LIMIT
    requires forall i: nat :: j <= i < k ==> !(steps[i].MapPage? && steps[i].page == x)
    requires IsTableFrame(states[k], x) ==> IsTableFrame(states[j], x)
    ensures Translate(states[k], x) == Translate(states[j], x)
    decreases k
  {
    hide WellFormed, IsTableFrame, Steps, Translate;
    if j < k {
      RunKeepsTree(own, states, steps, k - 1, k);
      RunKeepsTree(own, states, steps, j, k - 1);
      TranslationIsStable(own, states, steps, j, k - 1, x);
      StepTranslates(own, states[k - 1], steps[k - 1], states[k], x);
    }
  }

  // A page that is mapped stays mapped.
  lemma StepKeepsMapped(own: set<nat>, s: Space, step: Step, r: Space, x: nat)
    requires WellFormed(s) && Steps(own, s, step, r) && x < PAGE_LIMIT && Mapped(s, x)
    ensures Mapped(r, x)
  {
    hide WellFormed, IsTableFrame, Donates, Reaches, Steps;
    StepKeepsTree(own, s, step, r);
    StepRetargets(own, s, step, r, x);
    assert Translate(s, x).Some?;
    assert Translate(r, x).Some?;
  }

  lemma {:induction false} RunKeepsMapped(own: set<nat>, states: seq<Space>, steps: seq<Step>, k: nat, x: nat)
    requires Run(own, states, steps) && k < |states| && x < PAGE_LIMIT && Mapped(states[0], x)
    ensures Mapped(states[k], x)
  {
    hide WellFormed, IsTableFrame, Steps, Mapped;
    if k > 0 {
      RunKeepsTree(own, states, steps, k - 1, k - 1);
      RunKeepsMapped(own, states, steps, k - 1, x);
      StepKeepsMapped(own, states[k - 1], steps[k - 1], states[k], x);
    }
  }

  // Where the last mapping of page x among the steps has put it; `before` when there is none.
  function LastTarget(steps: seq<Step>, x: nat, before: Option<nat>): Option<nat> {
    if steps == [] then before
    else
      var n := |steps| - 1;
      if steps[n].MapPage? && steps[n].page == x then Some(steps[n].target) else LastTarget(steps[..n], x, before)
  }

  lemma LastTargetMore(steps: seq<Step>, step: Step, x: nat, before: Option<nat>)
    ensures LastTarget(steps + [step], x, before)
         == if step.MapPage? && step.page == x then Some(step.target) else LastTarget(steps, x, before)
  {
    assert (steps + [step])[..|steps|] == steps;
  }

  lemma StepRetargets(own: set<nat>, s: Space, step: Step, r: Space, x: nat)
    requires WellFormed(s) && Steps(own, s, step, r) && x < PAGE_LIMIT
    ensures Translate(r, x)
         == if step.MapPage? && step.page == x then Some(step.target)
            else if IsNewTable(s, r, x) then Some(x)
            else Translate(s, x)
    ensures IsNewTable(s, r, x) ==> step.MapPage?
  {
    hide WellFormed, Translate, IsTableFrame, Donates, Reaches;
    StepKeepsTree(own, s, step, r);
    match step
    case MapPage(v, p, quickwrite) =>
      MapTranslates(s, r, v, p, quickwrite, x);
      FreshFramesAreNewTables(s, r, x);
    case DonatePage(v) =>
      DonateKeepsTables(s, r, v);
      DonateKeepsTranslation(s, r, v, x);
    case _ =>
      SameTables(s, r);
      SameTreeSameMeaning(s, r, x);
  }

  lemma DonateKeepsTables(s: Space, r: Space, v: nat)
    requires Donates(s, r, v)
    ensures forall f: nat :: IsTableFrame(r, f) <==> IsTableFrame(s, f)
  {
  }

  // What page x translates to at the end of a run: the target of its last mapping, or what it was before. Only a
  // page whose frame has become a table during the run is an exception.
  lemma {:induction false} RunTranslates(own: set<nat>, states: seq<Space>, steps: seq<Step>, k: nat, x: nat)
    requires Run(own, states, steps) && k < |states| && x < PAGE_LIMIT
    requires IsTableFrame(states[k], x) ==> IsTableFrame(states[0], x)
    ensures Translate(states[k], x) == LastTarget(steps[..k], x, Translate(states[0], x))
  {
    hide WellFormed, IsTableFrame, Steps, Translate;
    if k > 0 {
      RunKeepsTree(own, states, steps, k - 1, k);
      RunKeepsTree(own, states, steps, 0, k - 1);
      RunTranslates(own, states, steps, k - 1, x);
      StepRetargets(own, states[k - 1], steps[k - 1], states[k], x);
      assert steps[..k] == steps[..k - 1] + [steps[k - 1]];
      LastTargetMore(steps[..k - 1], steps[k - 1], x, Translate(states[0], x));
    }
  }

  // Such a page was mapped to itself when the table came up, in step j, and translates by its mappings since.
  lemma {:induction false} NewTableTranslates(own: set<nat>, states: seq<Space>, steps: seq<Step>, k: nat, x: nat)
    returns (j: nat)
    requires Run(own, states, steps) && k < |states| && x < PAGE_LIMIT
    requires IsTableFrame(states[k], x) && !IsTableFrame(states[0], x)
    ensures j < k && steps[j].MapPage? && IsNewTable(states[j], states[j + 1], x)
    ensures Translate(states[k], x) == LastTarget(steps[j..k], x, Some(x))
  {
    hide WellFormed, IsTableFrame, Steps, Translate;
    RunKeepsTree(own, states, steps, 0, k - 1);
    StepRetargets(own, states[k - 1], steps[k - 1], states[k], x);
    if IsTableFrame(states[k - 1], x) {
      j := NewTableTranslates(own, states, steps, k - 1, x);
      assert steps[j..k] == steps[j..k - 1] + [steps[k - 1]];
      LastTargetMore(steps[j..k - 1], steps[k - 1], x, Some(x));
    } else {
      j := k - 1;
      assert steps[j..k] == [] + [steps[k - 1]];
      LastTargetMore([], steps[k - 1], x, Some(x));
    }
  }

  // ----- user access -----

  lemma StepKeepsUserPaths(own: set<nat>, s: Space, step: Step, r: Space)
    requires WellFormed(s) && WellFormed(r) && Steps(own, s, step, r) && UserPathsOpen(s)
    ensures UserPathsOpen(r)
    ensures forall x: nat :: x < PAGE_LIMIT ==>
              (UserAccessible(r, x) <==> UserAccessible(s, x) || step == DonatePage(x))
  {
    hide WellFormed, UserAccessible, IsTableFrame, Donates, PathOpen, Reaches;
    match step
    case MapPage(v, p, quickwrite) => MapKeepsUserPages(s, r, v, p, quickwrite);
    case DonatePage(v) =>
      DonateKeepsPathsOpen(s, r, v);
      forall x: nat | x < PAGE_LIMIT
        ensures UserAccessible(r, x) <==> UserAccessible(s, x) || x == v
      {
        DonateOpensOnePage(s, r, v, x);
      }
    case _ =>
      SameTreeSamePaths(s, r);
      forall x: nat | x < PAGE_LIMIT
        ensures UserAccessible(r, x) <==> UserAccessible(s, x)
      {
        SameTreeSameMeaning(s, r, x);
      }
  }

  lemma SameTreeSamePaths(s: Space, r: Space)
    requires r.tree == s.tree && UserPathsOpen(s)
    ensures UserPathsOpen(r)
  {
  }

  lemma {:induction false} RunKeepsUserPaths(own: set<nat>, states: seq<Space>, steps: seq<Step>, k: nat)
    requires Run(own, states, steps) && k < |states| && UserPathsOpen(states[0])
    ensures UserPathsOpen(states[k])
    decreases k
  {
    hide WellFormed, Steps, UserPathsOpen;
    if k > 0 {
      RunKeepsUserPaths(own, states, steps, k - 1);
      RunKeepsTree(own, states, steps, k - 1, k - 1);
      RunKeepsTree(own, states, steps, k, k);
      StepKeepsUserPaths(own, states[k - 1], steps[k - 1], states[k]);
    }
  }

  // At every moment of a run the pages open to user mode are those open at the start and those donated since.
  lemma {:induction false} UserPagesAreDonated(own: set<nat>, states: seq<Space>, steps: seq<Step>, k: nat, x: nat)
    requires Run(own, states, steps) && k < |states| && x < PAGE_LIMIT && UserPathsOpen(states[0])
    ensures UserAccessible(states[k], x)
       <==> UserAccessible(states[0], x) || exists j: nat :: j < k && steps[j] == DonatePage(x)
    decreases k
  {
    hide WellFormed, Steps, UserPathsOpen, UserAccessible;
    if k > 0 {
      UserPagesAreDonated(own, states, steps, k - 1, x);
      RunKeepsUserPaths(own, states, steps, k - 1);
      RunKeepsTree(own, states, steps, k - 1, k - 1);
      RunKeepsTree(own, states, steps, k, k);
      StepKeepsUserPaths(own, states[k - 1], steps[k - 1], states[k]);
      if steps[k - 1] == DonatePage(x) {
        assert k - 1 < k;
      }
    }
  }

  // Marked leaves stay reachable, and exactly the pages open in s are open in r.
  ghost predicate SameUserPages(s: Space, r: Space) {
    UserPathsOpen(s) ==>
      UserPathsOpen(r) && forall x: nat :: x < PAGE_LIMIT ==> (UserAccessible(r, x) <==> UserAccessible(s, x))
  }

  // Taking frames and mapping pages neither touches a held frame nor opens or closes a page to user mode.
  lemma AllocatingRun(own: set<nat>, states: seq<Space>, steps: seq<Step>, s: Space, r: Space)
    requires RunFromTo(own, states, steps, s, r) && Allocating(steps)
    ensures LeavesHeld(s, r)
    ensures SameUserPages(s, r)
  {
    hide WellFormed, Steps, UserPathsOpen, UserAccessible, IsTableFrame;
    var n := |steps|;
    RunKeepsTree(own, states, steps, 0, n);
    SoundShape(s);
    forall f: nat | Held(s, f)
      ensures Held(r, f) && r.mem[f] == s.mem[f]
    {
      HeldFramesAreLeftAlone(own, states, steps, 0, n, f);
    }
    if UserPathsOpen(s) {
      RunKeepsUserPaths(own, states, steps, n);
      forall x: nat | x < PAGE_LIMIT
        ensures UserAccessible(r, x) <==> UserAccessible(s, x)
      {
        UserPagesAreDonated(own, states, steps, n, x);
      }
    }
  }

  lemma SoundShape(s: Space)
    requires WellFormed(s)
    ensures |s.mem| == |s.bits| <= PAGE_LIMIT
  {
  }

  // ----- request_pages -----

  // What has been done after some rounds of `request_pages`: a batch of pages, in a run that only took
  // frames and mapped pages.
  ghost predicate BatchRun(own: set<nat>, s0: Space, r: Space, start: nat, obtained: seq<nat>,
                           states: seq<Space>, steps: seq<Step>) {
    && Batch(s0, r, start, obtained) && Frontier(r, obtained)
    && RunFromTo(own, states, steps, s0, r) && Allocating(steps)
  }

  lemma BatchRunStarts(own: set<nat>, s0: Space, start: nat)
    requires WellFormed(s0)
    ensures BatchRun(own, s0, s0, start, [], [s0], [])
  {
    BatchStarts(s0, start);
    EmptyRun(own, s0);
  }

  lemma BatchRunGrows(own: set<nat>, s0: Space, m: Space, r: Space, start: nat, obtained: seq<nat>, f: FrameNumber,
                      states: seq<Space>, steps: seq<Step>)
    requires BatchRun(own, s0, m, start, obtained, states, steps)
    requires BatchStep(s0, m, r, start, obtained, f) && Reaches(Take(m, f), r)
    ensures BatchRun(own, s0, r, start, obtained + [f], states + [Take(m, f)] + [r],
                     steps + [Request(f)] + [MapPage(start + |obtained|, f, false)])
  {
    hide RunFromTo, Reaches, Batch, Frontier, Allocating, Maps, WellFormed;
    BatchGrows(s0, m, r, start, obtained, f);
    BatchPageBelowFrame(s0, m, r, start, obtained, f);
    RequestAndMap(own, states, steps, s0, m, f, start + |obtained|, r);
  }

  lemma BatchRunMeans(own: set<nat>, s0: Space, r: Space, start: nat, obtained: seq<nat>,
                      states: seq<Space>, steps: seq<Step>)
    requires BatchRun(own, s0, r, start, obtained, states, steps)
    ensures Batch(s0, r, start, obtained) && Frontier(r, obtained)
    ensures RunFromTo(own, states, steps, s0, r) && Allocating(steps)
    ensures LeavesHeld(s0, r) && SameUserPages(s0, r)
  {
    AllocatingRun(own, states, steps, s0, r);
  }

  lemma BatchRunReach(own: set<nat>, s0: Space, m: Space, start: nat, obtained: seq<nat>, f: nat,
                      states: seq<Space>, steps: seq<Step>)
    requires BatchRun(own, s0, m, start, obtained, states, steps) && IsFirstClear(m.bits, f)
    requires obtained != [] && start == obtained[0]
    ensures start + |obtained| <= f < |m.bits|
    ensures Batch(s0, m, start, obtained) && Frontier(m, obtained)
  {
    BatchPageInReach(s0, m, start, obtained, f);
  }

  // ----- the tables' own translation -----

  lemma StepKeepsSelfMap(own: set<nat>, s: Space, step: Step, r: Space)
    requires WellFormed(s) && WellFormed(r) && Steps(own, s, step, r) && TablesSelfMapped(s)
    ensures TablesSelfMapped(r) <==> (step.MapPage? && IsTableFrame(r, step.page) ==> step.target == step.page)
  {
    hide WellFormed, Translate, IsTableFrame, Maps, Reaches;
    match step
    case MapPage(v, p, quickwrite) => MapKeepsSelfMap(s, r, v, p, quickwrite);
    case DonatePage(v) =>
      forall f: nat | IsTableFrame(r, f)
        ensures Translate(r, f) == Some(f)
      {
        TableFramesArePages(r, f);
        DonateKeepsTranslation(s, r, v, f);
      }
    case _ =>
      SameTables(s, r);
      forall f: nat | IsTableFrame(r, f)
        ensures Translate(r, f) == Some(f)
      {
        TableFramesArePages(r, f);
        SameTreeSameMeaning(s, r, f);
      }
  }

  // Every table stays mapped to itself over a run in which nobody maps a table's page elsewhere.
  lemma {:induction false} RunKeepsSelfMap(own: set<nat>, states: seq<Space>, steps: seq<Step>, k: nat)
    requires Run(own, states, steps) && k < |states| && TablesSelfMapped(states[0])
    requires forall i: nat :: i < k && steps[i].MapPage? && IsTableFrame(states[i + 1], steps[i].page) ==>
               steps[i].target == steps[i].page
    ensures TablesSelfMapped(states[k])
    decreases k
  {
    hide WellFormed, Steps, TablesSelfMapped, IsTableFrame;
    if k > 0 {
      RunKeepsSelfMap(own, states, steps, k - 1);
      RunKeepsTree(own, states, steps, k - 1, k - 1);
      RunKeepsTree(own, states, steps, k, k);
      StepKeepsSelfMap(own, states[k - 1], steps[k - 1], states[k]);
    }
  }
}

// `request_pages` as a function: the address space it leaves, the frames it takes and the run it makes.
module Batches {
  import opened Words
  import opened Ledger
  import opened PageEntry
  import opened PageTree
  import opened TableWrites
  import opened Mapping
  import opened Frames
  import opened Runs

  // How far a batch has come.
  datatype Progress = Progress(space: Space, obtained: seq<nat>, states: seq<Space>, steps: seq<Step>)

  // One round takes the lowest clear frame and maps the next page to it.
  ghost function Round(b: Progress, start: nat): Option<Progress> {
    match FirstClear(b.space.bits)
    case None => None
    case Some(f) =>
      if f >= FRAME_LIMIT then None
      else
        var t, page := Take(b.space, f), start + |b.obtained|;
        match MapTo(t, page, f, false)
        case None => None
        case Some(r) =>
          Some(Progress(r, b.obtained + [f], b.states + [t] + [r], b.steps + [Request(f)] + [MapPage(page, f, false)]))
  }

  ghost function Rounds(s: Space, start: nat, k: nat): (b: Option<Progress>)
    ensures b.Some? ==> b.value.states != []
  {
    if k == 0 then Some(Progress(s, [], [s], []))
    else
      match Rounds(s, start, k - 1)
      case None => None
      case Some(b) => Round(b, start)
  }

  // The pages are those from the first clear frame on. With fewer than two pages asked for nothing happens.
  ghost function PagesTo(s: Space, n: nat): (b: Option<Progress>)
    ensures b.Some? ==> b.value.states != []
  {
    if n <= 1 then Some(Progress(s, [], [s], []))
    else
      match FirstClear(s.bits)
      case None => None
      case Some(first) => Rounds(s, first, n)
  }

  lemma {:induction false} RoundsPrefix(s: Space, start: nat, j: nat, k: nat)
    requires j <= k && Rounds(s, start, k).Some?
    ensures Rounds(s, start, j).Some?
    decreases k
  {
    hide Round;
    if j < k {
      RoundsPrefix(s, start, j, k - 1);
    }
  }

  // What has been done is a batch and a run.
  ghost predicate InBatch(own: set<nat>, s: Space, start: nat, b: Progress) {
    && WellFormed(b.space)
    && BatchRun(own, s, b.space, start, b.obtained, b.states, b.steps)
    && if b.obtained == [] then b.space == s && IsFirstClear(s.bits, start) else b.obtained[0] == start
  }

  // The page that the next frame goes to lies at or below that frame.
  lemma InBatchReach(own: set<nat>, s: Space, start: nat, b: Progress, f: nat)
    requires InBatch(own, s, start, b) && IsFirstClear(b.space.bits, f)
    ensures start + |b.obtained| <= f < |b.space.bits| <= PAGE_LIMIT
    ensures b.obtained == [] ==> start == f
    ensures Batch(s, b.space, start, b.obtained) && Frontier(b.space, b.obtained)
    ensures |b.space.mem| == |s.mem|
  {
    hide WellFormed, Holds;
    SoundSizes(b.space);
    if b.obtained == [] {
      FirstClearIsUnique(s.bits, start);
      FirstClearIsUnique(s.bits, f);
    } else {
      BatchRunReach(own, s, b.space, start, b.obtained, f, b.states, b.steps);
    }
  }

  lemma RoundGrows(own: set<nat>, s: Space, start: nat, b: Progress)
    requires InBatch(own, s, start, b) && Round(b, start).Some?
    ensures InBatch(own, s, start, Round(b, start).value)
  {
    hide WellFormed, Maps, Reaches, MapTo, BatchRun, Batch, Frontier;
    var f := FirstClear(b.space.bits).value;
    InBatchReach(own, s, start, b, f);
    TakeKeepsTree(b.space, f, {});
    MapToMaps(Take(b.space, f), start + |b.obtained|, f, false);
    BatchRunGrows(own, s, b.space, Round(b, start).value.space, start, b.obtained, f, b.states, b.steps);
  }

  lemma {:induction false} RoundsGrow(own: set<nat>, s: Space, start: nat, k: nat)
    requires WellFormed(s) && IsFirstClear(s.bits, start) && Rounds(s, start, k).Some?
    ensures InBatch(own, s, start, Rounds(s, start, k).value) && |Rounds(s, start, k).value.obtained| == k
  {
    hide WellFormed, InBatch;
    if k == 0 {
      BatchStartsOut(own, s, start);
    } else {
      RoundsGrow(own, s, start, k - 1);
      RoundGrows(own, s, start, Rounds(s, start, k - 1).value);
    }
  }

  lemma BatchStartsOut(own: set<nat>, s: Space, start: nat)
    requires WellFormed(s) && IsFirstClear(s.bits, start)
    ensures InBatch(own, s, start, Progress(s, [], [s], []))
  {
    hide WellFormed, BatchRun;
    BatchRunStarts(own, s, start);
  }

  // Each round takes one frame off the slack, and succeeds while there is one.
  lemma RoundServes(own: set<nat>, s: Space, start: nat, b: Progress, needed: set<Node>)
    requires InBatch(own, s, start, b) && Covers(needed, |b.space.mem|)
    ensures Round(b, start).Some? ==> Slack(Round(b, start).value.space, needed) == Slack(b.space, needed) - 1
    ensures Slack(b.space, needed) >= 1 ==> Round(b, start).Some?
  {
    hide WellFormed, Covers, Slack, Path, MapTo, InBatch, Batch, Frontier;
    SlackMeansFrame(b.space, needed);
    if FirstClear(b.space.bits).Some? {
      var f := FirstClear(b.space.bits).value;
      InBatchReach(own, s, start, b, f);
      InBatchIsSound(own, s, start, b);
      TakeKeepsTree(b.space, f, needed);
      CoversPath(needed, |b.space.mem|, start + |b.obtained|);
      MapToServes(Take(b.space, f), start + |b.obtained|, f, false, needed);
    }
  }

  lemma InBatchIsSound(own: set<nat>, s: Space, start: nat, b: Progress)
    requires InBatch(own, s, start, b)
    ensures WellFormed(b.space) && |b.space.mem| == |b.space.bits|
    ensures |b.space.mem| == |s.mem|
  {
    hide WellFormed;
    SoundSizes(b.space);
  }

  lemma {:induction false} RoundsServe(s: Space, start: nat, k: nat, needed: set<Node>)
    requires WellFormed(s) && IsFirstClear(s.bits, start) && Covers(needed, |s.mem|)
    ensures Rounds(s, start, k).Some? ==> Slack(Rounds(s, start, k).value.space, needed) == Slack(s, needed) - k
    ensures Slack(s, needed) >= k ==> Rounds(s, start, k).Some?
  {
    hide WellFormed, Covers, Slack, Round, InBatch;
    if k > 0 {
      RoundsServe(s, start, k - 1, needed);
      if Rounds(s, start, k - 1).Some? {
        RoundsGrow({}, s, start, k - 1);
        var b := Rounds(s, start, k - 1).value;
        InBatchIsSound({}, s, start, b);
        RoundServes({}, s, start, b, needed);
      }
    }
  }

  // What the i-th round of a batch that succeeds finds and leaves.
  lemma RoundRuns(s: Space, start: nat, i: nat, n: nat) returns (b: Progress, f: FrameNumber, next: Progress)
    requires WellFormed(s) && IsFirstClear(s.bits, start) && i < n && Rounds(s, start, n).Some?
    ensures Rounds(s, start, i) == Some(b) && Rounds(s, start, i + 1) == Some(next)
    ensures |b.obtained| == i && |next.obtained| == i + 1
    ensures FirstClear(b.space.bits) == Some(f) && start + i <= f < |b.space.bits| <= PAGE_LIMIT
    ensures i == 0 ==> b.space == s && f == start
    ensures MapTo(Take(b.space, f), start + i, f, false) == Some(next.space)
  {
    hide WellFormed, MapTo, InBatch, Round, Batch, Frontier, FirstClear;
    RoundsPrefix(s, start, i, n);
    RoundsPrefix(s, start, i + 1, n);
    b, next := Rounds(s, start, i).value, Rounds(s, start, i + 1).value;
    RoundsGrow({}, s, start, i);
    assert Rounds(s, start, i + 1) == Round(b, start);
    RoundIs(b, start);
    f := FirstClear(b.space.bits).value;
    InBatchReach({}, s, start, b, f);
    if i == 0 {
      NoRounds(s, start);
    }
  }

  lemma NoRounds(s: Space, start: nat)
    ensures Rounds(s, start, 0) == Some(Progress(s, [], [s], []))
  {
  }

  lemma RoundIs(b: Progress, start: nat)
    requires Round(b, start).Some?
    ensures FirstClear(b.space.bits).Some? && FirstClear(b.space.bits).value < FRAME_LIMIT
    ensures var f, next := FirstClear(b.space.bits).value, Round(b, start).value;
      && |next.obtained| == |b.obtained| + 1
      && MapTo(Take(b.space, f), start + |b.obtained|, f, false) == Some(next.space)
  {
    hide MapTo;
  }

  // ----- the whole call -----

  // The frames obtained are mapped, in order, from the first clear frame's page on; the call is a run of requests
  // and mappings, so it leaves every held frame alone and opens no page to user mode.
  lemma PagesToMaps(own: set<nat>, s: Space, n: nat)
    requires WellFormed(s) && PagesTo(s, n).Some?
    ensures var b := PagesTo(s, n).value;
      && WellFormed(b.space) && |b.obtained| == (if n <= 1 then 0 else n)
      && RunFromTo(own, b.states, b.steps, s, b.space) && Allocating(b.steps)
      && LeavesHeld(s, b.space) && SameUserPages(s, b.space)
      && (n >= 2 ==> IsFirstClear(s.bits, b.obtained[0]) && Batch(s, b.space, b.obtained[0], b.obtained))
  {
    hide WellFormed, Rounds, RunFromTo, Allocating, LeavesHeld, SameUserPages, Batch, Frontier, BatchRun, IsFirstClear;
    var b := PagesTo(s, n).value;
    if n <= 1 {
      BatchRunStarts(own, s, 0);
      BatchRunMeans(own, s, s, 0, [], [s], []);
    } else {
      var first := FirstClear(s.bits).value;
      RoundsGrow(own, s, first, n);
      BatchRunMeans(own, s, b.space, first, b.obtained, b.states, b.steps);
    }
  }

  // What the call takes off the slack; with that much it succeeds.
  lemma PagesToServes(s: Space, n: nat, needed: set<Node>)
    requires WellFormed(s) && Covers(needed, |s.mem|)
    ensures var k := if n <= 1 then 0 else n;
      && (PagesTo(s, n).Some? ==> Slack(PagesTo(s, n).value.space, needed) == Slack(s, needed) - k)
      && (Slack(s, needed) >= k ==> PagesTo(s, n).Some?)
  {
    hide WellFormed, Covers, Slack, Rounds;
    SlackMeansFrame(s, needed);
    if n >= 2 && FirstClear(s.bits).Some? {
      RoundsServe(s, FirstClear(s.bits).value, n, needed);
    }
  }

  // The steps of the run, one by one.
  lemma {:induction false} RoundsSteps(s: Space, start: nat, k: nat, i: nat)
    requires Rounds(s, start, k).Some? && i < k
    ensures var b := Rounds(s, start, k).value;
      && |b.obtained| == k && |b.steps| == 2 * k && b.obtained[i] < FRAME_LIMIT
      && b.steps[2 * i] == Request(b.obtained[i])
      && b.steps[2 * i + 1] == MapPage(start + i, b.obtained[i], false)
  {
    hide MapTo, FirstClear;
    if k > 1 {
      RoundsSteps(s, start, k - 1, if i < k - 1 then i else 0);
    }
  }
}

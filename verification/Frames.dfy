// Frames in the hands of callers: what taking, freeing and writing a frame does to the page-table tree,
// what `request_pages` builds, and what holds over whole runs.
module Frames {
  import opened Words
  import opened Ledger
  import opened PageEntry
  import opened PageTree
  import opened Translation

  // ----- single steps -----

  function Take(s: Space, f: nat): Space
    requires f < |s.bits|
  {
    s.(bits := s.bits[f := true])
  }

  function Release(s: Space, f: nat): Space
    requires f < |s.bits|
  {
    s.(bits := s.bits[f := false])
  }

  function Scribble(s: Space, f: nat, contents: seq<Entry>): Space
    requires f < |s.mem|
  {
    s.(mem := s.mem[f := contents])
  }

  lemma SameTables(s: Space, r: Space)
    requires r.root == s.root && r.tree == s.tree
    ensures forall t :: IsTable(r, t) <==> IsTable(s, t)
    ensures forall t :: IsTable(s, t) ==> TableFrame(r, t) == TableFrame(s, t)
    ensures forall f: nat :: IsTableFrame(r, f) <==> IsTableFrame(s, f)
  {
  }

  lemma TakeKeepsTree(s: Space, f: nat, needed: set<Node>)
    requires WellFormed(s) && f < |s.bits|
    ensures WellFormed(Take(s, f))
    ensures !s.bits[f] ==> Slack(Take(s, f), needed) == Slack(s, needed) - 1 && !IsTableFrame(s, f)
  {
    SameTables(s, Take(s, f));
    SetCountUpdate(s.bits, f, true);
    if IsTableFrame(s, f) {
      TableFramesArePages(s, f);
    }
  }

  // Freeing a frame keeps the tree sound exactly when no table lives in it.
  lemma ReleaseKeepsTree(s: Space, f: nat)
    requires WellFormed(s) && f < |s.bits|
    ensures WellFormed(Release(s, f)) <==> !IsTableFrame(s, f)
  {
    SameTables(s, Release(s, f));
    if WellFormed(Release(s, f)) && IsTableFrame(s, f) {
      TableFramesArePages(Release(s, f), f);
    }
    if !IsTableFrame(s, f) {
      forall t | IsTable(s, t)
        ensures Release(s, f).bits[TableFrame(s, t)]
      {
        assert IsTableFrame(s, TableFrame(s, t));
      }
    }
  }

  lemma ScribbleKeepsTree(s: Space, f: nat, contents: seq<Entry>)
    requires WellFormed(s) && f < |s.mem| && !IsTableFrame(s, f) && |contents| == 512
    ensures WellFormed(Scribble(s, f, contents))
  {
    var r := Scribble(s, f, contents);
    SameTables(s, r);
    forall t, i: nat | IsTable(r, t) && i < 512
      ensures r.mem[TableFrame(r, t)][i] == Val(r.tree, Child(t, i))
    {
      assert IsTableFrame(s, TableFrame(s, t));
      ReadSlot(s, t, i);
    }
  }

  // ----- held frames -----

  // A frame that a caller holds: taken, and not a table.
  ghost predicate Held(s: Space, f: nat) { f < |s.bits| && s.bits[f] && !IsTableFrame(s, f) }

  // From s to r every held frame stayed held, with its memory as it was.
  ghost predicate LeavesHeld(s: Space, r: Space) {
    && |r.bits| == |s.bits| == |s.mem| == |r.mem|
    && forall f: nat {:trigger Held(s, f)} {:trigger Held(r, f)} :: Held(s, f) ==> Held(r, f) && r.mem[f] == s.mem[f]
  }

  lemma LeavesHeldTrans(s: Space, m: Space, r: Space)
    requires LeavesHeld(s, m) && LeavesHeld(m, r)
    ensures LeavesHeld(s, r)
  {
    hide Held;
  }

  // The same for all frames that were taken in s, when there were no tables yet.
  ghost predicate TakenAreHeld(s: Space, r: Space) {
    && |r.bits| == |s.bits| == |s.mem| == |r.mem|
    && forall f: nat {:trigger Held(r, f)} :: f < |s.bits| && s.bits[f] ==> Held(r, f) && r.mem[f] == s.mem[f]
  }

  lemma TakenAreHeldTrans(s: Space, m: Space, r: Space)
    requires TakenAreHeld(s, m) && LeavesHeld(m, r)
    ensures TakenAreHeld(s, r)
  {
    hide Held;
    forall f: nat | f < |s.bits| && s.bits[f]
      ensures Held(r, f) && r.mem[f] == s.mem[f]
    {
      assert Held(m, f);
    }
  }

  lemma ClearWasClear(s: Space, r: Space, f: nat)
    requires TakenAreHeld(s, r) && f < |r.bits| && !r.bits[f]
    ensures f < |s.bits| && !s.bits[f]
  {
    assert !Held(r, f);
  }

  lemma LeavesHeldSelf(s: Space)
    requires WellFormed(s)
    ensures LeavesHeld(s, s)
  {
  }

  lemma TakeLeavesHeld(s: Space, f: nat)
    requires WellFormed(s) && f < |s.bits|
    ensures LeavesHeld(s, Take(s, f))
  {
    SameTables(s, Take(s, f));
  }

  lemma MapLeavesHeld(s: Space, r: Space, v: nat, p: FrameNumber, quickwrite: bool)
    requires WellFormed(s) && WellFormed(r) && Maps(s, r, v, p, quickwrite)
    ensures LeavesHeld(s, r)
  {
    hide WellFormed;
    MapsFacts(s, r, v, p, quickwrite);
    ReadSlot(s, ROOT, 0);
    forall f: nat | Held(s, f)
      ensures Held(r, f) && r.mem[f] == s.mem[f]
    {
      FreshFramesAreNewTables(s, r, f);
    }
  }

  // ----- request_pages -----

  // From s0 to r the obtained frames were mapped, in order, to the pages from `start` on, and every
  // table added meanwhile was mapped to itself; no other page changed.
  function BatchTarget(s0: Space, start: nat, obtained: seq<nat>, isNewTable: bool, x: nat): Option<nat> {
    if start <= x < start + |obtained| then Some(obtained[x - start])
    else if isNewTable then Some(x)
    else Translate(s0, x)
  }

  ghost predicate IsNewTable(s0: Space, r: Space, x: nat) { IsTableFrame(r, x) && !IsTableFrame(s0, x) }

  ghost predicate Increasing(fs: seq<nat>) { forall i, j :: 0 <= i < j < |fs| ==> fs[i] < fs[j] }

  // The frames of a batch: strictly increasing, clear before, taken now, and none of them a table.
  ghost predicate Holds(s0: Space, r: Space, obtained: seq<nat>) {
    && |r.bits| == |s0.bits|
    && Increasing(obtained)
    && forall i :: 0 <= i < |obtained| ==>
         obtained[i] < |s0.bits| && !s0.bits[obtained[i]] && r.bits[obtained[i]] && !IsTableFrame(r, obtained[i])
  }

  ghost predicate Batch(s0: Space, r: Space, start: nat, obtained: seq<nat>) {
    && r.root == s0.root && |r.mem| == |s0.mem|
    && Holds(s0, r, obtained)
    && (forall f: nat :: f < |s0.bits| && s0.bits[f] ==> r.bits[f])
    && (forall f: nat :: IsTableFrame(s0, f) ==> IsTableFrame(r, f))
    && (forall x: nat :: x < PAGE_LIMIT ==>
          Translate(r, x) == BatchTarget(s0, start, obtained, IsNewTable(s0, r, x), x))
  }

  // All frames up to the last one obtained are taken.
  ghost predicate Frontier(r: Space, obtained: seq<nat>) {
    obtained != [] ==> forall j: nat :: j <= obtained[|obtained| - 1] && j < |r.bits| ==> r.bits[j]
  }

  lemma BatchStarts(s0: Space, start: nat)
    ensures Batch(s0, s0, start, []) && Frontier(s0, [])
  {
  }

  lemma {:induction false} IncreasingGrowsFast(fs: seq<nat>, k: nat)
    requires Increasing(fs) && k < |fs|
    ensures fs[0] + k <= fs[k]
  {
    if k > 0 {
      IncreasingGrowsFast(fs, k - 1);
    }
  }

  ghost predicate BatchStep(s0: Space, m: Space, r: Space, start: nat, obtained: seq<nat>, f: nat) {
    && WellFormed(m) && WellFormed(r)
    && Batch(s0, m, start, obtained) && Frontier(m, obtained) && IsFirstClear(m.bits, f)
    && (obtained != [] ==> start == obtained[0])
    && (obtained == [] ==> start == f)
    && f < |Take(m, f).bits| <= PAGE_LIMIT
    && Maps(Take(m, f), r, start + |obtained|, f, false)
  }

  // First fit: each new frame lies beyond all pages mapped so far, so neither it nor a table
  // allocated while mapping it can overwrite one of them.
  lemma BatchPageBelowFrame(s0: Space, m: Space, r: Space, start: nat, obtained: seq<nat>, f: nat)
    requires BatchStep(s0, m, r, start, obtained, f)
    ensures Increasing(obtained + [f]) && start + |obtained| <= f
    ensures forall x: nat :: Fresh(Take(m, f), r, x) ==> f < x
  {
    var n := |obtained|;
    if n > 0 {
      var last := obtained[n - 1];
      assert m.bits[last];
      assert last < f;
      IncreasingGrowsFast(obtained, n - 1);
    }
  }

  // The page the next frame of a batch goes to lies at or below that frame.
  lemma BatchPageInReach(s0: Space, m: Space, start: nat, obtained: seq<nat>, f: nat)
    requires Batch(s0, m, start, obtained) && Frontier(m, obtained) && IsFirstClear(m.bits, f)
    requires obtained != [] && start == obtained[0]
    ensures start + |obtained| <= f < |m.bits|
  {
    var last := obtained[|obtained| - 1];
    assert m.bits[last] && !m.bits[f];
    assert last < f;
    IncreasingGrowsFast(obtained, |obtained| - 1);
  }

  lemma BatchKeepsHolding(s0: Space, m: Space, r: Space, start: nat, obtained: seq<nat>, f: nat)
    requires BatchStep(s0, m, r, start, obtained, f)
    ensures Holds(s0, r, obtained + [f])
    ensures forall x: nat :: IsTableFrame(r, x) <==> IsTableFrame(m, x) || Fresh(Take(m, f), r, x)
    ensures forall x: nat :: x < |m.bits| && m.bits[x] ==> r.bits[x]
    ensures r.bits[f]
  {
    var t := Take(m, f);
    TakeKeepsTree(m, f, {});
    SameTables(m, t);
    BatchPageBelowFrame(s0, m, r, start, obtained, f);
    TablesPersist(t, r);
    forall x: nat
      ensures IsTableFrame(r, x) <==> IsTableFrame(m, x) || Fresh(t, r, x)
    {
      FreshFramesAreNewTables(t, r, x);
    }
  }

  lemma SameMemorySameTranslation(s: Space, r: Space, x: nat)
    requires s.root == r.root && s.mem == r.mem
    ensures Translate(r, x) == Translate(s, x)
  {
  }

  lemma FreshIsNewTable(s0: Space, m: Space, t: Space, r: Space, x: nat)
    requires WellFormed(m) && (forall f: nat :: IsTableFrame(s0, f) ==> IsTableFrame(m, f))
    requires |t.bits| == |m.bits| && (forall j: nat :: j < |m.bits| && m.bits[j] ==> t.bits[j])
    requires Fresh(t, r, x) && IsTableFrame(r, x)
    ensures IsNewTable(s0, r, x)
  {
  }

  lemma BatchTranslates(s0: Space, m: Space, r: Space, start: nat, obtained: seq<nat>, f: nat, x: nat)
    requires BatchStep(s0, m, r, start, obtained, f) && x < PAGE_LIMIT
    ensures Translate(r, x) == BatchTarget(s0, start, obtained + [f], IsNewTable(s0, r, x), x)
  {
    hide WellFormed, Holds, TablesGrew, Mapped, IsTableFrame, Entry1;
    var t, n := Take(m, f), |obtained|;
    TakeKeepsTree(m, f, {});
    BatchPageBelowFrame(s0, m, r, start, obtained, f);
    BatchKeepsHolding(s0, m, r, start, obtained, f);
    MapTranslates(t, r, start + n, f, false, x);
    SameMemorySameTranslation(m, t, x);
    assert Translate(m, x) == BatchTarget(s0, start, obtained, IsNewTable(s0, m, x), x);
    if Fresh(t, r, x) {
      FreshIsNewTable(s0, m, t, r, x);
    }
  }

  lemma BatchGrows(s0: Space, m: Space, r: Space, start: nat, obtained: seq<nat>, f: nat)
    requires BatchStep(s0, m, r, start, obtained, f)
    ensures Batch(s0, r, start, obtained + [f]) && Frontier(r, obtained + [f])
  {
    hide WellFormed, Holds;
    BatchKeepsHolding(s0, m, r, start, obtained, f);
    MapsFacts(Take(m, f), r, start + |obtained|, f, false);
    assert |r.bits| == |m.bits|;
    forall x: nat | x < PAGE_LIMIT
      ensures Translate(r, x) == BatchTarget(s0, start, obtained + [f], IsNewTable(s0, r, x), x)
    {
      BatchTranslates(s0, m, r, start, obtained, f, x);
    }
    assert Batch(s0, r, start, obtained + [f]);
  }

  // A batch keeps the tables mapped to themselves exactly when none of them has the number of a page of the batch.
  lemma BatchKeepsSelfMap(s0: Space, r: Space, start: nat, obtained: seq<nat>)
    requires WellFormed(r) && Batch(s0, r, start, obtained) && TablesSelfMapped(s0)
    ensures TablesSelfMapped(r)
       <==> forall f: nat :: start <= f < start + |obtained| ==> !IsTableFrame(r, f)
  {
    hide WellFormed, IsTableFrame, Translate;
    forall f: nat | IsTableFrame(r, f)
      ensures Translate(r, f) == Some(f) <==> !(start <= f < start + |obtained|)
    {
      TableFramesArePages(r, f);
    }
  }
}

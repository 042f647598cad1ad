// What a mapping lets the processor do: whether a page can be written to, and how it is cached. Read off the walk of
// memory (section 4.6 of the Intel SDM, Volume 3A, and section 4.9 for the caching index).
module Access {
  import opened Words
  import opened PageEntry
  import opened PageTree
  import opened TableWrites
  import opened Translation
  import opened Mapping
  import opened Frames
  import opened Runs

  // A page can be written to when the R/W bit is set on all four levels.
  predicate WritablePage(s: Space, x: nat) {
    && Mapped(s, x)
    && Entry4(s.root, s.mem, x).readWrite
    && Entry3(s.root, s.mem, x).readWrite
    && Entry2(s.root, s.mem, x).readWrite
    && Entry1(s.root, s.mem, x).readWrite
  }

  // Which of the eight caching types of the PAT register a page has.
  function PatIndex(s: Space, x: nat): nat {
    var e := Entry1(s.root, s.mem, x);
    (if e.writeThrough then 1 else 0) + (if e.cacheDisabled then 2 else 0) + if e.largerPages then 4 else 0
  }

  // Every link of the tables lets writes through.
  ghost predicate LinksWritable(s: Space) { forall n :: n in s.tree && n.level >= 1 ==> s.tree[n].readWrite }

  // The leaf of a mapped page on its own.
  lemma LeafAccess(s: Space, x: nat)
    requires WellFormed(s) && LinksWritable(s) && x < PAGE_LIMIT
    ensures WritablePage(s, x) <==> Leaf(x) in s.tree && s.tree[Leaf(x)].readWrite
  {
    hide WellFormed;
    WalkReadsTree(s, x);
  }

  lemma LeafCaching(s: Space, x: nat)
    requires WellFormed(s) && x < PAGE_LIMIT && Mapped(s, x)
    ensures Leaf(x) in s.tree
    ensures var e := s.tree[Leaf(x)];
      PatIndex(s, x)
      == (if e.writeThrough then 1 else 0) + (if e.cacheDisabled then 2 else 0) + if e.largerPages then 4 else 0
  {
    hide WellFormed;
    WalkReadsTree(s, x);
  }

  // ----- map_memory -----

  lemma MapKeepsLinksWritable(s: Space, r: Space, v: nat, p: FrameNumber, quickwrite: bool)
    requires Maps(s, r, v, p, quickwrite) && LinksWritable(s)
    ensures LinksWritable(r)
  {
  }

  // With writable links, map_memory makes v writable and the pages of new tables, and every other page is as before.
  lemma MapMakesWritable(s: Space, r: Space, v: nat, p: FrameNumber, quickwrite: bool, x: nat)
    requires WellFormed(s) && WellFormed(r) && Maps(s, r, v, p, quickwrite) && LinksWritable(s) && x < PAGE_LIMIT
    ensures WritablePage(r, x) <==> x == v || IsNewTable(s, r, x) || WritablePage(s, x)
  {
    hide WellFormed, TablesGrew;
    MapKeepsLinksWritable(s, r, v, p, quickwrite);
    LeafAccess(s, x);
    LeafAccess(r, x);
    MapFreshIsNew(s, r, v, p, quickwrite, x);
    LinkedFromAbove(s, Leaf(x));
    LinkedFromAbove(r, Leaf(x));
    assert Val(r.tree, Leaf(x))
        == if x == v then LeafEntry(Val(s.tree, Leaf(v)), p, quickwrite) else SelfMapped(s, r, x);
  }

  lemma MapFreshIsNew(s: Space, r: Space, v: nat, p: FrameNumber, quickwrite: bool, x: nat)
    requires WellFormed(s) && WellFormed(r) && Maps(s, r, v, p, quickwrite)
    ensures Fresh(s, r, x) <==> IsNewTable(s, r, x)
  {
    hide WellFormed;
    FreshFramesAreNewTables(s, r, x);
  }

  // The caching index of v is 1 with `quickwrite` and 0 without, that of a new table's page 0, and all others stay.
  lemma MapCaches(s: Space, r: Space, v: nat, p: FrameNumber, quickwrite: bool, x: nat)
    requires WellFormed(s) && WellFormed(r) && Maps(s, r, v, p, quickwrite) && x < PAGE_LIMIT && Mapped(r, x)
    ensures x == v ==> PatIndex(r, x) == if quickwrite then 1 else 0
    ensures x != v && IsNewTable(s, r, x) ==> PatIndex(r, x) == 0
    ensures x != v && !IsNewTable(s, r, x) ==> Mapped(s, x) && PatIndex(r, x) == PatIndex(s, x)
  {
    hide WellFormed, TablesGrew, PatIndex;
    MapFreshIsNew(s, r, v, p, quickwrite, x);
    LeafCaching(r, x);
    LinkedFromAbove(r, Leaf(x));
    assert Val(r.tree, Leaf(x))
        == if x == v then LeafEntry(Val(s.tree, Leaf(v)), p, quickwrite) else SelfMapped(s, r, x);
    if x != v && !IsNewTable(s, r, x) {
      WalkReadsTree(s, x);
      LeafCaching(s, x);
    }
  }

  lemma MapToAccess(s: Space, v: nat, p: FrameNumber, quickwrite: bool)
    requires WellFormed(s) && v < PAGE_LIMIT && MapTo(s, v, p, quickwrite).Some?
    ensures var r := MapTo(s, v, p, quickwrite).value;
      && (LinksWritable(s) ==> LinksWritable(r) && WritablePage(r, v))
      && Mapped(r, v) && PatIndex(r, v) == if quickwrite then 1 else 0
  {
    hide WellFormed, Maps, Reaches, MapTo, LinksWritable, WritablePage, PatIndex;
    MapToMaps(s, v, p, quickwrite);
    var r := MapTo(s, v, p, quickwrite).value;
    MapTranslates(s, r, v, p, quickwrite, v);
    if LinksWritable(s) {
      MapKeepsLinksWritable(s, r, v, p, quickwrite);
      MapMakesWritable(s, r, v, p, quickwrite, v);
    }
    MapCaches(s, r, v, p, quickwrite, v);
  }

  lemma GrowthKeepsLinks(s: Space, r: Space)
    requires Extends(s, r) && LinksWritable(s)
    ensures LinksWritable(r)
  {
  }

  lemma TableToKeepsLinks(s: Space, t: Node, i: nat)
    requires WellFormed(s) && IsTable(s, t) && 2 <= t.level <= 4 && i < 512 && TableTo(s, t, i).Some?
    ensures LinksWritable(s) ==> LinksWritable(TableTo(s, t, i).value)
  {
    hide WellFormed, Extends, Reaches, TableTo, LinksWritable;
    TableToGrows(s, t, i);
    if LinksWritable(s) {
      GrowthKeepsLinks(s, TableTo(s, t, i).value);
    }
  }

  // ----- runs -----

  // Links let writes through, and so does every page that is mapped.
  ghost predicate AllWritable(s: Space) {
    LinksWritable(s) && forall x: nat :: x < PAGE_LIMIT && Mapped(s, x) ==> WritablePage(s, x)
  }

  lemma MapToKeepsWritable(s: Space, v: nat, p: FrameNumber, quickwrite: bool)
    requires WellFormed(s) && v < PAGE_LIMIT && MapTo(s, v, p, quickwrite).Some? && AllWritable(s)
    ensures AllWritable(MapTo(s, v, p, quickwrite).value)
  {
    hide WellFormed, Maps, Reaches, MapTo, LinksWritable, WritablePage, IsTableFrame, Mapped;
    MapToMaps(s, v, p, quickwrite);
    var r := MapTo(s, v, p, quickwrite).value;
    MapKeepsLinksWritable(s, r, v, p, quickwrite);
    forall x: nat | x < PAGE_LIMIT && Mapped(r, x)
      ensures WritablePage(r, x)
    {
      MapMakesWritable(s, r, v, p, quickwrite, x);
      MappedAfterMap(s, r, v, p, quickwrite, x);
    }
  }

  lemma MappedAfterMap(s: Space, r: Space, v: nat, p: FrameNumber, quickwrite: bool, x: nat)
    requires WellFormed(s) && WellFormed(r) && Maps(s, r, v, p, quickwrite) && x < PAGE_LIMIT
    ensures Mapped(r, x) <==> x == v || IsNewTable(s, r, x) || Mapped(s, x)
  {
    hide WellFormed, Maps;
    MapTranslates(s, r, v, p, quickwrite, x);
    MapFreshIsNew(s, r, v, p, quickwrite, x);
    assert Translate(s, x).Some? <==> Mapped(s, x);
    assert Translate(r, x).Some? <==> Mapped(r, x);
  }

  lemma TakeKeepsAccess(s: Space, f: nat)
    requires f < |s.bits|
    ensures AllWritable(s) ==> AllWritable(Take(s, f))
    ensures forall x: nat :: PatIndex(Take(s, f), x) == PatIndex(s, x) && (Mapped(Take(s, f), x) <==> Mapped(s, x))
  {
    var t := Take(s, f);
    assert forall x: nat :: WritablePage(t, x) <==> WritablePage(s, x);
    assert forall x: nat :: Mapped(t, x) <==> Mapped(s, x);
  }

  lemma StepAccess(own: set<nat>, s: Space, step: Step, r: Space, x: nat)
    requires WellFormed(s) && Steps(own, s, step, r) && LinksWritable(s) && x < PAGE_LIMIT
    ensures LinksWritable(r)
    ensures WritablePage(r, x)
       <==> (step.MapPage? && step.page == x) || IsNewTable(s, r, x) || WritablePage(s, x)
  {
    hide WellFormed, Reaches, IsTableFrame, WritablePage;
    StepKeepsTree(own, s, step, r);
    match step
    case MapPage(v, p, quickwrite) =>
      MapKeepsLinksWritable(s, r, v, p, quickwrite);
      MapMakesWritable(s, r, v, p, quickwrite, x);
    case DonatePage(v) =>
      DonateKeepsLinks(s, r, v);
      LeafAccess(s, x);
      LeafAccess(r, x);
    case _ =>
      SameTables(s, r);
      LeafAccess(s, x);
      LeafAccess(r, x);
  }

  lemma DonateKeepsLinks(s: Space, r: Space, v: nat)
    requires Donates(s, r, v)
    ensures r.tree.Keys == s.tree.Keys
    ensures forall n :: n in s.tree ==> r.tree[n].readWrite == s.tree[n].readWrite
    ensures forall f: nat :: IsTableFrame(r, f) <==> IsTableFrame(s, f)
  {
  }

  // Over every run links let writes through, and a page can be written to when it could at the start, was mapped
  // since, or has become the page of a table.
  lemma {:induction false} RunAccess(own: set<nat>, states: seq<Space>, steps: seq<Step>, k: nat, x: nat)
    requires Run(own, states, steps) && k < |states| && LinksWritable(states[0]) && x < PAGE_LIMIT
    ensures LinksWritable(states[k])
    ensures WritablePage(states[k], x)
       <==> || WritablePage(states[0], x)
            || (exists j: nat :: j < k && steps[j].MapPage? && steps[j].page == x)
            || IsNewTable(states[0], states[k], x)
    decreases k
  {
    hide WellFormed, Steps, LinksWritable, WritablePage, IsTableFrame;
    if k > 0 {
      RunAccess(own, states, steps, k - 1, x);
      RunKeepsTree(own, states, steps, 0, k - 1);
      RunKeepsTree(own, states, steps, k - 1, k);
      StepAccess(own, states[k - 1], steps[k - 1], states[k], x);
    }
  }

  // If every mapped page can be written to, this stays so.
  lemma RunKeepsWritable(own: set<nat>, states: seq<Space>, steps: seq<Step>, k: nat)
    requires Run(own, states, steps) && k < |states| && AllWritable(states[0])
    ensures AllWritable(states[k])
  {
    hide WellFormed, Steps, LinksWritable, WritablePage, IsTableFrame, Mapped;
    RunAccess(own, states, steps, k, 0);
    forall x: nat | x < PAGE_LIMIT && Mapped(states[k], x)
      ensures WritablePage(states[k], x)
    {
      RunAccess(own, states, steps, k, x);
      MappedComesFrom(own, states, steps, k, x);
    }
  }

  lemma {:induction false} MappedComesFrom(own: set<nat>, states: seq<Space>, steps: seq<Step>, k: nat, x: nat)
    requires Run(own, states, steps) && k < |states| && x < PAGE_LIMIT && Mapped(states[k], x)
    ensures || Mapped(states[0], x)
            || (exists j: nat :: j < k && steps[j].MapPage? && steps[j].page == x)
            || IsNewTable(states[0], states[k], x)
    decreases k
  {
    hide WellFormed, Steps, IsTableFrame, Mapped;
    if k > 0 {
      RunKeepsTree(own, states, steps, 0, k - 1);
      RunKeepsTree(own, states, steps, k - 1, k);
      StepRetargets(own, states[k - 1], steps[k - 1], states[k], x);
      assert Translate(states[k], x).Some? && (Translate(states[k - 1], x).Some? <==> Mapped(states[k - 1], x));
      if Mapped(states[k - 1], x) {
        MappedComesFrom(own, states, steps, k - 1, x);
      }
    }
  }
}

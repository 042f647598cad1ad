// What boot/kconf.cpp does to the page tables, as functions: the root table, the identity mappings of memory and
// framebuffer, and the loop that maps the heap. Each is undefined where a clear frame is missing.
module BootMap {
  import opened Words
  import opened Ledger
  import opened PageEntry
  import opened PageTree
  import opened TableWrites
  import opened Translation
  import opened Mapping
  import opened Frames
  import opened Runs
  import opened Access

  const HEAP_ADDRESS: uint64 := 0xffff_8000_0000_0000
  const HEAP_PAGE: nat := 0x8_0000_0000

  // The address space that holds nothing but an empty root table.
  ghost predicate EmptyRoot(s: Space) { WellFormed(s) && s.tree == map[] }

  lemma RootTableWellFormed(s: Space, f: nat)
    requires Shape(s) && f < |s.bits|
    ensures EmptyRoot(Space(f, s.mem[f := Zeros()], s.bits[f := true], map[]))
  {
  }

  lemma RootTableLeavesTaken(s: Space, f: nat)
    requires Shape(s) && f < |s.bits| && !s.bits[f]
    ensures TakenAreHeld(s, Space(f, s.mem[f := Zeros()], s.bits[f := true], map[]))
  {
  }

  lemma EmptyRootIsWellFormed(s: Space, needed: set<Node>)
    requires EmptyRoot(s)
    ensures WellFormed(s) && s.root < |s.bits| == |s.mem| <= PAGE_LIMIT
    ensures Slack(s, needed) == ClearCount(s.bits) - |needed|
  {
    assert needed - s.tree.Keys == needed;
    assert IsTable(s, ROOT);
  }

  // Every mapped page is mapped to itself, the given pages are mapped, and no others but those of tables.
  ghost predicate IdentityOn(s: Space, pages: set<nat>) {
    && (forall x: nat :: x < PAGE_LIMIT && Mapped(s, x) ==>
          Translate(s, x) == Some(x) && (x in pages || IsTableFrame(s, x)))
    && (forall x: nat :: x in pages ==> x < PAGE_LIMIT && Translate(s, x) == Some(x))
  }

  ghost predicate NoUserPages(s: Space) {
    UserPathsOpen(s) && forall x: nat :: x < PAGE_LIMIT ==> !UserAccessible(s, x)
  }

  // What holds after each mapping of setup_paging.
  ghost predicate BootState(s: Space, pages: set<nat>) {
    WellFormed(s) && IdentityOn(s, pages) && TablesSelfMapped(s) && NoUserPages(s)
  }

  lemma EmptyRootMapsNothing(s: Space)
    requires EmptyRoot(s)
    ensures IdentityOn(s, {}) && NoUserPages(s)
    ensures forall f: nat :: IsTableFrame(s, f) <==> f == s.root
  {
    assert IsTable(s, ROOT) && TableFrame(s, ROOT) == s.root;
    forall x: nat | x < PAGE_LIMIT
      ensures !Mapped(s, x)
    {
      WalkReadsTree(s, x);
    }
  }

  lemma IdentityStep(s: Space, r: Space, v: nat, quickwrite: bool, pages: set<nat>)
    requires WellFormed(s) && WellFormed(r) && IdentityOn(s, pages) && v < PAGE_LIMIT
    requires Maps(s, r, v, v, quickwrite)
    ensures IdentityOn(r, pages + {v})
  {
    hide WellFormed, Maps, TablesGrew, Entry1, IsTableFrame, Mapped;
    forall x: nat | x < PAGE_LIMIT
      ensures Translate(r, x) == if x == v || IsNewTable(s, r, x) then Some(x) else Translate(s, x)
      ensures Mapped(r, x) <==> x == v || IsNewTable(s, r, x) || Mapped(s, x)
      ensures IsTableFrame(s, x) ==> IsTableFrame(r, x)
    {
      MapTranslates(s, r, v, v, quickwrite, x);
      MapFreshIsNew(s, r, v, v, quickwrite, x);
      MappedAfterMap(s, r, v, v, quickwrite, x);
      TablesStay(s, r, v, quickwrite);
    }
  }

  lemma TablesStay(s: Space, r: Space, v: nat, quickwrite: bool)
    requires v < PAGE_LIMIT && Maps(s, r, v, v, quickwrite)
    ensures forall f: nat :: IsTableFrame(s, f) ==> IsTableFrame(r, f)
  {
    TablesPersist(s, r);
  }

  lemma NoUserStep(s: Space, r: Space, v: nat, p: FrameNumber, quickwrite: bool)
    requires WellFormed(s) && WellFormed(r) && Maps(s, r, v, p, quickwrite) && NoUserPages(s)
    ensures NoUserPages(r)
  {
    MapKeepsUserPages(s, r, v, p, quickwrite);
  }

  // The first mapping: the root table to itself.
  lemma FirstStep(s: Space, r: Space)
    requires EmptyRoot(s) && WellFormed(r) && s.root < PAGE_LIMIT && Maps(s, r, s.root, s.root, false)
    ensures BootState(r, {s.root})
  {
    EmptyRootMapsNothing(s);
    IdentityStep(s, r, s.root, false, {});
    assert {} + {s.root} == {s.root};
    NoUserStep(s, r, s.root, s.root, false);
    forall f: nat | IsTableFrame(r, f)
      ensures Translate(r, f) == Some(f)
    {
      TableFramesArePages(r, f);
      FreshFramesAreNewTables(s, r, f);
      MapTranslates(s, r, s.root, s.root, false, f);
    }
  }

  lemma BootStep(s: Space, r: Space, v: nat, quickwrite: bool, pages: set<nat>)
    requires BootState(s, pages) && WellFormed(r) && v < PAGE_LIMIT && Maps(s, r, v, v, quickwrite)
    ensures BootState(r, pages + {v})
  {
    IdentityStep(s, r, v, quickwrite, pages);
    NoUserStep(s, r, v, v, quickwrite);
    MapKeepsSelfMap(s, r, v, v, quickwrite);
  }

  // ----- the root -----

  ghost function RootTable(mem: seq<seq<Entry>>, bits: seq<bool>, f: nat): Space
    requires f < |mem| && f < |bits|
  {
    Space(f, mem[f := Zeros()], bits[f := true], map[])
  }

  // A frame is requested, zeroed and mapped to itself.
  ghost function RootTo(mem: seq<seq<Entry>>, bits: seq<bool>): Option<Space> {
    match FirstClear(bits)
    case None => None
    case Some(f) => if f < |mem| && f < PAGE_LIMIT then MapTo(RootTable(mem, bits, f), f, f, false) else None
  }

  // Memory and bitmap before there is a root.
  function Bare(mem: seq<seq<Entry>>, bits: seq<bool>): Space { Space(0, mem, bits, map[]) }

  lemma RootTableIsEmpty(mem: seq<seq<Entry>>, bits: seq<bool>, f: nat)
    requires Shape(Bare(mem, bits)) && IsFirstClear(bits, f)
    ensures f < PAGE_LIMIT && f < |mem| && EmptyRoot(RootTable(mem, bits, f)) && WellFormed(RootTable(mem, bits, f))
    ensures TakenAreHeld(Bare(mem, bits), RootTable(mem, bits, f))
  {
    hide WellFormed, TakenAreHeld;
    RootTableWellFormed(Bare(mem, bits), f);
    RootTableLeavesTaken(Bare(mem, bits), f);
  }

  lemma RootToBoots(mem: seq<seq<Entry>>, bits: seq<bool>)
    requires Shape(Bare(mem, bits)) && RootTo(mem, bits).Some?
    ensures var r := RootTo(mem, bits).value;
      && WellFormed(r) && BootState(r, {r.root}) && r.root < |r.mem| == |mem|
      && TakenAreHeld(Bare(mem, bits), r)
  {
    hide WellFormed, Maps, BootState, IsTableFrame, TakenAreHeld, LeavesHeld, Reaches, Shape, MapTo;
    var f := FirstClear(bits).value;
    RootTableIsEmpty(mem, bits, f);
    var m, r := RootTable(mem, bits, f), RootTo(mem, bits).value;
    MapToMaps(m, f, f, false);
    MapsFacts(m, r, f, f, false);
    MapLeavesHeld(m, r, f, f, false);
    TakenAreHeldTrans(Bare(mem, bits), m, r);
    FirstStep(m, r);
  }

  lemma RootToAccess(mem: seq<seq<Entry>>, bits: seq<bool>, x: nat)
    requires Shape(Bare(mem, bits)) && RootTo(mem, bits).Some?
    ensures WellFormed(RootTo(mem, bits).value) && AllWritable(RootTo(mem, bits).value)
    ensures x < PAGE_LIMIT && Mapped(RootTo(mem, bits).value, x) ==> PatIndex(RootTo(mem, bits).value, x) == 0
  {
    hide WellFormed, Maps, IsTableFrame, TakenAreHeld, Reaches, Shape, MapTo, AllWritable, PatIndex, Mapped;
    var f := FirstClear(bits).value;
    RootTableIsEmpty(mem, bits, f);
    var m, r := RootTable(mem, bits, f), RootTo(mem, bits).value;
    EmptyRootAccess(m);
    MapToMaps(m, f, f, false);
    MapToKeepsWritable(m, f, f, false);
    if x < PAGE_LIMIT && Mapped(r, x) {
      MapCaches(m, r, f, f, false, x);
    }
  }

  lemma EmptyRootAccess(s: Space)
    requires EmptyRoot(s)
    ensures AllWritable(s) && forall x: nat :: x < PAGE_LIMIT ==> !Mapped(s, x)
  {
    hide WellFormed;
    forall x: nat | x < PAGE_LIMIT
      ensures !Mapped(s, x)
    {
      WalkReadsTree(s, x);
    }
  }

  // The root takes one frame besides the tables.
  lemma RootToServes(mem: seq<seq<Entry>>, bits: seq<bool>, needed: set<Node>)
    requires Shape(Bare(mem, bits)) && Covers(needed, |mem|)
    ensures RootTo(mem, bits).Some? ==>
              Slack(RootTo(mem, bits).value, needed) == ClearCount(bits) - 1 - |needed|
    ensures ClearCount(bits) >= 1 + |needed| ==> RootTo(mem, bits).Some?
  {
    hide WellFormed, Shape, Covers, Path, MapTo, TakenAreHeld;
    if ClearCount(bits) >= 1 {
      SomeClear(bits);
    }
    if FirstClear(bits).Some? {
      var f := FirstClear(bits).value;
      RootTableIsEmpty(mem, bits, f);
      EmptyRootIsWellFormed(RootTable(mem, bits, f), needed);
      SetCountUpdate(bits, f, true);
      CoversPath(needed, |mem|, f);
      MapToServes(RootTable(mem, bits, f), f, f, false, needed);
    }
  }

  // ----- identity mappings -----

  // k pages from the first on are mapped to themselves, in order.
  ghost function IdentityTo(s: Space, first: nat, k: nat, quickwrite: bool): Option<Space> {
    if k == 0 then Some(s)
    else
      match IdentityTo(s, first, k - 1, quickwrite)
      case None => None
      case Some(m) =>
        var page := first + k - 1;
        if page < PAGE_LIMIT then MapTo(m, page, page, quickwrite) else None
  }

  lemma {:induction false} IdentityToPrefix(s: Space, first: nat, j: nat, k: nat, quickwrite: bool)
    requires j <= k && IdentityTo(s, first, k, quickwrite).Some?
    ensures IdentityTo(s, first, j, quickwrite).Some?
    decreases k
  {
    hide MapTo;
    if j < k {
      IdentityToPrefix(s, first, j, k - 1, quickwrite);
    }
  }

  // What the next round finds and leaves.
  lemma IdentityToStep(s: Space, first: nat, i: nat, k: nat, quickwrite: bool)
    requires i < k && IdentityTo(s, first, k, quickwrite).Some?
    ensures IdentityTo(s, first, i, quickwrite).Some? && first + i < PAGE_LIMIT
    ensures MapTo(IdentityTo(s, first, i, quickwrite).value, first + i, first + i, quickwrite).Some?
    ensures IdentityTo(s, first, i + 1, quickwrite)
         == MapTo(IdentityTo(s, first, i, quickwrite).value, first + i, first + i, quickwrite)
  {
    hide MapTo;
    IdentityToPrefix(s, first, i, k, quickwrite);
    IdentityToPrefix(s, first, i + 1, k, quickwrite);
  }

  predicate InRange(x: nat, first: nat, k: nat) { first <= x < first + k }

  function PageRange(first: nat, k: nat): set<nat> { set x: nat | x < first + k && InRange(x, first, k) }

  lemma {:induction false} IdentityToBoots(s: Space, first: nat, k: nat, quickwrite: bool, pages: set<nat>)
    requires WellFormed(s) && BootState(s, pages) && IdentityTo(s, first, k, quickwrite).Some?
    ensures var r := IdentityTo(s, first, k, quickwrite).value;
      WellFormed(r) && r.root == s.root && BootState(r, pages + PageRange(first, k)) && LeavesHeld(s, r)
  {
    hide WellFormed, Maps, BootState, LeavesHeld, Reaches, MapTo;
    if k == 0 {
      LeavesHeldSelf(s);
      assert pages + PageRange(first, 0) == pages;
    } else {
      IdentityToBoots(s, first, k - 1, quickwrite, pages);
      var m, page := IdentityTo(s, first, k - 1, quickwrite).value, first + k - 1;
      var r := IdentityTo(s, first, k, quickwrite).value;
      MapToMaps(m, page, page, quickwrite);
      MapsFacts(m, r, page, page, quickwrite);
      BootStep(m, r, page, quickwrite, pages + PageRange(first, k - 1));
      MapLeavesHeld(m, r, page, page, quickwrite);
      LeavesHeldTrans(s, m, r);
      assert pages + PageRange(first, k - 1) + {page} == pages + PageRange(first, k);
    }
  }

  lemma {:induction false} IdentityToKeepsWritable(s: Space, first: nat, k: nat, quickwrite: bool)
    requires WellFormed(s) && IdentityTo(s, first, k, quickwrite).Some?
    ensures WellFormed(IdentityTo(s, first, k, quickwrite).value)
    ensures AllWritable(s) ==> AllWritable(IdentityTo(s, first, k, quickwrite).value)
  {
    hide WellFormed, Maps, Reaches, MapTo, AllWritable;
    if k > 0 {
      IdentityToKeepsWritable(s, first, k - 1, quickwrite);
      var m, page := IdentityTo(s, first, k - 1, quickwrite).value, first + k - 1;
      MapToMaps(m, page, page, quickwrite);
      if AllWritable(s) {
        MapToKeepsWritable(m, page, page, quickwrite);
      }
    }
  }

  // The caching index after the mappings of a range: that of `quickwrite` in the range, unless the page is one of a
  // table as well; outside it what it was, or 0.
  lemma {:induction false} IdentityToCaches(s: Space, first: nat, k: nat, quickwrite: bool, x: nat)
    requires WellFormed(s) && IdentityTo(s, first, k, quickwrite).Some? && x < PAGE_LIMIT
    requires Mapped(IdentityTo(s, first, k, quickwrite).value, x)
    ensures var r := IdentityTo(s, first, k, quickwrite).value;
      && WellFormed(r) && |r.mem| == |s.mem|
      && (InRange(x, first, k) && x >= |s.mem| ==> PatIndex(r, x) == if quickwrite then 1 else 0)
      && (InRange(x, first, k) && x < |s.mem| ==> PatIndex(r, x) <= if quickwrite then 1 else 0)
      && (!InRange(x, first, k) ==> PatIndex(r, x) == 0 || (Mapped(s, x) && PatIndex(r, x) == PatIndex(s, x)))
  {
    hide WellFormed, Maps, Reaches, MapTo, PatIndex, Mapped, IsTableFrame;
    if k > 0 {
      IdentityToKeepsWritable(s, first, k - 1, quickwrite);
      var m, page := IdentityTo(s, first, k - 1, quickwrite).value, first + k - 1;
      var r := IdentityTo(s, first, k, quickwrite).value;
      MapToMaps(m, page, page, quickwrite);
      MapsFacts(m, r, page, page, quickwrite);
      MapCaches(m, r, page, page, quickwrite, x);
      IdentitySize(s, first, k - 1, quickwrite);
      if IsTableFrame(r, x) {
        TableFramesArePages(r, x);
        SoundSizes(r);
      }
      if Mapped(m, x) {
        IdentityToCaches(s, first, k - 1, quickwrite, x);
      }
    }
  }

  lemma {:induction false} IdentitySize(s: Space, first: nat, k: nat, quickwrite: bool)
    requires WellFormed(s) && IdentityTo(s, first, k, quickwrite).Some?
    ensures |IdentityTo(s, first, k, quickwrite).value.mem| == |s.mem|
  {
    hide WellFormed, Maps, Reaches, MapTo;
    if k > 0 {
      IdentitySize(s, first, k - 1, quickwrite);
      IdentityToKeepsWritable(s, first, k - 1, quickwrite);
      var m, page := IdentityTo(s, first, k - 1, quickwrite).value, first + k - 1;
      MapToMaps(m, page, page, quickwrite);
      MapsFacts(m, IdentityTo(s, first, k, quickwrite).value, page, page, quickwrite);
    }
  }

  lemma {:induction false} IdentityToServes(s: Space, first: nat, k: nat, quickwrite: bool, needed: set<Node>)
    requires WellFormed(s) && Covers(needed, |s.mem|) && first + k <= PAGE_LIMIT
    requires forall x: nat :: first <= x < first + k ==> Path(x) <= needed
    ensures IdentityTo(s, first, k, quickwrite).Some? ==>
              var r := IdentityTo(s, first, k, quickwrite).value;
              WellFormed(r) && |r.mem| == |s.mem| && Slack(r, needed) == Slack(s, needed)
    ensures Slack(s, needed) >= 0 ==> IdentityTo(s, first, k, quickwrite).Some?
  {
    hide WellFormed, Maps, Reaches, MapTo, Covers, Path, Slack;
    if k > 0 {
      IdentityToServes(s, first, k - 1, quickwrite, needed);
      if IdentityTo(s, first, k - 1, quickwrite).Some? {
        var m, page := IdentityTo(s, first, k - 1, quickwrite).value, first + k - 1;
        MapToServes(m, page, page, quickwrite, needed);
        if MapTo(m, page, page, quickwrite).Some? {
          MapToMaps(m, page, page, quickwrite);
          MapsFacts(m, MapTo(m, page, page, quickwrite).value, page, page, quickwrite);
        }
      }
    }
  }

  // ----- the heap loop -----

  // From s to r only `page` changed, apart from the self-maps of new tables.
  ghost predicate Pinned(s: Space, r: Space, page: nat, target: Option<nat>) {
    && |r.mem| == |s.mem| && |r.bits| == |s.bits|
    && (forall f: nat :: f < |s.bits| && s.bits[f] ==> r.bits[f])
    && (forall f: nat :: IsTableFrame(s, f) ==> IsTableFrame(r, f))
    && (forall x: nat :: x < PAGE_LIMIT ==>
          Translate(r, x) == if x == page then target else if IsNewTable(s, r, x) then Some(x) else Translate(s, x))
  }

  // Frame f was clear in s, and is taken in r without being a table.
  ghost predicate Obtains(s: Space, r: Space, f: nat) {
    f < |s.bits| && f < |r.bits| && !s.bits[f] && r.bits[f] && !IsTableFrame(r, f)
  }

  lemma PinnedStarts(s: Space, page: nat)
    ensures Pinned(s, s, page, Translate(s, page))
  {
  }

  lemma PinnedStep(s: Space, m: Space, r: Space, page: nat, target: Option<nat>, f: nat)
    requires WellFormed(m) && WellFormed(r) && Pinned(s, m, page, target)
    requires f < |m.bits| <= PAGE_LIMIT && !m.bits[f] && Maps(Take(m, f), r, page, f, false)
    ensures Pinned(s, r, page, Some(f)) && Obtains(s, r, f)
  {
    hide WellFormed, Mapped, TablesGrew, IsTableFrame;
    var t := Take(m, f);
    TakeKeepsTree(m, f, {});
    SameTables(m, t);
    MapsFacts(t, r, page, f, false);
    PersistentFrames(t, r, page, f);
    FreshAndTables(t, r, page, f, f);
    forall x: nat | x < PAGE_LIMIT
      ensures Translate(r, x) == if x == page then Some(f) else if IsNewTable(s, r, x) then Some(x) else Translate(s, x)
    {
      MapTranslates(t, r, page, f, false, x);
      SameMemorySameTranslation(m, t, x);
      FreshAndTables(t, r, page, f, x);
    }
  }

  lemma PersistentFrames(t: Space, r: Space, page: nat, p: FrameNumber)
    requires Maps(t, r, page, p, false)
    ensures forall f: nat :: IsTableFrame(t, f) ==> IsTableFrame(r, f)
    ensures forall f: nat :: f < |t.bits| && t.bits[f] ==> f < |r.bits| && r.bits[f]
  {
    TablesPersist(t, r);
  }

  lemma FreshAndTables(t: Space, r: Space, page: nat, p: FrameNumber, x: nat)
    requires WellFormed(t) && WellFormed(r) && Maps(t, r, page, p, false)
    ensures Fresh(t, r, x) <==> IsTableFrame(r, x) && !IsTableFrame(t, x)
  {
    FreshFramesAreNewTables(t, r, x);
  }

  // One round of the heap loop touches no held frame and opens no page to user mode.
  lemma HeapStepLeaves(s: Space, m: Space, r: Space, f: nat)
    requires WellFormed(m) && WellFormed(r) && f < |m.bits| <= PAGE_LIMIT && Maps(Take(m, f), r, HEAP_PAGE, f, false)
    requires LeavesHeld(s, m)
    ensures LeavesHeld(s, r) && (NoUserPages(m) ==> NoUserPages(r))
  {
    hide WellFormed, Maps, LeavesHeld, UserAccessible;
    var t := Take(m, f);
    TakeKeepsTree(m, f, {});
    TakeLeavesHeld(m, f);
    MapLeavesHeld(t, r, HEAP_PAGE, f, false);
    LeavesHeldTrans(s, m, t);
    LeavesHeldTrans(s, t, r);
    if NoUserPages(m) {
      SameTreeSamePaths(m, t);
      forall x: nat | x < PAGE_LIMIT
        ensures !UserAccessible(t, x)
      {
        SameTreeSameMeaning(m, t, x);
      }
      NoUserStep(t, r, HEAP_PAGE, f, false);
    }
  }

  // The address space and the last frame requested.
  datatype Heaped = Heaped(space: Space, last: nat)

  // k rounds: each requests a frame and maps it to the first page of the heap.
  ghost function HeapTo(s: Space, k: nat): Option<Heaped> {
    if k == 0 then Some(Heaped(s, 0))
    else
      match HeapTo(s, k - 1)
      case None => None
      case Some(h) => HeapRound(h.space)
  }

  ghost function HeapRound(m: Space): Option<Heaped> {
    match FirstClear(m.bits)
    case None => None
    case Some(f) =>
      if f >= PAGE_LIMIT then None
      else
        match MapTo(Take(m, f), HEAP_PAGE, f, false)
        case None => None
        case Some(r) => Some(Heaped(r, f))
  }

  lemma {:induction false} HeapToPrefix(s: Space, j: nat, k: nat)
    requires j <= k && HeapTo(s, k).Some?
    ensures HeapTo(s, j).Some?
    decreases k
  {
    hide HeapRound;
    if j < k {
      HeapToPrefix(s, j, k - 1);
    }
  }

  lemma HeapToStep(s: Space, i: nat, k: nat)
    requires i < k && HeapTo(s, k).Some?
    ensures HeapTo(s, i).Some? && HeapTo(s, i + 1).Some? && HeapTo(s, i + 1) == HeapRound(HeapTo(s, i).value.space)
    ensures var m, h := HeapTo(s, i).value.space, HeapTo(s, i + 1).value;
      && FirstClear(m.bits) == Some(h.last) && h.last < PAGE_LIMIT
      && MapTo(Take(m, h.last), HEAP_PAGE, h.last, false) == Some(h.space)
  {
    hide MapTo;
    HeapToPrefix(s, i, k);
    HeapToPrefix(s, i + 1, k);
  }

  lemma HeapRoundMaps(m: Space)
    requires WellFormed(m) && HeapRound(m).Some?
    ensures var h := HeapRound(m).value;
      && WellFormed(h.space) && h.last < |m.bits| <= PAGE_LIMIT && !m.bits[h.last]
      && Maps(Take(m, h.last), h.space, HEAP_PAGE, h.last, false) && |h.space.mem| == |m.mem|
  {
    hide WellFormed, Maps, Reaches, MapTo;
    var h := HeapRound(m).value;
    SoundSizes(m);
    TakeKeepsTree(m, h.last, {});
    MapToMaps(Take(m, h.last), HEAP_PAGE, h.last, false);
    MapsFacts(Take(m, h.last), h.space, HEAP_PAGE, h.last, false);
  }

  lemma {:induction false} HeapToPins(s: Space, k: nat)
    requires WellFormed(s) && HeapTo(s, k).Some?
    ensures var h := HeapTo(s, k).value;
      && WellFormed(h.space)
      && Pinned(s, h.space, HEAP_PAGE, if k == 0 then Translate(s, HEAP_PAGE) else Some(h.last))
      && (k > 0 ==> Obtains(s, h.space, h.last))
      && LeavesHeld(s, h.space) && (NoUserPages(s) ==> NoUserPages(h.space))
  {
    hide WellFormed, Pinned, Obtains, LeavesHeld, NoUserPages, Maps, HeapRound, Translate;
    if k == 0 {
      PinnedStarts(s, HEAP_PAGE);
      LeavesHeldSelf(s);
    } else {
      HeapToPins(s, k - 1);
      var m, h := HeapTo(s, k - 1).value, HeapTo(s, k).value;
      HeapRoundMaps(m.space);
      PinnedStep(s, m.space, h.space, HEAP_PAGE, if k == 1 then Translate(s, HEAP_PAGE) else Some(m.last), h.last);
      HeapStepLeaves(s, m.space, h.space, h.last);
    }
  }

  // The heap loop keeps every mapped page writable, and caches the heap page like memory; other pages keep their
  // caching index, or have 0 when their frame has become a table.
  lemma {:induction false} HeapToAccess(s: Space, k: nat, x: nat)
    requires WellFormed(s) && HeapTo(s, k).Some?
    ensures WellFormed(HeapTo(s, k).value.space)
    ensures AllWritable(s) ==> AllWritable(HeapTo(s, k).value.space)
    ensures x < PAGE_LIMIT && Mapped(HeapTo(s, k).value.space, x) ==>
              var r := HeapTo(s, k).value.space;
              if x == HEAP_PAGE && k > 0 then PatIndex(r, x) == 0
              else PatIndex(r, x) == 0 || (Mapped(s, x) && PatIndex(r, x) == PatIndex(s, x))
    ensures x < PAGE_LIMIT && x >= |s.mem| && x != HEAP_PAGE && Mapped(HeapTo(s, k).value.space, x) ==>
              Mapped(s, x) && PatIndex(HeapTo(s, k).value.space, x) == PatIndex(s, x)
    ensures |HeapTo(s, k).value.space.mem| == |s.mem|
  {
    hide WellFormed, Maps, AllWritable, PatIndex, Mapped, HeapRound, IsTableFrame;
    if k > 0 {
      HeapToAccess(s, k - 1, x);
      HeapRoundAccess(HeapTo(s, k - 1).value.space, x);
    }
  }

  lemma HeapRoundAccess(m: Space, x: nat)
    requires WellFormed(m) && HeapRound(m).Some?
    ensures var r := HeapRound(m).value.space;
      && WellFormed(r) && |r.mem| == |m.mem| && (AllWritable(m) ==> AllWritable(r))
      && (x < PAGE_LIMIT && Mapped(r, x) ==>
            && (x == HEAP_PAGE ==> PatIndex(r, x) == 0)
            && (x != HEAP_PAGE ==> PatIndex(r, x) == 0 || (Mapped(m, x) && PatIndex(r, x) == PatIndex(m, x)))
            && (x != HEAP_PAGE && x >= |m.mem| ==> Mapped(m, x) && PatIndex(r, x) == PatIndex(m, x)))
  {
    hide WellFormed, Maps, AllWritable, PatIndex, Mapped, MapTo, IsTableFrame;
    HeapRoundMaps(m);
    var h := HeapRound(m).value;
    var t, r := Take(m, h.last), h.space;
    TakeKeepsTree(m, h.last, {});
    TakeKeepsAccess(m, h.last);
    if AllWritable(m) {
      MapToKeepsWritable(t, HEAP_PAGE, h.last, false);
    }
    if x < PAGE_LIMIT && Mapped(r, x) {
      MapCaches(t, r, HEAP_PAGE, h.last, false, x);
      if IsTableFrame(r, x) {
        TableFramesArePages(r, x);
        SoundSizes(r);
      }
    }
  }

  lemma {:induction false} HeapToServes(s: Space, k: nat, needed: set<Node>)
    requires WellFormed(s) && Covers(needed, |s.mem|) && Path(HEAP_PAGE) <= needed
    ensures HeapTo(s, k).Some? ==>
              var r := HeapTo(s, k).value.space;
              WellFormed(r) && |r.mem| == |s.mem| && Slack(r, needed) == Slack(s, needed) - k
    ensures Slack(s, needed) >= k ==> HeapTo(s, k).Some?
  {
    hide WellFormed, Covers, Path, Slack, HeapRound, Maps;
    if k > 0 {
      HeapToServes(s, k - 1, needed);
      if HeapTo(s, k - 1).Some? {
        HeapRoundServes(HeapTo(s, k - 1).value.space, needed);
        if HeapTo(s, k).Some? {
          HeapRoundMaps(HeapTo(s, k - 1).value.space);
        }
      }
    }
  }

  lemma HeapRoundServes(m: Space, needed: set<Node>)
    requires WellFormed(m) && Covers(needed, |m.mem|) && Path(HEAP_PAGE) <= needed
    ensures HeapRound(m).Some? ==> Slack(HeapRound(m).value.space, needed) == Slack(m, needed) - 1
    ensures Slack(m, needed) >= 1 ==> HeapRound(m).Some?
  {
    hide WellFormed, Covers, Path, Slack, MapTo;
    SoundSizes(m);
    SlackMeansFrame(m, needed);
    if FirstClear(m.bits).Some? {
      var f := FirstClear(m.bits).value;
      TakeKeepsTree(m, f, needed);
      MapToServes(Take(m, f), HEAP_PAGE, f, false, needed);
    }
  }
}

// `map_memory` as a function: the address space it leaves, tables linked on the way included, or None when it
// finds no clear frame for one of them. It calls itself for every table it links, as the source does.
module Mapping {
  import opened Words
  import opened Ledger
  import opened PageEntry
  import opened PageTree
  import opened TableWrites
  import opened Translation

  // One walking block: slot i of table t leads to a table.
  ghost function TableTo(s: Space, t: Node, i: nat): (r: Option<Space>)
    requires t.level > 0
    ensures r.Some? ==> ClearCount(r.value.bits) <= ClearCount(s.bits)
    decreases ClearCount(s.bits), 0
  {
    if Child(t, i) in s.tree then Some(s)
    else
      match FirstClear(s.bits)
      case None => None
      case Some(f) =>
        if Guarded(s, LinkTable(t, i, f)) then
          SetCountUpdate(s.bits, f, true);
          MapTo(Written(s, LinkTable(t, i, f)), f, f, false)
        else None
  }

  // The three blocks of a walk to the page table of page v.
  ghost function PathTo(s: Space, v: nat): (r: Option<Space>)
    ensures r.Some? ==> ClearCount(r.value.bits) <= ClearCount(s.bits)
    decreases ClearCount(s.bits), 1
  {
    match TableTo(s, ROOT, v / 512 / 512 / 512 % 512)
    case None => None
    case Some(s1) =>
      match TableTo(s1, Node(3, v / 512 / 512 / 512), v / 512 / 512 % 512)
      case None => None
      case Some(s2) => TableTo(s2, Node(2, v / 512 / 512), v / 512 % 512)
  }

  function LeafWrite(tree: map<Node, Entry>, v: nat, p: FrameNumber, quickwrite: bool): TableWrite {
    WriteSlot(Node(1, v / 512), v % 512, LeafEntry(Val(tree, Leaf(v)), p, quickwrite))
  }

  ghost function MapTo(s: Space, v: nat, p: FrameNumber, quickwrite: bool): (r: Option<Space>)
    ensures r.Some? ==> ClearCount(r.value.bits) <= ClearCount(s.bits)
    decreases ClearCount(s.bits), 2
  {
    match PathTo(s, v)
    case None => None
    case Some(m) =>
      if Guarded(m, LeafWrite(m.tree, v, p, quickwrite)) then Some(Written(m, LeafWrite(m.tree, v, p, quickwrite)))
      else None
  }

  // ----- what it does -----

  lemma LinkReady(s: Space, t: Node, i: nat, f: nat)
    requires WellFormed(s) && IsTable(s, t) && 2 <= t.level <= 4 && i < 512 && Child(t, i) !in s.tree
    requires IsFirstClear(s.bits, f)
    ensures Linkable(s, t, i, f) && Guarded(s, LinkTable(t, i, f)) && f < PAGE_LIMIT
    ensures var m := Written(s, LinkTable(t, i, f));
      && WellFormed(m) && Reaches(s, m)
      && m == Link(s, t, i, f) && ClearCount(m.bits) < ClearCount(s.bits) && |m.mem| == |s.mem|
  {
    hide Reaches;
    LinkWellFormed(s, t, i, f);
    SetCountUpdate(s.bits, f, true);
    ReachesWrite(s, LinkTable(t, i, f));
  }

  // A linked table that was mapped to itself is in place.
  lemma AfterSelfMap(s: Space, t: Node, i: nat, f: nat, r: Space)
    requires Linkable(s, t, i, f)
    requires var m := Link(s, t, i, f); Reaches(s, m) && Reaches(m, r) && Maps(m, r, f, f, false)
    ensures Extends(s, r) && Reaches(s, r)
    ensures IsTable(r, Child(t, i)) && TableFrame(r, Child(t, i)) == f
  {
    hide Reaches, Maps, Extends;
    var m := Link(s, t, i, f);
    LinkThenSelfMap(s, t, i, f, r);
    ReachesTrans(s, m, r);
    MapsFacts(m, r, f, f, false);
  }

  ghost predicate Grown(s: Space, r: Space) { WellFormed(r) && Extends(s, r) && Reaches(s, r) }

  lemma GrownTrans(s: Space, m: Space, r: Space)
    requires Grown(s, m) && Grown(m, r)
    ensures Grown(s, r)
  {
    hide WellFormed, Extends, Reaches;
    ExtendsTrans(s, m, r);
    ReachesTrans(s, m, r);
  }

  lemma {:induction false} TableToGrows(s: Space, t: Node, i: nat)
    requires WellFormed(s) && IsTable(s, t) && 2 <= t.level <= 4 && i < 512
    requires TableTo(s, t, i).Some?
    ensures Grown(s, TableTo(s, t, i).value) && IsTable(TableTo(s, t, i).value, Child(t, i))
    decreases ClearCount(s.bits), 0
  {
    hide WellFormed, Extends, Reaches, Linkable, Guarded, Written, Link, Maps, ClearCount;
    if Child(t, i) in s.tree {
      ExtendsSelf(s);
      ReachesSelf(s);
    } else {
      var f := FirstClear(s.bits).value;
      LinkReady(s, t, i, f);
      var m := Written(s, LinkTable(t, i, f));
      MapToMaps(m, f, f, false);
      AfterSelfMap(s, t, i, f, TableTo(s, t, i).value);
    }
  }

  lemma {:induction false} PathToGrows(s: Space, v: nat)
    requires WellFormed(s) && v < PAGE_LIMIT && PathTo(s, v).Some?
    ensures Grown(s, PathTo(s, v).value) && IsTable(PathTo(s, v).value, Node(1, v / 512))
    decreases ClearCount(s.bits), 1
  {
    hide WellFormed, Extends, Reaches, TableTo, ClearCount;
    ParentChain(v);
    var s1 := TableTo(s, ROOT, v / 512 / 512 / 512 % 512).value;
    TableToGrows(s, ROOT, v / 512 / 512 / 512 % 512);
    var s2 := TableTo(s1, Node(3, v / 512 / 512 / 512), v / 512 / 512 % 512).value;
    TableToGrows(s1, Node(3, v / 512 / 512 / 512), v / 512 / 512 % 512);
    TableToGrows(s2, Node(2, v / 512 / 512), v / 512 % 512);
    GrownTrans(s, s1, s2);
    GrownTrans(s, s2, PathTo(s, v).value);
  }

  // Where it succeeds it keeps the tree sound and has exactly the effect `Maps`.
  lemma {:induction false} MapToMaps(s: Space, v: nat, p: FrameNumber, quickwrite: bool)
    requires WellFormed(s) && v < PAGE_LIMIT && MapTo(s, v, p, quickwrite).Some?
    ensures var r := MapTo(s, v, p, quickwrite).value;
      WellFormed(r) && Maps(s, r, v, p, quickwrite) && Reaches(s, r)
    decreases ClearCount(s.bits), 2
  {
    hide WellFormed, Extends, Reaches, PathTo, Maps, ClearCount, Guarded;
    PathToGrows(s, v);
    ParentChain(v);
    var m := PathTo(s, v).value;
    ExtendThenWrite(s, m, Node(1, v / 512), v % 512, v, p, quickwrite);
    ReachesWrite(m, LeafWrite(m.tree, v, p, quickwrite));
    ReachesTrans(s, m, MapTo(s, v, p, quickwrite).value);
  }

  // ----- what it takes -----

  // Whatever set of slots counts as missing, the slack is conserved; while it is not negative no request fails.
  lemma {:induction false} TableToServes(s: Space, t: Node, i: nat, needed: set<Node>)
    requires WellFormed(s) && IsTable(s, t) && 2 <= t.level <= 4 && i < 512
    requires Covers(needed, |s.mem|) && Child(t, i) in needed
    ensures TableTo(s, t, i).Some? ==> Slack(TableTo(s, t, i).value, needed) == Slack(s, needed)
    ensures Slack(s, needed) >= 0 ==> TableTo(s, t, i).Some?
    decreases ClearCount(s.bits), 0
  {
    hide WellFormed, Reaches, Linkable, Guarded, Written, Link, Covers, Path, Slack, ClearCount;
    if Child(t, i) !in s.tree {
      if Slack(s, needed) >= 0 {
        SlackMeansClear(s, Child(t, i), needed);
      }
      if FirstClear(s.bits).Some? {
        var f := FirstClear(s.bits).value;
        LinkReady(s, t, i, f);
        SoundSizes(s);
        LinkSlack(s, t, i, f, needed);
        CoversPath(needed, |s.mem|, f);
        MapToServes(Written(s, LinkTable(t, i, f)), f, f, false, needed);
      }
    }
  }

  lemma SoundSizes(s: Space)
    requires WellFormed(s)
    ensures |s.mem| == |s.bits| <= PAGE_LIMIT
  {
  }

  lemma {:induction false} PathToServes(s: Space, v: nat, needed: set<Node>)
    requires WellFormed(s) && v < PAGE_LIMIT
    requires Covers(needed, |s.mem|) && Path(v) <= needed
    ensures PathTo(s, v).Some? ==> Slack(PathTo(s, v).value, needed) == Slack(s, needed)
    ensures Slack(s, needed) >= 0 ==> PathTo(s, v).Some?
    decreases ClearCount(s.bits), 1
  {
    hide WellFormed, Extends, Reaches, TableTo, Covers, Path, Slack, ClearCount;
    ParentChain(v);
    PathNodes(needed, v);
    TableToServes(s, ROOT, v / 512 / 512 / 512 % 512, needed);
    if TableTo(s, ROOT, v / 512 / 512 / 512 % 512).Some? {
      var s1 := TableTo(s, ROOT, v / 512 / 512 / 512 % 512).value;
      TableToGrows(s, ROOT, v / 512 / 512 / 512 % 512);
      ExtendsFacts(s, s1);
      TableToServes(s1, Node(3, v / 512 / 512 / 512), v / 512 / 512 % 512, needed);
      if TableTo(s1, Node(3, v / 512 / 512 / 512), v / 512 / 512 % 512).Some? {
        var s2 := TableTo(s1, Node(3, v / 512 / 512 / 512), v / 512 / 512 % 512).value;
        TableToGrows(s1, Node(3, v / 512 / 512 / 512), v / 512 / 512 % 512);
        ExtendsFacts(s1, s2);
        TableToServes(s2, Node(2, v / 512 / 512), v / 512 % 512, needed);
      }
    }
  }

  // One call conserves the slack, and succeeds while it is not negative.
  lemma {:induction false} MapToServes(s: Space, v: nat, p: FrameNumber, quickwrite: bool, needed: set<Node>)
    requires WellFormed(s) && v < PAGE_LIMIT
    requires Covers(needed, |s.mem|) && Path(v) <= needed
    ensures MapTo(s, v, p, quickwrite).Some? ==> Slack(MapTo(s, v, p, quickwrite).value, needed) == Slack(s, needed)
    ensures Slack(s, needed) >= 0 ==> MapTo(s, v, p, quickwrite).Some?
    decreases ClearCount(s.bits), 2
  {
    hide WellFormed, Extends, Reaches, PathTo, Covers, Path, Slack, ClearCount, Guarded;
    PathToServes(s, v, needed);
    if PathTo(s, v).Some? {
      PathToGrows(s, v);
      ParentChain(v);
      var m := PathTo(s, v).value;
      ExtendsFacts(s, m);
      LeafGuarded(m, v, p, quickwrite);
      var w := LeafWrite(m.tree, v, p, quickwrite);
      WriteSlack(m, w.table, w.index, w.entry, needed, |m.mem|);
    }
  }

  // The frames one call takes are exactly the tables it adds: at most the three on v's own path and those still
  // missing for the frames of the bitmap.
  lemma MapToTakes(s: Space, v: nat, p: FrameNumber, quickwrite: bool)
    requires WellFormed(s) && v < PAGE_LIMIT && MapTo(s, v, p, quickwrite).Some?
    ensures var r := MapTo(s, v, p, quickwrite).value;
      ClearCount(s.bits) - ClearCount(r.bits)
         == |(PathsBelow(|s.mem|) + Path(v)) * (r.tree.Keys - s.tree.Keys)|
         <= 3 + |PathsBelow(|s.mem|) - s.tree.Keys|
  {
    hide WellFormed, Maps, Reaches, Covers, Slack, PathsBelow, Path, ClearCount, MapTo;
    PathsCover(|s.mem|, v);
    MapToMaps(s, v, p, quickwrite);
    MapToServes(s, v, p, quickwrite, PathsBelow(|s.mem|) + Path(v));
    MapTakesFewFrames(s, MapTo(s, v, p, quickwrite).value, v, p, quickwrite);
  }

  lemma LeafGuarded(m: Space, v: nat, p: FrameNumber, quickwrite: bool)
    requires WellFormed(m) && IsTable(m, Node(1, v / 512))
    ensures Guarded(m, LeafWrite(m.tree, v, p, quickwrite))
  {
  }
}

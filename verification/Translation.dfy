// What the page tables mean to the processor, and what the operations of memory/paging.cpp do to that meaning.
module Translation {
  import opened Words
  import opened Ledger
  import opened PageEntry
  import opened PageTree
  import opened TableWrites

  // ----- the hardware walk, on memory alone (section 4.5 of the Intel SDM, Volume 3A) -----

  function Lookup(mem: seq<seq<Entry>>, table: nat, i: nat): Entry {
    if table < |mem| && i < |mem[table]| then mem[table][i] else ZERO
  }

  function Entry4(root: nat, mem: seq<seq<Entry>>, page: nat): Entry {
    Lookup(mem, root, page / 512 / 512 / 512 % 512)
  }

  function Entry3(root: nat, mem: seq<seq<Entry>>, page: nat): Entry {
    Lookup(mem, Entry4(root, mem, page).frame, page / 512 / 512 % 512)
  }

  function Entry2(root: nat, mem: seq<seq<Entry>>, page: nat): Entry {
    Lookup(mem, Entry3(root, mem, page).frame, page / 512 % 512)
  }

  function Entry1(root: nat, mem: seq<seq<Entry>>, page: nat): Entry {
    Lookup(mem, Entry2(root, mem, page).frame, page % 512)
  }

  predicate Mapped(s: Space, page: nat) {
    && Entry4(s.root, s.mem, page).present
    && Entry3(s.root, s.mem, page).present
    && Entry2(s.root, s.mem, page).present
    && Entry1(s.root, s.mem, page).present
  }

  function Translate(s: Space, page: nat): Option<nat> {
    if Mapped(s, page) then Some(Entry1(s.root, s.mem, page).frame) else None
  }

  // A page is open to user mode when the U/S bit is set on all four levels (section 4.6).
  predicate UserAccessible(s: Space, page: nat) {
    && Mapped(s, page)
    && Entry4(s.root, s.mem, page).userSuper
    && Entry3(s.root, s.mem, page).userSuper
    && Entry2(s.root, s.mem, page).userSuper
    && Entry1(s.root, s.mem, page).userSuper
  }

  // ----- the walk reads the tree -----

  lemma ParentChain(page: nat)
    requires page < PAGE_LIMIT
    ensures Child(ROOT, page / 512 / 512 / 512 % 512) == Node(3, page / 512 / 512 / 512)
    ensures Child(Node(3, page / 512 / 512 / 512), page / 512 / 512 % 512) == Node(2, page / 512 / 512)
    ensures Child(Node(2, page / 512 / 512), page / 512 % 512) == Node(1, page / 512)
    ensures Child(Node(1, page / 512), page % 512) == Leaf(page)
    ensures Parent(Leaf(page)) == Node(1, page / 512)
    ensures Parent(Node(1, page / 512)) == Node(2, page / 512 / 512)
    ensures Parent(Node(2, page / 512 / 512)) == Node(3, page / 512 / 512 / 512)
  {
  }

  lemma WalkReadsTree(s: Space, page: nat)
    requires WellFormed(s) && page < PAGE_LIMIT
    ensures Mapped(s, page) <==> Leaf(page) in s.tree
    ensures Mapped(s, page) ==>
              && Node(3, page / 512 / 512 / 512) in s.tree
              && Entry4(s.root, s.mem, page) == s.tree[Node(3, page / 512 / 512 / 512)]
              && Node(2, page / 512 / 512) in s.tree
              && Entry3(s.root, s.mem, page) == s.tree[Node(2, page / 512 / 512)]
              && Node(1, page / 512) in s.tree
              && Entry2(s.root, s.mem, page) == s.tree[Node(1, page / 512)]
              && Entry1(s.root, s.mem, page) == s.tree[Leaf(page)]
  {
    hide WellFormed;
    var n3, n2, n1 := Node(3, page / 512 / 512 / 512), Node(2, page / 512 / 512), Node(1, page / 512);
    ParentChain(page);
    ReadSlot(s, ROOT, page / 512 / 512 / 512 % 512);
    if n3 in s.tree {
      ReadSlot(s, n3, page / 512 / 512 % 512);
      if n2 in s.tree {
        ReadSlot(s, n2, page / 512 % 512);
        if n1 in s.tree {
          ReadSlot(s, n1, page % 512);
        }
      }
    }
    LinkedFromAbove(s, Leaf(page));
    LinkedFromAbove(s, n1);
    LinkedFromAbove(s, n2);
  }

  lemma LinkedFromAbove(s: Space, n: Node)
    requires WellFormed(s)
    ensures n in s.tree && n.level < 3 ==> Parent(n) in s.tree
    ensures n in s.tree ==> s.tree[n].present
  {
  }

  // In the memory of the tables, each table is linked from exactly one slot.
  lemma OneSlotPerTable(s: Space, t: Node, i: nat, u: Node, j: nat)
    requires WellFormed(s) && IsTable(s, t) && IsTable(s, u) && 2 <= t.level && 2 <= u.level && i < 512 && j < 512
    requires TableFrame(s, t) < |s.mem| && TableFrame(s, u) < |s.mem|
    requires Lookup(s.mem, TableFrame(s, t), i).present && Lookup(s.mem, TableFrame(s, u), j).present
    requires Lookup(s.mem, TableFrame(s, t), i).frame == Lookup(s.mem, TableFrame(s, u), j).frame
    ensures t == u && i == j
  {
    ReadSlot(s, t, i);
    ReadSlot(s, u, j);
    assert TableFrame(s, Child(t, i)) == TableFrame(s, Child(u, j));
    ChildIsInjective(t, i, u, j);
  }

  // ----- map_memory -----

  // The translation after map_memory is the old one, with each newly allocated table mapped to itself,
  // and then v mapped to p. Pages that were unmapped stay so.
  lemma MapTranslates(s: Space, r: Space, v: nat, p: FrameNumber, quickwrite: bool, x: nat)
    requires WellFormed(s) && WellFormed(r) && Maps(s, r, v, p, quickwrite) && x < PAGE_LIMIT
    ensures Translate(r, x) == if x == v then Some(p) else if Fresh(s, r, x) then Some(x) else Translate(s, x)
  {
    WalkReadsTree(s, x);
    WalkReadsTree(r, x);
    LinkedFromAbove(r, Leaf(x));
    LinkedFromAbove(s, Leaf(x));
    assert Val(r.tree, Leaf(x))
        == if x == v then LeafEntry(Val(s.tree, Leaf(v)), p, quickwrite) else SelfMapped(s, r, x);
  }

  lemma TableFramesArePages(s: Space, f: nat)
    requires WellFormed(s) && IsTableFrame(s, f)
    ensures f < |s.bits| <= PAGE_LIMIT && s.bits[f]
  {
  }

  // The frames map_memory takes are those of the tables it adds.
  lemma FreshFramesAreNewTables(s: Space, r: Space, f: nat)
    requires WellFormed(s) && WellFormed(r) && |r.mem| == |s.mem| && TablesGrew(s, r)
    ensures Fresh(s, r, f) <==> IsTableFrame(r, f) && !IsTableFrame(s, f)
  {
    if IsTableFrame(s, f) {
      TableFramesArePages(s, f);
    }
    if IsTableFrame(r, f) {
      var t :| IsTable(r, t) && TableFrame(r, t) == f;
      assert IsTable(s, t) ==> TableFrame(s, t) == f;
      TableFramesArePages(r, f);
    }
  }

  // The frames one call of map_memory takes are exactly the tables it adds: at most the three on v's own
  // path and those still missing for the frames of the bitmap.
  lemma MapTakesFewFrames(s: Space, r: Space, v: nat, p: FrameNumber, quickwrite: bool)
    requires WellFormed(s) && WellFormed(r) && Maps(s, r, v, p, quickwrite)
    requires Slack(r, PathsBelow(|s.mem|) + Path(v)) == Slack(s, PathsBelow(|s.mem|) + Path(v))
    ensures ClearCount(s.bits) - ClearCount(r.bits)
         == |(PathsBelow(|s.mem|) + Path(v)) * (r.tree.Keys - s.tree.Keys)|
         <= 3 + |PathsBelow(|s.mem|) - s.tree.Keys|
  {
    hide Slack, PathsBelow, Path, WellFormed, Maps;
    forall n | n in s.tree
      ensures n in r.tree
    {
      SlotsPersist(s, r, v, p, quickwrite, n);
    }
    FrameBound(s, r, v);
  }

  lemma SlotsPersist(s: Space, r: Space, v: nat, p: FrameNumber, quickwrite: bool, n: Node)
    requires WellFormed(s) && Maps(s, r, v, p, quickwrite) && n in s.tree
    ensures n in r.tree
  {
    hide WellFormed, IsTableFrame;
    var x := n.prefix;
    LinkedFromAbove(s, n);
    if n.level == 0 {
      assert n == Leaf(x);
      assert Val(r.tree, Leaf(x))
          == if x == v then LeafEntry(Val(s.tree, Leaf(v)), p, quickwrite) else SelfMapped(s, r, x);
    }
  }

  // ----- the tables' own translation -----

  ghost predicate TablesSelfMapped(s: Space) {
    forall f: nat :: IsTableFrame(s, f) ==> Translate(s, f) == Some(f)
  }

  // map_memory keeps every table mapped to itself exactly when it does not map a table's page elsewhere.
  lemma MapKeepsSelfMap(s: Space, r: Space, v: nat, p: FrameNumber, quickwrite: bool)
    requires WellFormed(s) && WellFormed(r) && Maps(s, r, v, p, quickwrite) && TablesSelfMapped(s) && v < PAGE_LIMIT
    ensures TablesSelfMapped(r) <==> (IsTableFrame(r, v) ==> p == v)
  {
    forall f: nat | IsTableFrame(r, f)
      ensures Translate(r, f) == if f == v then Some(p) else Some(f)
    {
      TableFramesArePages(r, f);
      MapTranslates(s, r, v, p, quickwrite, f);
      FreshFramesAreNewTables(s, r, f);
    }
  }

  // ----- user access -----

  // A page marked for user mode in the last level is marked on the levels above.
  ghost predicate UserPathsOpen(s: Space) {
    forall x: nat {:trigger Leaf(x)} ::
      x < PAGE_LIMIT && Leaf(x) in s.tree && s.tree[Leaf(x)].userSuper ==> PathOpen(s, x)
  }

  predicate PathOpen(s: Space, x: nat) {
    && Val(s.tree, Node(1, x / 512)).userSuper
    && Val(s.tree, Node(2, x / 512 / 512)).userSuper
    && Val(s.tree, Node(3, x / 512 / 512 / 512)).userSuper
  }

  lemma AccessibleMeansMarked(s: Space, x: nat)
    requires WellFormed(s) && UserPathsOpen(s) && x < PAGE_LIMIT
    ensures UserAccessible(s, x) <==> Leaf(x) in s.tree && s.tree[Leaf(x)].userSuper
  {
    WalkReadsTree(s, x);
  }

  // map_memory neither opens nor closes a page to user mode.
  lemma MapKeepsUserPages(s: Space, r: Space, v: nat, p: FrameNumber, quickwrite: bool)
    requires WellFormed(s) && WellFormed(r) && Maps(s, r, v, p, quickwrite) && UserPathsOpen(s)
    ensures UserPathsOpen(r)
    ensures forall x: nat :: x < PAGE_LIMIT ==> (UserAccessible(r, x) <==> UserAccessible(s, x))
  {
    forall x: nat
      ensures Val(r.tree, Leaf(x)).userSuper == Val(s.tree, Leaf(x)).userSuper
    {
      assert Val(r.tree, Leaf(x))
          == if x == v then LeafEntry(Val(s.tree, Leaf(v)), p, quickwrite) else SelfMapped(s, r, x);
    }
    forall x: nat | x < PAGE_LIMIT && Leaf(x) in r.tree && r.tree[Leaf(x)].userSuper
      ensures PathOpen(r, x)
    {
      assert Val(s.tree, Leaf(x)).userSuper && Leaf(x) in s.tree;
      assert PathOpen(s, x);
    }
    forall x: nat | x < PAGE_LIMIT
      ensures UserAccessible(r, x) <==> UserAccessible(s, x)
    {
      AccessibleMeansMarked(s, x);
      AccessibleMeansMarked(r, x);
      assert Val(r.tree, Leaf(x)).userSuper == Val(s.tree, Leaf(x)).userSuper;
    }
  }

  // ----- donate_to_userspace -----

  function FullPath(v: nat): set<Node> {
    {Node(3, v / 512 / 512 / 512), Node(2, v / 512 / 512), Node(1, v / 512), Leaf(v)}
  }

  // The given slots gain the U/S bit, and nothing else changes.
  ghost predicate Raises(s: Space, r: Space, slots: set<Node>) {
    && r.root == s.root && r.bits == s.bits && |r.mem| == |s.mem|
    && r.tree.Keys == s.tree.Keys
    && (forall n :: n in s.tree ==> r.tree[n] == if n in slots then SetFlag(s.tree[n], UserSuper, true) else s.tree[n])
    && (forall f: nat :: IsTableFrame(r, f) <==> IsTableFrame(s, f))
    && (forall f: nat :: f < |s.mem| && !IsTableFrame(s, f) ==> r.mem[f] == s.mem[f])
  }

  // The four slots on the path to page v gain the U/S bit.
  ghost predicate Donates(s: Space, r: Space, v: nat) { Raises(s, r, FullPath(v)) }

  // Setting the U/S bit of one present slot.
  function Raise(s: Space, n: Node): Space
    requires WellFormed(s) && n in s.tree
  {
    ReadSlot(s, Parent(n), n.prefix % 512);
    Write(s, Parent(n), n.prefix % 512, SetFlag(s.tree[n], UserSuper, true))
  }

  lemma RaiseFacts(s: Space, n: Node)
    requires WellFormed(s) && n in s.tree
    ensures WellFormed(Raise(s, n)) && Reaches(s, Raise(s, n)) && Raises(s, Raise(s, n), {n})
    ensures forall t :: IsTable(s, t) ==> IsTable(Raise(s, n), t) && TableFrame(Raise(s, n), t) == TableFrame(s, t)
  {
    var t, i, e := Parent(n), n.prefix % 512, SetFlag(s.tree[n], UserSuper, true);
    LinkedFromAbove(s, n);
    assert Child(t, i) == n;
    WriteWellFormed(s, t, i, e);
    WriteTables(s, t, i, e);
    ReachesWrite(s, WriteSlot(t, i, e));
    assert IsTableFrame(s, TableFrame(s, t));
  }

  // The four writes of donate_to_userspace, root first.
  lemma RaisePathDonates(s: Space, s1: Space, s2: Space, s3: Space, r: Space, v: nat)
    requires Raises(s, s1, {Node(3, v / 512 / 512 / 512)})
    requires Raises(s1, s2, {Node(2, v / 512 / 512)})
    requires Raises(s2, s3, {Node(1, v / 512)})
    requires Raises(s3, r, {Leaf(v)})
    ensures Donates(s, r, v)
  {
  }

  // The address space after donate_to_userspace.
  ghost function DonateTo(s: Space, v: nat): Space
    requires WellFormed(s) && v < PAGE_LIMIT && Mapped(s, v)
  {
    WalkReadsTree(s, v);
    var n3, n2, n1 := Node(3, v / 512 / 512 / 512), Node(2, v / 512 / 512), Node(1, v / 512);
    RaiseFacts(s, n3);
    var s1 := Raise(s, n3);
    RaiseFacts(s1, n2);
    var s2 := Raise(s1, n2);
    RaiseFacts(s2, n1);
    var s3 := Raise(s2, n1);
    Raise(s3, Leaf(v))
  }

  lemma DonateToDonates(s: Space, v: nat)
    requires WellFormed(s) && v < PAGE_LIMIT && Mapped(s, v)
    ensures WellFormed(DonateTo(s, v)) && Donates(s, DonateTo(s, v), v) && Reaches(s, DonateTo(s, v))
  {
    hide WellFormed, Mapped, Raises, Raise, Reaches, Donates;
    WalkReadsTree(s, v);
    var n3, n2, n1 := Node(3, v / 512 / 512 / 512), Node(2, v / 512 / 512), Node(1, v / 512);
    RaiseStays(s, n3, {n2, n1, Leaf(v)});
    var s1 := Raise(s, n3);
    RaiseStays(s1, n2, {n1, Leaf(v)});
    var s2 := Raise(s1, n2);
    RaiseStays(s2, n1, {Leaf(v)});
    var s3 := Raise(s2, n1);
    RaiseStays(s3, Leaf(v), {});
    ReachesTrans(s, s1, s2);
    ReachesTrans(s, s2, s3);
    ReachesTrans(s, s3, DonateTo(s, v));
    RaisePathDonates(s, s1, s2, s3, DonateTo(s, v), v);
  }

  lemma RaiseStays(s: Space, n: Node, others: set<Node>)
    requires WellFormed(s) && n in s.tree && others <= s.tree.Keys
    ensures WellFormed(Raise(s, n)) && Reaches(s, Raise(s, n)) && Raises(s, Raise(s, n), {n})
    ensures forall o :: o in others ==> o in Raise(s, n).tree
  {
    hide WellFormed, Raise, Reaches;
    RaiseFacts(s, n);
  }

  lemma DonatedSlot(s: Space, r: Space, v: nat, x: nat)
    requires Donates(s, r, v)
    ensures Leaf(x) in r.tree <==> Leaf(x) in s.tree
    ensures Leaf(x) in s.tree ==>
              && r.tree[Leaf(x)].frame == s.tree[Leaf(x)].frame
              && r.tree[Leaf(x)].userSuper == (s.tree[Leaf(x)].userSuper || x == v)
    ensures PathOpen(s, x) ==> PathOpen(r, x)
  {
  }

  lemma DonatedPathIsOpen(s: Space, r: Space, v: nat)
    requires WellFormed(s) && Donates(s, r, v) && v < PAGE_LIMIT && Mapped(s, v)
    ensures PathOpen(r, v)
  {
    hide WellFormed, Mapped;
    WalkReadsTree(s, v);
  }

  lemma DonateKeepsPathsOpen(s: Space, r: Space, v: nat)
    requires WellFormed(s) && Donates(s, r, v) && UserPathsOpen(s)
    requires v < PAGE_LIMIT && Mapped(s, v)
    ensures UserPathsOpen(r)
  {
    hide WellFormed, Mapped, Donates, PathOpen;
    DonatedPathIsOpen(s, r, v);
    forall x: nat | x < PAGE_LIMIT && Leaf(x) in r.tree && r.tree[Leaf(x)].userSuper
      ensures PathOpen(r, x)
    {
      DonatedSlot(s, r, v, x);
    }
  }

  lemma MappedTranslation(s: Space, x: nat)
    requires WellFormed(s) && x < PAGE_LIMIT
    ensures Translate(s, x) == if Leaf(x) in s.tree then Some(s.tree[Leaf(x)].frame) else None
  {
    WalkReadsTree(s, x);
  }

  // A donation changes no translation, whatever page it is of.
  lemma DonateKeepsTranslation(s: Space, r: Space, v: nat, x: nat)
    requires WellFormed(s) && WellFormed(r) && Donates(s, r, v) && x < PAGE_LIMIT
    ensures Translate(r, x) == Translate(s, x)
  {
    hide WellFormed, Donates, PathOpen, Mapped, Translate;
    DonatedSlot(s, r, v, x);
    MappedTranslation(s, x);
    MappedTranslation(r, x);
  }

  // Donating a mapped page opens exactly that page.
  lemma DonateOpensOnePage(s: Space, r: Space, v: nat, x: nat)
    requires WellFormed(s) && WellFormed(r) && Donates(s, r, v) && UserPathsOpen(s)
    requires v < PAGE_LIMIT && Mapped(s, v) && x < PAGE_LIMIT
    ensures UserAccessible(r, x) <==> UserAccessible(s, x) || x == v
  {
    hide WellFormed, Donates, PathOpen, UserPathsOpen, Mapped, UserAccessible;
    DonateKeepsPathsOpen(s, r, v);
    DonatedSlot(s, r, v, x);
    AccessibleMeansMarked(s, x);
    AccessibleMeansMarked(r, x);
    MappedHasLeaf(s, v);
  }

  lemma MappedHasLeaf(s: Space, x: nat)
    requires WellFormed(s) && x < PAGE_LIMIT && Mapped(s, x)
    ensures Leaf(x) in s.tree
  {
    WalkReadsTree(s, x);
  }
}

// The four-level page-table tree of memory/paging.cpp on values: physical memory, the frame bitmap,
// and the tree that is read off the tables reachable from the root.
module PageTree {
  import opened Ledger
  import opened PageEntry

  // A slot of the tree. Level 0 is a page, levels 1 to 3 are the page tables, page directories and page
  // directory pointer tables, level 4 is the root; `prefix` is the page number divided by 512^level.
  datatype Node = Node(level: nat, prefix: nat)

  const ROOT := Node(4, 0)

  function Leaf(page: nat): Node { Node(0, page) }

  function Parent(n: Node): Node { Node(n.level + 1, n.prefix / 512) }

  function Child(t: Node, i: nat): Node
    requires t.level > 0
  {
    Node(t.level - 1, t.prefix * 512 + i)
  }

  // The tables on the way to a page, below the root.
  function Path(page: nat): set<Node> {
    {Node(1, page / 512), Node(2, page / 512 / 512), Node(3, page / 512 / 512 / 512)}
  }

  // `tree` lists the entries of the present slots.
  datatype Space = Space(root: nat, mem: seq<seq<Entry>>, bits: seq<bool>, tree: map<Node, Entry>)

  function Val(tree: map<Node, Entry>, n: Node): Entry { if n in tree then tree[n] else ZERO }

  predicate IsTable(s: Space, t: Node) { t == ROOT || (t in s.tree && t.level >= 1) }

  function TableFrame(s: Space, t: Node): nat
    requires IsTable(s, t)
  {
    if t == ROOT then s.root else s.tree[t].frame
  }

  ghost predicate IsTableFrame(s: Space, f: nat) { exists t :: IsTable(s, t) && TableFrame(s, t) == f }

  // ----- the tree invariant -----

  ghost predicate Shape(s: Space) {
    && |s.mem| == |s.bits| <= PAGE_LIMIT
    && (forall f: nat :: f < |s.mem| ==> |s.mem[f]| == 512)
  }

  // Every present slot lies in a table that is itself linked, up to the root.
  ghost predicate Rooted(s: Space) {
    && ROOT !in s.tree
    && (forall n :: n in s.tree ==> n.level <= 3 && s.tree[n].present)
    && (forall n {:trigger Parent(n)} :: n in s.tree ==> IsTable(s, Parent(n)))
  }

  // Every table lives in a frame that the bitmap shows as taken.
  ghost predicate Owned(s: Space) {
    forall t :: IsTable(s, t) ==> TableFrame(s, t) < |s.bits| && s.bits[TableFrame(s, t)]
  }

  // No frame holds two tables: each table is linked from exactly one slot.
  ghost predicate Separate(s: Space) {
    forall t, u :: IsTable(s, t) && IsTable(s, u) && TableFrame(s, t) == TableFrame(s, u) ==> t == u
  }

  // The memory of each table is what the tree says; absent slots are entirely zero.
  ghost predicate Stored(s: Space)
    requires Shape(s) && Owned(s)
  {
    forall t, i: nat :: IsTable(s, t) && i < 512 ==> s.mem[TableFrame(s, t)][i] == Val(s.tree, Child(t, i))
  }

  ghost predicate WellFormed(s: Space) {
    Shape(s) && Rooted(s) && Owned(s) && Separate(s) && Stored(s)
  }

  lemma ChildIsInjective(t: Node, i: nat, u: Node, j: nat)
    requires t.level > 0 && u.level > 0 && i < 512 && j < 512 && Child(t, i) == Child(u, j)
    ensures t == u && i == j
  {
  }

  lemma ParentOfChild(t: Node, i: nat)
    requires t.level > 0 && i < 512
    ensures Parent(Child(t, i)) == t
  {
  }

  // What a walk finds in slot i of table t.
  lemma ReadSlot(s: Space, t: Node, i: nat)
    requires WellFormed(s) && IsTable(s, t) && 1 <= t.level && i < 512
    ensures Shape(s) && t.level <= 4
    ensures TableFrame(s, t) < |s.mem| && |s.mem[TableFrame(s, t)]| == 512
    ensures s.mem[TableFrame(s, t)][i] == Val(s.tree, Child(t, i))
    ensures s.mem[TableFrame(s, t)][i].present <==> Child(t, i) in s.tree
    ensures Child(t, i) !in s.tree ==> s.mem[TableFrame(s, t)][i] == ZERO
  {
  }

  // ----- linking a new table -----

  function Zeros(): seq<Entry> { seq(512, _ => ZERO) }

  // Frame f is zeroed and linked from slot i of table t.
  function Link(s: Space, t: Node, i: nat, f: nat): Space
    requires Shape(s) && IsTable(s, t) && t.level > 0 && TableFrame(s, t) < |s.mem| && i < 512 && f < |s.bits|
  {
    var e := TableEntry(ZERO, f);
    var cleared := s.mem[f := Zeros()];
    var tf := TableFrame(s, t);
    s.(mem := cleared[tf := cleared[tf][i := e]], bits := s.bits[f := true], tree := s.tree[Child(t, i) := e])
  }

  ghost predicate Linkable(s: Space, t: Node, i: nat, f: nat) {
    && WellFormed(s) && IsTable(s, t) && 2 <= t.level <= 4 && i < 512
    && Child(t, i) !in s.tree && f < |s.bits| && !s.bits[f]
  }

  // The tables after linking are the old ones, where they were, and the new one in frame f.
  lemma LinkTables(s: Space, t: Node, i: nat, f: nat)
    requires Linkable(s, t, i, f)
    ensures forall u :: IsTable(Link(s, t, i, f), u) <==> IsTable(s, u) || u == Child(t, i)
    ensures forall u :: IsTable(s, u) ==> TableFrame(Link(s, t, i, f), u) == TableFrame(s, u) != f
    ensures TableFrame(Link(s, t, i, f), Child(t, i)) == f
  {
  }

  lemma LinkRooted(s: Space, t: Node, i: nat, f: nat)
    requires Linkable(s, t, i, f)
    ensures Rooted(Link(s, t, i, f))
  {
  }

  lemma LinkSeparate(s: Space, t: Node, i: nat, f: nat)
    requires Linkable(s, t, i, f)
    ensures Owned(Link(s, t, i, f)) && Separate(Link(s, t, i, f))
  {
    LinkTables(s, t, i, f);
  }

  lemma LinkStored(s: Space, t: Node, i: nat, f: nat)
    requires Linkable(s, t, i, f) && Owned(Link(s, t, i, f))
    ensures Stored(Link(s, t, i, f))
  {
    var r := Link(s, t, i, f);
    LinkTables(s, t, i, f);
    forall u, j: nat | IsTable(r, u) && j < 512
      ensures r.mem[TableFrame(r, u)][j] == Val(r.tree, Child(u, j))
    {
      LinkStoredAt(s, t, i, f, u, j);
    }
  }

  lemma LinkStoredAt(s: Space, t: Node, i: nat, f: nat, u: Node, j: nat)
    requires Linkable(s, t, i, f) && (IsTable(s, u) || u == Child(t, i)) && j < 512
    ensures u.level > 0 && IsTable(Link(s, t, i, f), u) && TableFrame(Link(s, t, i, f), u) < |s.mem|
    ensures Link(s, t, i, f).mem[TableFrame(Link(s, t, i, f), u)][j] == Val(Link(s, t, i, f).tree, Child(u, j))
  {
    LinkTables(s, t, i, f);
    ParentOfChild(u, j);
    if u == Child(t, i) {
      assert Child(u, j) !in s.tree;
    } else if Child(u, j) == Child(t, i) {
      ChildIsInjective(u, j, t, i);
    } else if TableFrame(s, u) == TableFrame(s, t) {
      assert u == t && j != i;
      assert s.mem[TableFrame(s, t)][j] == Val(s.tree, Child(t, j));
    } else {
      assert s.mem[TableFrame(s, u)][j] == Val(s.tree, Child(u, j));
    }
  }

  lemma LinkWellFormed(s: Space, t: Node, i: nat, f: nat)
    requires Linkable(s, t, i, f)
    ensures WellFormed(Link(s, t, i, f))
  {
    LinkRooted(s, t, i, f);
    LinkSeparate(s, t, i, f);
    LinkStored(s, t, i, f);
  }

  // ----- overwriting a slot -----

  // Slot i of table t takes entry e.
  function Write(s: Space, t: Node, i: nat, e: Entry): Space
    requires Shape(s) && IsTable(s, t) && t.level > 0 && TableFrame(s, t) < |s.mem| && i < 512
  {
    var tf := TableFrame(s, t);
    s.(mem := s.mem[tf := s.mem[tf][i := e]], tree := s.tree[Child(t, i) := e])
  }

  // A last-level slot may take any present entry, the link of a table only one to the same table.
  predicate Writable(s: Space, t: Node, i: nat, e: Entry)
    requires t.level > 0
  {
    && e.present
    && (t.level == 1 || (Child(t, i) in s.tree && s.tree[Child(t, i)].frame == e.frame))
  }

  ghost predicate CanWrite(s: Space, t: Node, i: nat, e: Entry) {
    WellFormed(s) && IsTable(s, t) && 1 <= t.level <= 4 && i < 512 && Writable(s, t, i, e)
  }

  lemma WriteTables(s: Space, t: Node, i: nat, e: Entry)
    requires CanWrite(s, t, i, e)
    ensures forall u :: IsTable(Write(s, t, i, e), u) <==> IsTable(s, u)
    ensures forall u :: IsTable(s, u) ==> TableFrame(Write(s, t, i, e), u) == TableFrame(s, u)
    ensures forall f: nat :: IsTableFrame(Write(s, t, i, e), f) <==> IsTableFrame(s, f)
  {
  }

  lemma WriteRooted(s: Space, t: Node, i: nat, e: Entry)
    requires CanWrite(s, t, i, e)
    ensures Rooted(Write(s, t, i, e))
  {
  }

  lemma WriteStoredAt(s: Space, t: Node, i: nat, e: Entry, u: Node, j: nat)
    requires CanWrite(s, t, i, e) && IsTable(s, u) && j < 512
    ensures u.level > 0 && TableFrame(s, u) < |s.mem|
    ensures Write(s, t, i, e).mem[TableFrame(s, u)][j] == Val(Write(s, t, i, e).tree, Child(u, j))
  {
    if Child(u, j) == Child(t, i) {
      ChildIsInjective(u, j, t, i);
    } else if TableFrame(s, u) == TableFrame(s, t) {
      assert u == t && j != i;
      assert s.mem[TableFrame(s, t)][j] == Val(s.tree, Child(t, j));
    } else {
      assert s.mem[TableFrame(s, u)][j] == Val(s.tree, Child(u, j));
    }
  }

  lemma WriteWellFormed(s: Space, t: Node, i: nat, e: Entry)
    requires CanWrite(s, t, i, e)
    ensures WellFormed(Write(s, t, i, e))
  {
    var r := Write(s, t, i, e);
    WriteTables(s, t, i, e);
    WriteRooted(s, t, i, e);
    forall u, j: nat | IsTable(r, u) && j < 512
      ensures r.mem[TableFrame(r, u)][j] == Val(r.tree, Child(u, j))
    {
      WriteStoredAt(s, t, i, e, u, j);
    }
  }

  // ----- how an address space grows -----

  predicate Fresh(s: Space, r: Space, f: nat) {
    f < |s.bits| && f < |r.bits| && !s.bits[f] && r.bits[f]
  }

  // From s to r tables were only added: existing links are untouched, each new table sits in a frame
  // that was clear, these are the only frames taken, and no memory but that of tables changed.
  ghost predicate TablesGrew(s: Space, r: Space)
    requires |r.mem| == |s.mem|
  {
    && r.root == s.root
    && |r.bits| == |s.bits|
    && (forall f: nat :: f < |s.bits| && s.bits[f] ==> r.bits[f])
    && (forall n :: n in s.tree && n.level >= 1 ==> n in r.tree && r.tree[n] == s.tree[n])
    && (forall n :: n in r.tree && n.level >= 1 && n !in s.tree ==>
          r.tree[n] == TableEntry(ZERO, r.tree[n].frame) && Fresh(s, r, r.tree[n].frame))
    && (forall f: nat :: Fresh(s, r, f) ==> IsTableFrame(r, f))
    && (forall f: nat :: f < |s.mem| && !IsTableFrame(r, f) ==> r.mem[f] == s.mem[f])
  }

  // The last-level entry of page x once the fresh frames are mapped to themselves.
  function SelfMapped(s: Space, r: Space, x: nat): Entry
    requires |s.bits| <= PAGE_LIMIT
  {
    if Fresh(s, r, x) then LeafEntry(Val(s.tree, Leaf(x)), x, false) else Val(s.tree, Leaf(x))
  }

  // Tables were added and each of them was mapped to itself; nothing else happened.
  ghost predicate Extends(s: Space, r: Space) {
    && |r.mem| == |s.mem| && |s.bits| <= PAGE_LIMIT
    && TablesGrew(s, r)
    && forall x: nat :: Val(r.tree, Leaf(x)) == SelfMapped(s, r, x)
  }

  // The same, and then page v was mapped to frame p.
  ghost predicate Maps(s: Space, r: Space, v: nat, p: FrameNumber, quickwrite: bool) {
    && |r.mem| == |s.mem| && |s.bits| <= PAGE_LIMIT
    && TablesGrew(s, r)
    && forall x: nat :: Val(r.tree, Leaf(x))
                     == if x == v then LeafEntry(Val(s.tree, Leaf(v)), p, quickwrite) else SelfMapped(s, r, x)
  }

  lemma TablesPersist(s: Space, r: Space)
    requires |r.mem| == |s.mem| && TablesGrew(s, r)
    ensures forall t :: IsTable(s, t) ==> IsTable(r, t) && TableFrame(r, t) == TableFrame(s, t)
    ensures forall f: nat :: IsTableFrame(s, f) ==> IsTableFrame(r, f)
  {
  }

  lemma ExtendsFacts(s: Space, r: Space)
    requires Extends(s, r)
    ensures |r.mem| == |s.mem| && |r.bits| == |s.bits| && r.root == s.root
    ensures forall t :: IsTable(s, t) ==> IsTable(r, t) && TableFrame(r, t) == TableFrame(s, t)
  {
  }

  lemma MapsFacts(s: Space, r: Space, v: nat, p: FrameNumber, quickwrite: bool)
    requires Maps(s, r, v, p, quickwrite)
    ensures |r.mem| == |s.mem| && |r.bits| == |s.bits| && r.root == s.root
    ensures forall t :: IsTable(s, t) ==> IsTable(r, t) && TableFrame(r, t) == TableFrame(s, t)
  {
  }

  lemma TablesGrewTrans(s: Space, m: Space, r: Space)
    requires |m.mem| == |s.mem| == |r.mem| && TablesGrew(s, m) && TablesGrew(m, r)
    ensures TablesGrew(s, r)
  {
    TablesPersist(m, r);
    forall f: nat | Fresh(s, r, f)
      ensures IsTableFrame(r, f)
    {
      assert Fresh(s, m, f) || Fresh(m, r, f);
    }
  }

  lemma ExtendsSelf(s: Space)
    requires WellFormed(s)
    ensures Extends(s, s)
  {
  }

  // A frame is fresh over two steps when it is fresh in exactly one of them.
  lemma FreshTrans(s: Space, m: Space, r: Space, f: nat)
    requires |m.mem| == |s.mem| == |r.mem| && TablesGrew(s, m) && TablesGrew(m, r)
    ensures Fresh(s, r, f) <==> Fresh(s, m, f) || Fresh(m, r, f)
    ensures !(Fresh(s, m, f) && Fresh(m, r, f))
  {
  }

  lemma ExtendsTrans(s: Space, m: Space, r: Space)
    requires Extends(s, m) && Extends(m, r)
    ensures Extends(s, r)
  {
    TablesGrewTrans(s, m, r);
    forall x: nat
      ensures Val(r.tree, Leaf(x)) == SelfMapped(s, r, x)
    {
      FreshTrans(s, m, r, x);
      assert Val(m.tree, Leaf(x)) == SelfMapped(s, m, x);
      assert Val(r.tree, Leaf(x)) == SelfMapped(m, r, x);
    }
  }

  lemma LinkGrew(s: Space, t: Node, i: nat, f: nat)
    requires Linkable(s, t, i, f)
    ensures var m := Link(s, t, i, f);
      && |m.mem| == |s.mem| && TablesGrew(s, m)
      && (forall x: nat :: Fresh(s, m, x) <==> x == f)
      && (forall x: nat :: Val(m.tree, Leaf(x)) == Val(s.tree, Leaf(x)))
  {
    var m := Link(s, t, i, f);
    assert IsTable(m, Child(t, i)) && TableFrame(m, Child(t, i)) == f;
    assert IsTable(m, t) && TableFrame(m, t) == TableFrame(s, t);
  }

  // A new table is linked and then, recursively, mapped to itself.
  lemma LinkThenSelfMap(s: Space, t: Node, i: nat, f: nat, r: Space)
    requires Linkable(s, t, i, f)
    requires Maps(Link(s, t, i, f), r, f, f, false)
    ensures Extends(s, r)
  {
    var m := Link(s, t, i, f);
    LinkGrew(s, t, i, f);
    TablesGrewTrans(s, m, r);
    forall x: nat
      ensures Val(r.tree, Leaf(x)) == SelfMapped(s, r, x)
    {
      FreshTrans(s, m, r, x);
      assert Val(m.tree, Leaf(x)) == Val(s.tree, Leaf(x));
    }
  }

  lemma LeafWriteGrew(s: Space, m: Space, t: Node, i: nat, e: Entry)
    requires CanWrite(m, t, i, e) && t.level == 1 && |m.mem| == |s.mem| && TablesGrew(s, m)
    ensures TablesGrew(s, Write(m, t, i, e))
  {
    var r := Write(m, t, i, e);
    WriteTables(m, t, i, e);
    assert IsTableFrame(m, TableFrame(m, t));
    assert forall f: nat :: Fresh(s, r, f) <==> Fresh(s, m, f);
    assert forall n: Node :: n.level >= 1 ==>
             (n in r.tree <==> n in m.tree) && (n in m.tree ==> r.tree[n] == m.tree[n]);
  }

  // The last step of map_memory.
  lemma ExtendThenWrite(s: Space, m: Space, t: Node, i: nat, v: nat, p: FrameNumber, quickwrite: bool)
    requires WellFormed(m) && Extends(s, m) && IsTable(m, t) && t.level == 1 && i < 512 && Child(t, i) == Leaf(v)
    ensures var r := Write(m, t, i, LeafEntry(Val(m.tree, Leaf(v)), p, quickwrite));
      WellFormed(r) && Maps(s, r, v, p, quickwrite)
  {
    var e := LeafEntry(Val(m.tree, Leaf(v)), p, quickwrite);
    var r := Write(m, t, i, e);
    WriteWellFormed(m, t, i, e);
    LeafWriteGrew(s, m, t, i, e);
    forall x: nat
      ensures Val(r.tree, Leaf(x))
           == if x == v then LeafEntry(Val(s.tree, Leaf(v)), p, quickwrite) else SelfMapped(s, r, x)
    {
      assert Val(m.tree, Leaf(x)) == SelfMapped(s, m, x);
    }
  }

  // ----- how many frames it may take -----

  ghost predicate Covers(needed: set<Node>, frames: nat) {
    && (forall n :: n in needed ==> 1 <= n.level <= 3)
    && (forall f: nat :: f < frames ==> Path(f) <= needed)
  }

  lemma PathNodes(needed: set<Node>, page: nat)
    requires Path(page) <= needed
    ensures Node(1, page / 512) in needed
    ensures Node(2, page / 512 / 512) in needed
    ensures Node(3, page / 512 / 512 / 512) in needed
  {
  }

  lemma CoversPath(needed: set<Node>, frames: nat, f: nat)
    requires Covers(needed, frames) && f < frames
    ensures Path(f) <= needed
  {
  }

  // Clear frames minus tables still missing.
  function Slack(s: Space, needed: set<Node>): int { ClearCount(s.bits) - |needed - s.tree.Keys| }

  lemma LinkSlack(s: Space, t: Node, i: nat, f: nat, needed: set<Node>)
    requires Linkable(s, t, i, f) && Child(t, i) in needed
    ensures Slack(Link(s, t, i, f), needed) == Slack(s, needed)
    ensures ClearCount(Link(s, t, i, f).bits) == ClearCount(s.bits) - 1
  {
    SetCountUpdate(s.bits, f, true);
    var before, after := needed - s.tree.Keys, needed - Link(s, t, i, f).tree.Keys;
    assert before == after + {Child(t, i)};
  }

  lemma WriteSlack(s: Space, t: Node, i: nat, e: Entry, needed: set<Node>, frames: nat)
    requires WellFormed(s) && IsTable(s, t) && t.level == 1 && i < 512 && Covers(needed, frames)
    ensures Slack(Write(s, t, i, e), needed) == Slack(s, needed)
  {
    assert needed - Write(s, t, i, e).tree.Keys == needed - s.tree.Keys;
  }

  // With a missing table and no deficit there is a clear frame for it.
  lemma SlackMeansClear(s: Space, n: Node, needed: set<Node>)
    requires Slack(s, needed) >= 0 && n in needed && n !in s.tree
    ensures exists f: nat :: f < |s.bits| && !s.bits[f]
  {
    assert n in needed - s.tree.Keys;
    SomeClear(s.bits);
  }

  lemma SlackMeansFrame(s: Space, needed: set<Node>)
    ensures Slack(s, needed) >= 1 ==> FirstClear(s.bits).Some?
  {
    if Slack(s, needed) >= 1 {
      SomeClear(s.bits);
    }
  }

  // The tables on the ways to the first n pages.
  ghost function PathsBelow(n: nat): set<Node> { set x: nat, node | x < n && node in Path(x) :: node }

  lemma PathsBelowCover(n: nat)
    ensures Covers(PathsBelow(n), n)
  {
  }

  lemma PathsCover(n: nat, v: nat)
    ensures Covers(PathsBelow(n) + Path(v), n) && Path(v) <= PathsBelow(n) + Path(v)
  {
  }

  // What it takes to map one page: the frames taken are exactly the tables added, at most the three on the
  // page's own path and those still missing for the frames of the bitmap.
  lemma FrameBound(s: Space, r: Space, v: nat)
    requires var needed := PathsBelow(|s.mem|) + Path(v);
      Slack(r, needed) == Slack(s, needed)
    requires s.tree.Keys <= r.tree.Keys
    ensures var needed := PathsBelow(|s.mem|) + Path(v);
      ClearCount(s.bits) - ClearCount(r.bits) == |needed * (r.tree.Keys - s.tree.Keys)|
    ensures ClearCount(s.bits) - ClearCount(r.bits) <= 3 + |PathsBelow(|s.mem|) - s.tree.Keys|
  {
    hide PathsBelow, Path, ClearCount;
    var all := PathsBelow(|s.mem|);
    var needed, before, after := all + Path(v), s.tree.Keys, r.tree.Keys;
    assert needed - before == (needed - after) + needed * (after - before);
    SubsetSize(needed - before, (all - before) + Path(v));
    PathSize(v);
  }

  lemma PathSize(v: nat)
    ensures |Path(v)| == 3
  {
  }

  lemma {:induction false} SubsetSize(a: set<Node>, b: set<Node>)
    requires a <= b
    ensures |a| <= |b|
  {
    if a != {} {
      var x :| x in a;
      SubsetSize(a - {x}, b - {x});
    }
  }
}

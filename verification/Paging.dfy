// memory/paging.cpp: the page tables in physical memory, and the operations of pmm.cpp that use them.
module Paging {
  import opened Words
  import opened Ledger
  import opened PageEntry
  import opened PageTree
  import opened Translation
  import opened Frames
  import opened TableWrites
  import opened Mapping
  import opened Runs
  import opened Batches
  import opened Access
  import P = Pmm

  // Shifts and masks of addresses, as arithmetic: the page number and frame number of an address.
  function PageOf(address: uint64): nat { address / 4096 % PAGE_LIMIT }

  function FrameOf(address: uint64): FrameNumber { address / 4096 % FRAME_LIMIT }

  // `page_map_indexer`: the table indices of an address.
  datatype Indexer = Indexer(pdp: nat, pd: nat, pt: nat, p: nat)

  function PageMapIndexer(virtualAddress: uint64): Indexer {
    var a := virtualAddress / 4096;
    Indexer(a / 512 / 512 / 512 % 512, a / 512 / 512 % 512, a / 512 % 512, a % 512)
  }

  // The indices lead from the root to the page's slot in the tree.
  lemma IndexerFollowsPath(virtualAddress: uint64)
    ensures var i, v := PageMapIndexer(virtualAddress), PageOf(virtualAddress);
      && i.pdp < 512 && i.pd < 512 && i.pt < 512 && i.p < 512
      && Child(ROOT, i.pdp) == Node(3, v / 512 / 512 / 512)
      && Child(Node(3, v / 512 / 512 / 512), i.pd) == Node(2, v / 512 / 512)
      && Child(Node(2, v / 512 / 512), i.pt) == Node(1, v / 512)
      && Child(Node(1, v / 512), i.p) == Leaf(v)
  {
    var a, v := virtualAddress / 4096, PageOf(virtualAddress);
    var q := a / PAGE_LIMIT;
    assert a == 512 * (q * 0x800_0000) + v;
    LastDigit(q * 0x800_0000, v);
    LastDigit(q * 0x4_0000, v / 512);
    LastDigit(q * 512, v / 512 / 512);
    LastDigit(q, v / 512 / 512 / 512);
  }

  // The same in numbers: 48 bits of a virtual address and 52 of a physical one count, and each index has nine.
  lemma AddressParts(a: uint64)
    ensures PageOf(a) == a % 0x1_0000_0000_0000 / 0x1000
    ensures FrameOf(a) == a % 0x10_0000_0000_0000 / 0x1000
    ensures var i := PageMapIndexer(a);
      && i.pdp == a / 0x80_0000_0000 % 0x200 && i.pd == a / 0x4000_0000 % 0x200
      && i.pt == a / 0x20_0000 % 0x200 && i.p == a / 0x1000 % 0x200
  {
    hide PageOf, FrameOf;
    PageNumber(a);
    FrameNumberOf(a);
    PageTables(a);
    PageDirectories(a);
    DirectoryPointers(a);
  }

  lemma PageTables(a: nat)
    ensures a / 4096 / 512 == a / 0x20_0000
  {
  }

  lemma PageDirectories(a: nat)
    ensures a / 0x20_0000 / 512 == a / 0x4000_0000
  {
  }

  lemma DirectoryPointers(a: nat)
    ensures a / 0x4000_0000 / 512 == a / 0x80_0000_0000
  {
  }

  lemma PageNumber(a: uint64)
    ensures PageOf(a) == a % 0x1_0000_0000_0000 / 0x1000
  {
    var q, r := a / 0x1_0000_0000_0000, a % 0x1_0000_0000_0000;
    assert a == 0x1000 * (0x10_0000_0000 * q) + r;
    assert a / 4096 == 0x10_0000_0000 * q + r / 4096;
  }

  lemma FrameNumberOf(a: uint64)
    ensures FrameOf(a) == a % 0x10_0000_0000_0000 / 0x1000
  {
    var q, r := a / 0x10_0000_0000_0000, a % 0x10_0000_0000_0000;
    assert a == 0x1000 * (0x100_0000_0000 * q) + r;
    assert a / 4096 == 0x100_0000_0000 * q + r / 4096;
  }

  // What was mapped is found again, up to the bits that an entry holds.
  lemma MapThenTranslate(s: Space, virtualMemory: uint64, physicalMemory: uint64, quickwrite: bool)
    requires WellFormed(s) && MapTo(s, PageOf(virtualMemory), FrameOf(physicalMemory), quickwrite).Some?
    ensures Translate(MapTo(s, PageOf(virtualMemory), FrameOf(physicalMemory), quickwrite).value,
                      virtualMemory % 0x1_0000_0000_0000 / 0x1000)
         == Some(physicalMemory % 0x10_0000_0000_0000 / 0x1000)
  {
    hide WellFormed, Maps, Reaches, MapTo, Translate, PageOf, FrameOf;
    AddressParts(virtualMemory);
    AddressParts(physicalMemory);
    var v, p := PageOf(virtualMemory), FrameOf(physicalMemory);
    PageIsBelowLimit(virtualMemory);
    MapToMaps(s, v, p, quickwrite);
    MapTranslates(s, MapTo(s, v, p, quickwrite).value, v, p, quickwrite, v);
  }

  lemma PageIsBelowLimit(a: uint64)
    ensures PageOf(a) < PAGE_LIMIT
  {
  }

  lemma IndexerIsPath(virtualAddress: uint64)
    ensures var i, v := PageMapIndexer(virtualAddress), PageOf(virtualAddress);
      && i.pdp == v / 512 / 512 / 512 % 512 && i.pd == v / 512 / 512 % 512 && i.pt == v / 512 % 512 && i.p == v % 512
  {
    IndexerFollowsPath(virtualAddress);
    ParentChain(PageOf(virtualAddress));
  }

  lemma LastDigit(x: nat, r: nat)
    ensures (512 * x + r) / 512 == x + r / 512 && (512 * x + r) % 512 == r % 512
  {
  }

  lemma FrameAddress(f: nat)
    requires f < PAGE_LIMIT
    ensures f * 4096 < TWO64 && PageOf(f * 4096) == f && FrameOf(f * 4096) == f && f * 4096 / 4096 == f
  {
  }

  class AddressSpace {
    const pmm: P.FrameAllocator
    // Physical memory, one sequence of 512 entries per frame.
    var mem: seq<seq<Entry>>
    var pml4: uint64
    // The present slots of the tables reachable from the root.
    ghost var tree: map<Node, Entry>

    // Before `setup_paging` has run there is no root table.
    constructor (pmm: P.FrameAllocator, mem: seq<seq<Entry>>)
      ensures this.pmm == pmm && this.mem == mem && tree == map[]
    {
      this.pmm, this.mem, pml4, tree := pmm, mem, 0, map[];
    }

    ghost function Snapshot(): Space
      reads this, pmm, pmm.pageBitmapMap
    {
      Space(pml4 / 4096, mem, pmm.pageBitmapMap.bits, tree)
    }

    ghost predicate Valid()
      reads this, pmm, pmm.pageBitmapMap, pmm.pageBitmapMap.buffer
    {
      pmm.Valid() && Accounts(pmm.View()) && WellFormed(Snapshot())
    }

    // Walks one level: the table behind slot i of a table, linked first when it is absent.
    // The three identical blocks of `map_memory` are three calls of this method.
    method NextTable(table: nat, i: nat, ghost t: Node) returns (next: nat)
      requires Valid()
      requires IsTable(Snapshot(), t) && 2 <= t.level <= 4 && table == TableFrame(Snapshot(), t) && i < 512
      requires TableTo(Snapshot(), t, i).Some?
      modifies this, pmm, pmm.pageBitmapMap`bits, pmm.pageBitmapMap.buffer
      ensures Valid() && pmm.SameSetup() && pml4 == old(pml4)
      ensures pmm.reservedMemorySize == old(pmm.reservedMemorySize) && pmm.totalMemorySize == old(pmm.totalMemorySize)
      ensures Snapshot() == TableTo(old(Snapshot()), t, i).value
      ensures Extends(old(Snapshot()), Snapshot())
      ensures IsTable(Snapshot(), Child(t, i)) && next == TableFrame(Snapshot(), Child(t, i))
      ensures LinksWritable(old(Snapshot())) ==> LinksWritable(Snapshot())
      decreases ClearCount(Snapshot().bits), 0
    {
      hide WellFormed, Shape, Extends, Maps, TablesGrew, Accounts, Reaches, ClearCount, MapTo, Guarded, LinksWritable,
           WritablePage, PatIndex;
      ghost var s := Snapshot();
      TableToKeepsLinks(s, t, i);
      TableToGrows(s, t, i);
      ReadSlot(s, t, i);
      var pde := mem[table][i];
      if !GetFlag(pde, Present) {
        ghost var before := pmm.View();
        var page := pmm.RequestPage();
        next := page / 4096;
        BookKeepsAccounts(before, next, AsUsed);
        mem := mem[next := Zeros()];
        pde := pde.(frame := next);
        pde := SetFlag(pde, Present, true);
        pde := SetFlag(pde, ReadWrite, true);
        mem := mem[table := mem[table][i := pde]];
        tree := tree[Child(t, i) := pde];
        ghost var m := Snapshot();
        assert m == Link(s, t, i, next);
        LinkReady(s, t, i, next);
        FrameAddress(next);
        MapMemory(page, page, false);
        MapsFacts(m, Snapshot(), next, next, false);
      } else {
        next := pde.frame;
      }
    }

    // The three walking blocks of `map_memory`, down to the page table of the address.
    method PageTableOf(virtualMemory: uint64) returns (pt: nat)
      requires Valid() && PathTo(Snapshot(), PageOf(virtualMemory)).Some?
      modifies this, pmm, pmm.pageBitmapMap`bits, pmm.pageBitmapMap.buffer
      ensures Valid() && pmm.SameSetup() && pml4 == old(pml4)
      ensures pmm.reservedMemorySize == old(pmm.reservedMemorySize) && pmm.totalMemorySize == old(pmm.totalMemorySize)
      ensures Snapshot() == PathTo(old(Snapshot()), PageOf(virtualMemory)).value
      ensures Extends(old(Snapshot()), Snapshot())
      ensures IsTable(Snapshot(), Node(1, PageOf(virtualMemory) / 512))
      ensures pt == TableFrame(Snapshot(), Node(1, PageOf(virtualMemory) / 512))
      decreases ClearCount(Snapshot().bits), 1
    {
      hide WellFormed, Shape, Extends, Maps, TablesGrew, Accounts, Reaches, ClearCount, TableTo;
      var indexer := PageMapIndexer(virtualMemory);
      ghost var v := PageOf(virtualMemory);
      IndexerFollowsPath(virtualMemory);
      ParentChain(v);
      IndexerIsPath(virtualMemory);
      ghost var s := Snapshot();
      PathToGrows(s, v);
      var pdp := NextTable(pml4 / 4096, indexer.pdp, ROOT);
      var pd := NextTable(pdp, indexer.pd, Node(3, v / 512 / 512 / 512));
      pt := NextTable(pd, indexer.pt, Node(2, v / 512 / 512));
    }

    // It needs a clear frame for each table that it has to link, which is what `MapTo` being defined says.
    method MapMemory(virtualMemory: uint64, physicalMemory: uint64, quickwrite: bool)
      requires Valid()
      requires MapTo(Snapshot(), PageOf(virtualMemory), FrameOf(physicalMemory), quickwrite).Some?
      modifies this, pmm, pmm.pageBitmapMap`bits, pmm.pageBitmapMap.buffer
      ensures Valid() && pmm.SameSetup() && pml4 == old(pml4)
      ensures pmm.reservedMemorySize == old(pmm.reservedMemorySize) && pmm.totalMemorySize == old(pmm.totalMemorySize)
      ensures Snapshot() == MapTo(old(Snapshot()), PageOf(virtualMemory), FrameOf(physicalMemory), quickwrite).value
      ensures Maps(old(Snapshot()), Snapshot(), PageOf(virtualMemory), FrameOf(physicalMemory), quickwrite)
      ensures Reaches(old(Snapshot()), Snapshot())
      ensures LinksWritable(old(Snapshot())) ==>
                LinksWritable(Snapshot()) && WritablePage(Snapshot(), PageOf(virtualMemory))
      ensures PatIndex(Snapshot(), PageOf(virtualMemory)) == if quickwrite then 1 else 0
      decreases ClearCount(Snapshot().bits), 2
    {
      hide WellFormed, Shape, Extends, Maps, TablesGrew, Accounts, Reaches, ClearCount, PathTo, LinksWritable,
           WritablePage, PatIndex;
      ghost var s, v := Snapshot(), PageOf(virtualMemory);
      MapToMaps(s, v, FrameOf(physicalMemory), quickwrite);
      MapToAccess(s, v, FrameOf(physicalMemory), quickwrite);
      var pt := PageTableOf(virtualMemory);
      ghost var m, n1 := Snapshot(), Node(1, v / 512);
      IndexerFollowsPath(virtualMemory);
      IndexerIsPath(virtualMemory);
      var index := PageMapIndexer(virtualMemory).p;
      ReadSlot(m, n1, index);
      var pde := mem[pt][index];
      pde := pde.(frame := FrameOf(physicalMemory));
      pde := SetFlag(pde, Present, true);
      pde := SetFlag(pde, ReadWrite, true);
      pde := SetPat(pde, if quickwrite then 1 else 0);
      mem := mem[pt := mem[pt][index := pde]];
      tree := tree[Leaf(v) := pde];
      assert Snapshot() == Write(m, n1, index, LeafEntry(Val(m.tree, Leaf(v)), FrameOf(physicalMemory), quickwrite));
    }

    // All ones stands for an unmapped address.
    method GetPhysicalAddress(virtualAddress: uint64) returns (physical: uint64)
      requires Valid()
      ensures physical == match Translate(Snapshot(), PageOf(virtualAddress))
                          case None => TWO64 - 1
                          case Some(frame) => frame * 4096 + virtualAddress % 4096
    {
      hide WellFormed, Shape, Accounts;
      ghost var s, v := Snapshot(), PageOf(virtualAddress);
      IndexerFollowsPath(virtualAddress);
      WalkReadsTree(s, v);
      LinkedFromAbove(s, Leaf(v));
      LinkedFromAbove(s, Node(1, v / 512));
      LinkedFromAbove(s, Node(2, v / 512 / 512));
      ParentChain(v);
      var indexer := PageMapIndexer(virtualAddress);
      var addressOffset := virtualAddress % 4096;
      ReadSlot(s, ROOT, indexer.pdp);
      var pde := mem[pml4 / 4096][indexer.pdp];
      if !GetFlag(pde, Present) {
        return 0xffff_ffff_ffff_ffff;
      }
      var pdp := pde.frame;
      ReadSlot(s, Node(3, v / 512 / 512 / 512), indexer.pd);
      pde := mem[pdp][indexer.pd];
      if !GetFlag(pde, Present) {
        return 0xffff_ffff_ffff_ffff;
      }
      var pd := pde.frame;
      ReadSlot(s, Node(2, v / 512 / 512), indexer.pt);
      pde := mem[pd][indexer.pt];
      if !GetFlag(pde, Present) {
        return 0xffff_ffff_ffff_ffff;
      }
      var pt := pde.frame;
      ReadSlot(s, Node(1, v / 512), indexer.p);
      pde := mem[pt][indexer.p];
      if !GetFlag(pde, Present) {
        return 0xffff_ffff_ffff_ffff;
      }
      return pde.frame * 4096 + addressOffset;
    }

    // `entries[i].set_flag(user_super, 1)` on a present slot.
    method RaiseUser(table: nat, i: nat, ghost n: Node)
      requires Valid() && n in tree && IsTable(Snapshot(), Parent(n))
      requires table == TableFrame(Snapshot(), Parent(n)) && i == n.prefix % 512
      modifies `mem, `tree
      ensures Valid() && Snapshot() == Raise(old(Snapshot()), n)
      ensures Raises(old(Snapshot()), Snapshot(), {n})
      ensures forall t :: IsTable(old(Snapshot()), t) ==>
                IsTable(Snapshot(), t) && TableFrame(Snapshot(), t) == TableFrame(old(Snapshot()), t)
      ensures tree == old(tree)[n := SetFlag(old(tree[n]), UserSuper, true)]
    {
      hide WellFormed, Shape, Accounts, Raises, Reaches;
      ghost var s := Snapshot();
      ReadSlot(s, Parent(n), i);
      mem := mem[table := mem[table][i := SetFlag(mem[table][i], UserSuper, true)]];
      tree := tree[n := SetFlag(tree[n], UserSuper, true)];
      RaiseFacts(s, n);
    }

    // The caller passes a mapped address; on others the source would follow entries that are not links.
    method DonateToUserspace(virtualAddress: uint64)
      requires Valid() && Mapped(Snapshot(), PageOf(virtualAddress))
      modifies `mem, `tree
      ensures Valid() && Snapshot() == DonateTo(old(Snapshot()), PageOf(virtualAddress))
      ensures Donates(old(Snapshot()), Snapshot(), PageOf(virtualAddress)) && Reaches(old(Snapshot()), Snapshot())
    {
      hide WellFormed, Shape, Accounts, Raises, Mapped, Donates, Reaches, Raise;
      var indexer := PageMapIndexer(virtualAddress);
      ghost var v := PageOf(virtualAddress);
      IndexerFollowsPath(virtualAddress);
      ghost var n3, n2, n1 := Node(3, v / 512 / 512 / 512), Node(2, v / 512 / 512), Node(1, v / 512);
      ghost var s := Snapshot();
      DonateToDonates(s, v);
      WalkReadsTree(s, v);
      ParentChain(v);
      ReadSlot(s, ROOT, indexer.pdp);
      var pde := mem[pml4 / 4096][indexer.pdp];
      RaiseUser(pml4 / 4096, indexer.pdp, n3);

      var pdp := pde.frame;
      RaiseUser(pdp, indexer.pd, n2);
      ReadSlot(Snapshot(), n3, indexer.pd);
      pde := mem[pdp][indexer.pd];

      var pd := pde.frame;
      RaiseUser(pd, indexer.pt, n1);
      ReadSlot(Snapshot(), n2, indexer.pt);
      pde := mem[pd][indexer.pt];

      var pt := pde.frame;
      RaiseUser(pt, indexer.p, Leaf(v));
    }

    // `request_page` while the page tables are live: the lowest clear frame, if there is one.
    method RequestPage() returns (page: uint64)
      requires Valid()
      modifies pmm, pmm.pageBitmapMap`bits, pmm.pageBitmapMap.buffer
      ensures Valid() && pmm.SameSetup()
      ensures pmm.reservedMemorySize == old(pmm.reservedMemorySize) && pmm.totalMemorySize == old(pmm.totalMemorySize)
      ensures match FirstClear(old(Snapshot()).bits)
              case None => page == 0 && Snapshot() == old(Snapshot())
              case Some(f) =>
                && page == f * 4096 && Snapshot() == Take(old(Snapshot()), f)
                && f < |mem| == |Snapshot().bits| <= PAGE_LIMIT && !IsTableFrame(old(Snapshot()), f)
    {
      hide WellFormed, Accounts, IsTableFrame;
      ghost var s, before := Snapshot(), pmm.View();
      SoundSizes(s);
      page := pmm.RequestPage();
      if FirstClear(s.bits).Some? {
        BookKeepsAccounts(before, FirstClear(s.bits).value, AsUsed);
        TakeKeepsTree(s, FirstClear(s.bits).value, {});
      }
    }

    method LockPage(vaddress: uint64)
      requires Valid() && vaddress / 4096 < |Snapshot().bits|
      modifies pmm, pmm.pageBitmapMap`bits, pmm.pageBitmapMap.buffer
      ensures Valid() && pmm.SameSetup()
      ensures Snapshot() == Take(old(Snapshot()), vaddress / 4096)
      ensures pmm.View() == Lock(old(pmm.View()), vaddress / 4096)
    {
      hide WellFormed, Accounts;
      BookKeepsAccounts(pmm.View(), vaddress / 4096, AsUsed);
      TakeKeepsTree(Snapshot(), vaddress / 4096, {});
      pmm.LockPage(vaddress);
    }

    // The caller frees a frame that holds no table; `ReleaseKeepsTree` says why it must.
    method FreePage(vaddress: uint64)
      requires Valid() && vaddress / 4096 < |Snapshot().bits| && !IsTableFrame(Snapshot(), vaddress / 4096)
      modifies pmm, pmm.pageBitmapMap`bits, pmm.pageBitmapMap.buffer
      ensures Valid() && pmm.SameSetup()
      ensures Snapshot() == Release(old(Snapshot()), vaddress / 4096)
      ensures pmm.View() == Free(old(pmm.View()), vaddress / 4096)
    {
      hide WellFormed, Accounts, IsTableFrame;
      UnbookKeepsAccounts(pmm.View(), vaddress / 4096, AsUsed);
      ReleaseKeepsTree(Snapshot(), vaddress / 4096);
      pmm.FreePage(vaddress);
    }

    // What a caller does to the memory of a frame that holds no table.
    method WriteFrame(frame: nat, contents: seq<Entry>)
      requires Valid() && frame < |mem| && !IsTableFrame(Snapshot(), frame) && |contents| == 512
      modifies `mem
      ensures Valid() && Snapshot() == Scribble(old(Snapshot()), frame, contents)
    {
      hide WellFormed, Accounts, IsTableFrame;
      ScribbleKeepsTree(Snapshot(), frame, contents);
      mem := mem[frame := contents];
    }

    // With fewer than two pages asked for, the source does nothing. `obtained` are the frames it took.
    method RequestPages(pageCount: uint64) returns (start: uint64, ghost obtained: seq<nat>)
      requires Valid() && PagesTo(Snapshot(), pageCount).Some?
      modifies this, pmm, pmm.pageBitmapMap`bits, pmm.pageBitmapMap.buffer
      ensures Valid() && pmm.SameSetup() && pml4 == old(pml4)
      ensures Snapshot() == PagesTo(old(Snapshot()), pageCount).value.space
      ensures obtained == PagesTo(old(Snapshot()), pageCount).value.obtained
      ensures pageCount <= 1 ==> start == 0 && obtained == [] && Snapshot() == old(Snapshot())
      ensures pageCount >= 2 ==> |obtained| == pageCount && start == obtained[0] * 4096
      ensures pageCount >= 2 ==> Batch(old(Snapshot()), Snapshot(), obtained[0], obtained)
      ensures LeavesHeld(old(Snapshot()), Snapshot())
      ensures SameUserPages(old(Snapshot()), Snapshot())
    {
      hide WellFormed, Shape, Maps, Accounts, IsTableFrame, PageOf, FrameOf, RunFromTo, Batch, Allocating, LeavesHeld,
           SameUserPages, Reaches, MapTo, Rounds, FirstClear, LinksWritable, WritablePage, PatIndex;
      ghost var s0 := Snapshot();
      PagesToMaps({}, s0, pageCount);
      if pageCount <= 1 {
        return 0, [];
      }
      ghost var first := FirstClear(s0.bits).value;
      ghost var b, f, next := RoundRuns(s0, first, 0, pageCount);
      FrameAddress(first);
      start := RequestPage();
      var remaining := pageCount - 1;
      MapMemory(start, start, false);

      for i := 1 to remaining + 1
        invariant Valid() && pmm.SameSetup() && pml4 == old(pml4)
        invariant start == first * 4096
        invariant Rounds(s0, first, i) == Some(next) && next.space == Snapshot()
      {
        b, f, next := RoundRuns(s0, first, i, pageCount);
        FrameAddress(f);
        FrameAddress(first + i);
        var pagePtr := RequestPage();
        MapMemory(start + i * 0x1000, pagePtr, false);
      }
      obtained := next.obtained;
    }
  }
}

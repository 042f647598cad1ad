// memory/heap.cpp: the kernel heap as a doubly linked list of segment headers, changed through pointers.
module Heap {
  import opened Words
  import opened Segments
  import opened HeapRuns

  class SegmentHeader {
    const addr: uint64
    var length: uint64
    var next: SegmentHeader?
    var last: SegmentHeader?
    var free: bool

    constructor (addr: uint64, length: uint64, next: SegmentHeader?, last: SegmentHeader?, free: bool)
      ensures this.addr == addr && this.length == length && this.next == next && this.last == last && this.free == free
    {
      this.addr, this.length, this.next, this.last, this.free := addr, length, next, last, free;
    }

    function ToSeg(): Seg
      reads this
    {
      Seg(addr, length, free)
    }
  }

  class KernelHeap {
    var heapStart: SegmentHeader
    var heapEnd: uint64
    // The headers reachable from `heapStart`, in list order.
    ghost var nodes: seq<SegmentHeader>

    // The list is symmetric and without repetition, and all its headers have memory of their own. Two
    // `SegmentHeader` objects never share memory; the addresses say whether the source's headers do.
    ghost predicate Valid()
      reads this, nodes
    {
      Linked() && HeadersApart(View())
    }

    ghost predicate Linked()
      reads this, nodes
    {
      && nodes != [] && heapStart == nodes[0]
      && (forall i, j :: 0 <= i < j < |nodes| ==> nodes[i] != nodes[j])
      && (forall i {:trigger nodes[i].next} :: 0 <= i < |nodes| ==>
            nodes[i].next == if i + 1 < |nodes| then nodes[i + 1] else null)
      && (forall i {:trigger nodes[i].last} :: 0 <= i < |nodes| ==>
            nodes[i].last == if i > 0 then nodes[i - 1] else null)
    }

    ghost function View(): (s: seq<Seg>)
      reads this, nodes
      ensures |s| == |nodes|
    {
      seq(|nodes|, i requires 0 <= i < |nodes| reads this, nodes => nodes[i].ToSeg())
    }

    constructor (heapAddress: uint64, heapLength: uint64)
      ensures Valid() && fresh(nodes)
      ensures View() == InitialHeap(heapAddress, heapLength)
      ensures heapEnd == Add64(heapAddress, heapLength)
    {
      var startSegment := new SegmentHeader(heapAddress, Sub64(heapLength, HEADER), null, null, true);
      heapStart := startSegment;
      heapEnd := Add64(heapAddress, heapLength);
      nodes := [startSegment];
      OneHeaderApart(heapAddress, heapLength);
    }

    // A write to the `free` field of the i-th header.
    method Mark(seg: SegmentHeader, free: bool, ghost i: nat)
      requires i < |nodes| && nodes[i] == seg
      modifies seg`free
      ensures seg.free == free
      ensures HeadersApart(View()) <==> old(HeadersApart(View()))
      ensures old(Valid()) ==> Valid() && View() == old(View())[i := old(View())[i].(free := free)]
    {
      hide HeadersApart;
      ghost var s := View();
      seg.free := free;
      SameHeadersApart(s, View());
    }

    // Links a new header behind the i-th one. Nothing is promised when it lies on top of another.
    method InsertAfter(seg: SegmentHeader, addr: uint64, restLength: uint64, ghost i: nat) returns (rest: SegmentHeader)
      requires Valid() && i < |nodes| && nodes[i] == seg
      modifies this`nodes, nodes`next, nodes`last
      ensures fresh(rest) && rest.ToSeg() == Seg(addr, restLength, seg.free)
      ensures HeadersApart(View()) ==> Valid()
      ensures HeadersApart(View())
         <==> forall j: nat :: j < |old(nodes)| ==> !HeadersOverlap(addr, old(View())[j].addr)
      ensures nodes == old(nodes)[..i + 1] + [rest] + old(nodes)[i + 1..]
    {
      hide HeadersOverlap, HeadersApart, View;
      ghost var s, before := View(), nodes;
      ViewAddresses();
      rest := new SegmentHeader(addr, restLength, seg.next, seg, seg.free);
      LinkBehind(seg, rest, i);
      ViewAddresses();
      assert forall j: nat :: j < |s| ==> before[j] == nodes[if j <= i then j else j + 1];
      InsertedApart(s, View(), i);
    }

    // The two writes that make the list go through the new header.
    method LinkBehind(seg: SegmentHeader, rest: SegmentHeader, ghost i: nat)
      requires Linked() && i < |nodes| && nodes[i] == seg && rest !in nodes
      requires rest.next == seg.next && rest.last == seg
      modifies this`nodes, nodes`next, nodes`last
      ensures Linked() && nodes == old(nodes)[..i + 1] + [rest] + old(nodes)[i + 1..]
    {
      if seg.next != null {
        seg.next.last := rest;
      }
      seg.next := rest;
      nodes := nodes[..i + 1] + [rest] + nodes[i + 1..];
      assert forall j :: 0 <= j <= i ==> nodes[j] == old(nodes)[j];
      assert forall j :: i + 1 < j < |nodes| ==> nodes[j] == old(nodes)[j - 1];
    }

    lemma ViewAddresses()
      ensures forall j: nat :: j < |nodes| ==> View()[j].addr == nodes[j].addr
    {
    }

    // `seg` is the i-th header of the list. The null result says that nothing was split.
    method Split(seg: SegmentHeader, splitLength: uint64, ghost i: nat) returns (rest: SegmentHeader?)
      requires Valid() && i < |nodes| && nodes[i] == seg
      modifies this`nodes, nodes
      ensures forall n :: n in nodes && n !in old(nodes) ==> fresh(n)
      ensures HeadersApart(View()) <==> !SplitClobbers(old(View()), i, splitLength)
      ensures HeadersApart(View()) ==> Valid() && View() == SplitAt(AsWritten, old(View()), i, splitLength)
      ensures i < |nodes| && nodes[i] == seg
      ensures rest == null <==> !Splits(AsWritten, old(View())[i].length, splitLength)
      ensures rest != null ==> i + 1 < |nodes| && nodes[i + 1] == rest
    {
      hide HeadersOverlap, HeadersApart;
      ghost var s := View();
      if splitLength < 0x10 {
        return null;
      }
      var splitSegLength := Sub64(Sub64(seg.length, splitLength), 2 * HEADER);
      if splitSegLength < 0x10 {
        return null;
      }
      rest := InsertAfter(seg, Add64(seg.addr, Add64(splitLength, HEADER)), splitSegLength, i);
      ghost var t := View();
      seg.length := splitLength;
      SameHeadersApart(t, View());
    }

    method CombineForward(seg: SegmentHeader, ghost i: nat)
      requires Valid() && i < |nodes| && nodes[i] == seg
      modifies this`nodes, nodes
      ensures Valid()
      ensures nodes == if i + 1 < |old(nodes)| && old(View())[i + 1].free
                       then old(nodes)[..i + 1] + old(nodes)[i + 2..] else old(nodes)
      ensures forall n :: n in nodes ==> n in old(nodes)
      ensures View() == Segments.CombineForward(old(View()), i)
    {
      hide HeadersApart;
      ghost var s := View();
      CombineKeepsHeadersApart(s, i);
      if seg.next == null {
        return;
      }
      if !seg.next.free {
        return;
      }
      assert seg.next == nodes[i + 1];
      if seg.next.next != null {
        seg.next.next.last := seg;
      }
      seg.length := Add64(Add64(seg.length, seg.next.length), HEADER);
      seg.next := seg.next.next;
      nodes := nodes[..i + 1] + nodes[i + 2..];
      assert forall j :: 0 <= j <= i ==> nodes[j] == old(nodes)[j];
      assert forall j :: i < j < |nodes| ==> nodes[j] == old(nodes)[j + 1];
      assert Linked();
      assert View() == Segments.CombineForward(s, i);
    }

    method Malloc(bytes: uint64) returns (handle: SegmentHeader?)
      requires Valid()
      modifies this`nodes, nodes
      ensures forall n :: n in nodes && n !in old(nodes) ==> fresh(n)
      ensures HeadersApart(View()) <==> !Clobbers(old(View()), bytes)
      ensures HeadersApart(View()) ==> Valid() && View() == Segments.Malloc(AsWritten, old(View()), bytes)
      ensures match MallocResult(old(View()), bytes)
              case None => handle == null
              case Some(addr) => handle != null && handle in nodes && handle.addr == addr && !handle.free
    {
      hide SplitAt, Splits, SplitClobbers, HeadersApart;
      if bytes == 0 {
        return null;
      }
      var size := bytes;
      if size % 0x10 != 0 {
        size := size % 0x10 + 0x10;
      }
      assert size == Rounded(bytes);
      var current := heapStart;
      ghost var i, s := 0, View();
      while true
        invariant Valid() && View() == s && nodes == old(nodes)
        invariant i < |nodes| && nodes[i] == current
        invariant forall j: nat :: j < i ==> !Fits(s[j], size)
        decreases |nodes| - i
      {
        assert s[i] == current.ToSeg();
        if current.free {
          if current.length > size {
            FirstFitIs(s, size, i);
            ClobbersAtFit(s, bytes, i);
            var _ := Split(current, size, i);
            Mark(current, false, i);
            return current;
          }
          if current.length == size {
            FirstFitIs(s, size, i);
            Mark(current, false, i);
            return current;
          }
        }
        if current.next == null {
          break;
        }
        current := current.next;
        i := i + 1;
      }
      NoFit(s, size);
      return null;
    }

    // Frees the i-th segment, whose handle the caller passes.
    method Free(seg: SegmentHeader, ghost i: nat)
      requires Valid() && i < |nodes| && nodes[i] == seg
      modifies this`nodes, nodes
      ensures Valid() && forall n :: n in nodes ==> n in old(nodes)
      ensures View() == Segments.Free(old(View()), i)
    {
      hide Segments.CombineForward, Merged;
      Mark(seg, true, i);
      ghost var s := View();
      if seg.next != null && seg.next.free {
        assert s[i + 1] == seg.next.ToSeg();
        CombineForward(seg, i);
      } else {
        CombineNothing(s, i);
      }
      assert nodes[i] == seg && nodes[i].last == if i > 0 then nodes[i - 1] else null;
      assert i > 0 ==> View()[i - 1] == nodes[i - 1].ToSeg();
      if seg.last != null && seg.last.free {
        CombineForward(seg.last, i - 1);
      }
    }
  }

  lemma ClobbersAtFit(s: seq<Seg>, size: uint64, i: nat)
    requires size > 0 && FirstFit(s, Rounded(size)) == Some(i) && s[i].length > Rounded(size)
    ensures Clobbers(s, size) <==> SplitClobbers(s, i, Rounded(size))
  {
  }

  lemma SameHeadersApart(s: seq<Seg>, t: seq<Seg>)
    requires |s| == |t| && forall j: nat :: j < |s| ==> s[j].addr == t[j].addr
    ensures HeadersApart(s) <==> HeadersApart(t)
  {
    hide HeadersOverlap;
  }

  lemma CombineNothing(s: seq<Seg>, i: nat)
    requires i < |s| && (i + 1 < |s| ==> !s[i + 1].free)
    ensures Segments.CombineForward(s, i) == s
  {
  }

  lemma NoFit(s: seq<Seg>, need: uint64)
    requires forall j: nat :: j < |s| ==> !Fits(s[j], need)
    ensures FirstFit(s, need) == None
  {
  }

  lemma FirstFitIs(s: seq<Seg>, need: uint64, i: nat)
    requires IsFirstFit(s, need, i)
    ensures FirstFit(s, need) == Some(i)
  {
  }
}

// Any list of calls of the kernel heap, performed by its pointer code, is a run in the sense of HeapRuns.dfy.
module HeapCalls {
  import opened Words
  import opened Segments
  import opened HeapRuns
  import opened Heap

  // Callers free live handles, and no malloc writes a header over another.
  ghost predicate Legal(s: seq<Seg>, ops: seq<HeapOp>)
    decreases |ops|
  {
    ops != [] ==>
      match ops[0]
      case DoMalloc(size) => !Clobbers(s, size) && Legal(Segments.Malloc(AsWritten, s, size), ops[1..])
      case DoFree(addr) => exists i: nat :: LiveAt(s, i, addr) && Legal(Segments.Free(s, i), ops[1..])
  }

  lemma LiveAtIsUnique(s: seq<Seg>, i: nat, j: nat, addr: uint64)
    requires HeadersApart(s) && LiveAt(s, i, addr) && LiveAt(s, j, addr)
    ensures i == j
  {
    assert HeadersOverlap(s[i].addr, s[j].addr);
  }

  // The header that a handle points to.
  method HeaderAt(heap: KernelHeap, addr: uint64) returns (seg: SegmentHeader, ghost i: nat)
    requires heap.Valid() && exists j: nat :: LiveAt(heap.View(), j, addr)
    ensures seg in heap.nodes && seg.addr == addr && !seg.free
    ensures i < |heap.nodes| && heap.nodes[i] == seg && LiveAt(heap.View(), i, addr)
  {
    ghost var s := heap.View();
    ghost var k: nat :| LiveAt(s, k, addr);
    seg, i := heap.heapStart, 0;
    while seg.addr != addr
      invariant i <= k && heap.nodes[i] == seg
      decreases k - i
    {
      assert s[i] == seg.ToSeg();
      assert i < k;
      seg := seg.next;
      i := i + 1;
    }
    assert s[i] == seg.ToSeg();
    assert i < k ==> HeadersOverlap(s[i].addr, s[k].addr);
  }

  ghost predicate LegalCall(s: seq<Seg>, op: HeapOp) {
    match op
    case DoMalloc(size) => !Clobbers(s, size)
    case DoFree(addr) => exists i: nat :: LiveAt(s, i, addr)
  }

  method PerformHeapCall(heap: KernelHeap, op: HeapOp)
    requires heap.Valid() && LegalCall(heap.View(), op)
    modifies heap`nodes, heap.nodes
    ensures heap.Valid() && HeapStep(AsWritten, old(heap.View()), op, heap.View())
    ensures forall j :: 0 <= j < |heap.nodes| ==> heap.nodes[j] in old(heap.nodes) || fresh(heap.nodes[j])
  {
    hide Clobbers, Segments.Malloc, Segments.Free, HeadersApart;
    match op {
      case DoMalloc(size) =>
        var _ := heap.Malloc(size);
      case DoFree(addr) =>
        var seg, i := HeaderAt(heap, addr);
        heap.Free(seg, i);
    }
  }

  // One legal call leaves the rest of a legal list legal.
  lemma LegalGoesOn(s: seq<Seg>, ops: seq<HeapOp>, r: seq<Seg>)
    requires ops != [] && Legal(s, ops) && HeadersApart(s)
    ensures LegalCall(s, ops[0])
    ensures HeapStep(AsWritten, s, ops[0], r) ==> Legal(r, ops[1..])
  {
    hide Clobbers, Segments.Malloc, Segments.Free, HeadersApart;
    if ops[0].DoFree? && HeapStep(AsWritten, s, ops[0], r) {
      var i: nat :| LiveAt(s, i, ops[0].addr) && r == Segments.Free(s, i);
      var j: nat :| LiveAt(s, j, ops[0].addr) && Legal(Segments.Free(s, j), ops[1..]);
      LiveAtIsUnique(s, i, j, ops[0].addr);
    }
  }

  // The heap from its initialization on.
  method PerformHeapCalls(start: uint64, length: uint64, ops: seq<HeapOp>)
    returns (heap: KernelHeap, ghost states: seq<seq<Seg>>)
    requires HEADER <= length && start + length < TWO64 && Legal(InitialHeap(start, length), ops)
    ensures heap.Valid() && HeapRun(AsWritten, states, ops, start, length) && heap.View() == states[|ops|]
    ensures forall k: nat :: k < |ops| ==> FaithfulStep(AsWritten, states[k], ops[k])
  {
    hide Clobbers, HeadersApart, HeapStep, Legal;
    heap := new KernelHeap(start, length);
    states := [heap.View()];
    for k := 0 to |ops|
      invariant heap.Valid() && fresh(heap) && fresh(heap.nodes)
      invariant |states| == k + 1 && states[0] == InitialHeap(start, length) && states[k] == heap.View()
      invariant forall j: nat :: j < k ==> HeapStep(AsWritten, states[j], ops[j], states[j + 1])
      invariant forall j: nat :: j < k ==> FaithfulStep(AsWritten, states[j], ops[j])
      invariant Legal(heap.View(), ops[k..])
    {
      ghost var s := heap.View();
      assert ops[k..][0] == ops[k] && ops[k..][1..] == ops[k + 1..];
      LegalGoesOn(s, ops[k..], s);
      ghost var before := heap.nodes;
      PerformHeapCall(heap, ops[k]);
      assert forall j :: 0 <= j < |heap.nodes| ==> heap.nodes[j] in before || fresh(heap.nodes[j]);
      LegalGoesOn(s, ops[k..], heap.View());
      states := states + [heap.View()];
    }
  }
}

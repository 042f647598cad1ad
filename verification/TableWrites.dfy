// The single writes to live page tables that memory/paging.cpp is made of, and what any sequence of
// them keeps: the soundness of the tree rests on the guards of the single writes alone.
module TableWrites {
  import opened Ledger
  import opened PageEntry
  import opened PageTree

  datatype TableWrite =
    | LinkTable(table: Node, index: nat, frame: nat)
    | WriteSlot(table: Node, index: nat, entry: Entry)

  // What must be true just before a write. Nothing here says that the tree is sound.
  ghost predicate Guarded(s: Space, w: TableWrite) {
    && Shape(s) && IsTable(s, w.table) && TableFrame(s, w.table) < |s.mem| && w.index < 512
    && match w
       case LinkTable(t, i, f) => 2 <= t.level <= 4 && Child(t, i) !in s.tree && IsFirstClear(s.bits, f)
       case WriteSlot(t, i, e) => 1 <= t.level <= 4 && Writable(s, t, i, e)
  }

  ghost function Written(s: Space, w: TableWrite): Space
    requires Guarded(s, w)
  {
    match w
    case LinkTable(t, i, f) => Link(s, t, i, f)
    case WriteSlot(t, i, e) => Write(s, t, i, e)
  }

  // From s the given writes lead to r.
  ghost predicate Writes(s: Space, ws: seq<TableWrite>, r: Space)
    decreases |ws|
  {
    if ws == [] then r == s else Guarded(s, ws[0]) && Writes(Written(s, ws[0]), ws[1..], r)
  }

  ghost predicate Reaches(s: Space, r: Space) { exists ws :: Writes(s, ws, r) }

  // Guarded writes keep the tree sound, however many there are.
  lemma {:induction false} WritesKeepTree(s: Space, ws: seq<TableWrite>, r: Space)
    requires WellFormed(s) && Writes(s, ws, r)
    ensures WellFormed(r)
    decreases |ws|
  {
    hide WellFormed;
    if ws != [] {
      GuardedWriteKeepsTree(s, ws[0]);
      WritesKeepTree(Written(s, ws[0]), ws[1..], r);
    }
  }

  lemma GuardedWriteKeepsTree(s: Space, w: TableWrite)
    requires WellFormed(s) && Guarded(s, w)
    ensures WellFormed(Written(s, w))
  {
    hide WellFormed, Shape;
    match w
    case LinkTable(t, i, f) => LinkWellFormed(s, t, i, f);
    case WriteSlot(t, i, e) => WriteWellFormed(s, t, i, e);
  }

  lemma ReachesKeepsTree(s: Space, r: Space)
    requires WellFormed(s) && Reaches(s, r)
    ensures WellFormed(r)
  {
    hide WellFormed, Writes;
    var ws :| Writes(s, ws, r);
    WritesKeepTree(s, ws, r);
  }

  lemma {:induction false} WritesConcat(s: Space, ws: seq<TableWrite>, m: Space, vs: seq<TableWrite>, r: Space)
    requires Writes(s, ws, m) && Writes(m, vs, r)
    ensures Writes(s, ws + vs, r)
    decreases |ws|
  {
    hide Guarded, Written;
    if ws == [] {
      assert ws + vs == vs;
    } else {
      WritesConcat(Written(s, ws[0]), ws[1..], m, vs, r);
      assert (ws + vs)[0] == ws[0] && (ws + vs)[1..] == ws[1..] + vs;
    }
  }

  lemma ReachesTrans(s: Space, m: Space, r: Space)
    requires Reaches(s, m) && Reaches(m, r)
    ensures Reaches(s, r)
  {
    hide Writes;
    var ws :| Writes(s, ws, m);
    var vs :| Writes(m, vs, r);
    WritesConcat(s, ws, m, vs, r);
  }

  lemma ReachesSelf(s: Space)
    ensures Reaches(s, s)
  {
    assert Writes(s, [], s);
  }

  lemma ReachesWrite(s: Space, w: TableWrite)
    requires Guarded(s, w)
    ensures Reaches(s, Written(s, w))
  {
    hide Guarded;
    assert [w][1..] == [];
    assert Writes(s, [w], Written(s, w));
  }
}

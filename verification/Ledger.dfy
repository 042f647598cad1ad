// The value-level account of memory/pmm.cpp: which frames are taken, and the four byte counters.
module Ledger {
  import opened Words

  datatype Ledger = Ledger(bits: seq<bool>, free: uint64, used: uint64, reserved: uint64, total: uint64)

  // ----- counting bits -----

  function SetCount(bits: seq<bool>): nat {
    if bits == [] then 0 else SetCount(bits[1..]) + if bits[0] then 1 else 0
  }

  function ClearCount(bits: seq<bool>): nat
  {
    SetCountBound(bits);
    |bits| - SetCount(bits)
  }

  lemma {:induction false} SetCountBound(bits: seq<bool>)
    ensures SetCount(bits) <= |bits|
  {
    if bits != [] {
      SetCountBound(bits[1..]);
    }
  }

  lemma {:induction false} SetCountUpdate(bits: seq<bool>, i: nat, value: bool)
    requires i < |bits|
    ensures SetCount(bits[i := value])
         == SetCount(bits) + (if value then 1 else 0) - (if bits[i] then 1 else 0)
  {
    if i == 0 {
      assert bits[i := value][1..] == bits[1..];
    } else {
      SetCountUpdate(bits[1..], i - 1, value);
      assert bits[i := value][1..] == bits[1..][i - 1 := value];
    }
  }

  lemma {:induction false} SomeClear(bits: seq<bool>)
    requires ClearCount(bits) > 0
    ensures exists i: nat :: i < |bits| && !bits[i]
  {
    if bits[0] {
      SomeClear(bits[1..]);
      var i: nat :| i < |bits[1..]| && !bits[1..][i];
      assert !bits[i + 1];
    }
  }

  // ----- single-frame operations -----

  // `lock_page` and `free_page` book a frame as used; `reserve_page` and `unreserve_page` book it as reserved.
  // Each is a no-op on a bit that already has its target value.
  function Lock(l: Ledger, i: nat): Ledger
    requires i < |l.bits|
  {
    if l.bits[i] then l
    else l.(bits := l.bits[i := true], free := Sub64(l.free, PAGE), used := Add64(l.used, PAGE))
  }

  function Free(l: Ledger, i: nat): Ledger
    requires i < |l.bits|
  {
    if !l.bits[i] then l
    else l.(bits := l.bits[i := false], free := Add64(l.free, PAGE), used := Sub64(l.used, PAGE))
  }

  function Reserve(l: Ledger, i: nat): Ledger
    requires i < |l.bits|
  {
    if l.bits[i] then l
    else l.(bits := l.bits[i := true], free := Sub64(l.free, PAGE), reserved := Add64(l.reserved, PAGE))
  }

  function Unreserve(l: Ledger, i: nat): Ledger
    requires i < |l.bits|
  {
    if !l.bits[i] then l
    else l.(bits := l.bits[i := false], free := Add64(l.free, PAGE), reserved := Sub64(l.reserved, PAGE))
  }

  // ----- first fit -----

  ghost predicate IsFirstClear(bits: seq<bool>, i: nat) {
    i < |bits| && !bits[i] && forall j: nat :: j < i ==> bits[j]
  }

  function FirstClearFrom(bits: seq<bool>, from: nat): (r: Option<nat>)
    requires from <= |bits|
    requires forall j: nat :: j < from ==> bits[j]
    ensures r.Some? ==> IsFirstClear(bits, r.value)
    ensures r.None? ==> forall j: nat :: j < |bits| ==> bits[j]
    decreases |bits| - from
  {
    if from == |bits| then None
    else if !bits[from] then Some(from)
    else FirstClearFrom(bits, from + 1)
  }

  // The frame `request_page` hands out: the lowest clear one.
  function FirstClear(bits: seq<bool>): (r: Option<nat>)
    ensures r.Some? ==> IsFirstClear(bits, r.value)
    ensures r.None? <==> forall j: nat :: j < |bits| ==> bits[j]
  {
    FirstClearFrom(bits, 0)
  }

  lemma FirstClearIsUnique(bits: seq<bool>, i: nat)
    requires IsFirstClear(bits, i)
    ensures FirstClear(bits) == Some(i)
  {
  }

  function Request(l: Ledger): Ledger {
    match FirstClear(l.bits)
    case None => l
    case Some(i) => Lock(l, i)
  }

  // ----- ranges -----

  datatype Booking = AsUsed | AsReserved

  function Book(l: Ledger, i: nat, b: Booking): Ledger
    requires i < |l.bits|
  {
    if b.AsUsed? then Lock(l, i) else Reserve(l, i)
  }

  function Unbook(l: Ledger, i: nat, b: Booking): Ledger
    requires i < |l.bits|
  {
    if b.AsUsed? then Free(l, i) else Unreserve(l, i)
  }

  function BookRange(l: Ledger, first: nat, n: nat, b: Booking): (r: Ledger)
    requires first + n <= |l.bits|
    ensures |r.bits| == |l.bits|
    decreases n
  {
    if n == 0 then l else Book(BookRange(l, first, n - 1, b), first + n - 1, b)
  }

  function UnbookRange(l: Ledger, first: nat, n: nat, b: Booking): (r: Ledger)
    requires first + n <= |l.bits|
    ensures |r.bits| == |l.bits|
    decreases n
  {
    if n == 0 then l else Unbook(UnbookRange(l, first, n - 1, b), first + n - 1, b)
  }

  // ----- accounting -----

  // Byte counters and bitmap tell the same story, modulo 2^64.
  ghost predicate Accounts(l: Ledger) {
    && Congruent(l.used + l.reserved, 4096 * SetCount(l.bits))
    && Congruent(l.free, l.total - 4096 * SetCount(l.bits))
  }

  lemma BookKeepsAccounts(l: Ledger, i: nat, b: Booking)
    requires i < |l.bits| && Accounts(l)
    ensures Accounts(Book(l, i, b))
  {
    SetCountUpdate(l.bits, i, true);
    AddCongruent(l.used, PAGE, l.reserved, 4096 * SetCount(l.bits));
    AddCongruent(l.reserved, PAGE, l.used, 4096 * SetCount(l.bits));
    SubCongruent(l.free, PAGE, 0, l.total - 4096 * SetCount(l.bits));
  }

  lemma UnbookKeepsAccounts(l: Ledger, i: nat, b: Booking)
    requires i < |l.bits| && Accounts(l)
    ensures Accounts(Unbook(l, i, b))
  {
    SetCountUpdate(l.bits, i, false);
    SubCongruent(l.used, PAGE, l.reserved, 4096 * SetCount(l.bits));
    SubCongruent(l.reserved, PAGE, l.used, 4096 * SetCount(l.bits));
    AddCongruent(l.free, PAGE, 0, l.total - 4096 * SetCount(l.bits));
  }

  // The counter a booking goes to has grown by 4096 bytes per newly set bit, the other one is unchanged.
  ghost predicate BookedBytes(l: Ledger, r: Ledger, b: Booking) {
    var bytes := 4096 * (SetCount(r.bits) - SetCount(l.bits));
    && r.total == l.total
    && (b.AsUsed? ==> Congruent(r.used, l.used + bytes) && r.reserved == l.reserved)
    && (b.AsReserved? ==> Congruent(r.reserved, l.reserved + bytes) && r.used == l.used)
  }

  lemma BookBytes(l: Ledger, m: Ledger, i: nat, b: Booking)
    requires i < |m.bits| && BookedBytes(l, m, b)
    ensures BookedBytes(l, Book(m, i, b), b)
  {
    if !m.bits[i] {
      SetCountUpdate(m.bits, i, true);
      var bytes := 4096 * (SetCount(m.bits) - SetCount(l.bits));
      if b.AsUsed? {
        AddCongruent(m.used, PAGE, 0, l.used + bytes);
      } else {
        AddCongruent(m.reserved, PAGE, 0, l.reserved + bytes);
      }
    }
  }

  // A range booking sets exactly its frames.
  lemma {:induction false} BookRangeSets(l: Ledger, first: nat, n: nat, b: Booking)
    requires first + n <= |l.bits|
    ensures forall i: nat :: i < |l.bits| ==> BookRange(l, first, n, b).bits[i] == (l.bits[i] || first <= i < first + n)
  {
    if n > 0 {
      BookRangeSets(l, first, n - 1, b);
    }
  }

  // Frames that were already taken are not charged again, so an overlap is counted once.
  lemma {:induction false} BookRangeBytes(l: Ledger, first: nat, n: nat, b: Booking)
    requires first + n <= |l.bits|
    ensures BookedBytes(l, BookRange(l, first, n, b), b)
  {
    if n == 0 {
      CongruentSelf(l.used);
      CongruentSelf(l.reserved);
    } else {
      BookRangeBytes(l, first, n - 1, b);
      BookBytes(l, BookRange(l, first, n - 1, b), first + n - 1, b);
    }
  }

  // The frames of a range that are clear.
  function ClearIn(bits: seq<bool>, first: nat, n: nat): set<nat>
    requires first + n <= |bits|
  {
    set i: nat | i < first + n && first <= i && !bits[i]
  }

  lemma ClearInLast(bits: seq<bool>, first: nat, n: nat)
    requires 0 < n && first + n <= |bits|
    ensures |ClearIn(bits, first, n)| == |ClearIn(bits, first, n - 1)| + if bits[first + n - 1] then 0 else 1
  {
    var last := first + n - 1;
    assert ClearIn(bits, first, n) == ClearIn(bits, first, n - 1) + if bits[last] then {} else {last};
  }

  lemma BookCount(l: Ledger, i: nat, b: Booking)
    requires i < |l.bits|
    ensures SetCount(Book(l, i, b).bits) == SetCount(l.bits) + if l.bits[i] then 0 else 1
  {
    SetCountUpdate(l.bits, i, true);
  }

  // A range booking takes as many frames as were clear in it.
  lemma {:induction false} BookRangeCount(l: Ledger, first: nat, n: nat, b: Booking)
    requires first + n <= |l.bits|
    ensures SetCount(BookRange(l, first, n, b).bits) == SetCount(l.bits) + |ClearIn(l.bits, first, n)|
    ensures |ClearIn(l.bits, first, n)| <= n
  {
    hide SetCount, ClearIn, Book;
    if n == 0 {
      NoneClear(l.bits, first);
    } else {
      BookRangeCount(l, first, n - 1, b);
      BookRangeSets(l, first, n - 1, b);
      BookCount(BookRange(l, first, n - 1, b), first + n - 1, b);
      ClearInLast(l.bits, first, n);
    }
  }

  lemma NoneClear(bits: seq<bool>, first: nat)
    requires first <= |bits|
    ensures ClearIn(bits, first, 0) == {}
  {
  }

  lemma {:induction false} BookRangeKeepsAccounts(l: Ledger, first: nat, n: nat, b: Booking)
    requires first + n <= |l.bits| && Accounts(l)
    ensures Accounts(BookRange(l, first, n, b))
  {
    if n > 0 {
      BookRangeKeepsAccounts(l, first, n - 1, b);
      BookKeepsAccounts(BookRange(l, first, n - 1, b), first + n - 1, b);
    }
  }

  // The counter a release goes to has shrunk by 4096 bytes per newly cleared bit, the other one is unchanged.
  ghost predicate UnbookedBytes(l: Ledger, r: Ledger, b: Booking) {
    var bytes := 4096 * (SetCount(l.bits) - SetCount(r.bits));
    && r.total == l.total
    && (b.AsUsed? ==> Congruent(r.used, l.used - bytes) && r.reserved == l.reserved)
    && (b.AsReserved? ==> Congruent(r.reserved, l.reserved - bytes) && r.used == l.used)
  }

  lemma UnbookBytes(l: Ledger, m: Ledger, i: nat, b: Booking)
    requires i < |m.bits| && UnbookedBytes(l, m, b)
    ensures UnbookedBytes(l, Unbook(m, i, b), b)
  {
    if m.bits[i] {
      SetCountUpdate(m.bits, i, false);
      var bytes := 4096 * (SetCount(l.bits) - SetCount(m.bits));
      if b.AsUsed? {
        SubCongruent(m.used, PAGE, 0, l.used - bytes);
      } else {
        SubCongruent(m.reserved, PAGE, 0, l.reserved - bytes);
      }
    }
  }

  // Frames that were already clear are not credited again; a release that clears nothing changes nothing.
  lemma {:induction false} UnbookRangeBytes(l: Ledger, first: nat, n: nat, b: Booking)
    requires first + n <= |l.bits|
    ensures UnbookedBytes(l, UnbookRange(l, first, n, b), b)
    ensures (forall i: nat :: first <= i < first + n ==> !l.bits[i]) ==> UnbookRange(l, first, n, b) == l
  {
    if n == 0 {
      CongruentSelf(l.used);
      CongruentSelf(l.reserved);
    } else {
      UnbookRangeBytes(l, first, n - 1, b);
      UnbookBytes(l, UnbookRange(l, first, n - 1, b), first + n - 1, b);
    }
  }

  // Unbooking a range clears exactly its frames, and keeps the accounts.
  lemma {:induction false} UnbookRangeClears(l: Ledger, first: nat, n: nat, b: Booking)
    requires first + n <= |l.bits|
    ensures forall i: nat :: i < |l.bits| ==>
              (UnbookRange(l, first, n, b).bits[i] <==> l.bits[i] && !(first <= i < first + n))
    ensures Accounts(l) ==> Accounts(UnbookRange(l, first, n, b))
  {
    hide Accounts;
    if n > 0 {
      UnbookRangeClears(l, first, n - 1, b);
      if Accounts(l) {
        UnbookKeepsAccounts(UnbookRange(l, first, n - 1, b), first + n - 1, b);
      }
    }
  }

  // ----- runs -----

  datatype Op =
    | OpRequest
    | OpLock(frame: nat)
    | OpFree(frame: nat)
    | OpReserve(frame: nat)
    | OpUnreserve(frame: nat)

  ghost predicate InBounds(op: Op, frames: nat) {
    op.OpRequest? || op.frame < frames
  }

  function Apply(l: Ledger, op: Op): (r: Ledger)
    requires InBounds(op, |l.bits|)
    ensures |r.bits| == |l.bits| && r.total == l.total
  {
    match op
    case OpRequest => Request(l)
    case OpLock(i) => Lock(l, i)
    case OpFree(i) => Free(l, i)
    case OpReserve(i) => Reserve(l, i)
    case OpUnreserve(i) => Unreserve(l, i)
  }

  ghost predicate InBoundsAll(ops: seq<Op>, frames: nat) {
    forall k: nat :: k < |ops| ==> InBounds(ops[k], frames)
  }

  // The ledger after the first k operations of a run.
  ghost function After(l: Ledger, ops: seq<Op>, k: nat): (r: Ledger)
    requires k <= |ops| && InBoundsAll(ops, |l.bits|)
    ensures |r.bits| == |l.bits| && r.total == l.total
    decreases k
  {
    if k == 0 then l else Apply(After(l, ops, k - 1), ops[k - 1])
  }

  // The frame the k-th operation of a run obtains, when it is a request that succeeds.
  ghost function Obtained(l: Ledger, ops: seq<Op>, k: nat): (r: Option<nat>)
    requires k < |ops| && InBoundsAll(ops, |l.bits|)
  {
    if ops[k].OpRequest? then FirstClear(After(l, ops, k).bits) else None
  }

  predicate Releases(op: Op, frame: nat) {
    (op.OpFree? || op.OpUnreserve?) && op.frame == frame
  }

  lemma {:induction false} AccountsOverRuns(l: Ledger, ops: seq<Op>, k: nat)
    requires k <= |ops| && InBoundsAll(ops, |l.bits|) && Accounts(l)
    ensures Accounts(After(l, ops, k))
    decreases k
  {
    if k > 0 {
      AccountsOverRuns(l, ops, k - 1);
      var m := After(l, ops, k - 1);
      match ops[k - 1]
      case OpRequest =>
        if FirstClear(m.bits).Some? {
          BookKeepsAccounts(m, FirstClear(m.bits).value, AsUsed);
        }
      case OpLock(i) => BookKeepsAccounts(m, i, AsUsed);
      case OpFree(i) => UnbookKeepsAccounts(m, i, AsUsed);
      case OpReserve(i) => BookKeepsAccounts(m, i, AsReserved);
      case OpUnreserve(i) => UnbookKeepsAccounts(m, i, AsReserved);
    }
  }

  // A taken frame stays taken until an operation of the run releases it.
  lemma {:induction false} TakenUntilReleased(l: Ledger, ops: seq<Op>, j: nat, k: nat, frame: nat)
    requires j <= k <= |ops| && InBoundsAll(ops, |l.bits|) && frame < |l.bits|
    requires After(l, ops, j).bits[frame]
    requires forall m: nat :: j <= m < k ==> !Releases(ops[m], frame)
    ensures After(l, ops, k).bits[frame]
    decreases k
  {
    if j < k {
      TakenUntilReleased(l, ops, j, k - 1, frame);
      assert !Releases(ops[k - 1], frame);
    }
  }

  // No run hands out a frame that is taken: in particular none of those booked at boot.
  lemma TakenIsNeverObtained(l: Ledger, ops: seq<Op>, j: nat, k: nat, frame: nat)
    requires j <= k < |ops| && InBoundsAll(ops, |l.bits|) && frame < |l.bits|
    requires After(l, ops, j).bits[frame]
    requires forall m: nat :: j <= m < k ==> !Releases(ops[m], frame)
    ensures Obtained(l, ops, k) != Some(frame)
  {
    TakenUntilReleased(l, ops, j, k, frame);
  }

  // First fit: after a successful request that frame and all below it are taken.
  lemma ObtainedIsTaken(l: Ledger, ops: seq<Op>, j: nat, i: nat)
    requires j < |ops| && InBoundsAll(ops, |l.bits|)
    requires Obtained(l, ops, j).Some? && i <= Obtained(l, ops, j).value
    ensures i < |l.bits| && After(l, ops, j + 1).bits[i]
  {
  }

  // Two requests of a run that obtain the same frame have a release of it between them.
  lemma ObtainedTwiceMeansReleased(l: Ledger, ops: seq<Op>, j: nat, k: nat)
    requires j < k < |ops| && InBoundsAll(ops, |l.bits|)
    requires Obtained(l, ops, j).Some? && Obtained(l, ops, j) == Obtained(l, ops, k)
    ensures exists m: nat :: j < m < k && Releases(ops[m], Obtained(l, ops, j).value)
  {
    var frame := Obtained(l, ops, j).value;
    if forall m: nat :: j < m < k ==> !Releases(ops[m], frame) {
      ObtainedIsTaken(l, ops, j, frame);
      TakenIsNeverObtained(l, ops, j + 1, k, frame);
    }
  }

  // Without releases the frames obtained strictly increase over the run.
  lemma {:induction false} ObtainedIncreases(l: Ledger, ops: seq<Op>, j: nat, k: nat)
    requires j < k < |ops| && InBoundsAll(ops, |l.bits|)
    requires Obtained(l, ops, j).Some? && Obtained(l, ops, k).Some?
    requires forall m: nat :: j < m < k ==> !ops[m].OpFree? && !ops[m].OpUnreserve?
    ensures Obtained(l, ops, j).value < Obtained(l, ops, k).value
  {
    var low, high := Obtained(l, ops, j).value, Obtained(l, ops, k).value;
    if high <= low {
      ObtainedIsTaken(l, ops, j, high);
      TakenIsNeverObtained(l, ops, j + 1, k, high);
    }
  }

  // Freeing the frame just requested restores bitmap and counters exactly.
  lemma RequestThenFreeRestores(l: Ledger)
    requires FirstClear(l.bits).Some?
    ensures Free(Request(l), FirstClear(l.bits).value) == l
  {
  }

  // Releasing a frame under the counter it was booked under undoes the booking exactly.
  lemma UnbookUndoesBook(l: Ledger, i: nat, b: Booking)
    requires i < |l.bits| && !l.bits[i]
    ensures Unbook(Book(l, i, b), i, b) == l
  {
    assert l.bits[i := true][i := false] == l.bits;
  }
}

// The entry operations of memory/paging.cpp on the 64-bit words themselves, with the source's masks
// and shifts, related to the fields of `PageEntry`.
module EntryBits {
  import opened Words
  import opened PageEntry

  function BitSelector(flag: Flag): bv64 {
    match flag
    case Present => 1 << 0
    case ReadWrite => 1 << 1
    case UserSuper => 1 << 2
    case WriteThrough => 1 << 3
    case CacheDisabled => 1 << 4
    case LargerPages => 1 << 7
    case Accessed => 1 << 5
    case Custom0 => 1 << 9
    case Custom1 => 1 << 10
    case Custom2 => 1 << 11
    case NoExecute => 1 << 63
  }

  function WordSetFlag(value: bv64, flag: Flag, enabled: bool): bv64 {
    SetBit(value, BitSelector(flag), enabled)
  }

  predicate WordGetFlag(value: bv64, flag: Flag) { value & BitSelector(flag) > 0 }

  function WordGetAddress(value: bv64): bv64 { (value & 0x000f_ffff_ffff_f000) >> 12 }

  function WordSetAddress(value: bv64, paddress: bv64): bv64 {
    (value & 0xfff0_0000_0000_0fff) | ((paddress & 0x0000_00ff_ffff_ffff) << 12)
  }

  function WordSetPat(value: bv64, index: bv8): bv64 {
    var masked := index & 7;
    var v1 := WordSetFlag(value, WriteThrough, masked & 1 != 0);
    var v2 := WordSetFlag(v1, CacheDisabled, (masked >> 1) & 1 != 0);
    WordSetFlag(v2, LargerPages, (masked >> 2) & 1 != 0)
  }

  // Bits 5, 6, 8 to 11 and 52 to 63.
  function OtherBits(value: bv64): bv64 { value & 0xfff0_0000_0000_0f60 }

  function Decode(value: bv64): Entry {
    Entry(WordGetFlag(value, Present), WordGetFlag(value, ReadWrite), WordGetFlag(value, UserSuper),
          WordGetFlag(value, WriteThrough), WordGetFlag(value, CacheDisabled), WordGetFlag(value, LargerPages),
          WordGetAddress(value) as nat, OtherBits(value))
  }

  function Bit(on: bool, selector: bv64): bv64 { if on then selector else 0 }

  function Encode(e: Entry): bv64 {
    Bit(e.present, 1) | Bit(e.readWrite, 2) | Bit(e.userSuper, 4) | Bit(e.writeThrough, 8)
    | Bit(e.cacheDisabled, 16) | Bit(e.largerPages, 128) | ((e.frame as bv64) << 12) | e.other
  }

  // ----- numbers and bits -----

  lemma Doubling(b: bv64)
    requires b < 0x8000_0000_0000_0000
    ensures (b << 1) as nat == 2 * (b as nat)
    ensures ((b << 1) | 1) as nat == 2 * (b as nat) + 1
  {
  }

  lemma SmallNumberSmallBits(b: bv64)
    ensures b as nat < 0x8000_0000_0000_0000 ==> b < 0x8000_0000_0000_0000
    ensures b as nat < FRAME_LIMIT ==> b & 0xff_ffff_ffff == b
  {
  }

  lemma BitsRoundTrip(b: bv64)
    ensures (b as nat) as bv64 == b
  {
  }

  lemma {:induction false} SomeBits(n: nat) returns (b: bv64)
    requires n < TWO64
    ensures b as nat == n
  {
    if n == 0 {
      b := 0;
    } else {
      var half := SomeBits(n / 2);
      SmallNumberSmallBits(half);
      Doubling(half);
      b := if n % 2 == 0 then half << 1 else (half << 1) | 1;
    }
  }

  lemma NumberRoundTrip(n: nat)
    requires n < TWO64
    ensures (n as bv64) as nat == n
  {
    var b := SomeBits(n);
    BitsRoundTrip(b);
  }

  // ----- the operations on words do to the fields what PageEntry says -----

  lemma AddressAfterSetFlag(value: bv64, flag: Flag, enabled: bool)
    ensures WordGetAddress(WordSetFlag(value, flag, enabled)) == WordGetAddress(value)
  {
  }

  lemma OtherAfterSetFlag(value: bv64, flag: Flag, enabled: bool)
    requires HasField(flag)
    ensures OtherBits(WordSetFlag(value, flag, enabled)) == OtherBits(value)
  {
  }

  lemma DecodeSetPresent(value: bv64, on: bool)
    ensures Decode(WordSetFlag(value, Present, on)) == Decode(value).(present := on)
  {
    AddressAfterSetFlag(value, Present, on);
    OtherAfterSetFlag(value, Present, on);
  }

  lemma DecodeSetReadWrite(value: bv64, on: bool)
    ensures Decode(WordSetFlag(value, ReadWrite, on)) == Decode(value).(readWrite := on)
  {
    AddressAfterSetFlag(value, ReadWrite, on);
    OtherAfterSetFlag(value, ReadWrite, on);
  }

  lemma DecodeSetUserSuper(value: bv64, on: bool)
    ensures Decode(WordSetFlag(value, UserSuper, on)) == Decode(value).(userSuper := on)
  {
    AddressAfterSetFlag(value, UserSuper, on);
    OtherAfterSetFlag(value, UserSuper, on);
  }

  lemma DecodeSetWriteThrough(value: bv64, on: bool)
    ensures Decode(WordSetFlag(value, WriteThrough, on)) == Decode(value).(writeThrough := on)
  {
    AddressAfterSetFlag(value, WriteThrough, on);
    OtherAfterSetFlag(value, WriteThrough, on);
  }

  lemma DecodeSetCacheDisabled(value: bv64, on: bool)
    ensures Decode(WordSetFlag(value, CacheDisabled, on)) == Decode(value).(cacheDisabled := on)
  {
    AddressAfterSetFlag(value, CacheDisabled, on);
    OtherAfterSetFlag(value, CacheDisabled, on);
  }

  lemma DecodeSetLargerPages(value: bv64, on: bool)
    ensures Decode(WordSetFlag(value, LargerPages, on)) == Decode(value).(largerPages := on)
  {
    AddressAfterSetFlag(value, LargerPages, on);
    OtherAfterSetFlag(value, LargerPages, on);
  }

  lemma MaskedSetBit(word: bv64, selector: bv64, on: bool)
    requires selector & 0xfff0_0000_0000_0f60 == selector
    ensures OtherBits(SetBit(word, selector, on)) == SetBit(OtherBits(word), selector, on)
  {
  }

  lemma OtherAfterSetOther(value: bv64, flag: Flag, on: bool)
    requires !HasField(flag)
    ensures OtherBits(WordSetFlag(value, flag, on)) == SetBit(OtherBits(value), BitSelector(flag), on)
  {
    hide SetBit, OtherBits;
    MaskedSetBit(value, 0x20, on);
    MaskedSetBit(value, 0x200, on);
    MaskedSetBit(value, 0x400, on);
    MaskedSetBit(value, 0x800, on);
    MaskedSetBit(value, 0x8000_0000_0000_0000, on);
  }

  lemma FieldAfterSetOther(value: bv64, flag: Flag, on: bool, field: Flag)
    requires !HasField(flag) && HasField(field)
    ensures WordSetFlag(value, flag, on) & BitSelector(field) == value & BitSelector(field)
  {
  }

  lemma DecodeSetOther(value: bv64, flag: Flag, on: bool)
    requires !HasField(flag)
    ensures Decode(WordSetFlag(value, flag, on))
         == Decode(value).(other := SetBit(OtherBits(value), BitSelector(flag), on))
  {
    AddressAfterSetFlag(value, flag, on);
    OtherAfterSetOther(value, flag, on);
    FieldAfterSetOther(value, flag, on, Present);
    FieldAfterSetOther(value, flag, on, ReadWrite);
    FieldAfterSetOther(value, flag, on, UserSuper);
    FieldAfterSetOther(value, flag, on, WriteThrough);
    FieldAfterSetOther(value, flag, on, CacheDisabled);
    FieldAfterSetOther(value, flag, on, LargerPages);
  }

  // The flags without a field of their own change `other`.
  lemma DecodeSetFlagOther(value: bv64, flag: Flag, on: bool)
    requires !HasField(flag)
    ensures Decode(WordSetFlag(value, flag, on)) == SetFlag(Decode(value), flag, on)
  {
    hide WordSetFlag, SetBit, OtherBits, WordGetFlag, WordGetAddress;
    DecodeSetOther(value, flag, on);
  }

  lemma DecodeSetFlag(value: bv64, flag: Flag, on: bool)
    ensures Decode(WordSetFlag(value, flag, on)) == SetFlag(Decode(value), flag, on)
  {
    hide Decode, WordSetFlag, SetBit;
    match flag
    case Present => DecodeSetPresent(value, on);
    case ReadWrite => DecodeSetReadWrite(value, on);
    case UserSuper => DecodeSetUserSuper(value, on);
    case WriteThrough => DecodeSetWriteThrough(value, on);
    case CacheDisabled => DecodeSetCacheDisabled(value, on);
    case LargerPages => DecodeSetLargerPages(value, on);
    case _ => DecodeSetFlagOther(value, flag, on);
  }

  lemma DecodeGetFlag(value: bv64, flag: Flag)
    ensures WordGetFlag(value, flag) == GetFlag(Decode(value), flag)
  {
  }

  lemma AddressAfterSetAddress(value: bv64, a: bv64)
    ensures WordGetAddress(WordSetAddress(value, a)) == a & 0xff_ffff_ffff
  {
  }

  lemma FlagAfterSetAddress(value: bv64, a: bv64, flag: Flag)
    ensures WordSetAddress(value, a) & BitSelector(flag) == value & BitSelector(flag)
  {
  }

  lemma ShiftedAddressAvoidsOthers(a: bv64)
    ensures ((a & 0x0000_00ff_ffff_ffff) << 12) & 0xfff0_0000_0000_0f60 == 0
  {
  }

  lemma MergeKeepsOthers(value: bv64, c: bv64)
    requires c & 0xfff0_0000_0000_0f60 == 0
    ensures ((value & 0xfff0_0000_0000_0fff) | c) & 0xfff0_0000_0000_0f60 == value & 0xfff0_0000_0000_0f60
  {
  }

  lemma OtherAfterSetAddress(value: bv64, a: bv64)
    ensures OtherBits(WordSetAddress(value, a)) == OtherBits(value)
  {
    ShiftedAddressAvoidsOthers(a);
    MergeKeepsOthers(value, (a & 0x0000_00ff_ffff_ffff) << 12);
  }

  lemma DecodeSetAddress(value: bv64, frame: FrameNumber)
    ensures Decode(WordSetAddress(value, frame as bv64)) == Decode(value).(frame := frame)
  {
    var a := frame as bv64;
    NumberRoundTrip(frame);
    SmallNumberSmallBits(a);
    AddressAfterSetAddress(value, a);
    OtherAfterSetAddress(value, a);
    FlagAfterSetAddress(value, a, Present);
    FlagAfterSetAddress(value, a, ReadWrite);
    FlagAfterSetAddress(value, a, UserSuper);
    FlagAfterSetAddress(value, a, WriteThrough);
    FlagAfterSetAddress(value, a, CacheDisabled);
    FlagAfterSetAddress(value, a, LargerPages);
  }

  lemma PatBits(index: bv8)
    ensures ((index & 7) & 1 != 0) == (index & 1 != 0)
    ensures (((index & 7) >> 1) & 1 != 0) == (index & 2 != 0)
    ensures (((index & 7) >> 2) & 1 != 0) == (index & 4 != 0)
  {
  }

  lemma DecodeSetPat(value: bv64, index: bv8)
    ensures Decode(WordSetPat(value, index)) == SetPat(Decode(value), index)
  {
    hide Decode, WordSetFlag;
    PatBits(index);
    var on1, on2, on3 := index & 1 != 0, index & 2 != 0, index & 4 != 0;
    var v1 := WordSetFlag(value, WriteThrough, on1);
    var v2 := WordSetFlag(v1, CacheDisabled, on2);
    DecodeSetWriteThrough(value, on1);
    DecodeSetCacheDisabled(v1, on2);
    DecodeSetLargerPages(v2, on3);
  }

  lemma DecodeZero()
    ensures Decode(0) == ZERO
  {
  }

  // ----- the entries map_memory writes -----

  function WordTableEntry(value: bv64, paddress: bv64): bv64 {
    WordSetFlag(WordSetFlag(WordSetAddress(value, paddress), Present, true), ReadWrite, true)
  }

  lemma DecodeTableEntry(value: bv64, frame: FrameNumber)
    ensures Decode(WordTableEntry(value, frame as bv64)) == TableEntry(Decode(value), frame)
    ensures TableEntry(Decode(value), frame) == Decode(value).(frame := frame, present := true, readWrite := true)
  {
    var v1 := WordSetAddress(value, frame as bv64);
    DecodeSetAddress(value, frame);
    DecodeSetPresent(v1, true);
    DecodeSetReadWrite(WordSetFlag(v1, Present, true), true);
  }

  lemma DecodeLeafEntry(value: bv64, frame: FrameNumber, quickwrite: bool)
    ensures Decode(WordLeafEntry(value, frame as bv64, quickwrite)) == LeafEntry(Decode(value), frame, quickwrite)
  {
    DecodeTableEntry(value, frame);
    DecodeSetPat(WordTableEntry(value, frame as bv64), if quickwrite then 1 else 0);
  }

  // ----- the words, bit by bit -----

  // Where each flag sits in the word.
  lemma FlagPositions()
    ensures BitSelector(Present) == 0x1
    ensures BitSelector(ReadWrite) == 0x2
    ensures BitSelector(UserSuper) == 0x4
    ensures BitSelector(WriteThrough) == 0x8
    ensures BitSelector(CacheDisabled) == 0x10
    ensures BitSelector(Accessed) == 0x20
    ensures BitSelector(LargerPages) == 0x80
    ensures BitSelector(Custom0) == 0x200
    ensures BitSelector(Custom1) == 0x400
    ensures BitSelector(Custom2) == 0x800
    ensures BitSelector(NoExecute) == 0x8000_0000_0000_0000
  {
  }

  lemma SetBitWord(word: bv64, selector: bv64, on: bool)
    ensures SetBit(word, selector, on) & selector == if on then selector else 0
    ensures SetBit(word, selector, on) & !selector == word & !selector
  {
  }

  lemma SetFlagIsSetBit(value: bv64, flag: Flag, on: bool)
    ensures WordSetFlag(value, flag, on) == SetBit(value, BitSelector(flag), on)
  {
    hide BitSelector, SetBit;
  }

  lemma PositiveWord(v: bv64)
    ensures v > 0 <==> v != 0
  {
  }

  // set_flag leaves the flag's own bit as asked for, and keeps all others.
  lemma SetFlagWord(value: bv64, flag: Flag, on: bool)
    ensures WordSetFlag(value, flag, on) & BitSelector(flag) == if on then BitSelector(flag) else 0
    ensures WordSetFlag(value, flag, on) & !BitSelector(flag) == value & !BitSelector(flag)
  {
    hide BitSelector, SetBit, WordSetFlag;
    SetFlagIsSetBit(value, flag, on);
    SetBitWord(value, BitSelector(flag), on);
  }

  // get_flag reads that bit.
  lemma GetFlagWord(value: bv64, flag: Flag)
    ensures WordGetFlag(value, flag) <==> value & BitSelector(flag) != 0
  {
    hide BitSelector;
    PositiveWord(value & BitSelector(flag));
  }

  // The frame number sits in bits 12 to 51, and storing one changes no other bit.
  lemma AddressPosition(value: bv64, a: bv64)
    ensures WordGetAddress(value) == (value >> 12) & 0xff_ffff_ffff
    ensures (WordSetAddress(value, a) >> 12) & 0xff_ffff_ffff == a & 0xff_ffff_ffff
    ensures WordSetAddress(value, a) & 0xfff0_0000_0000_0fff == value & 0xfff0_0000_0000_0fff
  {
  }

  // The word that links a new table is present and writable, points to its frame, and is otherwise as it was.
  lemma TableWord(value: bv64, a: bv64)
    ensures WordTableEntry(value, a) & 0x3 == 0x3
    ensures (WordTableEntry(value, a) >> 12) & 0xff_ffff_ffff == a & 0xff_ffff_ffff
    ensures WordTableEntry(value, a) & 0xfff0_0000_0000_0ffc == value & 0xfff0_0000_0000_0ffc
  {
  }

  function WordLeafEntry(value: bv64, a: bv64, quickwrite: bool): bv64 {
    WordSetPat(WordTableEntry(value, a), if quickwrite then 1 else 0)
  }

  // The word of the last level is present and writable, points to its frame, has bit 3 set exactly for `quickwrite`
  // and bits 4 and 7 clear, and is otherwise, the U/S bit included, as it was.
  lemma LeafWord(value: bv64, a: bv64, quickwrite: bool)
    ensures WordLeafEntry(value, a, quickwrite) & 0x9b == if quickwrite then 0xb else 0x3
    ensures (WordLeafEntry(value, a, quickwrite) >> 12) & 0xff_ffff_ffff == a & 0xff_ffff_ffff
    ensures WordLeafEntry(value, a, quickwrite) & 0xfff0_0000_0000_0f64 == value & 0xfff0_0000_0000_0f64
  {
    var w := WordTableEntry(value, a);
    TableWord(value, a);
    PatWord(w, quickwrite);
  }

  lemma PatWord(w: bv64, on: bool)
    ensures WordSetPat(w, if on then 1 else 0) == (w & 0xffff_ffff_ffff_ff67) | if on then 0x8 else 0x0
  {
    hide SetBit;
    FlagPositions();
    PatBits(if on then 1 else 0);
    ThreeBits(w, on);
  }

  lemma ThreeBits(w: bv64, on: bool)
    ensures SetBit(SetBit(SetBit(w, 0x8, on), 0x10, false), 0x80, false)
         == (w & 0xffff_ffff_ffff_ff67) | if on then 0x8 else 0x0
  {
  }

  // The fields hold all the information of the word.
  lemma FieldsCoverTheWord(value: bv64)
    ensures Encode(Decode(value)) == value
  {
    BitsRoundTrip(WordGetAddress(value));
    WordInPieces(value);
  }

  lemma WordInPieces(v: bv64)
    ensures Bit(v & 1 > 0, 1) | Bit(v & 2 > 0, 2) | Bit(v & 4 > 0, 4) | Bit(v & 8 > 0, 8) | Bit(v & 16 > 0, 16)
          | Bit(v & 128 > 0, 128) | (WordGetAddress(v) << 12) | OtherBits(v) == v
  {
  }
}

// The entries of the page tables, field by field (section 4.5 of the Intel SDM, Volume 3A), and the
// entry operations of memory/paging.cpp on them. EntryBits.dfy proves that the operations on the
// 64-bit words do exactly this to the fields.
module PageEntry {

  // Frame numbers in an entry have 40 bits, virtual page numbers 36.
  const FRAME_LIMIT: nat := 0x100_0000_0000
  const PAGE_LIMIT: nat := 0x10_0000_0000

  type FrameNumber = n: nat | n < 0x100_0000_0000

  // `other` keeps the bits that belong to none of the fields, in place.
  datatype Entry = Entry(
    present: bool, readWrite: bool, userSuper: bool,
    writeThrough: bool, cacheDisabled: bool, largerPages: bool,
    frame: FrameNumber, other: bv64)

  // What `memset` leaves.
  const ZERO := Entry(false, false, false, false, false, false, 0, 0)

  // The flags of `pt_flag`. The last five have no field of their own and live in `other`.
  datatype Flag =
    | Present | ReadWrite | UserSuper | WriteThrough | CacheDisabled | LargerPages
    | Accessed | Custom0 | Custom1 | Custom2 | NoExecute

  // The flags with a field of their own.
  predicate HasField(flag: Flag) {
    flag == Present || flag == ReadWrite || flag == UserSuper
    || flag == WriteThrough || flag == CacheDisabled || flag == LargerPages
  }

  function SetBit(word: bv64, selector: bv64, enabled: bool): bv64 {
    var cleared := word & !selector;
    if enabled then cleared | selector else cleared
  }

  function SetFlag(e: Entry, flag: Flag, enabled: bool): Entry {
    match flag
    case Present => e.(present := enabled)
    case ReadWrite => e.(readWrite := enabled)
    case UserSuper => e.(userSuper := enabled)
    case WriteThrough => e.(writeThrough := enabled)
    case CacheDisabled => e.(cacheDisabled := enabled)
    case LargerPages => e.(largerPages := enabled)
    case Accessed => e.(other := SetBit(e.other, 0x20, enabled))
    case Custom0 => e.(other := SetBit(e.other, 0x200, enabled))
    case Custom1 => e.(other := SetBit(e.other, 0x400, enabled))
    case Custom2 => e.(other := SetBit(e.other, 0x800, enabled))
    case NoExecute => e.(other := SetBit(e.other, 0x8000_0000_0000_0000, enabled))
  }

  predicate GetFlag(e: Entry, flag: Flag) {
    match flag
    case Present => e.present
    case ReadWrite => e.readWrite
    case UserSuper => e.userSuper
    case WriteThrough => e.writeThrough
    case CacheDisabled => e.cacheDisabled
    case LargerPages => e.largerPages
    case Accessed => e.other & 0x20 != 0
    case Custom0 => e.other & 0x200 != 0
    case Custom1 => e.other & 0x400 != 0
    case Custom2 => e.other & 0x800 != 0
    case NoExecute => e.other & 0x8000_0000_0000_0000 != 0
  }

  function SetPat(e: Entry, index: bv8): Entry {
    e.(writeThrough := index & 1 != 0, cacheDisabled := index & 2 != 0, largerPages := index & 4 != 0)
  }

  // The entry `map_memory` writes to link a new table into a slot.
  function TableEntry(e: Entry, frame: FrameNumber): Entry {
    e.(frame := frame, present := true, readWrite := true)
  }

  // The entry `map_memory` writes into the last level.
  function LeafEntry(e: Entry, frame: FrameNumber, quickwrite: bool): Entry {
    SetPat(TableEntry(e, frame), if quickwrite then 1 else 0)
  }
}

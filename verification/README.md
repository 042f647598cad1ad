# A verified model of micron's memory management

This project models the memory core of the micron kernel in Dafny 4.11 and proves what it keeps:

- the physical frame allocator over a bit-packed map (`Bitmap`, `Ledger`, `Pmm`),
- the four-level page tables that allocate, link and map their own tables while they are being walked
  (`PageEntry`, `EntryBits`, `PageTree`, `Translation`, `Access`, `Frames`, `Paging`),
- `map_memory` and `request_pages` as exact functions (`Mapping`, `Batches`) and whole runs of all operations
  (`TableWrites`, `Runs`), which any list of calls performs (`Execution`, `Service`, `Budget`),
- the boot code that builds the first address space (`BootMap`, `Boot`, `Pixels`), the kernel from boot to any number of calls
  (`Kernel`), and one machine on which all of it works (`SmallMachine`),
- the kernel heap, a doubly linked list of headers with first fit, splitting and two-sided coalescing
  (`Segments`, `HeapRuns`, `HeapLaws`, `Heap`, `HeapCalls`),
- the number formatter of `printf` with the string routines it uses (`CStrings`, `IntStr`), and the text
  terminal with its in-place scroll (`Terminal`, `Tty`).

Where the source changes state, the model has classes and methods that change state, each proved against a
function or relation on values; the laws are lemmas about those. `dafny verify dfyconfig.toml` checks everything.

## How the page tables are modelled

Physical memory is a sequence of frames of 512 entries; an entry is a record of the fields the kernel uses.
`EntryBits` proves that the masks and shifts of the source do exactly that to the fields of a 64-bit word, and
that no bit of the word is lost. A ghost map `tree` lists the present slots; `WellFormed` ties it to memory:
every present slot lies in a linked table, every table sits in a frame of its own that the bitmap shows as
taken, and absent slots are entirely zero. All results about translations are stated on the hardware walk of
memory alone (`Translate`, `UserAccessible`, `WritablePage`, `PatIndex`, sections 4.5, 4.6 and 4.9 of the Intel SDM,
Volume 3A), which `WalkReadsTree` relates to the tree.

`map_memory` is modelled with its re-entrance: linking a new table calls `MapMemory` on that table before the
walk goes on. Its recursion ends because each self-call follows a successful request, so that the number of
clear frames shrinks. `MapTo` is the same as a function on values. It is undefined exactly where the source would not find
a clear frame for a table it has to link, and the method asks for no more than that it is defined. What the function
does is proved about it: `MapToMaps` (the effect on every slot), `MapToServes` (what it takes). `Slack`, the clear frames
minus the tables that may still be missing, is exactly conserved; while it is not negative no request inside `map_memory`
fails. `needed` is any set of table slots that counts as missing; `PathsCover` gives the smallest natural choice.

A run (`Runs`) is a sequence of states, each reached from the one before by a request, a lock, a free, a caller's write,
a mapping or a donation. Mapping and donating are sequences of single writes to live tables (`TableWrites`) whose guards say
nothing about soundness, so that `RunKeepsTree` proves it for them too. `own` is the set of frames booked for the bitmap:
callers neither free nor write those. `AfterCalls` says where a list of calls leads, and is undefined only where a call does
not find what it needs in the very state that the calls before it have left; `PerformAll` performs every list on which it is
defined, `CallsAreRun` says that it is a run, and `BudgetSuffices` gives a number of frames with which it is defined. The
boot code is a function too (`BootTo`), so that the same holds from the empty machine on.

The three identical blocks of `map_memory` are three calls of `NextTable`. Addresses are numbers below 2^64, a shift is a
division and a mask a remainder. Frames are pointers divided by 4096.

## Where the source does not do what one would expect

Each of these is kept in the model as the source has it:

- `split` computes the length of the rest in 64 bits, so when the first fit is longer than needed by less than
  64 bytes it wraps around and the heap gets a segment of nearly 2^64 bytes. `MallocAsWrittenKeepsIntegrity` shows that
  this is exactly when the heap breaks, `WindowExample` gives an input, and `RunAsWritten` says the same of
  whole runs. `OverIntegers` is the test without wrap-around; under it every law holds in every run, and
  `RunIsIntended` carries the laws over to the code for all runs outside the window.
- Such a wrapped split also writes a header of 32 bytes where the next header may already be. `ClobbersExactly` says when:
  the next segment starts less than the rounded size plus 64 bytes behind the first fit. `FourCallsClobber` gives four calls
  on a fresh heap that do it. From there on lengths and links are overwritten and the lists of the model say nothing about
  the code; the laws of the 64-bit reading are stated up to there (`Clobbers`, `Faithful`), and `RunKeepsHeadersApart` shows
  that until then, and only until then, all headers have memory of their own.
- A split leaves a gap of one header: freeing what `malloc` has just returned brings the segment back 32 bytes
  shorter (`MallocThenFree`).
- That gap is before the next segment. When that one is freed and merged backward, the merged segment ends 32 bytes
  too early for each gap it spans. `FreeCoversExactly` says when a freed segment is covered by free memory again, and
  `FreedTailIsLost` gives six calls after which 32 bytes belong to no segment.
- The framebuffer loop starts at the framebuffer's own address and goes on in whole pages, with 1024 bytes to spare: the last
  page is missed when the last byte's place in its page is more than 1024 before the first byte's (`PixelsAreMapped`).
- `malloc` says in a comment that it rounds up, but it keeps only the last hexadecimal digit of a size that is not
  a multiple of 16, so 100 bytes become 20 (`RoundingCoversRequest`).
- The bitmap has eight bits more than the memory has frames (`BitmapOvershoots`), and the memory size follows the last
  usable entry of the memory map, not the highest one (`LastUsableEntryDecides`).
- The heap loop of `configure_memory` maps all its frames to one page; the rest of the heap stays unmapped
  (`MapHeap`, `ConfigureMemory`).
- `request_pages` breaks the tables' own mappings when one of them has the number of a page of the batch
  (`BatchKeepsSelfMap`).
- `request_page` returns null both when nothing is clear and when it hands out frame 0.
- `split` writes through `next` without a null test. For the last segment that write goes to address 16, and the model
  leaves it out. It is harmless only if page 0 holds nothing in use: no header, and not the bitmap either, which lies in
  page 0 when the largest usable entry of the memory map starts there.
- The boot code books `base / 4096` and `length / 4096` without regard to the rest: `OwnPagesHoldBitmap` and
  `WithheldPagesHoldEntry` say exactly when all bytes of the bitmap and of a withheld entry are covered, and
  `BitmapRunsOver` is a memory map on which the last byte of the bitmap is in a frame that requests hand out.

## Model

| member | source | states |
|---|---|---|
| Bitmap.AssignedBits | kernel/src/util/bitmap.cpp:16-25 | clearing and setting under the mask of one bit changes that bit, most significant first, and no other bit of the buffer |
| Bitmap.PackedBitmap.Get | kernel/src/util/bitmap.cpp:3-14 | reads the boolean that the packed byte stands for |
| Bitmap.PackedBitmap.Set | kernel/src/util/bitmap.cpp:16-25 | the unpacked bits after the call are the old ones with one replaced |
| Bitmap.MostSignificantFirst | kernel/src/util/bitmap.cpp:3-14 | bit 0 of the map is the bit of value 128 of its byte, bit 7 that of value 1 |
| Ledger.FirstClear | kernel/src/memory/pmm.cpp:154-168 | the frame a request hands out is clear and all lower ones are taken; none exactly when every frame is taken |
| Ledger.BookKeepsAccounts | kernel/src/memory/pmm.cpp:134-144 | locking or reserving keeps used + reserved = 4096 times the set bits and free = total minus that, modulo 2^64 |
| Ledger.UnbookKeepsAccounts | kernel/src/memory/pmm.cpp:190-197 | freeing or unreserving keeps the same equations, also on a frame booked under the other counter |
| Ledger.BookRangeSets | kernel/src/memory/pmm.cpp:213-217 | booking a range sets exactly its frames |
| Ledger.BookRangeBytes | kernel/src/memory/pmm.cpp:146-150 | only frames that were clear are charged, to the range's own counter, so overlaps count once |
| Ledger.BookRangeCount | kernel/src/memory/pmm.cpp:213-217 | a range booking takes exactly as many frames as were clear in the range |
| Ledger.BookRangeKeepsAccounts | kernel/src/memory/pmm.cpp:146-150 | booking a range keeps the accounting equations |
| Ledger.UnbookRangeClears | kernel/src/memory/pmm.cpp:199-203 | freeing a range clears exactly its frames and keeps the accounting equations |
| Ledger.UnbookRangeBytes | kernel/src/memory/pmm.cpp:116-132 | only frames that were taken are credited, to the release's own counter; releasing clear frames changes nothing at all |
| Ledger.AccountsOverRuns | kernel/src/memory/pmm.cpp:116-217 | the accounting equations hold after every prefix of every run of request, lock, free, reserve and unreserve |
| Ledger.TakenUntilReleased | kernel/src/memory/pmm.cpp:116-217 | a taken frame stays taken over a run until an operation releases that frame |
| Ledger.TakenIsNeverObtained | kernel/src/memory/pmm.cpp:152-169 | no request of a run hands out a taken frame that was not released before |
| Ledger.ObtainedIsTaken | kernel/src/memory/pmm.cpp:152-169 | right after a successful request its frame and all lower ones are taken |
| Ledger.ObtainedTwiceMeansReleased | kernel/src/memory/pmm.cpp:152-211 | if two requests of a run obtain the same frame, a release of it lies between them |
| Ledger.ObtainedIncreases | kernel/src/memory/pmm.cpp:152-169 | without releases the frames obtained strictly increase over the run |
| Ledger.RequestThenFreeRestores | kernel/src/memory/pmm.cpp:152-197 | freeing the frame just requested restores bitmap and all counters exactly |
| Ledger.UnbookUndoesBook | kernel/src/memory/pmm.cpp:116-144 | releasing a frame under the counter it was booked under restores bitmap and counters exactly |
| Pmm.LargestUsableIsLargest | kernel/src/memory/pmm.cpp:69-80 | the segment chosen for the bitmap has the most whole pages of all usable entries, and is the first such entry |
| Pmm.LastUsableEntryDecides | kernel/src/memory/pmm.cpp:46-51 | the memory size comes from the last usable entry, wherever it lies |
| Pmm.TotalIsWholeMiB | kernel/src/memory/pmm.cpp:53-54 | the memory size is a multiple of 0x100000, at most that end and less than 0x100000 below it |
| Pmm.TotalFollowsLastUsable | kernel/src/memory/pmm.cpp:46-54 | the same with the end of the last entry of type 1, modulo 2^64, in numbers |
| Pmm.NoUsableMemory | kernel/src/memory/pmm.cpp:39-80 | without an entry of type 1 the memory size is 0 and no segment is found |
| Pmm.LargestByKind | kernel/src/memory/pmm.cpp:69-80 | the segment chosen is an entry of type 1 with the most whole pages |
| Pmm.BitmapOvershoots | kernel/src/memory/pmm.cpp:53-94 | the bitmap has exactly eight bits more than the memory size has frames |
| Pmm.WithholdSets | kernel/src/memory/pmm.cpp:104-108 | the loop over the memory map sets exactly the frames of non-usable entries that start below the memory size |
| Pmm.BootTakesExactly | kernel/src/memory/pmm.cpp:61-114 | a frame is taken after boot if and only if it is withheld, one of the bitmap's own pages, among the first 256, or a kernel page |
| Pmm.BootTakesByKind | kernel/src/memory/pmm.cpp:104-113 | the same entry by entry, in numbers: type other than 1, base below the memory size, whole pages from the base's page on |
| Pmm.OwnPagesHoldBitmap | kernel/src/memory/pmm.cpp:110 | every byte of the bitmap lies in the pages booked for it if and only if its base and size do not run over a page together |
| Pmm.WithheldPagesHoldEntry | kernel/src/memory/pmm.cpp:104-108 | every byte of an entry lies in the pages booked for it if and only if it is empty or consists of whole pages |
| Pmm.WithheldBytesAreTaken | kernel/src/memory/pmm.cpp:104-108 | every frame that holds a byte of a withheld entry of whole pages is taken after boot |
| Pmm.BitmapRunsOver | kernel/src/memory/pmm.cpp:92-110 | a memory map on which the last byte of the bitmap lies in a frame that is clear after boot |
| Pmm.BootAccounts | kernel/src/memory/pmm.cpp:91-114 | the accounting equations hold after boot, overlaps counted once |
| Pmm.BootUsed | kernel/src/memory/pmm.cpp:104-113 | the used counter after boot is 4096 times the number of the bitmap's own pages that no withheld entry covers |
| Pmm.BootFramesStayTaken | kernel/src/memory/pmm.cpp:61-169 | no run hands out a frame taken at boot unless it was released before |
| Pmm.FrameAllocator.LockPage | kernel/src/memory/pmm.cpp:205-211 | books one frame as used, or does nothing when it is taken |
| Pmm.FrameAllocator.FreePage | kernel/src/memory/pmm.cpp:190-197 | the inverse booking, or nothing when the frame is clear |
| Pmm.FrameAllocator.ReservePage | kernel/src/memory/pmm.cpp:134-144 | books one frame as reserved, or does nothing when it is taken |
| Pmm.FrameAllocator.UnreservePage | kernel/src/memory/pmm.cpp:116-126 | the inverse booking, or nothing when the frame is clear |
| Pmm.FrameAllocator.LockPages | kernel/src/memory/pmm.cpp:213-217 | books the range frame by frame |
| Pmm.FrameAllocator.FreePages | kernel/src/memory/pmm.cpp:199-203 | frees the range frame by frame |
| Pmm.FrameAllocator.ReservePages | kernel/src/memory/pmm.cpp:146-150 | books the range as reserved |
| Pmm.FrameAllocator.UnreservePages | kernel/src/memory/pmm.cpp:128-132 | releases the range |
| Pmm.FrameAllocator.RequestPage | kernel/src/memory/pmm.cpp:152-169 | the loop finds the lowest clear frame, takes it and returns its address, or null |
| Pmm.FrameAllocator.GetTotalMemorySize | kernel/src/memory/pmm.cpp:39-57 | the memo if it is set, otherwise the end of the last usable entry rounded down to whole MiB |
| Pmm.FrameAllocator.InitBitmap | kernel/src/memory/pmm.cpp:31-37 | all bits of the new bitmap are clear |
| Pmm.FrameAllocator.FindLargestUsable | kernel/src/memory/pmm.cpp:69-80 | the loop computes the largest usable segment |
| Pmm.FrameAllocator.WithholdAll | kernel/src/memory/pmm.cpp:104-108 | the loop reserves the withheld entries, in order |
| Pmm.FrameAllocator.Initialize | kernel/src/memory/pmm.cpp:61-114 | the ledger after the first call is the boot ledger; a second call changes nothing |
| EntryBits.DecodeSetFlag | kernel/src/memory/paging.cpp:145-151 | for each of the eleven flags set_flag changes that one bit of the word and keeps all other fields, the address and the unused bits |
| EntryBits.DecodeGetFlag | kernel/src/memory/paging.cpp:153-157 | for each of the eleven flags get_flag on the word reads that bit |
| EntryBits.FlagPositions | kernel/src/memory/paging.h:10-22 | the bit of each of the eleven flags |
| EntryBits.SetFlagWord | kernel/src/memory/paging.cpp:145-151 | set_flag gives the flag's bit the value asked for and keeps every other bit |
| EntryBits.GetFlagWord | kernel/src/memory/paging.cpp:153-157 | get_flag says whether the flag's bit is set |
| EntryBits.AddressPosition | kernel/src/memory/paging.cpp:159-169 | the frame number sits in bits 12 to 51, and storing one keeps every other bit |
| EntryBits.DecodeSetAddress | kernel/src/memory/paging.cpp:159-169 | set_address stores a 40-bit frame number that get_address returns, and keeps all other bits |
| EntryBits.DecodeSetPat | kernel/src/memory/paging.cpp:171-179 | for every index set_pat spreads its three low bits over the write-through, cache and size flags and keeps the rest |
| EntryBits.DecodeTableEntry | kernel/src/memory/paging.cpp:39-42 | the word linked for a new table decodes to the old fields with that frame, present and writable |
| EntryBits.TableWord | kernel/src/memory/paging.cpp:39-42 | that word has bits 0 and 1 set, the frame number in bits 12 to 51, and is otherwise as it was |
| EntryBits.DecodeLeafEntry | kernel/src/memory/paging.cpp:80-84 | the word written last decodes to the leaf entry, with the U/S bit of the old word |
| EntryBits.LeafWord | kernel/src/memory/paging.cpp:80-84 | the word written last has bits 0 and 1 set, bit 3 exactly for quickwrite, bits 4 and 7 clear, the frame number in bits 12 to 51, and is otherwise, U/S bit included, as it was |
| EntryBits.FieldsCoverTheWord | kernel/src/memory/paging.h:23-30 | encoding the decoded fields gives the word back |
| EntryBits.DecodeZero | kernel/src/memory/paging.cpp:38 | a zeroed word decodes to the absent entry |
| PageTree.LinkWellFormed | kernel/src/memory/paging.cpp:37-42 | zeroing and linking a clear frame keeps the tree invariant |
| PageTree.WriteWellFormed | kernel/src/memory/paging.cpp:80-85 | overwriting a leaf, or a link by one to the same table, keeps the tree invariant |
| TableWrites.WritesKeepTree | kernel/src/memory/paging.cpp:28-143 | any sequence of single writes, each guarded by what the code has just read, leads from a sound tree to a sound tree |
| PageTree.LinkThenSelfMap | kernel/src/memory/paging.cpp:35-44 | linking a table and recursively mapping it adds tables that map themselves, and nothing else |
| PageTree.ExtendsTrans | kernel/src/memory/paging.cpp:33-77 | the growth of the three levels composes: self-maps of one never undo those of another |
| PageTree.ExtendThenWrite | kernel/src/memory/paging.cpp:80-85 | the final write turns the growth into the full effect of map_memory |
| PageTree.LinkSlack | kernel/src/memory/paging.cpp:37-42 | linking a missing table takes one clear frame and conserves the slack |
| PageTree.PathsCover | kernel/src/memory/paging.cpp:28-86 | the paths of all frames of the bitmap and of v are enough to count as needed |
| Mapping.TableToGrows | kernel/src/memory/paging.cpp:33-46 | one walking block leads to a sound tree with that table in it, grown by tables that map themselves, and nothing else |
| Mapping.MapToMaps | kernel/src/memory/paging.cpp:28-86 | where it finds its frames, map_memory as a function keeps the tree sound and has exactly the effect `Maps`, by guarded single writes |
| Mapping.MapToServes | kernel/src/memory/paging.cpp:28-86 | map_memory conserves the slack whatever counts as missing, and finds all its frames while the slack is not negative |
| Mapping.MapToTakes | kernel/src/memory/paging.cpp:28-86 | one call takes exactly as many frames as it adds tables, at most 3 plus those still missing for the bitmap's frames |
| Translation.WalkReadsTree | kernel/src/memory/paging.cpp:88-127 | the hardware walk of memory finds a page exactly when the tree has its leaf, and reads the tree's entries on all four levels |
| Translation.OneSlotPerTable | kernel/src/memory/paging.cpp:33-77 | in the memory of the tables each table is linked from exactly one slot |
| Translation.MapTranslates | kernel/src/memory/paging.cpp:28-86 | after map_memory every page translates as before, except new tables, mapped to themselves, and v, mapped to p; unmapped pages stay unmapped |
| Translation.FreshFramesAreNewTables | kernel/src/memory/paging.cpp:33-77 | the frames map_memory takes are exactly those of the tables it adds |
| Translation.MapKeepsSelfMap | kernel/src/memory/paging.cpp:43-74 | tables stay mapped to themselves if and only if map_memory does not map a table's page elsewhere |
| Translation.MapKeepsUserPages | kernel/src/memory/paging.cpp:80-85 | map_memory neither opens nor closes a page to user mode, and keeps marked leaves reachable for it |
| Translation.DonateKeepsPathsOpen | kernel/src/memory/paging.cpp:129-143 | after a donation marked leaves still have marked ancestors |
| Translation.DonateOpensOnePage | kernel/src/memory/paging.cpp:129-143 | when marked leaves have marked ancestors, donating a mapped page opens exactly that page |
| Translation.DonateKeepsTranslation | kernel/src/memory/paging.cpp:129-143 | a donation changes the translation of no page, in any sound tree |
| Access.MapMakesWritable | kernel/src/memory/paging.cpp:33-85 | with writable links, after map_memory v and the pages of new tables can be written to, and every other page as before |
| Access.MapCaches | kernel/src/memory/paging.cpp:83-84 | the caching index of v is 1 with quickwrite and 0 without, that of a new table's page 0, and all others stay |
| Access.RunAccess | kernel/src/memory/paging.cpp:28-143 | over every run links stay writable, and a page can be written to when it could at the start, was mapped since or has become a table's |
| Access.RunKeepsWritable | kernel/src/memory/paging.cpp:28-143 | where every mapped page can be written to, this stays so over every run |
| Frames.TakeKeepsTree | kernel/src/memory/pmm.cpp:205-211 | taking a frame keeps the tree, and a clear frame is no table |
| Frames.ReleaseKeepsTree | kernel/src/memory/pmm.cpp:190-197 | freeing a frame keeps the tree sound if and only if no table lives in it |
| Frames.ScribbleKeepsTree | kernel/src/memory/pmm.cpp:152-169 | what a caller writes into a frame that is no table does not affect the tree |
| Frames.MapLeavesHeld | kernel/src/memory/paging.cpp:28-86 | map_memory makes no table of a frame that a caller holds and does not change its memory |
| Frames.BatchPageBelowFrame | kernel/src/memory/pmm.cpp:181-185 | by first fit each new frame, and each table allocated for it, lies beyond every page mapped so far |
| Frames.BatchGrows | kernel/src/memory/pmm.cpp:181-185 | one round of request_pages extends the batch by one page and clobbers none of the earlier ones |
| Frames.BatchKeepsSelfMap | kernel/src/memory/pmm.cpp:171-188 | request_pages keeps the tables mapped to themselves if and only if none of them has the number of a page of the batch |
| Batches.PagesToMaps | kernel/src/memory/pmm.cpp:171-188 | where it finds its frames, request_pages as a function is a batch and a run of requests and mappings that leaves held frames and user pages alone |
| Batches.PagesToServes | kernel/src/memory/pmm.cpp:171-188 | it takes exactly its frames off the slack, and finds them when the slack is as large |
| Batches.RoundsSteps | kernel/src/memory/pmm.cpp:181-185 | the i-th round requests the i-th frame obtained and maps the i-th page of the batch to it |
| Runs.StepKeepsTree | kernel/src/memory/paging.cpp:28-143 | every operation keeps the tree invariant and drops no table; for mapping and donating this follows from the guards of their writes |
| Runs.RunKeepsTree | kernel/src/memory/paging.cpp:28-143 | the tables form a sound tree in every state of every run, and no table is ever dropped |
| Runs.HeldFramesAreLeftAlone | kernel/src/memory/pmm.cpp:152-197 | over a run a frame held by a caller never becomes a table, and only the caller's writes change it |
| Runs.OwnFramesAreLeftAlone | kernel/src/memory/pmm.cpp:82-111 | over a run the frames that hold the bitmap stay taken, become no tables and are not written |
| Runs.AllocatingRun | kernel/src/memory/pmm.cpp:152-188 | requests and mappings leave every held frame and its memory alone, and open or close no page to user mode |
| Runs.RequestsAvoidTables | kernel/src/memory/pmm.cpp:152-169 | a requested frame was a table at no earlier moment of the run, and is none later until it is freed |
| Runs.TranslationIsStable | kernel/src/memory/paging.cpp:28-143 | over any run a page's translation changes only by mapping that page or by a new table of that frame number |
| Runs.RunTranslates | kernel/src/memory/paging.cpp:28-143 | at the end of a run a page translates to the target of its last mapping, or as at the start, unless its frame has become a table |
| Runs.NewTableTranslates | kernel/src/memory/paging.cpp:43-74 | a page whose frame became a table was mapped to itself at that step and translates by its mappings since |
| Runs.UserPagesAreDonated | kernel/src/memory/paging.cpp:129-143 | the pages open to user mode are those open at the start and those donated since |
| Runs.RunKeepsSelfMap | kernel/src/memory/paging.cpp:43-74 | tables stay mapped to themselves over any run in which no table's page is mapped elsewhere |
| Paging.IndexerFollowsPath | kernel/src/memory/paging.cpp:16-26 | the four indices of an address lead from the root to the slot of its page |
| Paging.AddressParts | kernel/src/memory/paging.cpp:16-26 | page number, frame number and the four indices as numbers: 48 bits of a virtual and 52 of a physical address count |
| Paging.MapThenTranslate | kernel/src/memory/paging.cpp:28-127 | after map_memory the address translates to the physical one, up to the bits an entry holds |
| Paging.AddressSpace.NextTable | kernel/src/memory/paging.cpp:33-46 | reaches the table of the next level, adding it and whatever its self-map needs when it is absent; keeps links writable, and nothing else changes |
| Paging.AddressSpace.PageTableOf | kernel/src/memory/paging.cpp:28-77 | reaches the page table of an address, adding only tables that map themselves |
| Paging.AddressSpace.MapMemory | kernel/src/memory/paging.cpp:28-86 | needs a clear frame for each table it links and no more; terminates, keeps the tree invariant, has exactly the effect `Maps` on every slot, leaves the state of the function `MapTo`, makes the page writable and gives it the caching index asked for |
| Paging.AddressSpace.GetPhysicalAddress | kernel/src/memory/paging.cpp:88-127 | returns the translation's frame with the offset of the address, or all ones when the page is unmapped |
| Paging.AddressSpace.RaiseUser | kernel/src/memory/paging.cpp:134 | sets the U/S bit of one present slot in place and nothing else |
| Paging.AddressSpace.DonateToUserspace | kernel/src/memory/paging.cpp:129-143 | exactly the four slots on the page's path gain the U/S bit |
| Paging.AddressSpace.RequestPage | kernel/src/memory/pmm.cpp:152-169 | the lowest clear frame is handed out, it is no table, and the tree stays sound; null and no change when none is clear |
| Paging.AddressSpace.RequestPages | kernel/src/memory/pmm.cpp:171-188 | start + i * 4096 translates to the i-th frame obtained, the frames strictly increase, other pages change only by self-maps of new tables; it is a run of requests and mappings, so frames held before stay held and unchanged and the pages open to user mode stay the same; fewer than two pages do nothing |
| Paging.AddressSpace.LockPage | kernel/src/memory/pmm.cpp:205-211 | takes the frame, charged as used, and keeps the tree sound |
| Paging.AddressSpace.FreePage | kernel/src/memory/pmm.cpp:190-197 | releases a frame that holds no table, credited to used, and keeps the tree sound |
| Execution.CallsAreRun | kernel/src/memory/paging.cpp:28-143 | every list of calls that is defined is a run, with a sound tree at its end |
| Execution.PerformAll | kernel/src/memory/paging.cpp:28-143 | the operations perform every list of calls, each of which finds what it needs in the state the ones before have left, and leave exactly the state of the function |
| Service.CallsMake | kernel/src/memory/pmm.cpp:116-211 | the run of a list of calls frees, writes, locks and donates exactly what the calls say |
| Service.CallMaps | kernel/src/memory/pmm.cpp:171-188 | which pages a single call maps, and to what |
| Service.CallsOpenDonatedPages | kernel/src/memory/paging.cpp:129-143 | after any list of calls the pages open to user mode are those open before and those donated |
| Service.CallsLeaveHeldFrames | kernel/src/memory/pmm.cpp:152-197 | after any list of calls a frame held before is held unless it was freed, and unchanged unless its holder wrote to it |
| Service.CallsTranslate | kernel/src/memory/paging.cpp:28-127 | after any list of calls a page translates to the target of the last of their mappings of it, or as before, unless its frame has become a table |
| Service.CallsTranslateTables | kernel/src/memory/paging.cpp:28-127 | and when it has, to itself or to the target of the last mapping since |
| Service.CallsKeepSelfMap | kernel/src/memory/paging.cpp:43-74 | tables stay mapped to themselves over any list of calls whose mappings put no table's page elsewhere |
| Budget.CallServes | kernel/src/memory/paging.cpp:28-143 | one call finds what it needs when the slack covers the frames it takes for its caller, and takes no more off it |
| Budget.BudgetSuffices | kernel/src/memory/paging.cpp:28-143 | a list of calls finds what it needs when the slack covers the frames they ask for and callers touch only what is theirs |
| BootMap.FirstStep | kernel/src/boot/kconf.cpp:25-29 | after the root's own mapping every table maps itself, only identity mappings exist and no page is open to user mode |
| BootMap.BootStep | kernel/src/boot/kconf.cpp:31-38 | an identity mapping keeps the boot state and adds its page |
| Boot.SetupRoot | kernel/src/boot/kconf.cpp:25-29 | requesting, zeroing and mapping the root establishes the boot state |
| Boot.MapAllMemory | kernel/src/boot/kconf.cpp:31-32 | after the loop every page below the memory size is mapped to itself, in a boot state |
| Boot.MapFramebuffer | kernel/src/boot/kconf.cpp:34-38 | after the loop the pages from the framebuffer's first on, as many as hold its bytes and 1024 more, are mapped to themselves, in a boot state |
| Boot.SetupPaging | kernel/src/boot/kconf.cpp:21-41 | exactly the pages of memory, framebuffer and tables are mapped, each to itself; all can be written to, none is open to user mode, and every frame taken before is held and unchanged |
| Boot.SetupMaps | kernel/src/boot/kconf.cpp:31-38 | a page is mapped if and only if it starts below the memory size, is one the framebuffer loop visits, in numbers, or is a table's |
| Boot.BootCaches | kernel/src/boot/kconf.cpp:31-54 | after boot framebuffer pages above all frames have caching index 1, and every other page has 0 |
| Pixels.PixelsAreMapped | kernel/src/boot/kconf.cpp:34-38 | every byte of every pixel is mapped to itself if and only if the last byte's place in its page is at most 1024 before the first byte's, or something else maps the last page |
| Pixels.ScreenAfterSetup | kernel/src/boot/kconf.cpp:21-41 | a framebuffer that starts in the first 1024 bytes of a page is mapped completely by setup_paging, pixel by pixel |
| Pixels.ScreenAfterBoot | kernel/src/boot/kconf.cpp:21-54 | and still is after the heap loop, outside the first page of the heap |
| BootMap.IdentityToServes | kernel/src/boot/kconf.cpp:31-38 | the identity mappings of a range conserve the slack, and succeed while it is not negative |
| BootMap.PinnedStep | kernel/src/boot/kconf.cpp:50-54 | requesting a frame and mapping it to a fixed page replaces what that page showed, and adds nothing but self-maps |
| Boot.MapHeap | kernel/src/boot/kconf.cpp:50-54 | after the loop the first heap page shows the last frame requested, which is no table, no other page of the heap was mapped by it, no page was opened to user mode and no held frame touched |
| Boot.BootToBoots | kernel/src/boot/kconf.cpp:21-54 | wherever the boot code finds its frames, exactly the pages of memory, framebuffer and tables are mapped to themselves, and the heap page, which shows a frame that was free and is no table; tables mapped to themselves unless one has the heap page's number; all writable, nothing open to user mode; and every frame booked before held and unchanged |
| Boot.HeapAfterBoot | kernel/src/boot/kconf.cpp:50-56 | the page of 0xffff800000000000 shows the last frame of the loop, and no page behind it is mapped when memory and framebuffer lie below it |
| Boot.BootToServes | kernel/src/boot/kconf.cpp:21-54 | boot takes one frame for the root, 256 for the heap loop and those of the tables off the clear ones, and succeeds with so many |
| Boot.ConfigureMemory | kernel/src/boot/kconf.cpp:43-57 | allocator, page tables and heap loop together leave exactly the state of the function `BootTo` on the bitmap after `initialize`, with all that `BootToBoots` says of it |
| Kernel.UserModeSeesDonatedPages | kernel/src/memory/paging.cpp:129-143 | in every state of every run after boot the pages open to user mode are exactly those donated so far |
| Kernel.BootFramesAreLeftAlone | kernel/src/memory/pmm.cpp:104-113 | over any run after boot a frame booked at boot is no table until it is freed, and the bitmap's frames are as they were |
| Kernel.BootAndServe | kernel/src/boot/kconf.cpp:43-57 | booting and then serving any list of calls, each of which finds what it needs, opens exactly the donated pages to user mode, keeps every mapped page writable and leaves the bitmap's frames alone |
| Kernel.OwnFramesHoldBitmap | kernel/src/memory/pmm.cpp:110 | those frames hold every byte of the bitmap if and only if its base and size do not run over a page together |
| Kernel.MappedPagesAreWritable | kernel/src/memory/paging.cpp:28-143 | in every state of every run after boot a page can be written to if and only if it is mapped |
| SmallMachine.SmallMachineBoots | kernel/src/boot/kconf.cpp:21-57 | a machine of 64 MiB with a framebuffer below 4 GiB meets everything the boot code asks for, with 10000 frames to spare |
| SmallMachine.ProgramIsServed | kernel/src/memory/paging.cpp:28-143 | on it a list of two calls of request_pages, a mapping that needs tables, a lock, a write, a free, a request and two donations finds what it needs |
| SmallMachine.BootSmallMachine | kernel/src/boot/kconf.cpp:43-57 | that machine boots and performs the list, and afterwards exactly the two donated pages are open to user mode |
| Segments.FirstFit | kernel/src/memory/heap.cpp:21-38 | the first segment in list order that is free and long enough; none exactly when there is none |
| Segments.SplitKeepsIntegrity | kernel/src/memory/heap.cpp:48-61 | a split keeps the segments ordered and disjoint and loses exactly one header |
| Segments.CombineKeepsIntegrity | kernel/src/memory/heap.cpp:63-77 | combining keeps order and disjointness and conserves all bytes |
| Segments.MallocKeepsIntegrity | kernel/src/memory/heap.cpp:17-39 | read over integers malloc keeps the heap in order; it loses 32 bytes when it splits and none otherwise |
| Segments.FreeKeepsIntegrity | kernel/src/memory/heap.cpp:41-46 | free keeps the heap in order and conserves all bytes |
| Segments.MallocKeepsCoalesced | kernel/src/memory/heap.cpp:17-39 | malloc never leaves two free neighbours, whichever way split is read, as long as it writes no header over another |
| Segments.FreeKeepsCoalesced | kernel/src/memory/heap.cpp:41-46 | after the merges on both sides no two neighbours are free |
| Segments.MallocConserves | kernel/src/memory/heap.cpp:17-61 | in the code's own arithmetic, as long as no header is written over another, the bytes plus 32 per split are conserved modulo 2^64, also when the length of the rest wraps around |
| HeapRuns.MallocIsFirstFit | kernel/src/memory/heap.cpp:17-39 | null exactly when no segment fits; otherwise the first one that does is returned, and unless a header is written over another it becomes an allocation, a split-off rest is free and starts where it ends, and all others stay |
| HeapRuns.MallocThenFree | kernel/src/memory/heap.cpp:17-73 | freeing what malloc returned restores the list, except that a split costs 32 bytes of the segment |
| HeapRuns.RoundingCoversRequest | kernel/src/memory/heap.cpp:18-19 | the rounded size covers the request exactly for multiples of 16 and sizes below 32 |
| HeapRuns.ReadingsAgree | kernel/src/memory/heap.cpp:48-51 | the 64-bit test and its intended reading give the same heap if and only if the first fit is not in the window |
| HeapRuns.MallocAsWrittenKeepsIntegrity | kernel/src/memory/heap.cpp:17-61 | as written malloc keeps the heap in order if and only if the first fit is not in the window |
| HeapRuns.WindowExample | kernel/src/memory/heap.cpp:50-51 | a heap and a request for which the code produces a segment of 2^64 - 16 bytes |
| HeapRuns.RunKeepsHeap | kernel/src/memory/heap.cpp:7-77 | over every run the heap is ordered and disjoint, fully coalesced, and bytes plus 32 per split equal the heap length |
| HeapRuns.RunAsWritten | kernel/src/memory/heap.cpp:7-77 | all states of a run of the code are sound if and only if no malloc of the run falls into the window |
| HeapRuns.RunIsIntended | kernel/src/memory/heap.cpp:48-51 | outside the window a run of the code is a run of the intended reading |
| HeapRuns.StepKeepsAllocation | kernel/src/memory/heap.cpp:17-77 | no operation but its own free touches an outstanding allocation, unless a malloc writes a header over another |
| HeapRuns.AllocationsStay | kernel/src/memory/heap.cpp:17-77 | over every run in which no malloc writes a header over another an outstanding allocation keeps address and length until it is freed; in the intended reading over every run |
| HeapRuns.HeadersOverlapMeans | kernel/src/memory/heap.h:6-11 | two headers overlap if and only if they share a byte, addresses taken modulo 2^64 |
| HeapRuns.ClobbersExactly | kernel/src/memory/heap.cpp:50-58 | in a sound heap malloc writes a header over another if and only if the first fit is in the window and the new header reaches the next one, or past the end of the address space the first one |
| HeapRuns.MallocKeepsHeadersApart | kernel/src/memory/heap.cpp:17-61 | all headers still have memory of their own after a malloc if and only if it wrote none over another |
| HeapRuns.RunKeepsHeadersApart | kernel/src/memory/heap.cpp:7-77 | the headers have memory of their own in all states of a run of the code if and only if no malloc of it writes one over another |
| HeapRuns.FourCallsClobber | kernel/src/memory/heap.cpp:7-61 | malloc(24), malloc(32), a free of the first and malloc(16) on a fresh heap put a header on top of the outstanding one |
| HeapRuns.AllocationsAreDisjoint | kernel/src/memory/heap.cpp:17-61 | in a sound heap two segments occupy disjoint memory inside the heap, headers included |
| HeapLaws.RoundedSizes | kernel/src/memory/heap.cpp:18-19 | multiples of 16 are kept, any other size becomes its last hexadecimal digit plus 16 |
| HeapLaws.MallocSplitsExactly | kernel/src/memory/heap.cpp:48-61 | the first fit is split if and only if it has at least 80 bytes more than the rounded size or, as written, between 1 and 63 more; then the allocation has exactly the rounded size and the rest 64 bytes less than remain, and otherwise the allocation keeps its length |
| HeapLaws.FreeEnds | kernel/src/memory/heap.cpp:41-77 | free merges the segment with the neighbours that are free; the free segment has all their bytes and 32 per header, and ends short of them by the gaps it spans |
| HeapLaws.FreeCoversExactly | kernel/src/memory/heap.cpp:41-77 | some free segment covers all that was allocated if and only if it was not merged backward across a gap larger than what was merged behind it |
| HeapLaws.FreeBytesExactly | kernel/src/memory/heap.cpp:41-77 | which bytes are free memory afterwards: those of the merged segments short of the gaps, and outside them the old ones |
| HeapLaws.FreeReleases | kernel/src/memory/heap.cpp:41-77 | the allocations afterwards are exactly the old ones without the one at that address |
| HeapLaws.RunReleases | kernel/src/memory/heap.cpp:41-77 | in a run, once an address is freed no allocation has it and all others are still there |
| HeapLaws.FreedTailIsLost | kernel/src/memory/heap.cpp:63-73 | six calls on a fresh heap after which 32 freed bytes belong to no segment |
| Heap.KernelHeap.constructor | kernel/src/memory/heap.cpp:7-15 | one free segment spans the heap |
| Heap.KernelHeap.InsertAfter | kernel/src/memory/heap.cpp:52-58 | the pointer writes insert the new header into the symmetric list, provided it lies on top of no other; the headers stay apart exactly then |
| Heap.KernelHeap.Split | kernel/src/memory/heap.cpp:48-61 | null exactly when nothing was split; the headers stay apart exactly when the split writes none over another, and then the list is the split of the old one in 64-bit arithmetic |
| Heap.KernelHeap.CombineForward | kernel/src/memory/heap.cpp:63-73 | unlinks a free successor, keeps next and last symmetric |
| Heap.KernelHeap.Malloc | kernel/src/memory/heap.cpp:17-39 | the pointer walk returns the header of the first fit or null; the headers stay apart exactly when it writes none over another, and then it computes malloc on the list and keeps it symmetric |
| Heap.KernelHeap.Free | kernel/src/memory/heap.cpp:41-46 | the pointer writes compute free on the list |
| HeapCalls.PerformHeapCalls | kernel/src/memory/heap.cpp:7-77 | any list of calls that frees live handles and writes no header over another is performed by the pointer code as a run |
| CStrings.Strlen | kernel/src/util/kutil.cpp:31-37 | the number of characters before the first NUL |
| CStrings.Strcat | kernel/src/util/kutil.cpp:39-52 | the destination's text becomes both texts, and nothing behind the new end changes |
| CStrings.Strcpy | kernel/src/util/kutil.cpp:54-59 | the destination's text becomes the source's, and nothing behind the new end changes |
| IntStr.DigitsParseBack | kernel/src/drivers/tty/printf.cpp:42-45 | the digits parse back to the number |
| IntStr.DigitsAreDigits | kernel/src/drivers/tty/printf.cpp:42-45 | no digit is a NUL, the first is no sign, and it is zero only for zero |
| IntStr.DigitsAreFew | kernel/src/drivers/tty/printf.cpp:35-39 | a number below 2^k has at most k digits in any base |
| IntStr.NumeralParsesBack | kernel/src/drivers/tty/printf.cpp:25-45 | the unpadded text parses back to the number, sign included, without a superfluous leading zero |
| IntStr.NumeralInCharacters | kernel/src/drivers/tty/printf.cpp:14-45 | read to base 16 when base 17 is asked for, signed by '-', '+', ' ' or nothing, with capital digits for base 16 and small ones for 17 |
| IntStr.ZeroIsOneDigit | kernel/src/drivers/tty/printf.cpp:35-45 | zero is written as its sign, if any, and the single digit 0 |
| IntStr.NumeralIsShort | kernel/src/drivers/tty/printf.cpp:25-45 | for every number above the minimum the text has at most 64 characters |
| IntStr.PaddedLength | kernel/src/drivers/tty/printf.cpp:47-70 | the result is the text with padding on the chosen side, as long as the larger of width and text |
| IntStr.PaddedWith | kernel/src/drivers/tty/printf.cpp:50-70 | only zeros or only blanks, as asked for, are added, on the chosen side |
| IntStr.BuildDigitTable | kernel/src/drivers/tty/printf.cpp:14-23 | the table built with strcpy and strcat holds the digits of the base |
| IntStr.CountDigits | kernel/src/drivers/tty/printf.cpp:35-39 | the first pass moves past as many places as the numeral has digits |
| IntStr.WriteDigits | kernel/src/drivers/tty/printf.cpp:42-45 | the second pass writes the digits backward and ends where the first began, touching nothing else |
| IntStr.AppendPadding | kernel/src/drivers/tty/printf.cpp:50-57 | repeated writes at the end of the text append the padding |
| IntStr.WriteNumeral | kernel/src/drivers/tty/printf.cpp:25-45 | sign and digits are in the buffer, and nothing behind them changed |
| IntStr.IntStr | kernel/src/drivers/tty/printf.cpp:11-73 | the buffer holds the padded numeral |
| Terminal.PutEntryKeeps | kernel/src/drivers/tty/tty.cpp:53-64 | writing at any column of a row on the screen stays within the spill cell |
| Terminal.PutCharKeepsScreen | kernel/src/drivers/tty/tty.cpp:238-285 | from any state with the row on the screen a character keeps it there and touches cells 0 to height times width only |
| Terminal.CellHoldsBoth | kernel/src/drivers/tty/tty.h:21-22 | the character is the low and the colour the high byte of a cell |
| Terminal.PutCharCells | kernel/src/drivers/tty/tty.cpp:266-276 | every cell after a printed character: written at the cursor up to the cell behind the row, and all cells one row up when it scrolls |
| Terminal.PutCharMoves | kernel/src/drivers/tty/tty.cpp:269-276 | the cursor goes one to the right or to the start of the next row, on the last row when it scrolls |
| Terminal.ControlCharacters | kernel/src/drivers/tty/tty.cpp:238-284 | NUL does nothing; a line feed writes nothing and goes to the next row, from the last column to the one after it |
| Terminal.BackspaceMoves | kernel/src/drivers/tty/tty.cpp:249-264 | a backspace goes one to the left, or to the end of the row above, and blanks the cell there |
| Terminal.BackspaceWithoutColumns | kernel/src/drivers/tty/tty.cpp:249-264 | on a terminal of width 0 the column wraps around to 2^64 - 1 and nothing is written |
| Terminal.TabStops | kernel/src/drivers/tty/tty.cpp:243-247 | a tab moves to the next multiple of four and writes nothing |
| Terminal.BackspaceUndoes | kernel/src/drivers/tty/tty.cpp:249-264 | a backspace after a character that did not scroll puts the cursor back and blanks the cell, also across a row end |
| Terminal.StartsAsAWindow | kernel/src/drivers/tty/tty.cpp:24-42 | any screen with its cursor in the row is a window on unbounded paper |
| Terminal.PutCharShows | kernel/src/drivers/tty/tty.cpp:238-285 | a plain character does on the screen what it does on unbounded paper, with the window moving down at a scroll |
| Terminal.PlainTextIsAWindow | kernel/src/drivers/tty/tty.cpp:220-285 | over any run of plain text the screen stays a window on the paper: printed text only moves up |
| Tty.ShiftedIsScrolled | kernel/src/drivers/tty/tty.cpp:220-232 | a row's worth of left shifts is a one-row scroll, in which the cleared first row is gone |
| Tty.Tty.PutEntryAt | kernel/src/drivers/tty/tty.cpp:53-64 | writes one cell, or nothing when a coordinate is past the limit |
| Tty.Tty.ShiftLeft | kernel/src/drivers/tty/tty.cpp:229-231 | one in-place pass moves every cell one place to the left |
| Tty.Tty.Shift | kernel/src/drivers/tty/tty.cpp:220-236 | cell j becomes old cell min(j + width, height * width), and the row goes up by one |
| Tty.Tty.PutChar | kernel/src/drivers/tty/tty.cpp:238-285 | the in-place code computes the character's effect on the screen and keeps the row on it |

## Left out

- Loading CR3, the PAT registers, TLB effects, port I/O and serial messages: hardware; the walk reads physical memory directly.
- `map_memory` without a clear frame for a missing table: the source then uses frame 0 as a table; excluded by `MapTo` being undefined.
- Frames without memory behind them: `Shape` has one frame of memory per bit of the bitmap, so the eight bits beyond the memory size (`BitmapOvershoots`) and holes of the memory map count as working memory.
- Framebuffers at or above 2^48, which have no identity mapping in four levels.
- Physical memory of more than 2^36 frames: it has no identity mapping in four levels, so `Shape` bounds the bitmap.
- Accesses outside the bitmap, the page tables' frames or the text buffer: the callers' ranges must fit, as `BootFits` and `Shape` say.
- Paging.AddressSpace.DonateToUserspace: an unmapped address is excluded, as the source then follows entries that are not links.
- `get_total_memory_size` with an unset memo and an empty map: the source divides by zero there.
- Callers that free or overwrite live tables or the bitmap's frames: `ReleaseKeepsTree` shows that freeing a table breaks the tree; runs exclude both.
- The bytes of the bitmap inside physical memory: the bitmap is an array of its own; `OwnFramesAreLeftAlone` shows that nothing else is written there.
- What the code does to the heap once a wrapped split has written a header over another: lengths and links are then arbitrary bytes of each other. `ClobbersExactly` says when that is, and nothing is claimed for it.
- Calls of `free` on handles that are not outstanding, and user data written through handles, which overlaps the header.
- `free_pages` as an inverse of `request_pages`: it frees by address and inverts only when frames and pages coincide.
- IntStr.IntStr: the minimum of `intmax_t`, which has no negative, bases without digits, and a used buffer with padding on the right.
- `vprintf`, colour codes, rendering and `write`: calling conventions and drawing.
- Terminal.PlainTextIsAWindow: tabs and backspaces are outside it; they can leave the row or return to cells that have scrolled away.
- Device drivers, interrupts, descriptor tables, syscalls and the shell: register access and tables without hard internal state.

# Verified model of the pvp core

pvp runs a PowerPC guest on a PowerPC host: the kernel executes guest code in two VMM contexts, and the monitor
handles faults, privileged instructions and an Open Firmware client interface. This project models the parts of it
whose correctness is not local to one function, and proves what they promise.

**Address translation and its cache.** The ROM's list of effective-to-real ranges (`MmuRanges`) is the authority; the
kernel's page tables of the two contexts are a cache of it, filled by faults and emptied by `tlbie`, by evictions and
by leaving ROM translation mode. `GuestCpu` is the architectural state of one CPU and what each emulated instruction
does to it, `GuestMmu` the state machine of translation, and `GuestState` the
object itself: two VMM pages that together stand for one CPU. The events are guest code running with any effect on its
registers, page faults, evictions, map calls, emulated instructions and single stepping. The central result is
`RunCoherent`: after any run of events the cached and the computed translation agree everywhere.

**Guest memory.** `Pmem` is the RAM of the guest on a big-endian host, with the XOR munging of PowerPC little-endian
mode (section 3.1 of the PowerPC Programming Environments Manual); it refines a flat byte memory. `FlatCopy` says what
a copy means, one byte and one translation at a time, and `GuestState.Guest.GuestTo` and `GuestFrom`, which work page
by page, are proved equal to it. `GuestString` is the reading of NUL-terminated strings. `RomDisk` and `RomGetprop` are
client services built on them: moving bytes between a partition and the guest, and storing properties.

**Device tree.** `FdtBlock` and `FdtWalk` are the tag scanner and node walker of the flattened device tree (section 5.4
of the Devicetree Specification), on offsets into a byte block. `FdtTree` is an independent tree with its encoding as
bytes; everything the walkers compute is proved against that tree: preorder and depths, lookup by name, parent and
depth, path, path lookup with aliases, properties and phandles. `RomTree` is the client interface's child, peer and
parent (section 6.3.2.2 of IEEE 1275-1994) above them.

**Physical memory.** `CircularList` is the intrusive doubly linked list, `MemRanges` the range list edited in place
while it is iterated over, `RomClaim` and `RomArena` the claim allocator above it (section 6.3.2.4 of IEEE 1275-1994,
from which the code says that it departs).

**Picol lists.** `PicolList` has the list printer and the list parser, `PicolRoundTrip` exactly which elements survive
the way through both.

Conventions: a `BUG_ON` ends the run, which methods report as `stopped` and state machines as `Halts`, `Stops` or
`Stopped`. Words are integers below 2^32 and arithmetic on them wraps explicitly. Object fields that the C code updates
are fields of classes; each method that changes state is proved against a function of the old state, and the properties
are lemmas about those functions. Such a function has laws that say what it gives without naming it: how every case
ends, by numbers, bytes and addresses. Positions in a device tree block are counted in four-byte cells where the tree is
concerned, in bytes where the code is. A block is shorter than 2^30 bytes.

## Where the code does not do what one would expect

Each entry has its exact condition, and a lemma in brackets a concrete input; the test for direct-store segments fails
for every input.

- `fdt_next_tag` stays where it is on a property whose length field is 0xFFFFFFF4, and only then (`NextTagProgress`);
  a scan ends iff it never meets one (`SettlesExactly`). [`StuckBlock`]
- `fdt_get_path` reads before the start of a buffer of two bytes or more exactly when the offset is at or past the end
  tag, but for a root whose name fits and has at least two slashes (`FdtGetPath`). [`LoneRootLeaves`]
- `fdt_path_offset` does not find the node whose path it is given exactly when an earlier sibling answers to a name on
  that path: the same name, or a name without '@' that the sibling's name extends by '@' (`PathRoundTrip`,
  `PathAndBack`). [`ShadowedPath`]
- `fdt_path_offset` calls itself for a path that starts with an alias. It returns exactly when the chain of aliases
  never comes back to a path it has been through (`EndsUnlessCycles`). [`SelfAlias`]
- Grants of the claim arena stay inside it, apart and increasing, and its failures final, exactly while RAM ends at or
  below 0x60000000; beyond, rounding up wraps to zero (`ArenaSafe`). The program itself always has 32 MiB of RAM
  (pvp.c:55), so it stays on the good side. [`OverrunWraps`, `OverrunFails`]
- The map call rounds its size down to whole pages, and maps nothing when the two addresses are equal (`MapCovers`);
  for others it never succeeds with less than a page (`MapDoneWhole`). [`MapsLess`]
- An empty claim takes a whole page, stops the run, or takes all memory, depending on the address (`EmptyClaim`).
  [`EmptyClaims`]
- The check for direct-store segments can never succeed (`SegmentNeverDirect`).
- Munging addresses is right exactly for aligned accesses (`MungeExact`). [`UnalignedWord`] An unaligned copy leaves
  guest memory exactly when it comes to the last eight bytes and an element starts there less than its size after the
  first (`SlotsInsideIs`, `FitsUnless`). [`WordAstray`]
- A NUL-terminated string of a big-endian guest is read right exactly when its NUL is in the page of its first byte,
  because the length of the whole string is taken for the number of bytes copied (`BigStrings`); a little-endian
  guest's always is (`LittleStrings`). [`CrossingString`]
- The NUL with which the client services close a string goes past the transfer buffer exactly when a little-endian
  guest's bytes fill the buffer without a NUL, or when a big-endian guest's string is as long as the buffer in memory
  (`ReadClosed`, `NoRoomIs`). [`FullPage`]
- `rom_read` loses the part of the disk that belongs to a page without translation: the position moves past it
  (`RomRead`). `rom_write` does not (`RomWrite`). [`LostPage`]
- "reg" and "available" are stored whole, whatever length the caller gave (`GetRanges`). [`RegIsStoredWhole`]
- Picol's list parser writes past a target of one byte exactly when the list starts with a character that it would
  write (`PicolListHead`, `OneByteTarget`). Only a caller with such a target meets this, and include/picol.h has none.
  [`OneByteLeft`]

## Model

| member | source | states |
|---|---|---|
| MmuRanges.MmuRangeFind | mmu_ranges.c:72-86 | returns the first entry that covers the address, or the head when none does |
| MmuRanges.RomFault | rom.c:1721-1741 | computes the partial function that the list denotes |
| MmuRanges.SeekPlace | mmu_ranges.c:48-62 | stops the run exactly when an entry before the insertion point overlaps without containing and agreeing; otherwise finds that point |
| MmuRanges.MmuRangeAdd | mmu_ranges.c:39-70 | either stops the run, exactly when the range is empty or clashes, or the list is the old one with the range at its place |
| MmuRanges.ClashExactly | mmu_ranges.c:48-56 | a range clashes with an entry iff some address is covered by both, unless the entry covers all of it, sends every address to the same place and has the same flags |
| MmuRanges.RefusedExactly | mmu_ranges.c:45-62 | adding stops the run iff the range has at most one address or clashes with any entry of the list |
| MmuRanges.TranslateAnyEntry | mmu_ranges.c:72-86 | in a well-nested list every covering entry gives the same translation, not only the first |
| MmuRanges.EarlyReturnSafe | mmu_ranges.c:48-62 | an accepted range clashes with no entry at all, so not looking at the later ones is sound |
| MmuRanges.AddedNested | mmu_ranges.c:39-70 | adding keeps the list sorted by base and overlapping entries nested and agreeing |
| MmuRanges.AddedTranslates | mmu_ranges.c:39-70 | an accepted range keeps all translations and adds exactly ea to ra + (ea - base) on its own addresses |
| MmuRanges.RomMmuCall | rom.c:583-614 | the map call's outcome and the new list are MapCall of its arguments, error and BUG_ON cases included |
| MmuRanges.MapEnds | rom.c:583-614 | how every map call ends: an error iff the mode is known, the addresses differ and the real one is outside RAM; unchanged for equal addresses; and when it stops the run |
| MmuRanges.PermittedIs | rom.c:583-598 | the known modes are -1 and -2 |
| MmuRanges.MapOutside | rom.c:603-604 | a call that maps a page outside RAM, and fails |
| MmuRanges.MapCallKeeps | rom.c:583-614 | the map call keeps RAM mapped to itself, pages whole, nesting, every range starting in RAM, and every translation there was |
| MmuRanges.RamIdentity | rom.c:712 | a RAM address translates to itself whatever else has been mapped |
| MmuRanges.MapOverRamStops | rom.c:600-612 | mapping a RAM address to a different one stops the run |
| MmuRanges.MapDoneWhole | rom.c:610-612 | an accepted map call with different addresses is at least a page long |
| MmuRanges.MapCovers | rom.c:600-612 | which of the bytes asked for a successful map call has mapped: those in whole pages, and none when virt equals phys; also where the request runs past the last address |
| MmuRanges.MapDoneFits | rom.c:610-612 | the whole pages of a successful map call do not wrap around |
| MmuRanges.MapsLess | rom.c:600-612 | a call for a page and a byte that maps a page, and one that maps an address to itself and so nothing |
| InsnBits.DecodeSpr | guest.c:581-583 | decoding mtspr and mfspr words gives back the SPR number, swapped halves included, and the register |
| InsnBits.DecodeSr | guest.c:564-574 | decoding mfsr and mtsr words gives back the segment register and the register |
| InsnBits.DecodeTlbie | guest.c:549-552 | decoding tlbie words gives back the register |
| InsnBits.Opcodes | include/ppc-defs.h:39-56 | the instruction constants and the mask are the primary and extended opcodes of the architecture |
| GuestCpu.WriteReadSpr | guest.c:584-692 | which SPRs can be written; a write is read back and leaves every other SPR, the GPRs, PC and MSR alone |
| GuestCpu.ReadsAs | guest.c:584-641 | what mfspr reads for each SPR number, 0 for the missing BATs, and which numbers are unhandled |
| GuestCpu.MtsprEnds | guest.c:646-693 | which SPR numbers mtspr can write, and that it flushes iff it leaves ROM mode |
| GuestCpu.MtsprThenMfspr | guest.c:580-693 | mtspr then mfspr moves a register's value to another through the SPR, with PC + 8 and nothing else changed |
| GuestCpu.MtmsrThenMfmsr | guest.c:694-702 | mtmsr then mfmsr reads back the guest's value, or the run stops because IR and DR differ |
| GuestCpu.RfiReturns | guest.c:575-579 | after writing SRR0 and SRR1, rfi lands at SRR0 with MSR = SRR1 and the GPRs kept, or stops the run |
| GuestCpu.MtsrThenMfsr | guest.c:564-574 | mtsr then mfsr moves a value through the segment register, and no other segment register changes |
| GuestCpu.TlbieDrops | guest.c:549-563 | tlbie changes nothing but the PC, and drops the page of its register, or everything before a sync |
| GuestCpu.UnsupportedExactly | guest.c:549-713 | exactly which instruction words are unhandled |
| GuestCpu.StopsExactly | guest.c:575-702 | an instruction stops the run iff it would leave IR and DR different |
| GuestCpu.ExecuteOk | guest.c:549-702 | every emulated instruction keeps IR and DR equal and the register files whole |
| GuestMmu.SegmentNeverDirect | guest.c:362-364 | the direct-store test is false for every segment register |
| GuestMmu.MmuBits | guest.c:91-113 | translation is on iff bits 5 and 4 of the MSR are set, and an MSR with one of them is refused |
| GuestMmu.BatFaultExactly | guest.c:346-377 | the BAT lookup stops the run iff the processor is no 601 or the address is in the block of an upper BAT, and never gives an address |
| GuestMmu.TranslatePage | rom.c:1721-1741 | translation moves whole pages: the page's real address plus the offset |
| GuestMmu.FastIsSlow | guest.c:396-416 | in a coherent state the cached path and the computed path give the same answer for every address |
| GuestMmu.GuestCoherent | pvp.c:72 | guest code may leave any values in the registers it can reach: the caches stay coherent and no translation changes |
| GuestMmu.FaultCoherent | guest.c:429-482 | a handled page fault keeps the caches coherent |
| GuestMmu.FaultEnds | guest.c:429-482 | how every page fault ends: handled iff the page lies in memory, is not present and the kernel accepts it, and then the page is in the active table where it lies in memory and nothing else has changed; and when it stops the run |
| GuestMmu.FaultServes | guest.c:429-482 | after a handled fault every address of the page is found through the table, where it lies in memory |
| GuestMmu.EmulateCoherent | guest.c:549-702 | every emulated instruction keeps the caches coherent, tlbie, rfi, mtmsr and SDR1 writes included |
| GuestMmu.EmulateEnds | guest.c:549-702 | an emulated instruction drops exactly what it says from the translated table and leaves the rest of translation alone |
| GuestMmu.OthersEnd | rom.c:583-614 | what evictions, map calls and single stepping change, and what they leave alone |
| GuestMmu.ExecuteSdr1 | guest.c:677-686 | an instruction that leaves ROM mode drops every cached translation |
| GuestMmu.MapCoherent | rom.c:583-614 | a map call keeps the caches coherent without flushing them |
| GuestMmu.EvictCoherent | guest.c:396-408 | so does an eviction by the kernel, from either context |
| GuestMmu.StepCoherent | guest.c:379-482 | every event keeps coherence: guest code, faults, evictions, map calls, instructions, single stepping |
| GuestMmu.RunCoherent | guest.c:379-482 | after every run from start-up the caches agree with the ranges, the translated table is empty outside ROM mode, the untranslated one is the identity, and both paths agree everywhere |
| GuestMmu.AnySdr1 | guest.c:677-686 | guest code that loads a register and moves it to SDR1 reaches every value of SDR1, with nothing cached |
| GuestState.Guest.constructor | guest.c:132-194 | start-up leaves a valid guest in ROM mode with translation on and nothing cached, and sets MSR, PVR, HID0 and the segment registers |
| GuestState.Guest.SetVmm | guest.c:68-89 | GPRs, user registers and PC survive a switch between the two pages, and the page tables stay where they are |
| GuestState.Guest.SetMsr | guest.c:91-113 | stops exactly when IR and DR differ; otherwise the active page matches them and runs with the guest's MSR and the monitor's bits |
| GuestState.Guest.GuestRuns | pvp.c:72 | guest code between two exits, with any effect on its registers and its memory, is the state machine's step and keeps validity |
| GuestState.Guest.RomReturn | rom.c:1709-1717 | so is the end of a client interface call: the result in r3, and the PC from LR |
| GuestState.Guest.ToggleSs | guest.c:244-250 | flips single stepping and changes nothing the guest can see |
| GuestState.Guest.Unmap | guest.c:196-207 | removes exactly the page of the address |
| GuestState.Guest.UnmapAll | guest.c:209-216 | empties the table of the translated context |
| GuestState.Guest.Map | guest.c:218-236 | stops exactly on misaligned addresses; otherwise adds the page to the active context if the kernel accepts |
| GuestState.Guest.BatLookup | guest.c:346-377 | never translates: reports nothing, or stops on a BAT hit or an unknown processor |
| GuestState.Guest.BackmapEx | guest.c:379-421 | both paths compute the state machine's translation |
| GuestState.Guest.Backmap | guest.c:423-427 | the answer does not depend on what is cached, and a result is always stored |
| GuestState.Guest.Fault | guest.c:429-482 | does to the two pages the fault step of the state machine; succeeds iff the page lies in memory and the kernel accepts it, and then the active table has it there |
| GuestState.Guest.MapRanges | rom.c:583-614 | the map call is the state machine's step, with translations cached |
| GuestState.Guest.ToChunk | guest.c:316-336 | one pass of the copy loop: all of the chunk or none of it is stored, when the run stops, and when an access leaves the memory |
| GuestState.Guest.GuestTo | guest.c:307-344 | stores exactly what byte-by-byte translation stores, succeeds iff every byte translates, stops exactly on CopyHalts, ragged lengths included; an unaligned little-endian copy leaves the munged stores instead, and leaves the memory exactly when FitsUnaligned fails |
| GuestState.Guest.FromChunk | guest.c:264-287 | one pass of the load loop, in the same way |
| GuestState.Guest.GuestFrom | guest.c:252-290 | loads exactly what byte-by-byte translation loads, and returns the length of the translatable prefix; an unaligned little-endian copy gets the munged loads instead, and leaves the memory exactly when FitsUnaligned fails |
| GuestState.Guest.Fetch | guest.c:491-492 | the instruction word of either byte order at any address, if all of it translates; when it stops the run and when it leaves the memory |
| GuestState.BigEndianIs | guest.c:491-492 | the four bytes of a word, most significant first, give the word |
| GuestState.RfiBytes | guest.c:575 | the bytes 4C 00 00 64 are rfi |
| GuestState.WordAtIs | guest.c:491-492 | when the four addresses translate and hold the bytes of a word, in the guest's order, that word is fetched |
| GuestState.Guest.MoveFromSpr | guest.c:584-641 | the switch reads the SPR of the CPU the pages stand for |
| GuestState.Guest.MoveToSpr | guest.c:646-693 | the switch writes it, and flushes when ROM mode is left |
| GuestState.Guest.PerformSegment | guest.c:549-574 | tlbie, mfsr and mtsr are the CPU's step |
| GuestState.Guest.PerformMsr | guest.c:575-702 | rfi, mfmsr and mtmsr are the CPU's step across the switch of pages |
| GuestState.Guest.PerformSpr | guest.c:580-693 | mfspr and mtspr are the CPU's step, unhandled SPRs change nothing |
| GuestState.Guest.Perform | guest.c:549-713 | two pages refine one CPU: any instruction word does to the object what it does to the abstract state, and keeps validity |
| GuestState.Guest.SkipLock | guest.c:505-547 | recognises a lock sequence exactly by its words, stores SPRG0 to the lock and moves the PC past it, from any PC and to any address |
| GuestState.LockSeqs | guest.c:505-547 | each sequence moves SPRG0 to a register and stores it conditionally at the address that is stored to when it is skipped |
| GuestState.LockSkips | guest.c:505-547 | at the words of a sequence it is skipped, SPRG0 is where the lock lies in memory and nothing else has changed |
| GuestState.LockEnds | guest.c:505-547 | when reading the sequence or storing the lock stops the run or leaves memory |
| GuestState.StoredWord | guest.c:307-344 | a stored word is where its address lies in memory, in the guest's byte order |
| GuestState.Guest.Emulate | guest.c:484-714 | from any PC, fetching and performing the instruction there, or skipping a lock sequence, is EmulateAt of the abstract state and memory |
| GuestState.EmulateWord | guest.c:484-714 | with a word at an aligned PC that starts no sequence, emulation does what the CPU does for exactly that word |
| GuestState.FetchEnds | guest.c:484-565 | when fetching stops the run or leaves memory, and that a missing word after tlbie counts as 0 |
| GuestState.EmulateNowhere | guest.c:491-492 | at an aligned PC without memory emulation fails, or stops the run on a BAT hit |
| GuestState.EmulationIsEvent | guest.c:484-714 | whatever emulation does, lock sequences included, is an event of the state machine, so RunCoherent covers it |
| GuestString.PmemFromString | pmem.c:90-144 | a NUL-terminated read inside memory, for either byte order: the count and the bytes written |
| GuestString.GuestFromString | guest.c:252-290 | a NUL-terminated read is ReadString of the abstract state and memory |
| GuestString.LittleStrings | guest.c:252-290 | for a little-endian guest it always gives the guest's string: the bytes up to and with the first NUL, or all that translate |
| GuestString.BigStrings | pmem.c:136-137 | for a big-endian guest a read of any length gives the guest's string iff its NUL is in the page of its first byte, or for no bytes iff it is empty |
| GuestString.CrossingString | pmem.c:136-137 | a one-character string that is not read right |
| GuestString.ReadClosed | rom.c:986 | reading a string into a buffer of at most a page and closing it writes past the buffer exactly when NoRoom holds of guest memory |
| GuestString.NoRoomIs | rom.c:986 | NoRoom, which looks at guest memory only, says when the count returned is no index of the buffer |
| GuestString.FullPage | rom.c:986 | a page without a NUL is such memory, for either byte order |
| FlatCopy.PhysPage | guest.c:379-421 | a page translates, fails to translate or stops the run as a whole, page offsets kept |
| FlatCopy.PhysIsBacking | guest.c:379-421 | an address translates to where it lies in memory: itself, or where the ranges send it |
| FlatCopy.HaltsByShape | guest.c:252-344 | with translation off and in ROM mode a copy stops the run iff its first page, or all of it, is no whole number of elements |
| FlatCopy.HaltsByBat | guest.c:346-377 | otherwise it stops the run iff its first address hits a BAT or the processor is no 601 |
| FlatCopy.WritePage | guest.c:326 | byte-by-byte storing inside a page is one store at its real address |
| FlatCopy.ReadPage | guest.c:274 | byte-by-byte loading inside a page is one load |
| FlatCopy.WriteSplit | guest.c:316-337 | a store can be split anywhere |
| FlatCopy.ReadSplit | guest.c:264-287 | so can a load |
| FlatCopy.SpanEnds | guest.c:316-333 | nothing after the first untranslatable byte is stored, loaded or counted |
| FlatCopy.WriteReach | guest.c:316-337 | storing a span is storing the part of it that translates |
| FlatCopy.ChunkAligned | guest.c:319 | the chunks of a copy of whole elements are whole except when an unaligned copy leaves its page |
| FlatCopy.LaterChunk | guest.c:316-337 | a page after the first is ragged only if it is the last of a copy that is |
| FlatCopy.UnalignedWhole | guest.c:316-337 | an unaligned copy stays in its page or stops the run |
| FlatCopy.FitsUnless | guest.c:252-344 | an unaligned little-endian copy leaves the memory exactly when it comes to its last eight bytes and an element starts there less than its size after the first |
| FlatCopy.OneUnaligned | pmem.c:70-134 | one unaligned element is stored to and loaded from its munged address |
| FlatCopy.UnalignedForGuest | pmem.c:70-134 | where such an element is among the guest's bytes |
| FlatCopy.ElementsTwice | pmem.c:70-82 | reversing elements for a little-endian guest is its own inverse |
| FlatCopy.WriteFrame | guest.c:307-344 | a store changes nothing outside the real addresses of its span |
| FlatCopy.ReadBack | guest.c:252-344 | write then read gives the source where the translation is injective on the span |
| FlatCopy.CopyRoundTrip | guest.c:252-344 | the same for elements of any size and either byte order |
| FlatCopy.RamInjective | rom.c:712 | spans of RAM always translate whole and injectively, with translation off and in ROM mode |
| Pmem.MungeExact | pmem.c:70-82 | a munged access touches the guest's bytes in reverse order, and no others, iff it is aligned |
| Pmem.UnalignedWord | pmem.c:70-82 | where a word at address 2 lands |
| Pmem.SpliceView | pmem.c:70-82 | a munged store of an aligned element is a little-endian store into L(x) = M[x ^ 7], with the rest unchanged |
| Pmem.LoadView | pmem.c:117-134 | a munged load of an aligned element is a little-endian load from L |
| Pmem.MungeInside | pmem.c:70-82 | munged aligned accesses stay inside the memory |
| Pmem.SlotsInsideIs | pmem.c:70-82 | the munged accesses of a copy stay inside memory iff SlotsFit of its start, length and element size |
| Pmem.WordAstray | pmem.c:70-82 | those of a word six bytes before the end do not |
| Pmem.PhysMem.StoreMunged | pmem.c:70-82 | the store loop is one store per element at its munged address, in order, aligned or not, and leaves the memory iff one of them does |
| Pmem.PhysMem.LoadMunged | pmem.c:117-134 | the load loop is one load per element from its munged address, and leaves the memory iff one of them does |
| Pmem.StoresAligned | pmem.c:70-82 | for aligned copies those stores are one store of the reversed elements into L |
| Pmem.LoadsAligned | pmem.c:117-134 | for aligned copies those loads are one load of the reversed elements from L |
| Pmem.PhysMem.PmemTo | pmem.c:52-88 | stops exactly on a ragged length or a bad size; otherwise stores the truncated length, munged for a little-endian guest; leaves the memory exactly when CopyFits fails, wrapping spans included |
| Pmem.PhysMem.PmemFrom | pmem.c:90-144 | the same for loads without PMEM_FROM_NUL_TERM |
| Pmem.PhysMem.MostIs | pmem.c:60-67 | a copy is cut at the end of memory unless its end wraps to inside it |
| Pmem.PhysMem.HaGra | pmem.c:9-23 | host addresses inside memory, and no others, lead back to real addresses |
| RomDisk.DiskHandle.Seek | rom.c:285-297 | succeeds iff the offset is in the partition, and then establishes the invariant |
| RomDisk.DiskHandle.Read | rom.c:299-317 | keeps the position in the partition and moves it by the bytes read, which are those at the position, however few the host moves |
| RomDisk.DiskHandle.Write | rom.c:319-338 | the same for writes; the rest of the disk is unchanged |
| RomDisk.MovedFull | rom.c:1522-1551 | a host that moves all it is asked to is limited by the partition only |
| RomDisk.PutBytes | rom.c:1540-1542 | a store of single bytes stores the bytes as they are, up to the first that does not translate |
| RomDisk.SameFrame | rom.c:1529 | the page-crossing BUG_ON of the transfer loops never fires |
| RomDisk.RomRead | rom.c:1522-1551 | stores the bytes that the host moves up to the first that does not translate, returns that count; the position moves by the count plus the lost rest of a missing page |
| RomDisk.RomWrite | rom.c:1588-1617 | writes the bytes of the guest that translate and that host and partition take, returns that count and moves the position by it |
| RomDisk.WriteThenRead | rom.c:1496-1625 | what part of the guest's bytes was written at a position of the partition comes back when read from there to an injective span, and the position is after it |
| RomDisk.LostPage | rom.c:1523-1551 | a read of two pages that stores one and moves the position by two |
| RomGetprop.RangeCount | lib/ranges.c:5-16 | the number of ranges |
| RomGetprop.SizeIs | rom.c:904-919 | the size stored for a range is its number of addresses |
| RomGetprop.RangeCells | rom.c:901-936 | the i-th cells are the base and the size of the i-th range |
| RomGetprop.WriteStops | rom.c:901-936 | cells after the first that is not stored whole are not stored |
| RomGetprop.GetRanges | rom.c:845-939 | stores all ranges as base and size cells, reports a length bounded by the caller's, and when its BUG_ONs fire |
| RomGetprop.ReportedLength | rom.c:845-939 | the length reported is all of it when none was given, and else no more than was asked for |
| RomGetprop.RegIsStoredWhole | rom.c:845-939 | asked for one byte of "reg", all eight are stored and one is reported |
| RomGetprop.PutData | rom.c:944-953 | stores as much of a property as was asked for |
| RomGetprop.StoredMeans | rom.c:944-953 | a store is reported as done iff all its bytes translate, and then they are read back |
| RomGetprop.StoredNowhere | rom.c:944-953 | without an address nothing is stored, and that is no failure |
| RomGetprop.PropertyNames | rom.c:827-900 | the names that are treated specially |
| RomGetprop.RomGetpropEx | rom.c:827-957 | on any offset: the name, the memory node's lists, or the first own property of that name; -1 when there is none or no node |
| RomGetprop.PropertyOnTree | rom.c:827-957 | on a node of an encoded tree the property is its name, "/" for the root, or its first own property of that name with the tree's data |
| RomGetprop.AvailableReads | rom.c:888-939 | after any run of proper claims, reading "available" to memory that translates stops on no BUG_ON |
| FdtBlock.FdtNextTag | fdt/fdt.c:93-141 | the scanner's tag and next offset on any bytes |
| FdtBlock.TagExactly | fdt/fdt.c:93-141 | tag, next offset and error for any bytes, by the numbers of the format |
| FdtBlock.PropStep | fdt/fdt.c:118-124 | a property moves the scan by the 32-bit sum of header and length |
| FdtBlock.NextTagProgress | fdt/fdt.c:93-141 | on any block a step ends the scan or lands on a larger aligned offset at most 3 past the block, except at a stuck property and there always |
| FdtBlock.SettlesExactly | fdt/fdt.c:93-141 | a scan of any block comes to an end iff it never meets a stuck property |
| FdtBlock.StuckBlock | fdt/fdt.c:118-124 | an eight-byte block whose scan never ends |
| FdtBlock.LengthsInRangeSettle | fdt/fdt.c:93-141 | where no property length exceeds the block every scan ends |
| FdtTree.EncodeHolds | fdt/fdt.c:93-141 | the byte encoding of a tree has the tree's layout wherever it stands |
| FdtTree.EncodeEncodes | fdt/fdt.c:93-141 | encoding a tree and ending it gives a block that encodes it |
| FdtTree.SmallEncodes | fdt/fdt.c:93-141 | the literal bytes of a small tree with all five tags and padding |
| FdtWalk.FdtNextNode | fdt/fdt.c:152-190 | the walker's offset and depth from any offset of any block on which it returns |
| FdtWalk.NextNodeAdvances | fdt/fdt.c:152-190 | every step that succeeds moves forward, at most 3 past the block |
| FdtWalk.WalkEnds | fdt/fdt.c:152-190 | the walk's errors on any bytes |
| FdtWalk.NextInBody | fdt/fdt.c:161-187 | from inside a node the next node is its first subnode, or what follows the node |
| FdtWalk.WalkVisitsPreorder | fdt/fdt.c:152-190 | iterating from the root visits every node of the encoded tree in preorder with its true depth, then reports the end by depth -1 |
| FdtTrails.TrailsComplete | fdt/fdt.c:152-190 | the preorder has exactly the nodes of the tree |
| FdtTrails.PreorderChain | fdt/fdt.c:152-190 | consecutive nodes of the preorder share their ancestors up to the parent of the second |
| FdtTrails.WalkIncreases | fdt/fdt.c:152-190 | the walk's offsets strictly increase |
| FdtLookup.NodenameEqMatches | fdt/fdt_ro.c:58-76 | the name test is equality, or extension by '@' of a name without '@' |
| FdtLookup.FdtSubnode | fdt/fdt_pvp.c:8-27 | the search for any child |
| FdtLookup.FdtSibling | fdt/fdt_pvp.c:29-48 | the search for any later sibling |
| FdtLookup.FdtSubnodeOffsetNamelen | fdt/fdt_ro.c:108-125 | the search for a child by name |
| FdtLookup.SubnodeFinds | fdt/fdt_pvp.c:8-27 | on an encoded tree the search finds the first child that answers, never a deeper node, and "not found" exactly when none does |
| FdtLookup.SiblingFinds | fdt/fdt_pvp.c:29-48 | the same for later siblings |
| FdtPath.FdtSupernodeAtdepthOffset | fdt/fdt_ro.c:379-413 | the ancestor at the depth and the node's depth; each error exactly for offsets that are no node's |
| FdtPath.FdtNodeDepth | fdt/fdt_ro.c:415-424 | the number of ancestors |
| FdtPath.FdtParentOffset | fdt/fdt_ro.c:426-434 | the encloser, and "not found" for the root |
| FdtPath.TrailIndex | fdt/fdt.c:152-190 | a node is met once by the walk, after all nodes before it and before all after it |
| FdtGetPath.FdtGetName | fdt/fdt_ro.c:203-221 | the name when a node starts at the offset, the error otherwise |
| FdtGetPath.NameOfTree | fdt/fdt_ro.c:203-221 | at a node of an encoded tree that is its name |
| FdtGetPath.ScanBack | fdt/fdt_ro.c:344-347 | the inner loop leaves the buffer iff no slash is left before the last byte; otherwise it stops just after one |
| FdtGetPath.Pop | fdt/fdt_ro.c:343-350 | on a path of more than one name it drops exactly the last name and its slash, inside the buffer |
| FdtGetPath.PopTo | fdt/fdt_ro.c:343-350 | popping leaves the first names of the trail |
| FdtGetPath.PopPast | fdt/fdt_ro.c:343-350 | popping to depth -1 leaves the buffer iff it holds no more slashes than there are names to drop |
| FdtGetPath.PastRoot | fdt/fdt_ro.c:343-350 | after a whole tree that is so iff the root's name has at most one slash or does not fit |
| FdtGetPath.Visit | fdt/fdt_ro.c:338-360 | one pass keeps in the buffer the ancestor names that fit, too-long branches skipped |
| FdtGetPath.Terminate | fdt/fdt_ro.c:362-369 | the last slash becomes the NUL except for the root |
| FdtGetPath.FdtGetPath | fdt/fdt_ro.c:327-377 | on any offset: leaves a buffer of two bytes or more iff the offset is at or past the end tag, but for the root names of LeavesBuffer; otherwise succeeds iff the path and its NUL fit and then the buffer holds exactly the ancestor names joined by '/'; error codes otherwise |
| FdtGetPath.LoneRootLeaves | fdt/fdt_ro.c:343-350 | offset 12 of a tree of one nameless root is such an offset |
| FdtResolve.FollowPath | fdt/fdt_ro.c:183-200 | resolves the components one after the other from any node, failures included |
| FdtResolve.ResolveDescends | fdt/fdt_ro.c:183-200 | on an encoded tree resolving a path is descending by its names, first match each time |
| FdtResolve.LookupUnshadowed | fdt/fdt_ro.c:108-125 | looking a child up by its own name finds it iff no earlier sibling shadows it |
| FdtResolve.PathRoundTrip | fdt/fdt_ro.c:159-377 | fdt_path_offset of the string of fdt_get_path is the node iff nothing on the way down is shadowed |
| FdtResolve.ShadowedPath | fdt/fdt_ro.c:159-377 | a tree with a node whose own path leads to its sibling |
| FdtResolve.DistinctNamesUnshadowed | fdt/fdt_ro.c:58-76 | distinct sibling names, none extending a name without '@' by '@', suffice |
| FdtAliases.FdtGetAliasNamelen | fdt/fdt_ro.c:310-320 | where the alias's value starts in the block, or NULL |
| FdtAliases.ResolveGlued | fdt/fdt_ro.c:165-200 | resolving an alias's value and then the rest of the path is resolving the two joined |
| FdtAliases.FdtPathOffset | fdt/fdt_ro.c:159-201 | the node of the path with its aliases expanded, through chains of aliases; bad path when a name of the chain is no alias; leaves the block when a value of the chain has no NUL in it |
| FdtAliases.AliasLeads | fdt/fdt_ro.c:159-201 | an alias whose value is the path of a node leads to that node iff nothing on the way is shadowed |
| FdtAliases.NoSuchAlias | fdt/fdt_ro.c:174-175 | a name that is no alias is a bad path |
| FdtAliases.RunsOut | fdt/fdt_ro.c:161 | a value without a NUL in the rest of the block is read past its end |
| FdtAliases.NeverOutside | fdt/fdt_ro.c:159-201 | in the block of a tree no value is |
| FdtAliases.AliasesName | fdt/fdt_ro.c:310-320 | where the aliases are |
| FdtAliases.EndsUnlessCycles | fdt/fdt_ro.c:165-181 | the recursion on aliases ends iff the chain of aliases never comes back to a path |
| FdtAliases.SelfAlias | fdt/fdt_ro.c:165-181 | an encoded tree with the alias a = "a", for which it does not end |
| FdtAliases.AliasOnTree | fdt/fdt_ro.c:310-320 | on an encoded tree an alias is the first own property of that name of the first child of the root that answers to "aliases" |
| FdtAliases.TreeReadable | fdt/fdt_ro.c:310-320 | on an encoded tree every alias can be looked up |
| FdtAliases.PathAndBack | fdt/fdt_ro.c:159-377 | fdt_get_path followed by fdt_path_offset gives the offset back iff nothing on the way down is shadowed |
| FdtProps.FdtGetPropertyNamelen | fdt/fdt_ro.c:223-270 | on any offset of any block: the property's offset and length, inside the block, or the error |
| FdtProps.StringEqIs | fdt/fdt_ro.c:83-89 | the name test holds iff the name stands at the offset with a NUL after it |
| FdtProps.SpellsOne | fdt/fdt_ro.c:83-89 | at an offset stands one name at most |
| FdtProps.LongerName | fdt/fdt_ro.c:223-270 | asking for "reg" does not find "reg-s" |
| FdtProps.LookupEnds | fdt/fdt_ro.c:223-270 | the lookup's errors on any bytes |
| FdtProps.OwnPropFirst | fdt/fdt_ro.c:223-270 | the property found is no later than any own property of that name |
| FdtProps.OwnPropIs | fdt/fdt_ro.c:223-270 | and it is one |
| FdtProps.PropertyLookup | fdt/fdt_ro.c:223-270 | on an encoded tree the lookup finds the first own property of that exact name, never a descendant's |
| FdtProps.OwnPropBytes | fdt/fdt_ro.c:272-285 | the block has the property's data twelve bytes on |
| FdtProps.FdtNodeOffsetByPropValue | fdt/fdt_ro.c:436-461 | from any offset of any block: the first node after it, on the walk, whose property has that value, or the error that ends the walk |
| FdtProps.HasValueIs | fdt/fdt_ro.c:447-455 | a node has a value iff its property has that length and those bytes |
| FdtProps.ValueFinds | fdt/fdt_ro.c:436-461 | on an encoded tree that is the first such node after the start, and "not found" iff there is none |
| FdtProps.FdtGetPhandle | fdt/fdt_ro.c:298-308 | the phandle, 0 when the property is missing or not four bytes |
| FdtProps.PhandleName | fdt/fdt_ro.c:298-308 | the name of the property |
| FdtProps.FdtNodeOffsetByPhandle | fdt/fdt_ro.c:463-470 | the first node with that phandle; bad phandle for 0 and -1 |
| FdtProps.PhandleRoundTrip | fdt/fdt_ro.c:298-470 | searching for the phandle of a node gives the node back when no other node has it |
| RomTree.MungeRoundTrip | rom.c:111-138 | a munged phandle leads back to its offset iff the offset leaves the munge bit clear, so always below 2^28 |
| RomTree.MungeBits | rom.c:111-138 | bit 28 is set in phandles and clear in offsets, and the other bits are the same |
| RomTree.RomChild | rom.c:1047-1079 | the child service on any phandle |
| RomTree.RomPeer | rom.c:1081-1118 | the peer service, with peer(0) the root |
| RomTree.RomParent | rom.c:1120-1158 | the parent's phandle, 0 for the root, and exactly when the service stops the run |
| RomTree.ChildLeads | rom.c:1047-1079 | child is the first child of the node, 0 when it has none |
| RomTree.PeerLeads | rom.c:1081-1118 | peer is the next sibling, 0 when there is none |
| RomTree.Nowhere | rom.c:1047-1118 | a phandle where no begin tag stands has no child and no peer |
| RomTree.FamilyLaws | rom.c:1047-1158 | parent(child(x)) = x, parent(peer(x)) = parent(x), and when there is no child or peer |
| RomTree.ChildThenParent | rom.c:1047-1158 | calling child and then parent gives the phandle back, and child is 0 iff there are no children |
| RomTree.PeerThenParent | rom.c:1081-1158 | a peer has the parent of the node asked about, and peer is 0 iff no later sibling exists |
| RomTree.ClientWalk | rom.c:1047-1118 | walking child and peer from a node visits exactly its subtree in preorder and ends |
| RomTree.ClientWalkAll | rom.c:1047-1118 | from peer(0) every node is visited exactly once |
| CircularList.List.AddTail | include/list.h:34-68 | inserts before any node of the circle and keeps it doubly linked |
| CircularList.List.Del | include/list.h:77-94 | unlinks any entry, keeps the circle, poisons the entry's links |
| CircularList.List.Next | include/list.h:264-286 | iteration goes round the circle in order and ends at the head |
| MemRanges.SeekPlace | lib/ranges.c:54-65 | stops the run exactly when an entry before the insertion point contains the range; otherwise finds that point |
| MemRanges.RangeAdd | lib/ranges.c:46-70 | either stops, exactly on those and on empty or one-address ranges, or the list has the range at its place and the nodes keep their identity |
| MemRanges.AddRefused | lib/ranges.c:46-70 | adding stops the run iff the range has at most one address or one entry holds all of it |
| MemRanges.CutEntry | lib/ranges.c:79-115 | one pass: the entry is trimmed, deleted or split in place, under the saved next node |
| MemRanges.RangeRemove | lib/ranges.c:72-116 | the list is the old one with each range cut, still sorted, linked and made of its old nodes and new ones; stops exactly on an empty or one-address request or when a split would leave one address on the left |
| MemRanges.RemoveRefused | lib/ranges.c:72-116 | removing stops the run iff the range has at most one address or would leave exactly one address of an entry before it and some after it |
| MemRanges.CutAllHolds | lib/ranges.c:72-116 | removal is set difference on addresses |
| MemRanges.CutAllSorted | lib/ranges.c:72-116 | removal keeps the list sorted and disjoint |
| MemRanges.AddedHolds | lib/ranges.c:46-70 | adding a free range is accepted, adds exactly its addresses and keeps the order |
| Bits.AlignIs | include/defs.h:15-17 | ALIGN rounds down for every power of two |
| Bits.AlignUpIs | include/defs.h:15-19 | ALIGN_UP rounds up for every power of two, wrapping to zero at the top |
| Bits.BitByBit | include/defs.h:15-40 | the bitwise operators bit by bit |
| RomClaim.StartsWith | rom.c:714-721 | all of RAM is available and the arena is its last 16 MiB |
| RomClaim.RomMemory.RomClaimEx | rom.c:424-473 | one claim does to the lists and the arena pointer what ClaimStep does to their values |
| RomClaim.FixedEnds | rom.c:456-472 | a fixed claim is granted iff it ends inside RAM, at the address asked for, and takes its pages |
| RomClaim.ArenaEnds | rom.c:437-454 | an arena claim is granted iff it ends inside RAM from the first multiple of its alignment on, at that address; where the pointer goes, refusals and wrapping included |
| RomClaim.RunGrants | rom.c:424-473 | so after every run of proper claims |
| RomClaim.PageHull | rom.c:469-471 | the range removed is the smallest one of whole pages around the claim, with no wrap |
| RomClaim.TakeAccounts | rom.c:465-472 | a granted claim removes exactly its page hull |
| RomClaim.RunAccounts | rom.c:424-473 | after every run of non-empty, non-wrapping claims no BUG_ON has fired and the free set is RAM minus the page hulls of the grants, sorted and page aligned |
| RomClaim.RunReadable | rom.c:904-919 | after any such run every free range is whole pages |
| RomClaim.EmptyClaim | rom.c:465-472 | what an empty claim does, in the arena and at every address |
| RomClaim.EmptyTake | rom.c:465-472 | taking no bytes takes a page, stops the run or takes everything, by the address |
| RomClaim.EmptyClaims | rom.c:465-472 | three empty claims that take a page, stop the run and take everything |
| RomArena.GrantInside | rom.c:437-454 | and every grant lies in the arena |
| RomArena.GrantsApart | rom.c:437-454 | while RAM ends at or below 0x60000000 a later grant lies past an earlier one, and a failure is final |
| RomArena.GrantsAligned | rom.c:437-454 | grants are aligned for every size of RAM |
| RomArena.ArenaSafe | rom.c:437-454 | each of inside, apart, increasing and final holds of all runs iff RAM ends at or below 0x60000000 |
| RomArena.OverrunWraps | rom.c:437-454 | beyond that, five requests of which the second fails, the third is granted at address 0 and the fifth gets the first one's memory again |
| RomArena.OverrunFails | rom.c:437-454 | those requests break all four |
| PicolList.PicolNeedsBraces | include/picol.h:4342-4365 | empty, or with a special character |
| PicolList.SpecialIs | include/picol.h:4342-4365 | the special characters and the white space by their codes |
| PicolList.PicolLappend | include/picol.h:775-795 | succeeds iff the result and its NUL fit, and then the buffer holds it; otherwise the buffer is unchanged |
| PicolList.Pass | include/picol.h:1175-1237 | one pass of the parser over the brace stack and the target |
| PicolList.QuoteInside | include/picol.h:1228-1247 | a quote inside an element is a character like others, except after white space |
| PicolList.QuotedMiddle | include/picol.h:1228-1247 | the element a"b is whole |
| PicolList.PicolListHead | include/picol.h:1156-1242 | the element in the target and the position after it, or NULL; leaves the target iff it has one byte and the list Writes |
| PicolList.NoElement | include/picol.h:1162-1173 | NULL iff there is no room at all or nothing but white space |
| PicolList.OneByteTarget | include/picol.h:1156-1242 | Writes, which looks at the first three characters of the list after white space, says when a one-byte target gets a character |
| PicolList.OneByteLeft | include/picol.h:1156-1242 | the list "a" gives it one |
| PicolRoundTrip.ClosesIs | include/picol.h:1190-1217 | the brace stack accepts exactly the balanced elements of inner depth at most 30 |
| PicolRoundTrip.ScanThrifty | include/picol.h:1175-1237 | the parser never writes more than it consumes, up to a last character that stops it |
| PicolRoundTrip.QuotedElement | include/picol.h:1228-1247 | a quoted element, white space included, is taken off whole without its quotes |
| PicolRoundTrip.ElementRoundTrip | include/picol.h:775-1242 | an appended element comes back whole, with the rest of the list after it, iff it survives: shorter than the target less one, and balanced if braced or without braces, \v and \f if not |
| PicolRoundTrip.ListRoundTrip | include/picol.h:213-216 | iterating over the list built from surviving elements gives exactly them and then ends |

## Left out

- The kernel's side of the VMM calls, vmm.c and disk.c: page tables are maps, evictions are events, and what guest code
  and the host disk do is given.
- Monitor commands that write registers: they set the MSR and SDR1 without the switches and flushes.
- GuestState.Guest.constructor: the kernel calls that make the two contexts succeed.
- GuestState.Guest.GuestTo: elements have one, two or four bytes, as in all calls; what memory holds after an access has
  left it is not followed.
- GuestState.Guest.GuestFrom: the same; NUL-terminated reads are in `GuestString`.
- GuestString.PmemFromString: spans do not wrap around; a search for the NUL that leaves guest memory is reported and
  not followed, because what the host has there is not known.
- GuestString.GuestFromString: the same, and single bytes, as in all calls.
- GuestString.ReadClosed: the buffer is no longer than a page, as all are.
- BAT and hash table translation, which the program only has stubs for.
- Marshalling of client interface arguments through guest memory, the console, seek's upper half, and the services
  that are combinations of those here (package and path conversions, open and close).
- rom_file handles, which leave the position to the host.
- FdtWalk.FdtNextNode: is about walks that return; one that meets a stuck property does not (`SettlesExactly`).
- FdtGetPath.FdtGetPath: is about blocks that encode a tree in which names below the root have no slashes.
- FdtAliases.FdtPathOffset: is about chains of aliases that end.
- FdtProps.FdtGetPropertyNamelen: the scan for the property returns and stays inside the block.
- RomGetprop.RomGetpropEx: where it looks for a property, the same, and the property found has its data inside the
  block.
- The device tree header checks, version 16 blocks and the memory reservation block: the structure and strings blocks
  are taken as given, and the tree starts at offset 0.
- Searches by device type and by compatible string, which would repeat the search by value.
- MemRanges.RangeAdd: allocation does not fail.
- RomClaim.RunAccounts: is about non-empty claims whose end does not wrap; empty ones are in `EmptyClaim`.
- RomArena.ArenaSafe: alignments are powers of two, and sizes and alignments at most the RAM size.
- Picol's evaluator, commands and glob matching.

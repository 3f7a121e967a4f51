# Limine, verified pieces

This project models the parts of the Limine boot loader (vendored under `boot/limine/limine`) that
do the most work on state, and proves what they promise. Each component is one or a few modules.

- **Page tables** (`PageTables`, `PageEntryWords`, `PagemapBuilder`): x86-64 tables of 4 or 5 levels
  in memory, with 4 KiB, 2 MiB and 1 GiB pages. Mapping a page changes the translation of that page
  and of nothing else, also where large pages are split recursively on the way.
- **Memory map and allocator** (`Memmap`, `MemmapSpec`, `MemmapPasses`, `MemmapPunch`,
  `MemmapPanic`, `MemoryMap`, `Allocator`, `AllocatorRuns`, `MemmapQueries`): an array of entries
  edited in place. Its meaning is the type of every address; sanitising, punching, allocating and
  freeing are pointwise changes of it.
- **Packer** (`SuffixArray`, `LimlzPack`, `LimlzParse`, `LimlzFormat`, `LimlzDeadEnd`, `Crc32`,
  `LimlzImage`): suffix array, match finder, optimal parse and emission, against the decompressor of
  stage 1.
- **BIOS installer** (`UndoLog`, `Device`): a write-back cache of one block over a disk, with an undo
  log. Whatever calls were made and wherever the first one failed, rolling back restores the disk.
- **Reading** (`Volume`, `FatChain`, `Blake2b`): a read cache against the raw disk, FAT chains with
  their loop detection, and a streaming hash against its standard.
- **Menu** (`MenuPath`, `MenuTree`, `MenuFind`): paths of entries with escapes and duplicate names,
  finding an entry by its path, and the numbering of the drawn tree.
- **ELF** (`ElfRelr`, `ElfLoad`): compressed relative relocations, the checks on program headers, and
  loading and relocating segment by segment.

`Arithmetic`, `Blocks` and `Bytes` hold facts about division, block positions and byte strings,
`Wrappers` the definitions that all of them share.

A panic of the program is an outcome of the model. 64-bit sums are unbounded integers with the
program's own overflow checks in front of them, or are taken modulo 2^64 where the program lets them
wrap. `qsort` is an insertion sort behind the contract of a sort. Memory that the page tables take
from the allocator is a given list of fresh zeroed pages, and running out of it is the panic.

## What turned out to be different

- Splitting a large page that maps the framebuffer panics: its PAT bit lies in the address field.
  `PageTables.Pagemap.MapPage` states that this happens exactly if such a page is in the way,
  `PageEntryWords.LargeLeafReadBack` shows the bit and `PageTables.FramebufferPanic` a run.
- Freeing a block that is not aligned to pages can give away the end of a neighbour, because the
  length is rounded up to pages. It cannot, for any map and any live blocks, exactly if the count
  rounded to pages is within the count rounded to the alignment (`Allocator.AlwaysSafeIff`);
  `AllocatorRuns.GivesAway` and `AllocatorRuns.GivesAwayAcross` are runs in which it does, for every
  other block, and `AllocatorRuns.FreeOfPartOfPage` is an instance.
- Freeing a range that ends above 2^64 does nothing and reports nothing (`Allocator.Heap.PmmFree`).
- A volume can be read behind its last whole device sector, where the bytes are whatever the buffer
  held, zeros in a new one. Every disk is read rightly exactly if the size is a whole number of device
  sectors, or these a whole number of transfers, or unknown: `Volume.Volume.Read` is one half, and for
  every other volume that can be read at all `Volume.ReadBehindEnd` returns a zero whatever the disk
  holds there.
- The packer can refuse a source that it could pack. Positions without a token have the cost
  (size_t)-1, which wraps in a sum, so that ways that run into them look cheap. `LimlzPack.Pack` states
  what is chosen for all sources, `LimlzParse.WhoWins` when that is a dead end, and
  `LimlzDeadEnd.RefusesSource` is a source of 277 bytes on which it is.
- An entry in a menu directory whose name is empty, the first one of that name, cannot be found by
  its path. `MenuFind.RoundTrip` and `MenuFind.LostIff` give the exact condition,
  `MenuFind.NamelessIsLost` a tree.
- Program headers of both halves are refused only where a higher one follows a lower one
  (`ElfLoad.HigherThenLower`); the message of the panic says more than the check does.
- Sanitising with rounding loses a page that two adjoining usable entries share
  (`MemoryMap.RoundingLosesPage`). Where usable entries do not overlap each other, all wholly free
  pages are kept exactly if no two of them adjoin within such a page
  (`MemmapPasses.RoundingKeepsPagesIff`); a clean map has none that adjoin.

## Model

| member | source | states |
|---|---|---|
| `PageTables.SamePath` | boot/limine/limine/common/mm/vmm.c:90-162 | in a forest of tables two addresses that reach the same table at a level lie in the same slot above it |
| `PageTables.WalkKept` | boot/limine/limine/common/mm/vmm.c:509-555 | changing one entry leaves the walk of every address outside its slot as it was |
| `PageTables.SetLeaf` | boot/limine/limine/common/mm/vmm.c:131-161 | writing a leaf changes the translation of its slot to the leaf and of no other address, and keeps the forest |
| `PageTables.LinkTable` | boot/limine/limine/common/mm/vmm.c:539-541 | linking a fresh empty table unmaps its slot and nothing else, and keeps the forest |
| `PageTables.SplitRestores` | boot/limine/limine/common/mm/vmm.c:528-546 | refilling a cleared slot with the old page gives back the old translation of every address |
| `PageTables.LinkingEmptyKeepsView` | boot/limine/limine/common/mm/vmm.c:547-551 | linking a table under an empty entry changes no translation |
| `PageTables.Pagemap.constructor` | boot/limine/limine/common/mm/vmm.c:65-70 | a new map of 4 or 5 levels translates nothing |
| `PageTables.Pagemap.MapPage` | boot/limine/limine/common/mm/vmm.c:90-162 | after a call that does not panic, [virt, virt + page size) translates to phys plus offset with the write, no-execute and, where PAT is supported, framebuffer flags given, every other address as before; it panics over a framebuffer page exactly if such a large page lies above the range in the old tables, out of memory only with an empty pool, and succeeds if no large page is in the way and there are enough free pages |
| `PageTables.IndexIsField` | boot/limine/limine/common/mm/vmm.c:92-96 | the table index of an address at each level is its 9-bit field from bit 12 on |
| `PageTables.Pagemap.Descend` | boot/limine/limine/common/mm/vmm.c:114-153 | reaching the table of the wanted level, creating and splitting on the way, changes no translation; the framebuffer panic exactly if such a page is on the way |
| `PageTables.Pagemap.StepDown` | boot/limine/limine/common/mm/vmm.c:114-153 | one turn of that walk, seen from its start |
| `PageTables.Pagemap.PlacePage` | boot/limine/limine/common/mm/vmm.c:131-161 | the end of map_page: the entry, or 2 MiB pages where there are none of 1 GiB |
| `PageTables.Pagemap.GetNextLevel` | boot/limine/limine/common/mm/vmm.c:509-555 | one step down: the table below is reached, translations unchanged; terminates though it calls MapPage through the split |
| `PageTables.Pagemap.SplitLarge` | boot/limine/limine/common/mm/vmm.c:517-546 | a large page replaced by a table of smaller pages translates every address as before |
| `PageTables.Pagemap.LinkFresh` | boot/limine/limine/common/mm/vmm.c:539-541 | a page from the allocator becomes an empty table at the entry; only its slot is cleared |
| `PageTables.Pagemap.WriteLeaf` | boot/limine/limine/common/mm/vmm.c:131-161 | the written leaf is the new translation of its page and of nothing else |
| `PageTables.Pagemap.MapRun` | boot/limine/limine/common/mm/vmm.c:136-141 | a run of pages of one size maps exactly the run; success means no framebuffer page was in the way |
| `PageTables.Pagemap.MapNext` | boot/limine/limine/common/mm/vmm.c:136-141 | one page of a run |
| `PageTables.FbInKept` | boot/limine/limine/common/mm/vmm.c:509-555 | mapping keeps all framebuffer pages above its level, so that a later call still meets them |
| `PageTables.SmallIntoFramebuffer` | boot/limine/limine/common/mm/vmm.c:517-546 | after a 2 MiB framebuffer page has been mapped, mapping any 4 KiB page inside it panics |
| `PageTables.FramebufferPanic` | boot/limine/limine/common/mm/vmm.c:517-546 | an instance on a new map: the first call succeeds, the second panics |
| `PageEntryWords.LargeWordReadBack` | boot/limine/limine/common/mm/vmm.c:50-63 | a large entry reads back as one, with its flags; its address field is aligned exactly if the framebuffer flag is not set |
| `PageEntryWords.TableWordReadBack` | boot/limine/limine/common/mm/vmm.c:541-550 | a table entry reads back as a table with its address; it is present, writable and open to user mode |
| `PageEntryWords.SmallWordReadBack` | boot/limine/limine/common/mm/vmm.c:155-161 | a 4 KiB entry keeps address and flags with the PAT bit moved from 12 to 7 |
| `PageEntryWords.EmptyWord` | boot/limine/limine/common/mm/vmm.c:58-59 | zero is neither a table nor a page |
| `PageEntryWords.LargeLeafReadBack` | boot/limine/limine/common/mm/vmm.c:131-150 | the word written for a large page reads back as that leaf of `PageTables`; the address field the split tests is misaligned exactly if it is a framebuffer page |
| `PageEntryWords.SmallLeafReadBack` | boot/limine/limine/common/mm/vmm.c:155-161 | the word written for a 4 KiB page reads back as that leaf |
| `PageEntryWords.TableReadBack` | boot/limine/limine/common/mm/vmm.c:541-550 | the word written for a table reads back as that table, zero as an empty entry |
| `PagemapBuilder.SinglyIsPut` | boot/limine/limine/common/mm/vmm.c:43-44 | mapping n pages of 4 KiB one by one is mapping the range |
| `PagemapBuilder.PageForIsLargest` | boot/limine/limine/common/mm/vmm.c:33-41 | the page size picked is the largest that both addresses are multiples of and that is left |
| `PagemapBuilder.MapPiece` | boot/limine/limine/common/mm/vmm.c:33-44 | one turn maps the largest page that fits |
| `PagemapBuilder.MapPieces` | boot/limine/limine/common/mm/vmm.c:33-44 | the greedy loop |
| `PagemapBuilder.MapPages` | boot/limine/limine/common/mm/vmm.c:27-46 | the greedy choice of page sizes gives the translation of mapping every 4 KiB page singly: the range at virt modulo 2^48, or 2^57 with five levels, goes to phys with the flags given; misaligned calls panic and only they |
| `PagemapBuilder.DirectMapExtend` | boot/limine/limine/common/protos/limine.c:260-266 | one more range in the direct map, and in the identity map for revision 0 |
| `PagemapBuilder.Flush` | boot/limine/limine/common/protos/limine.c:259-268 | the pending range is added to what is mapped |
| `PagemapBuilder.MapBoth` | boot/limine/limine/common/protos/limine.c:260-266 | the pending range at itself for revision 0, and at the direct-map offset |
| `PagemapBuilder.MapPending` | boot/limine/limine/common/protos/limine.c:261-265 | the pending range is mapped at one virtual address |
| `PagemapBuilder.BuildJoin` | boot/limine/limine/common/protos/limine.c:251-257 | joining an entry to the pending range keeps what is mapped or pending together the union so far |
| `PagemapBuilder.BuildFlush` | boot/limine/limine/common/protos/limine.c:259-268 | so does mapping the pending range and starting a new one |
| `PagemapBuilder.FlushBefore` | boot/limine/limine/common/protos/limine.c:259-268 | the pending range is mapped before an entry that does not continue it |
| `PagemapBuilder.MapMemory` | boot/limine/limine/common/protos/limine.c:219-277 | the direct map shows exactly the pages that hold a byte of an entry whose type the base revision maps, from 4 GiB on before revision 3, whatever was joined on the way; it runs out of memory only with an empty pool, and meets the framebuffer panic only if such a page was mapped before |
| `PagemapBuilder.RoundedIsInterval` | boot/limine/limine/common/protos/limine.c:226-249 | these pages are the range between the rounded ends of a selected entry; which types are selected in each revision |
| `MemmapSpec.CutIsDifference` | boot/limine/limine/common/mm/pmm.s2.c:138-168 | cutting a usable entry by another removes exactly the other one's addresses |
| `MemmapSpec.TrimIsDifference` | boot/limine/limine/common/mm/pmm.s2.c:134-169 | the inner loop leaves exactly what no other entry covers |
| `MemmapSpec.AlignedInnerIsExact` | boot/limine/limine/common/mm/pmm.s2.c:103-118 | align_entry keeps exactly the addresses whose whole page the entry covers |
| `MemmapSpec.StepKeepsPages` | boot/limine/limine/common/mm/pmm.s2.c:129-180 | with rounding, one step keeps exactly the free pages that lie in one usable entry, where usable entries do not overlap each other |
| `MemmapSpec.PagesOwnedIff` | boot/limine/limine/common/mm/pmm.s2.c:103-118 | every wholly free page lies in one usable entry exactly if no two adjoin within such a page |
| `MemmapSpec.ProgressStep` | boot/limine/limine/common/mm/pmm.s2.c:129-180 | one step of the first loop frees nothing new and loses nothing free |
| `MemmapSpec.SettledFree` | boot/limine/limine/common/mm/pmm.s2.c:129-180 | once every usable entry is cut, usable and free are the same |
| `MemmapSpec.AlignedPages` | boot/limine/limine/common/mm/pmm.s2.c:171-172 | in a rounded map an address is free exactly if its whole page is |
| `MemmapPasses.ClipProgressStep` | boot/limine/limine/common/mm/pmm.s2.c:183-203 | the second loop changes nothing above the first page |
| `MemmapPasses.SortProgressStep` | boot/limine/limine/common/mm/pmm.s2.c:206-218 | a swap of the sort keeps coverage and shape |
| `MemmapPasses.MergeFree` | boot/limine/limine/common/mm/pmm.s2.c:221-239 | merging keeps the free addresses |
| `MemmapPasses.MergeKeepsMerged` | boot/limine/limine/common/mm/pmm.s2.c:221-239 | after stepping back no earlier pair can be merged |
| `MemmapPasses.MergedIsApart` | boot/limine/limine/common/mm/pmm.s2.c:221-239 | neighbours of one type among usable, bootloader reclaimable and mapped reserved do not adjoin once no pair can be merged |
| `MemmapPasses.MergeKeepsRest` | boot/limine/limine/common/mm/pmm.s2.c:221-239 | merging keeps all non-empty entries of every other type |
| `MemmapPasses.PassesCompose` | boot/limine/limine/common/mm/pmm.s2.c:126-242 | the four passes together: usable is exactly what was free, the result is sorted, without empty entries, merged; a map in this state is left as it is |
| `MemmapPasses.RoundingKeepsPagesIff` | boot/limine/limine/common/mm/pmm.s2.c:126-242 | where usable entries do not overlap each other, a run with rounding, whether or not it keeps the first page, keeps all wholly free pages exactly if no two of them adjoin within one |
| `MemmapPunch.PunchIsExact` | boot/limine/limine/common/mm/pmm.s2.c:762-806 | each of the four overlap cases removes exactly the range from an entry |
| `MemmapPunch.PunchProgressStep` | boot/limine/limine/common/mm/pmm.s2.c:762-806 | one turn keeps everything outside the range; the number of entries still to cut goes down, and with it the room that is needed |
| `MemmapPunch.AppendRepaints` | boot/limine/limine/common/mm/pmm.s2.c:808-819 | with the new entry the range has the new type and every other address its old one |
| `MemmapPunch.SanitisedKeepsTypes` | boot/limine/limine/common/mm/pmm.s2.c:882-885 | the clean-up after it keeps the type of every address, the first page aside |
| `MemmapPunch.ClaimRetypes` | boot/limine/limine/common/mm/pmm.s2.c:865-885 | both together |
| `MemmapPunch.NoneAdjoin` | boot/limine/limine/common/mm/pmm.s2.c:220-239 | in a clean map without overflow no two usable entries adjoin; where entries do not overlap, no two of any one merged type do |
| `MemmapPunch.CleanIsSeamless` | boot/limine/limine/common/mm/pmm.s2.c:220-239 | so rounding it would lose no page |
| `MemmapPanic.StopIsNested` | boot/limine/limine/common/mm/pmm.s2.c:134-169 | if the usable entries of the original map do not overlap each other, the panic means that one of them has an entry of another type inside |
| `MemmapPanic.TrimStops` | boot/limine/limine/common/mm/pmm.s2.c:134-169 | in any map: the inner loop stops on a usable entry that has another type inside which no other entry overlaps or follows at once, in whatever order they come |
| `MemmapPanic.DoomedStep` | boot/limine/limine/common/mm/pmm.s2.c:129-180 | such a pair stays in the array until the loop comes to it |
| `MemmapPanic.NestedIsClear` | boot/limine/limine/common/mm/pmm.s2.c:134-169 | where entries of other types do not overlap or adjoin each other, every nested pair is of this kind |
| `MemmapPanic.LineageStep` | boot/limine/limine/common/mm/pmm.s2.c:129-180 | every entry of the working array comes from an original one and lies in it |
| `MemmapPanic.CutStep` | boot/limine/limine/common/mm/pmm.s2.c:129-180 | one step of the first loop with all that it keeps |
| `MemoryMap.MemMap.Remove` | boot/limine/limine/common/mm/pmm.s2.c:174-178 | removal by moving the last entry into the hole |
| `MemoryMap.MemMap.TrimEntry` | boot/limine/limine/common/mm/pmm.s2.c:134-169 | the inner loop of the sanitiser computes the cut |
| `MemoryMap.MemMap.TrimAt` | boot/limine/limine/common/mm/pmm.s2.c:129-180 | the body of its first loop |
| `MemoryMap.MemMap.CutUsable` | boot/limine/limine/common/mm/pmm.s2.c:129-180 | the first loop terminates despite its restarts; when it cannot panic, when it must, and what a panic means |
| `MemoryMap.MemMap.ClipAt` | boot/limine/limine/common/mm/pmm.s2.c:183-203 | the body of the second loop |
| `MemoryMap.MemMap.DropEmpty` | boot/limine/limine/common/mm/pmm.s2.c:183-203 | the second loop |
| `MemoryMap.MemMap.FindMin` | boot/limine/limine/common/mm/pmm.s2.c:207-214 | the first smallest entry |
| `MemoryMap.MemMap.SortByBase` | boot/limine/limine/common/mm/pmm.s2.c:206-218 | sorted, and the same entries |
| `MemoryMap.MemMap.CloseGap` | boot/limine/limine/common/mm/pmm.s2.c:232-236 | removal by moving later entries down |
| `MemoryMap.MemMap.MergePair` | boot/limine/limine/common/mm/pmm.s2.c:222-238 | two adjoining entries of a mergeable type become one |
| `MemoryMap.MemMap.MergeAdjoining` | boot/limine/limine/common/mm/pmm.s2.c:221-239 | no pair is left that could be merged |
| `MemoryMap.MemMap.Sanitise` | boot/limine/limine/common/mm/pmm.s2.c:126-242 | for every array, overlapping entries included: the usable set afterwards is exactly the old usable bytes no other type covers; with rounding, where usable entries do not overlap each other, exactly the free pages that lie in one of them; sorted, nothing empty, no neighbours of one type among usable, bootloader reclaimable and mapped reserved adjoin, and the non-empty entries of all other types are those of before, each as often; a second run changes nothing; the panic, where usable entries do not overlap each other and those of other types neither overlap nor adjoin, exactly if one of these lies inside a usable one |
| `MemoryMap.MemMap.CleanUp` | boot/limine/limine/common/mm/pmm.s2.c:182-242 | the three passes after the first loop |
| `MemoryMap.MemMap.PunchAt` | boot/limine/limine/common/mm/pmm.s2.c:763-806 | the body of the loop of pmm_new_entry |
| `MemoryMap.MemMap.PunchAll` | boot/limine/limine/common/mm/pmm.s2.c:762-806 | the loop terminates and cuts the range out of every entry |
| `MemoryMap.MemMap.NewEntry` | boot/limine/limine/common/mm/pmm.s2.c:755-822 | the range gets the type, everything else keeps its own; a well-formed map stays so; the two panics: an overflowing range, and a full map only if it was at least half full before |
| `MemoryMap.MemMap.AllocRange` | boot/limine/limine/common/mm/pmm.s2.c:837-886 | a grant retypes exactly the range (and clears usable bytes of the first page where it is not kept) and leaves a clean map; every address of a granted range had the overlaid type; a refusal or simulation changes nothing, and in a clean well-formed map a refusal for a merged type means that some address of the range had another; when it panics |
| `MemoryMap.MemMap.ClaimRange` | boot/limine/limine/common/mm/pmm.s2.c:865-885 | the new entry and the clean-up after it |
| `MemoryMap.CutEntry` | boot/limine/limine/common/mm/pmm.s2.c:138-168 | the body of the inner loop cuts one entry by another, as `MemmapSpec.CutIsDifference` describes it |
| `MemoryMap.HeldIsAllOf` | boot/limine/limine/common/mm/pmm.s2.c:854-863 | an entry of the overlaid type that holds both ends of the range gives that type to every address in it |
| `MemoryMap.AllOfIsHeld` | boot/limine/limine/common/mm/pmm.s2.c:854-863 | in a clean well-formed map a range that has one merged type throughout lies in one entry |
| `MemoryMap.RoundingLosesPage` | boot/limine/limine/common/mm/pmm.s2.c:103-118 | an instance: a run over two adjoining usable entries loses the page they share |
| `Allocator.CandidateIsHighest` | boot/limine/limine/common/mm/pmm.s2.c:667-686 | a block is found in an entry exactly when an aligned one fits below the limit, and it is the highest |
| `Allocator.Reserve` | boot/limine/limine/common/mm/pmm.s2.c:688-690 | the block is taken out of usable memory |
| `Allocator.AllocBelow` | boot/limine/limine/common/mm/pmm.s2.c:662-708 | the highest aligned block of usable memory below the limit, over all entries; none only if there is no room in any entry |
| `Allocator.TopmostIsHighest` | boot/limine/limine/common/mm/pmm.s2.c:662-686 | the topmost entry with room holds the highest block |
| `Allocator.AllocUpTo` | boot/limine/limine/common/mm/pmm.s2.c:656-712 | below 4 GiB first, above it only if there is no room below |
| `Allocator.OneType` | boot/limine/limine/common/mm/pmm.s2.c:824-835 | in a well-formed map an address has one type |
| `Allocator.AllocKeepsLive` | boot/limine/limine/common/mm/pmm.s2.c:637-715 | a new block does not meet any live one |
| `Allocator.FreeIsSafeIff` | boot/limine/limine/common/mm/pmm.s2.c:586-593 | a free is safe for the other blocks exactly if the freed pages meet none of them |
| `Allocator.AlwaysSafeIff` | boot/limine/limine/common/mm/pmm.s2.c:586-593 | the caller's condition: freeing a block at a page address is safe for every map and every set of live blocks exactly if the count rounded to pages is within the count rounded to the alignment |
| `Allocator.PageAlignedIsSafe` | boot/limine/limine/common/mm/pmm.s2.c:586-593 | blocks aligned to pages meet it |
| `Allocator.FreeKeepsLive` | boot/limine/limine/common/mm/pmm.s2.c:586-593 | a block whose rounded length stays within it can be freed without touching another |
| `Allocator.ClaimThenReturn` | boot/limine/limine/common/mm/pmm.s2.c:586-593 | claiming usable memory and returning it restores the type of every address |
| `Allocator.Heap.Alloc` | boot/limine/limine/common/mm/pmm.s2.c:637-715 | live blocks stay aligned, disjoint and out of usable memory; the highest block below 4 GiB, above it only if there is no room below; every panic and when it happens |
| `Allocator.Heap.PmmFree` | boot/limine/limine/common/mm/pmm.s2.c:586-593 | the page-rounded range becomes usable, nothing else changes; a range that ends above 2^64 is silently not freed; each panic and its condition |
| `Allocator.Heap.FreeLive` | boot/limine/limine/common/mm/pmm.s2.c:586-593 | freeing a live block, whatever its alignment: all others stay safe if the rounded length stays within it |
| `Allocator.Heap.AllocThenFree` | boot/limine/limine/common/mm/pmm.s2.c:586-593 | with page-aligned entries allocating and freeing restores the type of every address |
| `AllocatorRuns.TakenAtEnd` | boot/limine/limine/common/mm/pmm.s2.c:662-686 | from one usable range a block is taken at its end, or at 4 GiB if it fits below |
| `AllocatorRuns.TakeEnd` | boot/limine/limine/common/mm/pmm.s2.c:637-715 | a run of the allocator on such a map |
| `AllocatorRuns.GivesAway` | boot/limine/limine/common/mm/pmm.s2.c:586-593 | for every block that does not meet the condition and lies below or above 4 GiB: allocate a neighbour, allocate the block, free it, and the neighbour, still live, is usable memory |
| `AllocatorRuns.GivesAwayAcross` | boot/limine/limine/common/mm/pmm.s2.c:586-593 | the same for every block across 4 GiB |
| `AllocatorRuns.EverySide` | boot/limine/limine/common/mm/pmm.s2.c:637-715 | these are all blocks that an allocation can place |
| `AllocatorRuns.FreeOfPartOfPage` | boot/limine/limine/common/mm/pmm.s2.c:586-593 | an instance: two blocks of one size in one page |
| `MemmapQueries.FoundGrows` | boot/limine/limine/common/mm/pmm.c:17-44 | what an entry adds to the bytes found, on disjoint RAM entries |
| `MemmapQueries.CheckUsableMemory` | boot/limine/limine/common/mm/pmm.c:9-49 | true exactly when every byte of a non-empty range lies in a RAM entry; for an empty range exactly when it lies strictly inside one |
| `MemmapQueries.FrontierPass` | boot/limine/limine/common/mm/pmm.s2.c:732-746 | one pass extends both frontiers over covered addresses only |
| `MemmapQueries.MmapGetInfo` | boot/limine/limine/common/mm/pmm.s2.c:719-753 | terminates with the first address from 0 and from 1 MiB that no usable entry covers, for entries in any order |
| `SuffixArray.Doubling` | boot/limine/limine/tools/limlzpack.c:91-98 | order by a + b bytes is order by a bytes, then by the b bytes behind them |
| `SuffixArray.CompareDoubles` | boot/limine/limine/tools/limlzpack.c:91-98 | on ranks by k bytes the comparison orders suffixes by 2k bytes |
| `SuffixArray.Qsort` | boot/limine/limine/tools/limlzpack.c:100-114 | the sorting contract, met by an insertion sort |
| `SuffixArray.LevelsRankDouble` | boot/limine/limine/tools/limlzpack.c:115-119 | the new ranks order suffixes by 2k bytes |
| `SuffixArray.Rerank` | boot/limine/limine/tools/limlzpack.c:115-117 | the rank loop computes them |
| `SuffixArray.RoundEnds` | boot/limine/limine/tools/limlzpack.c:112-122 | a round that ends the loop has told all suffixes apart, and the last possible round does |
| `SuffixArray.Round` | boot/limine/limine/tools/limlzpack.c:112-122 | one round doubles the number of bytes that ranks look at |
| `SuffixArray.Saca` | boot/limine/limine/tools/limlzpack.c:105-124 | terminates with the permutation of suffix positions in strict lexicographic order |
| `LimlzFormat.CopyRepeats` | boot/limine/limine/stage1/decompressor.asm:72-77 | a byte-wise copy reproduces a match that overlaps its own output |
| `LimlzFormat.ReadHeadBack` | boot/limine/limine/tools/limlzpack.c:185-193 | the literal count reads back, with and without the extra byte |
| `LimlzFormat.ReadRepeatBack` | boot/limine/limine/tools/limlzpack.c:195-204 | the offset in one or two bytes and the match length read back |
| `LimlzFormat.EmitDecodes` | boot/limine/limine/tools/limlzpack.c:273-324 | decoding what is emitted from any position on gives the rest of the source |
| `LimlzFormat.RoundTrip` | boot/limine/limine/tools/limlzpack.c:273-324 | decoding a whole stream gives the source, also when it ends in a match or is empty |
| `LimlzParse.SolvedPicksAreGood` | boot/limine/limine/tools/limlzpack.c:225-272 | every choice of the program can be emitted and copies what is there |
| `LimlzParse.EmittedLength` | boot/limine/limine/tools/limlzpack.c:273-324 | a stream has exactly dp[0] bytes, one more if the parse ends in a match |
| `LimlzParse.AllSound` | boot/limine/limine/tools/limlzpack.c:225-272 | in spite of the wrap-around every cost is at most two bytes per source byte or marks a stuck position: the end further than 270 bytes and no match within reach |
| `LimlzParse.NoCheaperParse` | boot/limine/limine/tools/limlzpack.c:225-272 | for all tables: no way with the found matches at any permitted length is cheaper, where running into a stuck position counts as -1 |
| `LimlzParse.ChosenAttains` | boot/limine/limine/tools/limlzpack.c:225-272 | the chosen way is one of them and has that cost |
| `LimlzParse.CompleteEmits` | boot/limine/limine/tools/limlzpack.c:273-324 | the emission goes through exactly if the chosen way is complete, and fits twice the source |
| `LimlzParse.WhoWins` | boot/limine/limine/tools/limlzpack.c:225-324 | a cheapest way is complete if there are no stuck positions or a complete one is cheaper than all dead ends, and is not if a dead end is cheaper than all complete ones |
| `LimlzParse.DeadEndTempts` | boot/limine/limine/tools/limlzpack.c:231-269 | where a match of less than 11 bytes with an offset below 256 can lead to a stuck position the sum wraps to the least cost, and packing from there fails |
| `LimlzPack.CommonLength` | boot/limine/limine/tools/limlzpack.c:126-130 | the length of the common prefix |
| `LimlzPack.FindMatch` | boot/limine/limine/tools/limlzpack.c:151-179 | what the position has in common with one of the 32 places on either side in suffix order within reach, if that is 4 bytes or more, and no such place has more |
| `LimlzPack.LongestMatches` | boot/limine/limine/tools/limlzpack.c:135-183 | a table of matches that are there |
| `LimlzPack.CheapestLength` | boot/limine/limine/tools/limlzpack.c:231-249 | the cheapest length of a match |
| `LimlzPack.CheapestWay` | boot/limine/limine/tools/limlzpack.c:250-269 | the cheapest literals and match, or the end |
| `LimlzPack.SolveOne` | boot/limine/limine/tools/limlzpack.c:227-272 | one entry of the tables |
| `LimlzPack.Solve` | boot/limine/limine/tools/limlzpack.c:225-272 | the tables solve the recurrence everywhere |
| `LimlzPack.PutLiterals` | boot/limine/limine/tools/limlzpack.c:283-296 | token and literals within the capacity |
| `LimlzPack.PutMatch` | boot/limine/limine/tools/limlzpack.c:300-314 | offset and length within the capacity |
| `LimlzPack.PutToken` | boot/limine/limine/tools/limlzpack.c:276-315 | one token |
| `LimlzPack.EmitAll` | boot/limine/limine/tools/limlzpack.c:273-324 | the emission loop writes the stream, or fails exactly when it does not fit or cannot be emitted |
| `LimlzPack.Pack` | boot/limine/limine/tools/limlzpack.c:206-330 | a result decodes to the source; its length; the chosen way is a cheapest one; it succeeds exactly if that way is complete and its length within the capacity, so always without stuck positions and with room for twice the source |
| `LimlzDeadEnd.SecondMatches` | boot/limine/limine/tools/limlzpack.c:135-183 | the matches found in the source of the instance, from its suffix order |
| `LimlzDeadEnd.DeadEndIsCheaper` | boot/limine/limine/tools/limlzpack.c:225-272 | a dead end is cheaper there than every complete parse, and there is one |
| `LimlzDeadEnd.RefusesSource` | boot/limine/limine/tools/limlzpack.c:206-330 | an instance: 277 bytes that have a complete parse shorter than themselves, and the packer fails on them with any capacity |
| `LimlzImage.LoadBack` | boot/limine/limine/stage1/decompressor.asm:34-106 | the four checksum bytes and the stream read back |
| `LimlzImage.MakeImage` | boot/limine/limine/tools/limlzpack.c:354-382 | the decompressor turns the file into the source: the stream unpacks and the checksum in its first four bytes agrees; it does not fail without stuck positions |
| `Crc32.NibbleIsFourBits` | boot/limine/limine/tools/limlzpack.c:332-347 | every table entry is four shifts of the polynomial |
| `Crc32.NibbleTwice` | boot/limine/limine/tools/limlzpack.c:341-345 | two table steps are one byte |
| `Crc32.Crc32Nibble` | boot/limine/limine/tools/limlzpack.c:339-347 | the table-driven checksum is the bit-by-bit one of section 8 of RFC 1952 that the decompressor computes |
| `Crc32.CheckValue` | boot/limine/limine/tools/limlzpack.c:339-347 | the checksum of the digits 1 to 9 is CBF43926 |
| `Crc32.Residue` | boot/limine/limine/tools/limlzpack.c:339-347 | data followed by their checksum, low byte first, have the checksum 2144DF1C, whatever the data |
| `UndoLog.UndoForgets` | boot/limine/limine/host/limine.c:524-557 | undoing forgets which of the logged writes had reached the disk |
| `UndoLog.UndoLogged` | boot/limine/limine/host/limine.c:467-522 | a logged write leaves the result of undoing as it was |
| `UndoLog.ReplayReversed` | boot/limine/limine/host/limine.c:328-334 | replaying the reversed array undoes the newest write first |
| `Device.WriteTurn` | boot/limine/limine/host/limine.c:496-516 | one turn of the write loop keeps disk and logical content in agreement outside the log |
| `Device.Device.constructor` | boot/limine/limine/host/limine.c:233-264 | a coherent clean cache |
| `Device.Device.Flush` | boot/limine/limine/host/limine.c:266-286 | the disk becomes the logical content |
| `Device.Device.CacheBlock` | boot/limine/limine/host/limine.c:288-312 | the logical content is kept; fails exactly outside the whole blocks; a short read may spoil the buffer |
| `Device.Device.ReadChunk` | boot/limine/limine/host/limine.c:449-462 | one turn of the read loop |
| `Device.Device.Read` | boot/limine/limine/host/limine.c:445-465 | the logical bytes; fails exactly outside the whole blocks |
| `Device.Device.PutChunk` | boot/limine/limine/host/limine.c:511-513 | bytes put into the cached block |
| `Device.Device.WriteChunk` | boot/limine/limine/host/limine.c:497-515 | one turn of the write loop |
| `Device.Device.WriteBlocks` | boot/limine/limine/host/limine.c:494-516 | the bytes are written; disk and logical content agree outside the log |
| `Device.Device.Write` | boot/limine/limine/host/limine.c:467-522 | old bytes are logged and new ones written, or nothing happens; fails exactly outside the whole blocks or with a full log |
| `Device.Device.ReverseLog` | boot/limine/limine/host/limine.c:328-334 | the array is reversed |
| `Device.Device.Uninstall` | boot/limine/limine/host/limine.c:524-574 | the cache is dropped and the array replayed onto the disk |
| `Device.Device.Rollback` | boot/limine/limine/host/limine.c:1205-1210 | the disk is the original one, whatever part of the writes had reached it |
| `Device.Device.Perform` | boot/limine/limine/host/limine.c:576-586 | a read or write, completed or failed, keeps the way back open |
| `Device.Device.PerformAll` | boot/limine/limine/host/limine.c:445-522 | so does any sequence of them; it completes exactly if all fit |
| `Device.Device.Install` | boot/limine/limine/host/limine.c:1170-1213 | all of the writes, with a log that takes them back, or the original disk |
| `Device.Device.InstallThenUninstall` | boot/limine/limine/host/limine.c:524-574 | a later run with the stored log restores the original disk |
| `Blake2b.CounterCarry` | boot/limine/limine/common/crypt/blake2b.c:78-81 | the carry between the two counter words |
| `Blake2b.ChainPrefix` | boot/limine/limine/common/crypt/blake2b.c:169-198 | the chain value depends on its own blocks only |
| `Blake2b.State.constructor` | boot/limine/limine/common/crypt/blake2b.c:151-167 | nothing absorbed |
| `Blake2b.State.IncrementCounter` | boot/limine/limine/common/crypt/blake2b.c:78-81 | the counter modulo 2^128 |
| `Blake2b.State.Block` | boot/limine/limine/common/crypt/blake2b.c:181-182 | one more block in the chain |
| `Blake2b.State.Blocks` | boot/limine/limine/common/crypt/blake2b.c:187-193 | all but the last block are compressed |
| `Blake2b.State.Overflow` | boot/limine/limine/common/crypt/blake2b.c:174-193 | data that do not fit the buffer: all blocks but the last are compressed |
| `Blake2b.State.Update` | boot/limine/limine/common/crypt/blake2b.c:169-198 | having absorbed a message, it has absorbed the message and the new bytes |
| `Blake2b.State.Finish` | boot/limine/limine/common/crypt/blake2b.c:200-214 | the digest of section 3.3 of RFC 7693: padding, length and final flag |
| `Blake2b.HashPieces` | boot/limine/limine/common/crypt/blake2b.c:169-214 | the digest does not depend on how the message is cut |
| `Blake2b.DigestCalls` | boot/limine/limine/common/crypt/blake2b.c:169-214 | the calls made for a message: one for each block of 128 bytes, the last padded with zeros, each with the number of bytes up to its end in two words, only the last with the final flag |
| `Blake2b.DigestReplays` | boot/limine/limine/common/crypt/blake2b.c:169-214 | the digest is what these calls compute one after the other |
| `Blake2b.Hash` | boot/limine/limine/common/crypt/blake2b.c:216-222 | the one-shot digest |
| `Volume.CutTransfer` | boot/limine/limine/common/lib/part.s2.c:41-56 | a transfer cut at the end brings exactly the bytes before it |
| `Volume.Volume.constructor` | boot/limine/limine/common/lib/part.s2.c:25-28 | the buffer comes zeroed from the allocator |
| `Volume.Volume.CacheBlock` | boot/limine/limine/common/lib/part.s2.c:19-67 | the cache holds the bytes of the block up to the last whole sector, and what it held before behind that |
| `Volume.Volume.AllInside` | boot/limine/limine/common/lib/part.s2.c:72-79 | on a volume that ends with a device sector everything in bounds lies in whole sectors |
| `Volume.Volume.ReadChunk` | boot/limine/limine/common/lib/part.s2.c:84-97 | one turn of the read loop |
| `Volume.Volume.Transfer` | boot/limine/limine/common/lib/part.s2.c:58-66 | a transfer fills the buffer and leaves the rest of it; a failed one may spoil it |
| `Volume.Volume.InsideIsFetchable` | boot/limine/limine/common/lib/part.s2.c:36-58 | on a disk that holds the volume every byte of its whole sectors can be fetched |
| `Volume.Volume.HeldIsReadable` | boot/limine/limine/common/lib/part.s2.c:69-100 | so all of a volume can be read that begins and ends with device sectors |
| `Volume.Volume.UnknownIsReadable` | boot/limine/limine/common/lib/part.s2.c:69-100 | and all of a volume of unknown size whose blocks lie on the disk |
| `Volume.Volume.Read` | boot/limine/limine/common/lib/part.s2.c:69-100 | succeeds exactly if the range is in bounds and each of its blocks can be fetched; returns the bytes of the disk whatever the cache held, if the volume is a whole number of device sectors, these a whole number of transfers, or its size unknown; otherwise it says of every byte whether it is the disk's or which old byte of the buffer it is; nothing behind the last sector of a volume of known size is read |
| `Volume.ReadBehindEnd` | boot/limine/limine/common/lib/part.s2.c:19-100 | a new volume that meets none of these conditions returns zero for the byte behind its last whole sector, whatever the disk holds there |
| `Volume.Misread` | boot/limine/limine/common/lib/part.s2.c:19-100 | so for every such geometry some disk is read wrongly |
| `Volume.MisreadInstance` | boot/limine/limine/common/lib/part.s2.c:19-100 | an instance: a disk of ones from which a zero is read |
| `Volume.PartitionIsInside` | boot/limine/limine/common/lib/part.s2.c:102-115 | a partition is valid exactly if it has a sector and all of its sectors are sectors of the volume |
| `Volume.ReadBothWays` | boot/limine/limine/common/lib/part.s2.c:102-115 | a valid partition is a window on its device; both reads succeed exactly if both ranges can be read, and do for a partition that begins and ends with sectors of a device that its disk holds |
| `FatChain.Unpack12` | boot/limine/limine/common/fs/fat32.s2.c:258-277 | packed 12-bit entries come back from the two bytes read for them |
| `FatChain.ReadsEntries12` | boot/limine/limine/common/fs/fat32.s2.c:258-277 | entries 2c and 2c + 1 of a FAT12 table are the numbers packed in its c-th three bytes |
| `FatChain.ReadsEntry16` | boot/limine/limine/common/fs/fat32.s2.c:278-288 | entry c of a FAT16 table is its c-th pair of bytes, low byte first; outside the table there is none |
| `FatChain.ReadsEntry32` | boot/limine/limine/common/fs/fat32.s2.c:289-299 | entry c of a FAT32 table is the low 28 bits of its c-th four bytes, low byte first; outside the table there is none |
| `FatChain.ClusterNumbers` | boot/limine/limine/common/fs/fat32.s2.c:313-323 | the lowest two and the highest 16 values of an entry are no clusters; a chain may have as many as there are others, up to 2^24 |
| `FatChain.ChainIsUnique` | boot/limine/limine/common/fs/fat32.s2.c:310-351 | there is at most one complete chain |
| `FatChain.ChainHasNoDuplicates` | boot/limine/limine/common/fs/fat32.s2.c:310-351 | a complete chain does not meet itself |
| `FatChain.ChainIsNotCyclic` | boot/limine/limine/common/fs/fat32.s2.c:310-351 | and there is no cycle |
| `FatChain.TooLongIsCyclic` | boot/limine/limine/common/fs/fat32.s2.c:320-338 | more links than clusters: some cluster comes twice |
| `FatChain.ChainLength` | boot/limine/limine/common/fs/fat32.s2.c:325-338 | the counting pass gives the length of the complete chain, if there is one within the bound |
| `FatChain.FillChain` | boot/limine/limine/common/fs/fat32.s2.c:340-350 | the storing pass stores what was counted |
| `FatChain.CacheClusterChain` | boot/limine/limine/common/fs/fat32.s2.c:310-351 | the complete chain without duplicates; nothing exactly if the first cluster is none, a read on the walk fails, or the walk is longer than the bound |
| `FatChain.ChainOrCycle` | boot/limine/limine/common/fs/fat32.s2.c:310-351 | on every FAT12 and FAT16 volume nothing is returned exactly if the first cluster is none, a read on the walk fails, or the chain is cyclic |
| `FatChain.ClusterOfFile` | boot/limine/limine/common/fs/fat32.s2.c:376-377 | a cluster of the file is a slice of the volume |
| `FatChain.FileIsItsClusters` | boot/limine/limine/common/fs/fat32.s2.c:366-377 | on a volume that is its reserved part and then the clusters from number 2 on, a file is the contents of the clusters of its chain, one behind the other |
| `FatChain.ReadChunk` | boot/limine/limine/common/fs/fat32.s2.c:358-382 | one turn of the read loop |
| `FatChain.ReadClusterChain` | boot/limine/limine/common/fs/fat32.s2.c:353-386 | succeeds exactly if every byte asked for lies in a cluster of the chain and on the volume, and returns those bytes; a slice of the concatenated clusters where all of them are on the volume |
| `MenuPath.EscapeName` | boot/limine/limine/common/menu.c:770-792 | the escaped name or as much of it as fits, no escape cut in two |
| `MenuPath.ParsePrinted` | boot/limine/limine/common/menu.c:833-895 | a printed component parses back to name and number, whatever they are |
| `MenuPath.Measure` | boot/limine/limine/common/menu.c:837-860 | the measuring pass |
| `MenuPath.Look` | boot/limine/limine/common/menu.c:866-885 | what both passes do at a position |
| `MenuPath.Fill` | boot/limine/limine/common/menu.c:862-889 | the second pass fills exactly the space the first one measured |
| `MenuPath.ParsePathComponent` | boot/limine/limine/common/menu.c:833-895 | name, number and rest of the path |
| `MenuTree.IndexInjective` | boot/limine/limine/common/menu.c:978-1053 | no two shown entries have the same number |
| `MenuTree.PrintTree` | boot/limine/limine/common/menu.c:978-1053 | counts the visible entries; the lines from base on for that count are exactly the numbers of shown entries; selects the entry with the selected number, if it is drawn or nothing is |
| `MenuTree.IndexOrders` | boot/limine/limine/common/menu.c:978-1053 | the numbers follow the order of the drawn tree: an entry, what is below it, its later siblings |
| `MenuTree.IndexOnto` | boot/limine/limine/common/menu.c:734-750 | every number below the count belongs to a shown entry |
| `MenuFind.PicksUnique` | boot/limine/limine/common/menu.c:753-765 | a name and a duplicate index mean one sibling |
| `MenuFind.ResolvesUnique` | boot/limine/limine/common/menu.c:901-953 | a path leads to one entry |
| `MenuFind.OpenShows` | boot/limine/limine/common/menu.c:928-934 | opening the directories on the way shows the entry and does not renumber it |
| `MenuFind.FindEntryByPath` | boot/limine/limine/common/menu.c:901-953 | finds the entry a path leads to, if there is one, with its number, which is its line once the directories along the path are open; opens them |
| `MenuFind.Enter` | boot/limine/limine/common/menu.c:928-934 | the same within one directory |
| `MenuFind.PathOfParent` | boot/limine/limine/common/menu.c:799-808 | the path of an entry is that of its parent, a slash and its own component |
| `MenuFind.Digits` | boot/limine/limine/common/menu.c:812-819 | the digits of a number, last first; 16 of them are enough exactly below 10^16 |
| `MenuFind.AppendDup` | boot/limine/limine/common/menu.c:810-823 | the text with the duplicate index, or as much of it as the buffer takes |
| `MenuFind.GetEntryPath` | boot/limine/limine/common/menu.c:794-828 | the path of the entry whenever it fits |
| `MenuFind.RoundTrip` | boot/limine/limine/common/menu.c:901-953 | the path of a visible leaf leads back to it unless it is lost, and then nowhere |
| `MenuFind.LostIff` | boot/limine/limine/common/menu.c:794-808 | a leaf is lost exactly if it is in a directory, its name is empty and it is the first of that name |
| `MenuFind.NamelessIsLost` | boot/limine/limine/common/menu.c:794-808 | an instance: the only entry of a directory, with an empty name |
| `MenuFind.Reopen` | boot/limine/limine/common/menu.c:901-1053 | print a path, look it up, draw the menu: the same entry is selected |
| `ElfRelr.AddressesExact` | boot/limine/limine/common/lib/elf.c:496-500 | the shifting loop finds exactly the set bits |
| `ElfRelr.DecodeExact` | boot/limine/limine/common/lib/elf.c:486-503 | the decoded addresses are exactly those the encoding denotes |
| `ElfRelr.CountRelr` | boot/limine/limine/common/lib/elf.c:439-453 | the counting pass counts them |
| `ElfRelr.FillBitmap` | boot/limine/limine/common/lib/elf.c:496-500 | the addresses of one bitmap |
| `ElfRelr.FillEntry` | boot/limine/limine/common/lib/elf.c:489-502 | one entry of the table |
| `ElfRelr.FillRelr` | boot/limine/limine/common/lib/elf.c:478-504 | the second pass writes as many as were counted, and the right ones, in order |
| `ElfRelr.DecodeRelr` | boot/limine/limine/common/lib/elf.c:439-504 | both passes |
| `ElfRelr.DecodeAscends` | boot/limine/limine/common/lib/elf.c:486-503 | a table whose addresses ascend decodes to ascending words that do not overlap |
| `Bytes.NumberOfEight` | boot/limine/limine/common/lib/elf.c:558-562 | a 64-bit word is its eight bytes, lowest first |
| `ElfLoad.CheckRow` | boot/limine/limine/common/lib/elf.c:907-951 | the inner loop passes exactly if no other header disturbs |
| `ElfLoad.CheckHeaders` | boot/limine/limine/common/lib/elf.c:883-964 | accepted exactly if every header passes and one is loadable; the image reaches from the lowest to the highest address of a segment |
| `ElfLoad.AcceptedAreDisjoint` | boot/limine/limine/common/lib/elf.c:907-933 | the one-sided test over all ordered pairs leaves disjoint segments |
| `ElfLoad.ClashesArePages` | boot/limine/limine/common/lib/elf.c:935-950 | the two one-sided tests find exactly the pages that hold bytes of two segments with different permissions |
| `ElfLoad.AcceptedExactly` | boot/limine/limine/common/lib/elf.c:883-951 | the headers pass exactly if every segment ends below 2^64, lower ones come with relocations, no two share an address nor, where ranges are reported, a page with different permissions, and none in the higher half follows a lower one |
| `ElfLoad.HigherThenLower` | boot/limine/limine/common/lib/elf.c:892-901 | lower and higher half segments are accepted together if the higher one comes first: two pages next to each other |
| `ElfLoad.OneSegment` | boot/limine/limine/common/lib/elf.c:518-528 | a relocation is applied in one segment at most |
| `ElfLoad.AppliedWord` | boot/limine/limine/common/lib/elf.c:518-562 | within a segment every relocated word is changed once |
| `ElfLoad.AppliedByte` | boot/limine/limine/common/lib/elf.c:518-562 | and no other byte |
| `ElfLoad.LoadedAlone` | boot/limine/limine/common/lib/elf.c:993-1033 | each segment ends up as if it had been loaded alone |
| `ElfLoad.LoadedOnce` | boot/limine/limine/common/lib/elf.c:993-1033 | in the whole image every relocated word is changed once and every other byte of a segment is the file's |
| `ElfLoad.LoadedImage` | boot/limine/limine/common/lib/elf.c:993-1033 | the image byte by byte and word by word, in terms of the file |
| `ElfLoad.RelocatedOnce` | boot/limine/limine/common/lib/elf.c:558-562 | the word is the copied one plus the slide modulo 2^64 |
| `ElfLoad.ApplyRelocations` | boot/limine/limine/common/lib/elf.c:518-562 | the apply loop |
| `ElfLoad.LoadSegments` | boot/limine/limine/common/lib/elf.c:993-1033 | the load loop, refused exactly for a segment the file does not provide; where segments do not overlap, every byte that no relocation names is the file's or, behind what the file provides, the old one, and every word named once is the file's plus the slide modulo 2^64 |
| `ElfLoad.RisingIsSpread` | boot/limine/limine/common/lib/elf.c:478-562 | the relocations of such a table do not overlap |
| `ElfLoad.LoadElf` | boot/limine/limine/common/lib/elf.c:885-1033 | succeeds exactly if the headers are acceptable, one is loadable and the file provides every segment; the image then holds for every segment the bytes of the file and zeros behind them, and, for relocations that do not overlap, the word of the file plus the slide modulo 2^64 where one is named |
| `ElfLoad.LoadElfRelr` | boot/limine/limine/common/lib/elf.c:439-1033 | the same for the relocations of a RELR table; an ascending one has none that overlap |

## Left out

- PageTables.Pagemap.MapPage: addresses are aligned to the page size and physical ones below 2^48, as every caller provides; the cached cpuid answers are fields set once.
- PagemapBuilder.MapMemory: only the loop over the memory map; the framebuffer, identity and kernel mappings of `build_pagemap` would repeat it. The direct map is required not to overlap the identity map and to fit the address space.
- MemoryMap.MemMap.Sanitise: where usable entries overlap each other, or entries of other types overlap or adjoin, the order of the entries decides whether some nested entries cause the panic; there it is stated when it must come and what it means, not both ways at once.
- MemmapSpec.StepKeepsPages: for maps whose usable entries do not overlap each other; of two that do, the first to be cut loses the common part, so the pages kept depend on the order.
- MemmapPasses.RoundingKeepsPagesIff: for the same maps.
- Allocator.Heap.Alloc: the zeroing of the block and the two builds without the 4 GiB limit are not modelled.
- Allocator.Heap.PmmFree: the contents of the freed pages are not modelled.
- SuffixArray.Saca: positions are unbounded integers, so the 32-bit overflow of the rank index for sources of 2^30 bytes and more is not covered; allocation failures are not modelled.
- LimlzPack.Pack: sources are shorter than 2^60 bytes; match lengths are not truncated to 32 bits and the packer's buffers are never refused by the allocator.
- LimlzImage.MakeImage: the decompressor's fixed addresses and registers are not modelled.
- Device.Device.Write: an I/O error in the middle of a write, after its bytes were saved, is not modelled; accesses fail only outside the whole blocks.
- Device.Device.Uninstall: the retry after a failed write is not modelled, because no write of a log that the device itself produced fails.
- Blake2b.State.Finish: the compression function and the initial value are parameters; the rounds, the parameter block and the byte order of the digest are not modelled.
- Volume.Volume.Read: network volumes and the panic on them; a device that does not answer may fail any transfer, and nothing is said about when it does.
- FatChain.ReadClusterChain: the volume is a byte string and its reads fail only outside it, not for a fault of the device; directories, long names and the boot sector are not modelled.
- MenuPath.ParsePathComponent: the number behind # is unbounded, where the program's conversion wraps at its word size.
- MenuFind.FindEntryByPath: the tree is a value and the opened directories are in the tree returned, where the program sets a flag in place; duplicate indexes are unbounded.
- MenuTree.PrintTree: only the numbering and the selection, not what is drawn.
- ElfLoad.LoadElf: the allocator provides the memory of the image, whose size has no bound here; the relocations are a list of addresses, as `ElfRelr.DecodeRelr` makes it from a RELR table; the random slide and the reported ranges are not modelled.
- ElfLoad.LoadSegments: only relocations that add the slide; symbol relocations, address translation of the tables, the random slide and the reported ranges are not modelled.
- Reclaiming UEFI memory and rewriting firmware descriptors, the conventional-memory allocator of the BIOS build.
- Page tables of other architectures: the same shape with other flag bits.
- Configuration files and macros, ACPI, SMBIOS, TPM and PE handling, the boot protocol hand-off.
- Firmware calls, drivers, terminals, the menu editor and the third-party libraries.
- The kernel under `kernel/` and the stub under `uefi-bootloader/`: they print banners.

# FynaOS: memory manager, formatter and console

A Dafny model of the parts of the FynaOS kernel with the most state behind them, and proofs about every
input, every state and every run of that model. `dafny verify dfyconfig.toml` checks all of it.

| layer | files | what it holds |
|---|---|---|
| frame allocator | `Dyadic`, `Buddy`, `BuddyProofs`, `BuddyTheorems`, `BuddyRuns`, `Pmm`, `SingleFrames` | the buddy allocator of `mm/pmm.c`: as a pure state machine, and as an array of frame records with the free lists threaded through it |
| start-up | `Boot` | the bump allocator of `mm/boot.c` and the hand-over of memory in `mm/mm.c` |
| page tables | `PageTables`, `Teardown`, `Spaces`, `Vmm` | the four-level tables of `mm/vmm.c` (section 4.5 of the Intel 64 SDM, volume 3A), on frames from the allocator |
| kernel pool | `Heap`, `PoolMemory`, `Pool`, `KernelPool` | the first-fit heap of `mm/pool.c`: as a list of blocks, and as 64-bit words in memory |
| formatter | `Numerals`, `Format`, `Truncation`, `Lengths`, `Snprintf` | `rtl/snprintf.c` against a reference that reads and renders a format, and its result in a buffer of any length |
| console | `Console` | `drivers/fbcon.c` and `drivers/framebuffer.c` against a tape that never scrolls |

Code that changes things in place is a class or a method on arrays, with loops; its contract ties it to a pure
function, and the theorems are about that function.

The buddy allocator's `Inv` says that the free and used blocks cover exactly the managed frames, that each block
is aligned to its size and disjoint from all others, and that list `k` holds exactly the free blocks of order `k`,
once each. `Pmm` says what the frame records have to do with that: a record is true only for the first frame of a
block, and stale inside one.

## Findings

The code is modelled as it is. Where a property one would expect fails, there is a proof of when it holds:

- `get_max_order` tests its end strictly, and handing over never merges, so pairs of free buddies arise: the last two
  frames of a range with an even end, and what the ends of a range form with free blocks outside
  (`HandOverPairsExact`, `FrameByFrame`). Frees keep these pairs as they are (`FreeKeepsPairs`).
- A usable entry of the memory map that does not begin on a page boundary hands over the whole page it begins in,
  whatever is in front of it (`EntryPagesUsable`). Kernel bytes or frame records go with it exactly if they end in
  that page (`KernelKeptExact`, `BootKeptExact`, `UnalignedEntryLosesKernel`, `UnalignedEntryLosesRecords`).
- `delete_mm` on a space with a copied kernel half gives back kernel tables, unless there was nothing to copy
  (`DeleteSpares`, `CopyThenDelete`).
- `divide` may leave a rest of 8 or 16 bytes, less than the three fields it then writes there (`DivideExact`); in a
  fresh pool that happens exactly for requests of 4017 to 4032 bytes (`FreshSafeExact`). The page is then no pool any
  more (`CutExact`).
- `kfree` subtracts 32 from an address that `allocate` made by adding 24, so no address from `kmalloc` leads it to a
  block (`KfreeNeverFinds`, `KfreeFirstBlock`).
- `kmalloc` of more than a fresh pool holds takes every free frame before it returns NULL (`Kmalloc`).
- `%u`, `%x`, `%X`, `%o` and `%b` without `l` print a 32-bit argument with its top bit set as a 64-bit number
  (`UnsignedExact`).
- `%c` without room in the buffer leaves its argument untaken, so a `%s` behind it can take a character for a pointer
  (`CharTakenForString`). A format always returns exactly if no `%s` follows a `%c` (`AlwaysReturns`).
- `vsnprintf` does not always return the length needed: a format does exactly if it has no plain characters and no
  `%p`, and behind a `%c` no string and no number narrower than its longest numeral (`LengthExact`).
- `virt_to_phys` cannot tell the last byte of frame 2^52 - 1 from a failure (`VirtToPhys`).
- A width of 4294967295 passes the test for room in `print_number` with any buffer (`AdmittedExact`).

## Model

| member | source | states |
|---|---|---|
| `Dyadic.BuddyPair` | mm/pmm.c:118-128 | the exclusive-or partner of an aligned block is another aligned block, is its own inverse, and the two make up one block aligned to the next order |
| `Dyadic.Nested` | mm/pmm.c:97-135 | two aligned blocks that share a frame are nested: the larger contains the smaller |
| `Dyadic.AlignedExact` | mm/pmm.c:56-56 | the mask test on the low bits decides divisibility by the size of the block |
| `BuddyRuns.MaxOrderExact` | mm/pmm.c:50-63 | the order chosen is the greatest whose block is aligned and ends strictly before the limit, or 0 |
| `BuddyRuns.HandOverExact` | mm/pmm.c:65-77 | handing over any range keeps the invariant and makes exactly its frames managed and free, so the aligned blocks it is cut into tile it |
| `BuddyRuns.HandOverPairsExact` | mm/pmm.c:50-77 | in any state, two blocks are free buddies after handing over a range if and only if they were before, or are the last two frames of a range with an even end, or are the first block or the last frame of the range and a free block outside |
| `BuddyRuns.FirstHandOverPairs` | mm/pmm.c:50-77 | in an empty allocator that leaves a pair if and only if the limit is even and the range has two frames, and then it is those |
| `BuddyRuns.FrameByFrame` | mm/pmm.c:65-77 | two ranges of one frame each that leave a pair |
| `BuddyRuns.RunInv` | mm/pmm.c:65-167 | in every state of every run of hand-overs, allocations and frees the invariant holds, and the managed frames are exactly those handed over |
| `BuddyRuns.RunNoNewPairs` | mm/pmm.c:97-167 | from any state of a run on, without further hand-overs, pairs of free buddies below the top order only disappear |
| `BuddyProofs.DivideInv` | mm/pmm.c:97-110 | cutting the front block of a list keeps the invariant, the free frames and the used blocks |
| `BuddyProofs.AllocInv` | mm/pmm.c:137-159 | an allocation keeps the invariant |
| `BuddyProofs.MergeStep` | mm/pmm.c:116-131 | one turn of merging joins a floating block with its free buddy into an aligned block twice the size and keeps all free frames, used blocks and the final outcome |
| `BuddyProofs.MergeInv` | mm/pmm.c:112-135 | merging a floating block ends in a state that satisfies the invariant, with the block's frames free |
| `BuddyProofs.FreeInv` | mm/pmm.c:161-167 | freeing a used block keeps the invariant |
| `BuddyTheorems.AllocExact` | mm/pmm.c:137-159 | an allocation succeeds if and only if a block of at least that order is free; then it takes an aligned run of free frames from a block of the smallest sufficient order and the free total falls by 2^order, otherwise nothing changes |
| `BuddyTheorems.AllocSource` | mm/pmm.c:141-151 | the frame handed out is the first one of a block of the smallest sufficient order |
| `BuddyTheorems.FreeExact` | mm/pmm.c:161-167 | a free makes exactly the frames of the block free, none of which was free before, and the free total rises by 2^order |
| `BuddyTheorems.AllocFreeRestores` | mm/pmm.c:97-167 | freeing what was just allocated restores the whole state, order of the lists included, if and only if the block that was cut had no free buddy of its own |
| `BuddyTheorems.FreeAllocRestores` | mm/pmm.c:112-167 | freeing a block without a free buddy and allocating at its order gives that block back and restores the whole state: the lists are last in, first out |
| `BuddyTheorems.AllocNoNewPairs` | mm/pmm.c:97-159 | an allocation never adds a pair of free buddies |
| `BuddyTheorems.FreeKeepsPairs` | mm/pmm.c:112-167 | the pairs of free buddies after a free are exactly those before it |
| `Pmm.BuddyTest` | mm/pmm.c:118-126 | the test on the buddy's record, stale or not, passes if and only if the buddy is on the free list of that order |
| `Pmm.FrameAllocator.constructor` | mm/pmm.c:27-40 | all frames start reserved, without order and on no list: the empty state |
| `Pmm.FrameAllocator.UnreserveFrameRegion` | mm/pmm.c:42-48 | exactly the frames of the region lose the reserved flag, and the invariant stays |
| `Pmm.FrameAllocator.GetMaxOrder` | mm/pmm.c:50-63 | no order from the one found to 11 gives an aligned block that ends before the limit |
| `Pmm.FrameAllocator.InitBuddyAllocator` | mm/pmm.c:65-77 | the loop carries out the pure hand-over of the range and keeps the invariant |
| `Pmm.FrameAllocator.RemoveFrameFromList` | mm/pmm.c:79-95 | finds a frame if and only if it is on the list of its order, and removes just that one |
| `Pmm.FrameAllocator.DivideBuddy` | mm/pmm.c:97-110 | the record updates carry out the pure division |
| `Pmm.FrameAllocator.TryMerge` | mm/pmm.c:116-131 | one turn of merging: it stops if and only if the buddy is not free, and otherwise always finds the buddy on its list, so the panic of the removal is unreachable |
| `Pmm.FrameAllocator.MergeBuddy` | mm/pmm.c:112-135 | the loop carries out the pure merge |
| `Pmm.AllocOutcome` | mm/pmm.c:137-159 | a frame address is never equal to the failure value |
| `Pmm.FrameAllocator.AllocFrames` | mm/pmm.c:137-159 | fails if and only if nothing large enough is free, changing nothing; otherwise returns the address of a run that was free and is now used, aligned to the size of the run |
| `Pmm.FrameAllocator.FreeFrame` | mm/pmm.c:161-167 | carries out the pure free on the head of a used block |
| `SingleFrames.AllocOne` | mm/pmm.c:137-159 | an order-0 request fails if and only if no frame is free, and otherwise takes exactly one |
| `Boot.BootAllocator.Alloc` | mm/boot.c:22-36 | panics if and only if the aligned block would reach the limit; otherwise the block is aligned and lies between the old tail and the new one |
| `Boot.FindBootRegion` | mm/mm.c:20-32 | finds the first of the longest usable entries, if any has a length |
| `Boot.FindRamLimit` | mm/mm.c:49-59 | finds the end of usable memory |
| `Boot.HandedApart` | mm/mm.c:87-108 | entries that do not overlap never hand over the same frame, aligned or not |
| `Boot.HandedExactly` | mm/mm.c:87-108 | the frames handed over are exactly the whole pages of the entries of type 1, from where each hand-over begins |
| `Boot.BeginCases` | mm/mm.c:91-104 | that is behind boot memory for the boot entry, behind the image for the kernel entry, and the begin of any other entry |
| `Boot.BootAvoidsKernel` | mm/mm.c:37-43 | boot memory never overlaps the kernel image |
| `Boot.HandedInRange` | mm/mm.c:64-108 | every frame handed over has a record |
| `Boot.EntryPagesUsable` | mm/mm.c:87-108 | the pages of an entry consist of its own bytes if and only if it is the boot or kernel entry, begins on a page boundary, or ends in the page it begins in |
| `Boot.HandedSafe` | mm/mm.c:87-108 | for page-aligned entries every page handed over lies in one usable entry and holds no byte of the kernel image or of boot memory, frame records included |
| `Boot.KernelKeptExact` | mm/mm.c:87-108 | for every map, no page handed over holds a kernel byte if and only if no entry but the boot and kernel entries begins behind the image in the page the image ends in and reaches the next page |
| `Boot.BootKeptExact` | mm/mm.c:87-108 | the same for boot memory with the frame records in it |
| `Boot.UnalignedEntryLosesKernel` | mm/mm.c:14-109 | a map with the kernel at 1 MiB that, with the layout computed from it, hands over kernel bytes |
| `Boot.UnalignedEntryLosesRecords` | mm/mm.c:14-109 | another that hands over frame records |
| `Boot.UnreserveUsable` | mm/mm.c:66-75 | every frame of every usable entry is unreserved |
| `Boot.HandOverUsable` | mm/mm.c:87-108 | exactly the frames of the entries become managed, and all of them free |
| `Boot.ReserveRecords` | mm/mm.c:14-64 | panics if and only if no usable entry has a length or the longest has no room for the frame records; otherwise boot memory lies in that entry, behind the kernel image if that is inside, and holds one record for every frame |
| `Boot.InitMemory` | mm/mm.c:14-109 | panics exactly then, and otherwise ends with a valid allocator that manages exactly the frames handed over, all free |
| `PageTables.WalkPos` | mm/vmm.c:26-57 | a walk from a root reaches a table whose one position is that path in that tree, or in the kernel's tree through the upper half |
| `PageTables.TreesDisjoint` | mm/vmm.c:70-111 | two walks that meet in a table follow the same indices, from the same root unless they go through the upper half |
| `PageTables.LinkForest` | mm/vmm.c:79-99 | linking a fresh zeroed table keeps all trees disjoint |
| `PageTables.LinkExtends` | mm/vmm.c:79-99 | and changes no translation in any space |
| `PageTables.LeafUpdates` | mm/vmm.c:103-110 | writing a last-level entry sets the translation of that one page, in the spaces that share the table, and no other |
| `PageTables.UpdatesMapping` | mm/vmm.c:70-153 | as plain maps: one key changes in the space at hand, and for a lower-half page every other space keeps its map |
| `PageTables.RightsExact` | mm/vmm.c:79-108 | the writable bit and the user bit are set on all four levels of a translation if and only if they are in its last-level entry |
| `Vmm.MappedOpen` | mm/vmm.c:70-111 | a page mapped with attributes 7 is writable and open to user mode |
| `Vmm.PageOfNumber` | include/fynaos/mm.h:12-16 | the four indices are below 512 and spell bits 12 to 47 of the address, the root's index first |
| `Vmm.PageOfExact` | include/fynaos/mm.h:12-16 | two addresses have the same four indices if and only if they have the same 36-bit page number |
| `Vmm.AddressSpaces.VirtToPhys` | mm/vmm.c:26-57 | the translation of the page plus the offset; the failure value if and only if there is none, or the last byte of frame 2^52 - 1 is asked for |
| `Vmm.AddressSpaces.EnsureTable` | mm/vmm.c:79-85 | leaves everything as it is if the table is there, else takes one free frame for an empty table and writes its address with the bits 7 into that entry, and nothing else; translations stay |
| `Vmm.AddressSpaces.MapPage` | mm/vmm.c:70-111 | true if and only if the page was unmapped; then exactly that page is set, its last-level entry is the frame address plus the attributes, every other word of a table that was there is unchanged or a new link on the way, and exactly the missing tables are taken from the free frames; false changes nothing at all |
| `Vmm.AddressSpaces.UnmapPage` | mm/vmm.c:113-153 | returns where the page was mapped, or the failure value if and only if it was not, and unmaps exactly that page by clearing its entry |
| `Spaces.CopyWalk` | mm/vmm.c:155-164 | after the copy every upper-half walk of the space is the kernel's, and no other walk of any space changes |
| `Vmm.AddressSpaces.MapKernelForUserMm` | mm/vmm.c:155-164 | copies exactly the entries 256 to 511 of the kernel's root and keeps the trees valid |
| `Spaces.AddRootWalk` | mm/vmm.c:166-187 | a new space maps nothing and changes no other space |
| `Vmm.AddressSpaces.CreateMm` | mm/vmm.c:166-187 | fails if and only if no frame is free, or one is and no pool has room for the record, and then the root frame is back; otherwise a new space of 512 zero entries on a frame that was free, with its record in the first block that fits |
| `Vmm.MapKeepsSeparate` | mm/vmm.c:70-111 | free frames, tables, pool pages and mapped frames stay four different things when a frame that is none of the first three is mapped |
| `Vmm.UnmapKeepsSeparate` | mm/vmm.c:113-153 | and when a page is unmapped |
| `Vmm.GrowKeepsSeparate` | mm/pool.c:142-181 | and when `kmalloc` grows pools |
| `Vmm.CreateKeepsSeparate` | mm/vmm.c:166-187 | and when a space is created |
| `Vmm.DeleteKeepsSeparate` | mm/vmm.c:196-213 | and when a space is deleted whose frames no other space maps |
| `Vmm.PoolsStand` | mm/pool.c:160-200 | as long as they do, every pool stays a pool |
| `Teardown.WholeIsReachable` | mm/vmm.c:196-207 | the frames given back are exactly the tables and mapped frames that can be reached |
| `Teardown.WholeNoDup` | mm/vmm.c:196-207 | none is given back twice if no frame is reached by two paths |
| `Teardown.FreeAllExact` | mm/vmm.c:196-207 | giving back distinct single used frames keeps the allocator's invariant, frees exactly those, and raises the free total by their number |
| `Vmm.AddressSpaces.FreePageTable` | mm/vmm.c:196-207 | the recursive release gives back that list of frames in that order |
| `Spaces.ReachedExact` | mm/vmm.c:196-213 | what a deletion gives back is every frame that a walk of up to four levels ends in |
| `Spaces.DeleteSpares` | mm/vmm.c:209-213 | deleting a space gives back no table that another space needs if and only if no kernel entry was copied into it |
| `Spaces.SharedIsReleased` | mm/vmm.c:196-213 | a table that a root shares with the kernel's is given back with the space although the kernel needs it |
| `Spaces.UnsharedExact` | mm/vmm.c:155-164 | a root shares nothing if and only if none of its present upper-half entries leads where the kernel's does |
| `Spaces.CopiedUnsharedExact` | mm/vmm.c:155-164 | after the copy a space shares nothing if and only if the kernel's upper half is empty |
| `Spaces.CopyThenDelete` | mm/vmm.c:155-213 | deleting a space after the copy spares what other spaces need if and only if there was nothing to copy |
| `Spaces.RemoveWalk` | mm/vmm.c:209-213 | the deletion of an unshared space changes no walk of any other |
| `Vmm.NewDeletable` | mm/vmm.c:166-213 | a space that was just created meets every demand of its deletion |
| `Vmm.MapKeepsDeletable` | mm/vmm.c:70-213 | mapping a single used frame that is neither mapped there yet nor a table keeps a space deletable |
| `Vmm.UnmapKeepsDeletable` | mm/vmm.c:113-213 | unmapping keeps a space deletable |
| `Vmm.AddressSpaces.DeleteMm` | mm/vmm.c:209-213 | every table and every mapped frame of the space becomes free exactly once, the free total rises by exactly their number, and the remaining trees stay valid |
| `Heap.Need` | mm/pool.c:77-83 | a request takes the bytes rounded up to the least multiple of 16, and 32 more |
| `Heap.FirstFitBytes` | mm/pool.c:77-93 | in bytes: the block found is the first free one with room for that |
| `Heap.TakenBytes` | mm/pool.c:95-100 | the block handed out has room for that, and exactly that if it was cut |
| `Heap.TakeReleaseRestores` | mm/pool.c:75-130 | taking from a block and releasing it again restores the list of blocks |
| `Heap.TakeCoalesced` | mm/pool.c:95-100 | cutting and marking leaves no two free neighbours |
| `Heap.ReleaseCoalesced` | mm/pool.c:119-129 | releasing leaves no two free neighbours |
| `PoolMemory.MergeLaid` | mm/pool.c:61-73 | the writes of a merge leave the words of the list in which the two blocks are one, links in both directions included |
| `PoolMemory.DivideLaid` | mm/pool.c:35-59 | the writes of a division leave the words of the list in which the block is two |
| `PoolMemory.DivideExact` | mm/pool.c:35-59 | that holds, inside the pool, if and only if the rest has room for its three fields |
| `PoolMemory.DivideCorrupts` | mm/pool.c:35-59 | with a smaller rest the header of the next block is overwritten |
| `Pool.BlockMemory.Divide` | mm/pool.c:35-59 | splits if and only if something is left over, and writes exactly the words of `DivideExact`; with room for the fields of the rest the pool holds the split list and nothing outside is touched |
| `Pool.CutExact` | mm/pool.c:95-100 | cutting and marking leaves a well-formed pool if and only if nothing is left over or the rest has room for its fields, and then touches nothing outside |
| `Pool.BlockMemory.Merge` | mm/pool.c:61-73 | joins a block with its successor and touches nothing outside the pool |
| `Pool.BlockMemory.Allocate` | mm/pool.c:75-103 | takes the first free block with room for the bytes, which end inside the block, and cuts it to those rounded up to 16, and 32 more; NULL if and only if none has room; the exact words written in every case, and the pool stays tiled and without free neighbours if and only if the rest is roomy |
| `Pool.BlockMemory.FreeBlock` | mm/pool.c:112-130 | panics if and only if the block is free; otherwise releases it and joins it with its free neighbours, and the pool stays tiled and without free neighbours |
| `KernelPool.KernelPool.InitSinglePool` | mm/pool.c:132-140 | the words of a fresh page become a pool of one free block |
| `KernelPool.KernelPool.InitPool` | mm/pool.c:183-200 | succeeds if and only if a frame is free, and leaves a valid chain of one fresh pool |
| `KernelPool.KernelPool.ExtendPool` | mm/pool.c:142-158 | appends one fresh pool if and only if a frame is free, and otherwise changes nothing |
| `KernelPool.KernelPool.Kmalloc` | mm/pool.c:160-181 | terminates for every length; serves from the first block with room, in bytes, of the first pool that has one, grown by at most one, and the bytes asked for end inside the block; NULL if and only if no block has room and neither has a fresh pool or no frame is free, and then no frame is left; the pools stay well formed if and only if the serving cut is roomy |
| `KernelPool.KernelPool.Kfree` | mm/pool.c:105-130 | on a pointer 32 bytes past a block: panics if and only if the block is free, and otherwise releases just that block |
| `KernelPool.ServeReleaseRestores` | mm/pool.c:105-181 | releasing the block that a request was served from restores the whole chain |
| `KernelPool.FreshSafeExact` | mm/pool.c:35-41 | a request leaves too small a rest in a fresh pool if and only if it is for 4017 to 4032 bytes |
| `KernelPool.KfreeNeverFinds` | mm/pool.c:102-112 | the address returned for any block never leads `kfree` to any block |
| `KernelPool.KfreeFirstBlock` | mm/pool.c:102-117 | for the first block of a pool it leads to the pool's link field, taken for a free header if and only if the pool is the last |
| `Numerals.DigitsBack` | rtl/snprintf.c:85-111 | digits parse back to the number, in every base, without leading zeros |
| `Numerals.DigitsFew` | rtl/snprintf.c:49-93 | a number below 2^m has at most m digits in every base |
| `Numerals.FieldBack` | rtl/snprintf.c:113-153 | a padded field reads back as the number in it, for every width and all flags |
| `Numerals.DigitCase` | rtl/snprintf.c:54-54 | digits above nine are the letters from a in lower case and from A in upper case |
| `Numerals.FieldPlaces` | rtl/snprintf.c:113-153 | where everything in a field stands: blanks behind, zeros between sign and digits, or blanks in front |
| `Snprintf.PrintedPlaces` | rtl/snprintf.c:44-153 | that, for each flag and base of `print_number` |
| `Snprintf.FillDigits` | rtl/snprintf.c:85-95 | fills at most 64 of the 66 places, lowest digit first |
| `Snprintf.ReverseScratch` | rtl/snprintf.c:97-111 | reverses the digits in place |
| `Snprintf.Complement` | rtl/snprintf.c:68-74 | complement and increment give the magnitude of every negative number, the most negative one included |
| `Snprintf.AdmittedExact` | rtl/snprintf.c:129-129 | the test for room lets through a field that does not fit if and only if the width is 2^32 - 1 |
| `Snprintf.PrintNumber` | rtl/snprintf.c:44-162 | advances by the size of the field in every case, and writes field and terminator if and only if both fit, changing nothing else |
| `Format.ShowBack` | rtl/snprintf.c:169-232 | the text of any expressible directives is read as exactly those directives |
| `Format.ParseForm` | rtl/snprintf.c:177-232 | any flags in any order, a width, one of "", "l", "ll", "h", "hh" and a letter are read as what they say, up to and with the letter |
| `Format.ParseComplete` | rtl/snprintf.c:177-232 | and nothing else is read as a conversion |
| `Format.LetterText` | rtl/snprintf.c:262-386 | the number, base, case and padding that each letter prints, for every argument |
| `Format.LetterRenders` | rtl/snprintf.c:232-403 | the text and the arguments taken for every letter, unknown ones included |
| `Format.NumberBack` | rtl/snprintf.c:262-371 | the number printed reads back as the value taken from the argument |
| `Format.UnsignedExact` | rtl/snprintf.c:284-371 | a 32-bit argument of an unsigned conversion without `l` reads back as itself if and only if its top bit is clear |
| `Format.LongExact` | rtl/snprintf.c:262-371 | with `l` every 64-bit argument reads back as itself |
| `Snprintf.ScanSpec` | rtl/snprintf.c:177-232 | the parsing loops read the conversion that the reference reads, with the width modulo 2^32 |
| `Truncation.RenderExact` | rtl/snprintf.c:232-403 | a rendering exists if and only if every need of the format finds an argument, and a string where it needs one |
| `Truncation.RenderJoin` | rtl/snprintf.c:169-410 | directives render one after the other, each with the arguments that those before it leave |
| `Truncation.PlainText` | rtl/snprintf.c:405-408 | text without a percent sign renders to itself |
| `Truncation.RunExact` | rtl/snprintf.c:164-422 | in a buffer of any length, the run returns if and only if the arguments match the format in which every `%c` from the first one without room on is absent |
| `Truncation.AlwaysReturns` | rtl/snprintf.c:164-422 | a format returns for every buffer and all matching arguments if and only if no `%s` follows a `%c` |
| `Truncation.CharTakenForString` | rtl/snprintf.c:250-259 | matching arguments of "%c%s" that a buffer of one byte does not return for |
| `Truncation.RunLength` | rtl/snprintf.c:164-422 | without `%c`, every run with matching arguments returns; the result never exceeds the length of the rendering, and a full buffer loses exactly the plain characters and the prefixes of `%p` |
| `Lengths.LengthExact` | rtl/snprintf.c:164-422 | the result is the length of the rendering for every buffer and all matching arguments if and only if the format has no plain character and no `%p`, and behind a `%c` no string and no number whose width is below its longest numeral |
| `Snprintf.PutSpec` | rtl/snprintf.c:232-403 | the exact position and arguments left in every case; where it fits, a conversion appends its reference text |
| `Snprintf.Vsnprintf` | rtl/snprintf.c:164-422 | the exact result at every buffer length; every write is inside the buffer and every result comes with a terminator; if the reference rendering fits, the buffer holds it and the result is its length |
| `Console.ScrollUp` | drivers/framebuffer.c:54-70 | the in-place copy is the pure shift of all rows, with the rows at the bottom filled |
| `Console.TypeAppend` | drivers/fbcon.c:40-74 | writing in two calls is writing in one |
| `Console.StrikeKeeps` | drivers/fbcon.c:40-74 | the tape is append-only: nothing before the cursor ever changes |
| `Console.GlyphStays` | drivers/fbcon.c:23-74 | every character's glyph stands on the tape for good, lit bits in the foreground colour and the others in the background colour, where the text before it leaves the cursor |
| `Console.LineEnd` | drivers/fbcon.c:46-49 | a line end puts the cursor in column 0 of the next row and changes no pixel |
| `Console.CursorPlace` | drivers/fbcon.c:40-74 | where any text leaves the cursor, by counting: four cells for a tab, one row more for every line end and every full row, and the column is the cells since then |
| `Console.GlyphPlace` | drivers/fbcon.c:23-74 | every character of any text has its pixels in the cell that counting gives, for good |
| `Console.ReadingOrder` | drivers/fbcon.c:55-64 | text without line ends fills one cell per character in reading order |
| `Console.TextConsole.constructor` | drivers/fbcon.c:76-88 | the screen starts as the head of its tape, with the cursor in the first cell |
| `Console.TextConsole.DrawChar` | drivers/fbcon.c:23-38 | draws exactly the glyph's cell |
| `Console.TextConsole.Settle` | drivers/fbcon.c:60-70 | wrap and scroll bring the cursor back into the grid and the window of the screen along the tape |
| `Console.TextConsole.Write` | drivers/fbcon.c:40-74 | the tape gets the text; the cursor is in its row of the tape or, once that is past the bottom, in the last row, and the screen shows the tape around it |
| `Console.TextConsole.SetColor` | drivers/fbcon.c:90-95 | keeps the screen; rows that come into view later have the new background |

## Left out

- `Kmalloc`: lengths so near 2^64 that aligning them wraps are not modelled. After a cut that leaves 8 or 16 bytes the words of memory are stated, but no further call on the broken pools is.
- Memory has two words behind the last frame, for the fields of a rest of 8 or 16 bytes at the end of that frame.
- `Kfree`: is stated over the block that `addr - 32` names, because the addresses that `kmalloc` returns name none (`KfreeNeverFinds`).
- `MapPage`: requires enough free frames for the missing tables, because the source does not test for failure there, and an aligned frame with attributes below bit 12; attributes without the present bit are covered and leave the page unmapped.
- `DeleteMm`: leaves out the final `kfree` of the record, which does not reach its block, and demands an unshared space whose pages map distinct single used frames.
- Page tables and pools live in memories of their own; that their frames are distinct follows from the allocator, but the model does not lay both out in one array of words.
- `Vsnprintf`: says nothing about the contents of the buffer, the terminator apart, when the rendering does not fit. Formats that end inside a conversion and arguments that do not match lead to undefined behaviour in the source and to None here. Widths of 2^32 - 1 are excluded, because number conversions then write past the buffer (`AdmittedExact`).
- `PrintNumber`: excludes a width of 2^32 - 1 for the same reason.
- `TextConsole.constructor`: demands a screen with room for one character, and leaves out the test of the framebuffer type.
- `Write`: the font is a parameter, defined for every character; the table of the source has 128 rows.
- Huge-page entries of the boot page tables, `init_kernel_mm` (empty in the source), `swap_mm` and translation caches.
- The saving and restoring of the interrupt flag in `kmalloc`, which is hardware state.
- Colour channels and the pitch of the framebuffer: pixels are elements of a two-dimensional array.
- The wrapper `snprintf`, `rtl/string.c`, the serial port, the panic screen, descriptor tables, interrupt handlers and assembly: thin wrappers, tables or hardware access with only easy facts to prove.

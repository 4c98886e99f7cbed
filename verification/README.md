# The memory stack of the kernel, modelled and proved in Dafny

The kernel manages memory in three layers, each standing on the one below, and
this project models all three in the form the C code has: classes whose methods
update arrays in place, proved equal to functions on values, about which the
theorems are then proved.

* **Buddy allocator** (`kernel/src/memory/buddy.c`). A table of page states and,
  for every order, a doubly linked list of free blocks kept in two index arrays.
  A `Pool` value holds the page states and, for every order, the sequence of
  listed frames; class `Buddy` holds the four arrays, and its invariant `Wired`
  says that heads and links store exactly these sequences. `BuddyPool.Valid`
  says that free blocks are aligned, in bounds, disjoint and body-marked, that
  lists do not repeat, and that every page whose state names an order starts a
  block listed under that order. `BuddyPool.Consistent` is the same invariant
  while a stretch of pages is in transit, as in the middle of a split or merge.
* **Page tables** (`kernel/src/memory/vmm.c`), 4-level paging in the sense of
  the Intel SDM, Vol. 3A, section 4.5. `PageTables.Tree` assigns each table its
  level, each but the root having exactly one parent entry; `Sound` adds that
  no table page is free in the buddy pool.
* **Slab heap** (`kernel/src/memory/heap.c`). A `Heap` value holds slabs with
  their free lists, the partial list of every class and the large blocks; class
  `Kheap` holds pages with headers, bitmaps and pointers, and `HeapMemory.Stores`
  ties the two. `SlabHeap.Sound` is the slab invariant, `Tight` says that every
  slab of a class up to 1024 has an object in use. `HeapObjects.Ledger` compares
  the objects in use with a record of what was really handed out.

Modules build on each other in this order: `Bits`, `BuddyPool`, `BuddyOps`,
`BuddyContract`, `BuddyCanonical`, `BuddyRanges`, `BuddyMap`, `BuddyRuns`,
`BuddyHistories`, `BuddyLinks`, `Buddy`; `PageTables`, `VmmOps`, `VmmWords`,
`VmmRuns`, `Vmm`; `SlabHeap`, `HeapTheorems`, `HeapSizes`, `HeapObjects`,
`HeapRuns`, `HeapMemory`, `Kheap`; and `MemoryRuns`, which puts the three layers and
all other clients on one buddy allocator.

## What the proofs found

Where a promised property fails of the code, the exact condition under which it
holds is proved instead.

* **The offset test of the heap is inverted.** `heap.c:105` rejects the offsets
  that are multiples of the object size, which are those of all objects. The
  model takes the test as a parameter. With the test as written `kmalloc`
  succeeds exactly on sizes above 2048 for which the buddy allocator has a block
  (`AsWrittenSucceedsIff`), and over any run every class holds at most one slab,
  which nobody uses (`Barren`). The properties of small objects in use are proved
  for the test that the callers need (`Intended`); soundness, undo and page
  accounting are proved for both readings.
* **Initialisation does not coalesce.** `buddy_add_range` never merges with
  earlier ranges. The pool after `buddy_init`, and so every later one, is
  canonical if and only if no two usable ranges meet at a frame with both of
  them at least as long as the largest power of two dividing that frame
  (`InitCanonicalIff`, `RunsCanonicalIff`); two entries of one page each at frames
  2 and 3 are such a pair (`TouchingEntries`). Three promises stand or fall with
  that: that an allocation fails only for want of an aligned run of free pages,
  that giving back all that was taken restores the free blocks, and that the
  pages in use determine the free blocks (`BootPromisesIff`).
* **Undo.** Without canonical form, freeing what was just allocated restores the
  state if and only if the address is not 0 and the block taken off its list had
  no listed buddy of its own order (`UndoIff`). For the heap, `MallocUndoIff` adds
  that an object of a slab that was there before must come from one with an object
  in use.
* **Freeing trusts its caller.** `buddy_free_pages` looks at the state of the first
  page only. Once it gets past its checks, the invariant survives if and only if
  the block named by address and count is aligned and holds no free page
  (`FreeValidIff`; a single page at an odd frame freed as two is not, `OddPair`),
  and reserved memory stays reserved as well if and only if the
  block is wholly allocated (`FreeSafeIff`).
* **Map entries that wrap.** The frames taken from a usable entry are the right
  ones if and only if its 64-bit sums do not wrap, or wrap harmlessly in one of
  two ways (`EntryFramesIff`). An entry of base 4096 and length 2^64 - 1 is lost
  (`WrappingEntry`).
* **The comment on `buddy_remove_free_block` is not what it does.** `buddy.c:105`
  promises false for a block that is not on the list of the order; the code
  unlinks a frame from the middle of any list. `RemoveFreeBlock` states exactly
  when it succeeds, and coalescing only calls it where it cannot fail.
* **The size test at `buddy.c:170` multiplies in 32 bits**, so by itself it
  rejects exactly the orders from 20 on (`WrappedSizeIff`). The maximum order is a
  parameter up to 19; the code has 18.
* **Flags with address bits.** `vmm_map` maps a page to the frame it was given
  if and only if the flags add no bit to the frame address (`MapTranslatesIff`);
  flags 0x1001 on frame 0 lead to frame 1 (`FlagsWithAddress`).
* **Unmapping a table.** `vmm_unmap` frees whatever the entry named. The tree
  stays well formed if and only if that page is not one of its tables
  (`UnmapWellFormedIff`). Mapping a table like any page and unmapping it again
  breaks the tree (`UnmappingATable`). All accounts of the machine survive an
  unmapping if and only if what it frees is a single page of a client, so neither a
  page of the heap nor the first page of a larger block (`UnmapCoherentIff`).
* **Large sizes wrap.** What `kmalloc` returns is as long as requested if and
  only if the size is below 2^64 - 7 (`LongEnoughIff`); a request for 2^64 - 1
  bytes gets one page (`WrappedSize`).
* **The last class is empty.** Behind its header of 2080 bytes a slab page has
  no room for an object of 2048 bytes, so sizes 1025 to 2048 always fail and may
  leave one page behind (`IntendedSucceedsIff`, `NoEmptiedSlab`).

## Model

| member | source | states |
|---|---|---|
| Buddy.Buddy.AddFreeBlock | kernel/src/memory/buddy.c:91-102 | a frame on no list becomes the head of its list; page states, heads and both link arrays store the new lists |
| Buddy.Buddy.RemoveFreeBlock | kernel/src/memory/buddy.c:104-129 | succeeds if and only if the frame is on the list of the order or not at the head of another; then exactly that frame is unlinked, otherwise no array entry changes |
| Buddy.Buddy.RemoveListed | kernel/src/memory/buddy.c:278-284 | unlinking a listed block cannot fail, so the failure returns are never taken while coalescing |
| Buddy.Buddy.PopFreeBlock | kernel/src/memory/buddy.c:131-148 | takes the first block off its list, or reports an empty list |
| Buddy.Buddy.MarkBlockFree | kernel/src/memory/buddy.c:70-80 | head carries the order, the rest of the block the body mark, other pages stay |
| Buddy.Buddy.MarkBlockAllocated | kernel/src/memory/buddy.c:82-89 | exactly the pages of the block become allocated |
| Buddy.Buddy.AddRangeOf | kernel/src/memory/buddy.c:150-164 | terminates, and lists the greedy cut of the range, keeping the invariant |
| Buddy.Buddy.LargestFit | kernel/src/memory/buddy.c:153-157 | the search down from the maximum order finds the largest order that fits length and alignment |
| Buddy.Buddy.AllocateBlockOf | kernel/src/memory/buddy.c:166-194 | in-place search, pop, split and mark equal the function on pools, with the 32-bit size test |
| Buddy.Buddy.SplitBlock | kernel/src/memory/buddy.c:182-187 | halving lists every upper half and keeps the block itself in transit |
| Buddy.Buddy.AllocPagesOf | kernel/src/memory/buddy.c:233-247 | keeps the invariant and refines allocation on pools, bad sizes included |
| Buddy.Buddy.FreePagesOf | kernel/src/memory/buddy.c:249-291 | refines freeing on pools with every early return and the 32-bit frame, for any block that ends inside the page table; the links stay intact, and the invariant holds afterwards if and only if the block was aligned and held no free page |
| Buddy.Buddy.CoalesceFrom | kernel/src/memory/buddy.c:271-290 | the merge loop with its exclusive-or and the final insertion refine coalescing on pools, for misaligned blocks and blocks with free pages too |
| Buddy.Buddy.Init | kernel/src/memory/buddy.c:196-231 | from any array contents, builds a valid representation of the pool of the map; without a map every page is reserved; if the sums over usable entries do not wrap and these do not overlap, a page is free if it lies wholly inside a usable entry and below the limit, and reserved otherwise |
| Buddy.Buddy.FramesOf | kernel/src/memory/buddy.c:205-229 | the frames taken from one map entry, with every reason to skip it: null, other types, no whole page, beyond the limit |
| Buddy.Buddy.ResetAll | kernel/src/memory/buddy.c:55-68 | everything reserved, every list empty, no links left |
| Buddy.Buddy.OrderFromPages | kernel/src/memory/buddy.c:42-53 | the loop computes the order function |
| Buddy.Buddy.AllocThenFree | kernel/src/memory/buddy.c:166-291 | in canonical form, a caller that frees what it was just given at a non-zero address leaves every entry of the page table, the list heads and both link arrays as it was |
| Buddy.SinglePageContract | kernel/src/memory/buddy.c:293-299 | freeing one page needs no contract from the caller: the checks in the code suffice |
| Buddy.WrappedSizeIff | kernel/src/memory/buddy.c:170 | the 32-bit product falls below a page exactly from order 20 on |
| Buddy.RejectedIff | kernel/src/memory/buddy.c:170-173 | for maximum orders up to 19 the whole test rejects exactly the orders above the maximum |
| BuddyLinks.LinksDetermined | kernel/src/memory/buddy.c:22-30 | heads and links are a function of the lists: equal lists have equal arrays, entry by entry |
| BuddyLinks.LinksInverse | kernel/src/memory/buddy.c:24-30 | next and prev are mutually inverse, and a frame is listed if and only if it heads a list or has a predecessor |
| BuddyLinks.Unlink | kernel/src/memory/buddy.c:104-148 | the pointer writes of an unlinking at any position store the lists without that frame |
| BuddyLinks.AddFront | kernel/src/memory/buddy.c:95-101 | the pointer writes of an insertion store the lists with that frame in front |
| Bits.XorFindsBuddy | kernel/src/memory/buddy.c:272 | exclusive-or with the block size is the neighbour below or above, by alignment |
| Bits.Nest | kernel/src/memory/buddy.c:150-164 | aligned power-of-two blocks, as ranges are cut into, nest or are disjoint |
| BuddyOps.OrderIsLeast | kernel/src/memory/buddy.c:42-53 | for sizes that fit, the order is the least whose block holds the pages |
| BuddyOps.SplitKeeps | kernel/src/memory/buddy.c:182-187 | splitting frees exactly the upper halves and lists each once |
| BuddyOps.AllocateBlockEffect | kernel/src/memory/buddy.c:166-194 | success takes an aligned run of free pages, and nothing else, out of the pool; failure means all lists from the order up are empty, and changes nothing |
| BuddyOps.AllocPagesKeeps | kernel/src/memory/buddy.c:233-247 | the invariant is kept; the block handed out is aligned, holds the request, was free and is now allocated; other pages keep their condition |
| BuddyOps.MergePartnerIsListed | kernel/src/memory/buddy.c:272-284 | the state test of the merge loop finds a buddy exactly when that block is listed |
| BuddyOps.CoalesceEffect | kernel/src/memory/buddy.c:271-290 | coalescing frees exactly the pages of the given block and leaves all others free or not as they were |
| BuddyOps.FreePagesKeeps | kernel/src/memory/buddy.c:249-291 | freeing an aligned block that holds no free page keeps the invariant, frees exactly that block and changes the condition of no other page |
| BuddyContract.FreeValidIff | kernel/src/memory/buddy.c:249-291 | from a valid pool, freeing leaves a valid pool if and only if the block named by address and count, when the checks let it pass, is aligned and holds no free page |
| BuddyContract.FreeSafeIff | kernel/src/memory/buddy.c:249-291 | it leaves a valid pool and all reserved pages reserved if and only if such a block is aligned and wholly allocated |
| BuddyContract.FreeIgnoredIff | kernel/src/memory/buddy.c:251-267 | freeing leaves the pool as it was if and only if the count is 0, the address is 0, invalid or not a multiple of 4096, the frame cut to 32 bits is none of the pool, or the first page is not allocated |
| BuddyContract.OddPair | kernel/src/memory/buddy.c:259-290 | a live page at an odd frame, freed with a count of two, passes all checks and leaves an invalid pool |
| BuddyContract.CoalesceValidIff | kernel/src/memory/buddy.c:265-290 | the same of the merge loop on any block whose first page is allocated |
| BuddyContract.NoPartner | kernel/src/memory/buddy.c:271-280 | a misaligned block never merges: no page at its exclusive-or partner has its order |
| BuddyContract.BuriedStaysListed | kernel/src/memory/buddy.c:271-290 | a smaller listed block inside stays on its list while its head is overwritten with the body mark |
| BuddyCanonical.AllocPagesCanonical | kernel/src/memory/buddy.c:166-247 | allocation keeps canonical form: no two buddies of one order below the maximum are both listed |
| BuddyCanonical.FreePagesCanonical | kernel/src/memory/buddy.c:249-291 | so does freeing, whenever it keeps the invariant at all |
| BuddyCanonical.FreeRunInBlock | kernel/src/memory/buddy.c:166-291 | in canonical form every aligned run of free pages lies inside one listed block |
| BuddyCanonical.CanonicalIffMaximalRuns | kernel/src/memory/buddy.c:150-291 | a valid pool is canonical if and only if its listed blocks are exactly the maximal aligned power-of-two runs of free pages |
| BuddyCanonical.SameFreePagesSameBlocks | kernel/src/memory/buddy.c:150-291 | canonical pools with the same free pages have the same free blocks |
| BuddyCanonical.AllocFailsIff | kernel/src/memory/buddy.c:166-247 | in canonical form allocation fails if and only if the size is 0 or too large or no aligned run of 2^order free pages exists |
| BuddyCanonical.CoalesceUnwindsSplit | kernel/src/memory/buddy.c:182-290 | coalescing takes back, half by half, what splitting listed |
| BuddyCanonical.UndoIff | kernel/src/memory/buddy.c:166-291 | from any valid pool, freeing restores page states and the order of every list if and only if the address is not 0 and the block taken off its list had no listed buddy of its order |
| BuddyCanonical.ExactUndo | kernel/src/memory/buddy.c:166-291 | in canonical form every allocation at a non-zero address is undone exactly |
| BuddyRanges.BlocksAreMaximal | kernel/src/memory/buddy.c:150-164 | the greedy cut consists of exactly the aligned blocks of the range that no larger one inside the range contains |
| BuddyRanges.BlocksPartition | kernel/src/memory/buddy.c:150-164 | every frame of the range is in exactly one block of the cut, and no other frame is in any |
| BuddyRanges.OrderAtMostTwice | kernel/src/memory/buddy.c:150-164 | no order occurs three times in a cut |
| BuddyRanges.LogarithmicallyMany | kernel/src/memory/buddy.c:150-164 | a cut has at most 2n + 1 blocks below 2^n frames |
| BuddyRanges.AddRangeKeeps | kernel/src/memory/buddy.c:150-164 | adding a range frees exactly its frames and lists exactly its cut |
| BuddyRanges.AddRangeOrder | kernel/src/memory/buddy.c:150-164 | each list gets in front the maximal blocks of its order, in decreasing order of frames, and is otherwise unchanged |
| BuddyRanges.InitOrder | kernel/src/memory/buddy.c:204-230 | a later range stands in front of all earlier ones in every list |
| BuddyRanges.InitPoolEffect | kernel/src/memory/buddy.c:196-231 | after initialisation exactly the frames of the usable ranges are free, all others are reserved, and the listed blocks are the cuts of the ranges |
| BuddyRanges.InitCanonicalIff | kernel/src/memory/buddy.c:150-231 | the initial pool is canonical if and only if no two usable ranges meet mergeably |
| BuddyMap.EntryFrames | kernel/src/memory/buddy.c:205-229 | unless the 64-bit sums wrap, the frames of a usable entry are those wholly inside it and below the limit |
| BuddyMap.SkippedEntry | kernel/src/memory/buddy.c:207-209 | an entry that is null or of another type than usable contributes no frame, whatever its base and length |
| BuddyMap.InitFromMap | kernel/src/memory/buddy.c:196-231 | from the map alone: after initialisation a page is free if some usable entry holds it wholly below the limit, and reserved otherwise |
| BuddyMap.EntriesSeparate | kernel/src/memory/buddy.c:204-230 | usable entries without a common byte yield ranges without a common frame |
| BuddyMap.EntryFramesIff | kernel/src/memory/buddy.c:211-227 | for any 64-bit base and length, the frames taken are those wholly inside the entry and below the limit if and only if the sums do not wrap or wrap harmlessly |
| BuddyMap.WrappingEntry | kernel/src/memory/buddy.c:211-216 | a usable entry whose end wraps yields no frame although frame 1 lies inside it |
| BuddyMap.TouchingEntries | kernel/src/memory/buddy.c:204-230 | two touching entries, frames 2 and 3, after which the pool is not canonical |
| BuddyMap.AlignDownRoundsDown | kernel/src/memory/buddy.c:37-40 | the mask rounds down to a page |
| BuddyRuns.StepSafe | kernel/src/memory/buddy.c:233-291 | one allocation or matching free keeps live blocks sound, the accounting of every page and canonical form |
| BuddyRuns.RunSafe | kernel/src/memory/buddy.c:196-291 | so does every run of allocations and matching frees |
| BuddyRuns.Conservation | kernel/src/memory/buddy.c:196-291 | from boot on a page is reserved if and only if no usable range holds it, and every other page is free or in exactly one live block |
| BuddyRuns.MapConservation | kernel/src/memory/buddy.c:196-291 | from a memory map on, over every run a page is reserved if and only if no usable entry holds it, and every other page is free or in a live block |
| BuddyRuns.HistoriesAgree | kernel/src/memory/buddy.c:196-291 | two runs that leave the same pages in use have the same free blocks |
| BuddyRuns.FreeingAllRestores | kernel/src/memory/buddy.c:196-291 | giving everything back, in any order, restores the initial free blocks |
| BuddyRuns.AlwaysCanonicalIff | kernel/src/memory/buddy.c:233-291 | every state reachable from a safe one is canonical if and only if that one is |
| BuddyRuns.RunsCanonicalIff | kernel/src/memory/buddy.c:196-291 | every state reachable from boot is canonical if and only if no two usable ranges meet mergeably |
| BuddyHistories.AlwaysFailsExactlyIff | kernel/src/memory/buddy.c:166-291 | along all runs an allocation of an admissible size fails only when no aligned run of 2^order free pages exists, if and only if the pool is canonical at the start; otherwise a run of allocations leads to a failure beside a free run |
| BuddyHistories.AlwaysRestoresIff | kernel/src/memory/buddy.c:166-291 | with frame 0 reserved, every run that gives back exactly what it took restores the free blocks, if and only if the pool is canonical at the start |
| BuddyHistories.AlwaysAgreesIff | kernel/src/memory/buddy.c:166-291 | with frame 0 reserved, the pages in use determine the free blocks along all runs, if and only if the pool is canonical at the start |
| BuddyHistories.BootPromisesIff | kernel/src/memory/buddy.c:150-291 | from boot on, each of these three holds if and only if no two usable ranges meet mergeably |
| BuddyHistories.Disturb | kernel/src/memory/buddy.c:131-291 | with two buddies listed, some run of allocations and frees gives back all it took and leaves one of them inside a larger block |
| BuddyHistories.CoalesceCovers | kernel/src/memory/buddy.c:271-290 | what is freed ends up inside one listed block of at least its order |
| BuddyHistories.CoalesceKeepsLarger | kernel/src/memory/buddy.c:271-290 | freeing never cuts a listed block: a frame in a block above some order stays in one |
| Vmm.Vmm.MakePage | kernel/src/memory/vmm.c:34-49 | a page from the buddy allocator, zeroed, and no other page of memory written |
| Vmm.Vmm.GetNextLevel | kernel/src/memory/vmm.c:50-71 | follows an entry, or installs an empty table with the entry of address, present and writable bit, which `VmmWords.NewEntryWord` and `WalkWords` spell out |
| Vmm.Vmm.GetExistingLevel | kernel/src/memory/vmm.c:72-84 | follows an entry, or reports that it is not present |
| Vmm.Vmm.Map | kernel/src/memory/vmm.c:86-116 | keeps tree and pool sound; on success one page has the new entry, every other translation is as before, the stored word has the given frame and flags, entries of new tables are present and writable, and no other word in use changes; on failure all translations are as before and the pool has no free page |
| Vmm.Vmm.Unmap | kernel/src/memory/vmm.c:118-157 | succeeds exactly on translated pages, removes that translation and no other, clears that word and writes no other, and frees its page; tree and pool stay sound if and only if that page is not a table |
| Vmm.Vmm.GetPhysOf | kernel/src/memory/vmm.c:159-197 | the frame of the entry with the offset of the address, or the invalid address |
| Vmm.Vmm.constructor | kernel/src/memory/vmm.c:93 | takes over any sound tree at the page-table root, such as an empty root table, and establishes the invariant |
| Vmm.Vmm.RootIs | kernel/src/memory/vmm.c:93 | the root table is the frame in bits 12 to 51 of CR3 |
| PageTables.PathUnique | kernel/src/memory/vmm.c:50-84 | in a tree a table is reached along one path only |
| PageTables.LeafChangesOnePage | kernel/src/memory/vmm.c:111 | writing a last-level entry changes the translation of one path and index only |
| PageTables.GraftKeepsTree | kernel/src/memory/vmm.c:54-63 | installing a fresh empty table keeps the tree |
| PageTables.GraftKeepsLookup | kernel/src/memory/vmm.c:54-63 | and changes no translation |
| PageTables.ForeignKeepsTree | kernel/src/memory/vmm.c:72-84 | whatever is written to a page that is no table, the tree stays a tree and no translation changes |
| PageTables.EmptyRoot | kernel/src/memory/vmm.c:93 | a root table without entries on a page that is not free is sound, can be walked for every address and translates none |
| VmmOps.NewEntryLeads | kernel/src/memory/vmm.c:62 | the entry stored for a new table is present, not huge, and leads to that table; `VmmWords.NewEntryWord` gives the whole word |
| BuddyOps.AllocPageFails | kernel/src/memory/buddy.c:166-194 | a single-page allocation fails only when no page is free |
| VmmOps.WalkCreateKeeps | kernel/src/memory/vmm.c:98-106 | the creating walk keeps tree, pool and every translation, whether it reaches the last level or runs out of pages on the way |
| VmmOps.MapRefinesUpdate | kernel/src/memory/vmm.c:86-116 | mapping is an update of the map from pages to entries at one page; with tables present it needs no page and cannot fail; failure keeps all lookups and leaves a sound tree; the word itself is in `VmmWords.MapWords` |
| VmmOps.MapTranslatesIff | kernel/src/memory/vmm.c:111-114 | with the present flag the page translates to the given frame, offset carried through, if and only if the flags add no address bit; without it the page is not translated |
| VmmOps.FlagsWithAddress | kernel/src/memory/vmm.c:111 | flags with an address bit make a page of frame 0 translate to frame 1 |
| VmmWords.NewEntryWord | kernel/src/memory/vmm.c:62 | the entry for a new table is its address plus 3: present, writable and no other flag |
| VmmWords.LeafWord | kernel/src/memory/vmm.c:111 | the stored word has the flags on every bit outside the address mask; for a page-aligned address below 2^52 and flags without address bits it is their sum |
| VmmWords.WalkWords | kernel/src/memory/vmm.c:50-71 | on the walk every entry that was there stays, every missing one becomes address plus 3 of a new table, new tables hold nothing else, and no other word in use changes |
| VmmWords.MapWords | kernel/src/memory/vmm.c:86-116 | after a successful map the last-level word has the given frame and flags, the words above it are as in the walk, and no other word in use changes; a failed map stores no last-level entry |
| VmmWords.MappedWord | kernel/src/memory/vmm.c:111-114 | with the present flag the page then looks up as address plus flags, and its physical address is the given one with the offset |
| VmmWords.PhysOf | kernel/src/memory/vmm.c:159-197 | for any stored word the physical address is bits 12 to 51 of the word with the offset, and without translation the invalid address |
| VmmWords.ChildIs | kernel/src/memory/vmm.c:72-84 | the walk goes nowhere if bit 0 of the entry is clear, and to the frame in bits 12 to 51 if bit 0 is set and bit 7 clear |
| VmmWords.UnmapWords | kernel/src/memory/vmm.c:142-149 | a successful unmap sets the last-level word to 0 and writes no other; a failed one writes nothing |
| VmmWords.MapUnmapRestoresMemory | kernel/src/memory/vmm.c:86-157 | with the tables in place and the word 0 before, mapping and unmapping leaves all memory as it was |
| VmmOps.UnmapRemovesOne | kernel/src/memory/vmm.c:118-157 | exact success condition, one translation removed and all others kept, and the tree stays sound if and only if the freed page is not a table |
| VmmOps.MapUnmapRestoresPool | kernel/src/memory/vmm.c:86-157 | with the tables in place, allocating a page, mapping it and unmapping it leaves the buddy pool exactly as it was |
| VmmRuns.RunRefines | kernel/src/memory/vmm.c:86-157 | after any run of mappings, unmappings, pages taken and given back by others and writes to other pages, every address translates as in a plain map with the same updates, failed operations changing nothing, and the tree is well formed |
| VmmRuns.PerformRefines | kernel/src/memory/vmm.c:86-157 | one operation updates one page of the plain map or changes no translation; mapping fails only when no page is free, unmapping exactly on untranslated pages |
| VmmRuns.UnmapWellFormedIff | kernel/src/memory/vmm.c:142-152 | after an unmapping the tree is well formed, for any assignment of levels, if and only if the page freed cannot be reached from the root as a table |
| VmmRuns.UnmappingATable | kernel/src/memory/vmm.c:118-157 | mapping a table page of the tree and unmapping it again succeeds and breaks the tree |
| VmmRuns.ReachesIff | kernel/src/memory/vmm.c:50-84 | the levels name exactly the tables that a walk from the root reaches |
| VmmRuns.LevelsUnique | kernel/src/memory/vmm.c:50-84 | a memory has at most one assignment of levels |
| VmmOps.SamePageIff | kernel/src/memory/vmm.c:9-12 | the four indices identify the 36-bit page number |
| VmmOps.CanonicalSamePage | kernel/src/memory/vmm.c:9-12 | canonical addresses share an entry if and only if they lie in the same page |
| SlabHeap.CacheIndexIsLeast | kernel/src/memory/heap.c:84-98 | the class picked is the smallest that holds the size |
| SlabHeap.Totals | kernel/src/memory/heap.c:167 | only the last class has no object, and the objects fit behind the header |
| SlabHeap.TotalIff | kernel/src/memory/heap.c:167 | n objects fit behind the header if and only if the slab has at least n: the count is exact for every class |
| SlabHeap.ClassTable | kernel/src/memory/heap.c:28-52 | the nine sizes, the sizes of the two headers, and 252, 126, 63, 31, 15, 7, 3, 1 and 0 objects in a slab |
| SlabHeap.RefillKeeps | kernel/src/memory/heap.c:189-196 | a class without partial slabs gets a fresh one, or nothing changes |
| SlabHeap.TakeKeeps | kernel/src/memory/heap.c:198-219 | taking an object keeps the slab invariant: list without repeats, partial list exactly the slabs with a free object |
| HeapObjects.KmallocKeeps | kernel/src/memory/heap.c:281-309 | kmalloc keeps the heap sound for either reading of the test; what it returns was not in use and now is, and every other object is in use after if and only if it was before, at the same place |
| HeapObjects.KfreeKeeps | kernel/src/memory/heap.c:222-272 | kfree keeps the heap sound whatever it is given; that object is no longer in use, and every other object is in use after if and only if it was before, at the same place |
| SlabHeap.KmallocCanonical | kernel/src/memory/heap.c:281-309 | and the buddy pool canonical |
| SlabHeap.KmallocTight | kernel/src/memory/heap.c:189-220 | and retains no slab without an object in use |
| SlabHeap.KfreeCanonical | kernel/src/memory/heap.c:222-272 | kfree keeps the buddy pool canonical |
| SlabHeap.KfreeTight | kernel/src/memory/heap.c:263-267 | an emptied slab goes back to the buddy allocator at once |
| HeapTheorems.MallocFreeUndo | kernel/src/memory/heap.c:189-334 | for either reading of the test, in canonical form and without emptied slabs, freeing what kmalloc just returned restores every slab, the order of every partial list and the whole buddy pool, on a partial slab, a slab just filled, a new slab and a large block alike |
| HeapTheorems.MallocUndoIff | kernel/src/memory/heap.c:189-334 | from any sound heap it does so if and only if a large block or new slab came from a listed block without a listed buddy of its order, and an old slab had an object in use |
| HeapTheorems.AsWrittenSucceedsIff | kernel/src/memory/heap.c:99-110 | with the test as written kmalloc succeeds if and only if the size is above 2048 and the buddy allocator has a block for it; `HeapSizes.LargeSucceedsIff` says when it has |
| HeapTheorems.AsWrittenSmall | kernel/src/memory/heap.c:189-205 | with the test as written a small request returns NULL and at most leaves one fresh slab in its class |
| HeapTheorems.BarrenHolds | kernel/src/memory/heap.c:99-110 | in the state the test as written leads to, a class has at most one slab and no object of a slab is in use |
| HeapTheorems.IntendedSucceedsIff | kernel/src/memory/heap.c:189-309 | with the intended test small requests up to 1024 succeed unless the class has no slab and no page can be had; 1025 to 2048 always fail; above that the buddy allocator decides |
| HeapSizes.SmallSucceedsIff | kernel/src/memory/heap.c:189-220 | up to 1024 bytes kmalloc succeeds with the intended test if and only if a slab of the smallest class that holds the size has a free object, or any page is free |
| HeapSizes.FailsOnlyWhenFull | kernel/src/memory/heap.c:152-220 | when it fails, no page is free and every object that fits into a page of the class is in use in each of its slabs |
| HeapSizes.LargeSucceedsIff | kernel/src/memory/heap.c:291-296 | above 2048 bytes, in canonical form, kmalloc succeeds for either reading of the test if and only if an aligned power-of-two run of free pages holds the size and the header of 8 bytes |
| HeapSizes.LargePagesLeast | kernel/src/memory/heap.c:291-292 | unless the sums wrap, a large block has the least number of pages that holds size and header |
| HeapSizes.LargePagesWrapped | kernel/src/memory/heap.c:291-292 | where the sums wrap it is one page, or none |
| HeapSizes.LengthBounds | kernel/src/memory/heap.c:281-309 | what is returned has at least the size, and for small sizes 8 bytes or less than twice the size, for large ones less than a page more |
| HeapSizes.FirstObject | kernel/src/memory/heap.c:173-219 | the first object of a class without slabs lies right behind the 2080 bytes of the header of the page that the buddy allocator hands out |
| HeapSizes.FreedIsNext | kernel/src/memory/heap.c:255-271 | unless its slab was emptied, an object released into the first slab of its class, or into a slab that was full, is the next one handed out |
| HeapTheorems.LongEnoughIff | kernel/src/memory/heap.c:281-309 | what is returned is at least as long as requested if and only if the size is below 2^64 - 7 |
| HeapTheorems.WrappedSize | kernel/src/memory/heap.c:291-293 | a request for 2^64 - 1 bytes succeeds whenever one page can be had, and gets that page |
| HeapTheorems.InsideBacking | kernel/src/memory/heap.c:173-184 | an object lies inside the pages that back it and behind their header |
| HeapTheorems.BackingAllocated | kernel/src/memory/heap.c:152-309 | the pages that back an object in use are allocated in the buddy pool |
| HeapTheorems.ObjectsDisjoint | kernel/src/memory/heap.c:189-309 | different objects in use, small and large, are disjoint |
| HeapTheorems.HeadersUntouched | kernel/src/memory/heap.c:32-52 | no object in use overlaps the header of any slab, with or without an object in use, or of any large block |
| HeapTheorems.NoEmptiedSlab | kernel/src/memory/heap.c:263-267 | every slab up to class 1024 has an object in use, and the last class has at most one slab |
| HeapTheorems.AllReleased | kernel/src/memory/heap.c:222-334 | when nothing is in use the heap holds at most one page, of the last class |
| HeapObjects.LedgerAfterMalloc | kernel/src/memory/heap.c:281-309 | what kmalloc returns overlaps nothing that was handed out and not given back, and is as long as requested below 2^64 - 7 bytes |
| HeapObjects.LedgerAfterFree | kernel/src/memory/heap.c:222-272 | after kfree all that was handed out and not given back, but for the argument, is still in use where it was |
| HeapRuns.GrantsApart | kernel/src/memory/heap.c:189-334 | two things handed out and not given back never overlap |
| HeapRuns.OtherStep | kernel/src/memory/buddy.c:233-291 | allocations and frees of other clients keep the heap sound and all accounts in order |
| HeapRuns.ServeKeeps | kernel/src/memory/heap.c:281-334 | one request to the heap, or of others to the buddy allocator, keeps soundness, page accounts, canonical form and the ledger of what was handed out, tightness with the intended test and barrenness with the test as written |
| HeapRuns.RunAccounted | kernel/src/memory/heap.c:152-334 | over every run of heap requests and allocations and frees of others, what kmalloc handed out and has not been given back is exactly what is in use, pairwise disjoint and as long as requested; blocks of the heap (a page for each slab, a rounded block for each large one) and of the others are disjoint and together exactly the allocated pages; with the intended test no emptied slab is retained, with the test as written at most one unused slab in a class |
| HeapRuns.EmptySite | kernel/src/memory/heap.c:274-279 | such runs start from the empty heap with nothing handed out |
| HeapMemory.IndexOfAddress | kernel/src/memory/heap.c:99-110 | the intended test finds the index of every object from its address; the test as written finds none |
| HeapMemory.AddressOfIndex | kernel/src/memory/heap.c:99-110 | and only object addresses have an index |
| HeapMemory.IndexIff | kernel/src/memory/heap.c:99-110 | an address has index i by the intended test if and only if it is that of object i, and by the test as written if and only if it lies inside object i behind its first byte |
| HeapMemory.FreshView | kernel/src/memory/heap.c:164-184 | a new slab page has an empty bitmap and a free list through all objects |
| HeapMemory.TakeView | kernel/src/memory/heap.c:203-211 | popping the intrusive list and setting the bit keeps bitmap, count and list in agreement |
| HeapMemory.FreeView | kernel/src/memory/heap.c:256-260 | so do pushing and clearing |
| HeapMemory.InsertAt | kernel/src/memory/heap.c:142-150 | the pointer writes put the slab in front of its list |
| HeapMemory.RemoveAt | kernel/src/memory/heap.c:113-140 | the pointer writes take the slab out at any position |
| HeapMemory.StoresDetermined | kernel/src/memory/heap.c:32-54 | caches, headers, bitmaps, links and free lists in memory are a function of slabs, lists and large blocks |
| Kheap.Kheap.HeapInit | kernel/src/memory/heap.c:274-279 | establishes the invariant for the empty heap |
| Kheap.Kheap.CacheIndexOf | kernel/src/memory/heap.c:84-98 | the loop over the size classes |
| Kheap.Kheap.RemoveSlabFromCache | kernel/src/memory/heap.c:113-140 | walks the list and unlinks the slab if it is there; apart from next links of slabs no page changes |
| Kheap.Kheap.InsertSlabIntoCache | kernel/src/memory/heap.c:142-150 | puts the slab in front of its list, writing no page but its own and there only the next link |
| Kheap.Kheap.AllocSlabPage | kernel/src/memory/heap.c:152-187 | a page from the buddy allocator with header, empty bitmap and free list threaded through as many objects as fit, no other page written |
| Kheap.Kheap.AllocFromCache | kernel/src/memory/heap.c:189-220 | refines taking an object on values, returns its address, and writes no word of any object and no page of others |
| Kheap.Kheap.Malloc | kernel/src/memory/heap.c:281-309 | keeps the invariant and refines kmalloc on values for every 64-bit size; returns NULL or the start of a region that was not in use, as long as requested and hardly longer unless the sums wrap; everything in use stays so at its place; no word of an object of a slab, no large block and no page outside the heap is written |
| Kheap.Kheap.FreeFromSlab | kernel/src/memory/heap.c:230-272 | a pointer to an object in use frees it and writes the word of no other object; any other pointer into a slab page changes nothing |
| Kheap.Kheap.FreeLargeAt | kernel/src/memory/heap.c:222-228 | frees a large block; afterwards its first page stops a second free |
| Kheap.Kheap.Free | kernel/src/memory/heap.c:311-334 | keeps the invariant and refines kfree on values; everything else in use stays so at its place, and no word of another object and no page outside the heap is written; afterwards the pointer may be passed again and is not in use; freeing what is not in use writes no page |
| Kheap.Kheap.LivePointer | kernel/src/memory/heap.c:311-334 | the address of anything in use may be passed to kfree, which finds exactly that object from the address and the page header |
| Kheap.Kheap.FreeTwice | kernel/src/memory/heap.c:311-334 | two calls in a row with one pointer leave heap and buddy pool as one call does, even when the first gave the page back and it coalesced |
| Kheap.Kheap.MallocThenFree | kernel/src/memory/heap.c:189-334 | for either reading of the test, a caller that frees what it was just given leaves the caches, all slab headers, bitmaps and free lists, and every array entry of the buddy allocator as they were |
| MemoryRuns.EventKeeps | kernel/src/memory/vmm.c:34-157 | on one buddy allocator a heap request with its writes keeps the page tables sound and every translation, a mapping or unmapping keeps the heap sound, allocations and frees of other clients keep both, every allocated page keeps exactly one owner, and what kmalloc handed out stays in use and disjoint |
| MemoryRuns.RunKeeps | kernel/src/memory/heap.c:152-334 | the same over every run of heap requests, mappings, unmappings, allocations, frees and writes of others to pages that are no tables; translations follow a plain map, the pool stays canonical and the heap tight |
| MemoryRuns.WholeMemory | kernel/src/memory/buddy.c:13-17 | every page is reserved, free, or allocated and then in exactly one of a heap block, a block of another client and a page table |
| MemoryRuns.OwnedIsNoTable | kernel/src/memory/vmm.c:50-71 | no page of a heap block or of a client is a page table |
| MemoryRuns.HeapWrites | kernel/src/memory/heap.c:152-334 | writes confined to pages of the heap, which the heap in place keeps to, leave the page tables and every translation as they were |
| MemoryRuns.UnmapCoherentIff | kernel/src/memory/vmm.c:118-157 | an unmapping keeps heap, page tables and the accounts of every page in order if and only if what it frees, if anything, is a single page of a client |
| MemoryRuns.WalkAccounts | kernel/src/memory/vmm.c:50-71 | every page that the creating walk takes becomes a table page, and nothing else changes hands |
| MemoryRuns.TablesStay | kernel/src/memory/vmm.c:50-84 | while its pages stay held, a tree stays sound whatever others do to the pool |
| MemoryRuns.UnmapAccounts | kernel/src/memory/vmm.c:142-152 | unmapping a page of a client takes that page from the client and from nobody else |
| MemoryRuns.BootCoherent | kernel/src/memory/buddy.c:196-231 | an initialised pool with an empty heap and an empty root table is where these runs start |

## Left out

- Buddy.Buddy.FreePagesOf: a misaligned block that reaches past the end of the page table is not modelled, because the code then writes outside its arrays.
- Buddy.Buddy.Init: the frames of usable map entries must not overlap, as the memory map feature of the Limine boot protocol guarantees; entries that touch are covered.
- BuddyMap.EntryFrames: the sums do not wrap here; `EntryFramesIff` covers every 64-bit base and length.
- Vmm.Vmm.Map: the walk of the mapped address must not meet a huge-page entry or a table outside the modelled memory, because the code would take it for a table; all other addresses may.
- BuddyHistories.AlwaysRestoresIff: frame 0 is taken to be reserved, since a block at address 0 is never taken back; the same holds for `AlwaysAgreesIff` and `BootPromisesIff`.
- VmmRuns.RunRefines: walks meet no huge page, nobody frees a page that is a table and nobody else writes to one; `UnmapWellFormedIff` shows for unmappings that this is exact.
- Vmm.Vmm.Unmap: its walk is as for `Map`; a page that is a table of the tree is freed as the code does it, and the invariant is then lost.
- Vmm.Vmm.GetNextLevel: the entry followed must not map a huge page or lead outside the modelled memory.
- Vmm.Vmm.GetExistingLevel: as `GetNextLevel`.
- Vmm.Vmm.GetPhysOf: its walk is as for `Map`.
- VmmOps.MapUnmapRestoresPool: stated with the tables in place, since tables made on the way are never given back.
- HeapTheorems.MallocFreeUndo: canonical form and, with the intended test, no emptied slab, both of which every run keeps; `MallocUndoIff` has the exact condition.
- Kheap.Kheap.Free: a page that bears a slab or large header without being one of the heap's may be passed only if it shows the object as free or its first page as not allocated (`Freeable`), since kfree believes the header it finds; `LivePointer` shows that pointers in use qualify.
- Kheap.Kheap.FreeFromSlab: as `Free`, for a page that bears a slab header.
- Kheap.Kheap.FreeLargeAt: as `Free`, for a page that bears a large header.
- Kheap.Kheap.LivePointer: with the test as written only large blocks are ever in use, so small objects take the intended test.
- MemoryRuns.RunKeeps: what an unmapping gives back must be a single page of a client, which `UnmapCoherentIff` shows to be exact; clients write anywhere but to page tables, and the contents of heap pages are not tied to `Kheap`, only which pages it writes.
- Kheap.Kheap.HeapInit: frame 0 must be reserved, because the heap takes address 0 for the end of a list and the buddy allocator never takes it back.
- Page contents: a heap page is a record told apart by its magic number, and the bitmap 16384 bits; only the first eight bytes of an object are stored, so what clients write into live objects is not modelled.
- The HHDM: its response is present and its offset fixed and page-aligned for the heap, and the identity for page tables, so the branches for a missing response are not modelled; the page-table root is a field and TLB invalidation is left out.
- Functions split: long C functions are cut into several methods, each annotated with its part of the source.
- Concurrency and interrupts: the code has no locks and the allocators are modelled as sequential.
- Huge pages, user permissions and TLB contents: the code does not handle them.
- The rest of the kernel: GDT, IDT, ACPI, APIC, PIC, PIT, `kmain` and the framebuffer are hardware access, fixed encodings or single linear scans.

# Chisaka memory managers: a Dafny model

This project models the memory managers of the Chisaka kernel, which keep their data structures inside
the memory they manage, and proves what they promise: the page-frame free list, the slab heap (slab
descriptors and the buffer that moves slabs between rings), the four-level page tables, and the size-class
arithmetic of the second slab allocator. `dafny verify dfyconfig.toml` checks everything.

| file | part |
|---|---|
| `Memory.dfy`, `Chains.dfy`, `Sequences.dfy`, `Options.dfy` | memory as a store of link words; null-terminated, address-sorted chains threaded through it |
| `MemoryMap.dfy` | the boot memory map and the page frames it offers |
| `FreelistSpec.dfy`, `FreelistRuns.dfy`, `Freelist.dfy` | the page allocator: operations on values, whole runs, and the pointer code |
| `SlabSpec.dfy`, `ListDescriptor.dfy` | one slab: its free chain, its descriptor, and the ring links |
| `BufferSpec.dfy`, `Buffer.dfy` | the three rings of a buffer: operations on values, whole runs, and the pointer code |
| `BitValues.dfy`, `PageBits.dfy`, `PageTables.dfy` | numbers behind bit vectors; address and entry bit layout; walking and extending the page tables |
| `SizeClasses.dfy` | rounding up to a power of two by bit smearing, and choosing a size class |

## How the model is built

* Memory is a class holding a map from cell address to word, so every link, every alias and every frame
  condition is explicit. Writing and reading demand a non-null address; verified methods therefore never
  follow a null link. The page-table memory is a map from physical address to 64-bit entry.
* A store of whole words is an exact model where no two words in use share a byte. For the page allocator
  the words are 8-byte words at multiples of 8, and so are the words its clients write
  (`FreelistRuns.RunKeepsWordsApart`); for the slab heap they are the links of the slabs and the words inside
  objects (`BufferSpec.LinksApart`, `BufferSpec.LinksMissObjects`).
* Code that updates state is a method on a class with the same fields, loops and branches. Each method is
  proved equal to a function on values (`State`, `Slab`, `Buffer`, a tree of tables). The promises are then
  lemmas about those functions: invariants, exactness in both directions, conservation, and statements over
  every run.
* The two list initialisers of the page allocator share one method with a flag, and so do the three `TryAdd`
  methods and the `Move` methods of a buffer; the three list heads of a buffer are three `Ring` objects.
* A failed `kassert` halts the kernel, so it is a precondition. Physical and virtual addresses of page-table
  frames and of free pages coincide, as in the source.
* The page allocator behind the page tables is a supply of distinct, page-aligned frames below 2^40 with no
  present entry. The source does not clear the frames it takes.
* `hide` statements only keep definitions out of proofs that do not need them.

## Where the code falls short of its promise

Where a shortfall depends on a condition, that condition is proved to be exact; some come with a concrete case.

* Freeing a page above the only page of a list (`freelist.hpp:382-384`) never writes the freed page's link.
  The list stays a list exactly when that link is already null (`FreelistSpec.FreedChainIff`,
  `FreelistSpec.StaleLinkExample`). Runs carry this condition on each free; freeing a page straight after
  `AllocatePage` always meets it (`FreelistRuns.AllocateThenFree`). Over runs it needs no assumption about
  links when clients keep the first word of their pages null and take several pages at once only zeroed
  (`FreelistRuns.CarefulRunIsSafe`); otherwise allocations and frees alone can break a list
  (`FreelistRuns.CarelessRunExample`).
* A useable region that contains addresses on both sides of the 32-bit cutoff, or ends exactly at 4 GiB, goes
  to the top list as a whole. The cutoff separates the lists exactly when there is no such region
  (`MemoryMaps.CutoffSplitsLists`).
* `AllocatePages(1)` fails on a list of one page (`FreelistSpec.RunIndexExact`). The page that `AllocatePages`
  returns leaves the list exactly when at least one page was asked for: `AllocatePages(0)` returns a page that
  stays free (`FreelistSpec.HandedOutIff`, `FreelistSpec.ZeroPagesKeepsPage`).
* `AllocatePages` and `AllocatePage(options)` do not update the page counters. The counters exceed the list
  lengths by exactly the pages handed out that way, modulo 2^64 (`FreelistRuns.RunKeepsInv`).
* The slot count of a slab is kept in 16 bits; a new slab is sound exactly when the count fits
  (`ListDescriptors.ListDescriptor.SetupLinkage`, `SlabSpec.SlotCountWrapExample`). The links of a slab stay
  inside it exactly when the left-over behind the last slot is empty or at least a link wide
  (`SlabSpec.LinksInsideSlab`), which holds for every buffer size that is a multiple of 8
  (`SlabSpec.MultipleOfEightFits`); slots of 9 bytes write past the end (`SlabSpec.ShortTailExample`).
* `Deallocate` checks an address only against the bounds of a slab. The slab, and the buffer, stay sound exactly
  when the address is that of an object or is ignored (`SlabSpec.DeallocateSoundIff`,
  `BufferSpec.DeallocateIff`). Freeing a slot that is already free ties the free chain into a loop
  (`SlabSpec.DeallocateChainIff`).
* The search of `AddToPartial` goes back to the element behind the head on every pass, so it ends exactly
  when the ring has one element or one of the first two has space (`Buffers.Buffer.SearchEndsIff`); the ring
  invariant makes that so. A `Move` method called for a head that still belongs on its ring loses the slab
  (`Buffers.Buffer.MoveHead`); no caller does that.
* A frame that becomes a table leaves all translations alone exactly when no page is reached through it
  (`PageTables.LinkedFrameMaps`). For a last-level table that means it holds no present entry
  (`PageTables.PageTableMustBeBlank`); at the upper levels a present entry points to a table that nobody
  recorded (`PageTables.UpperTableMustBeBlank`). A table at or above 2^40 cannot be linked
  (`PageBits.UpperEntryRoundTrip`).
* Rounding up to a power of two works exactly for 1 to 2^63 bytes, and a size class exists exactly for 2 to
  2048 bytes: a request for one byte has none (`SizeClasses.RoundUpIsPow2`, `SizeClasses.ClassOfRequest`).
* The comment in `buffer.cpp:225` counts deallocations in the operation counter; the increment is
  unreachable, and the model follows the code.

## Model

| member | source | states |
|---|---|---|
| Chains.ChainUnique | kernel/src/ram/page_allocators/freelist.hpp:31-33 | memory and a head pointer determine the list they represent |
| Chains.ChainAcyclic | kernel/src/ram/page_allocators/freelist.hpp:15-21 | a list that ends in null visits no entry twice: no cycle, no duplicate |
| Chains.SortedUnique | kernel/src/ram/page_allocators/freelist.hpp:15-17 | a strictly ascending list is determined by the set of its entries |
| Chains.ChainInsert | kernel/src/kheap/slab/list_descriptor.cpp:115-137 | writing the two links of a sorted insertion turns the chain into the chain of the sorted insertion |
| Chains.ChainWithout | kernel/src/ram/page_allocators/freelist.hpp:277-283 | redirecting one link past n entries leaves exactly the other entries, in order |
| Chains.RelinkLoops | kernel/src/kheap/slab/list_descriptor.cpp:115-137 | linking in a cell that is already on the chain leaves no null-terminated chain at all |
| MemoryMaps.MemoryMap.Init | kernel/src/memmap/memory_map.cpp:24-42 | the table is the given list padded with empty entries, and the byte total is that of its useable entries in 64-bit arithmetic |
| MemoryMaps.MemoryMap.InitialiseUseableData | kernel/src/memmap/memory_map.cpp:64-73 | the accumulated total equals the sum over useable entries, wrapping as size_t does |
| MemoryMaps.UseableBytesFit | kernel/src/memmap/memory_map.cpp:64-73 | for ascending disjoint regions the 64-bit total never wraps |
| MemoryMaps.PageBasesMember | kernel/src/ram/page_allocators/freelist.hpp:100-115 | an address is on the initial list exactly when it is a page base inside a selected useable region |
| MemoryMaps.PageBasesSorted | kernel/src/ram/page_allocators/freelist.hpp:15-17 | the initial list is strictly ascending across any number of regions |
| MemoryMaps.PageBasesCount | kernel/src/memmap/memory_map.hpp:33-36 | the two initial lists together have as many pages as the memory map's useable page frames |
| MemoryMaps.CutoffSplitsLists | kernel/src/ram/page_allocators/freelist.hpp:100-102 | low pages never exceed the cutoff; all top pages exceed it if and only if no useable region straddles it |
| MemoryMaps.StraddlingRegionExample | kernel/src/ram/page_allocators/freelist.hpp:102-111 | a one-page region ending at 4 GiB puts a page below the cutoff on the top list |
| Freelists.Freelist.Init | kernel/src/ram/page_allocators/freelist.hpp:85-91 | builds both lists exactly, counters equal to lengths and summing to the map's page frames; the allocator invariant holds if and only if no region straddles the cutoff |
| Freelists.Freelist.InitialiseList | kernel/src/ram/page_allocators/freelist.hpp:93-154 | the chain built in memory is the sorted list of all selected page bases, and no other cell changes |
| Freelists.Freelist.SetupRegion | kernel/src/ram/page_allocators/freelist.hpp:156-171 | hangs the pages of a region behind the list so far, returns the last page, and touches only list pages |
| Freelists.Freelist.AllocatePageImpl | kernel/src/ram/page_allocators/freelist.hpp:221-232 | unlinks the lowest page and leaves its link null |
| Freelists.Freelist.ExtractImpl | kernel/src/ram/page_allocators/freelist.hpp:247-284 | deletes exactly the requested entries of a page on the list and nothing otherwise; running on after the head case is harmless |
| Freelists.Freelist.ScanForRun | kernel/src/ram/page_allocators/freelist.hpp:307-343 | the scan returns the first position of a run of adjacent pages, or null when the specification finds none |
| Freelists.Freelist.AllocatePagesImpl | kernel/src/ram/page_allocators/freelist.hpp:307-347 | takes the first-fit run off the list: new list, new memory and returned base are those of the specification |
| Freelists.Freelist.DeallocPageImpl | kernel/src/ram/page_allocators/freelist.hpp:365-400 | the list becomes the sorted insertion and the links written are exactly those of the four branches |
| Freelists.Freelist.AllocatePage | kernel/src/ram/page_allocators/freelist.hpp:191-204 | keeps the allocator valid and has exactly the specified effect on lists, memory and counters |
| Freelists.Freelist.AllocatePageWith | kernel/src/ram/page_allocators/freelist.hpp:206-219 | keeps the allocator valid and has exactly the effect and answer of the specified request by option |
| Freelists.Freelist.AllocatePages | kernel/src/ram/page_allocators/freelist.hpp:287-290 | keeps the allocator valid and has exactly the effect and answer of the specified request for a run |
| Freelists.Freelist.AllocatePagesWith | kernel/src/ram/page_allocators/freelist.hpp:292-305 | the same for a run chosen by options, zeroed on request |
| Freelists.Freelist.DeallocPage | kernel/src/ram/page_allocators/freelist.hpp:349-363 | inserts into the list chosen by the cutoff; the allocator stays valid if and only if the stale link does no harm; null is ignored |
| Freelists.Freelist.Perform | kernel/unit_tests/allocators/page_allocator/fuzzing/page_fuzzer.cpp:22-50 | each legal operation on the real allocator is the corresponding step of the specification, with its answer |
| Freelists.Freelist.Replay | kernel/unit_tests/allocators/page_allocator/fuzzing/page_fuzzer.cpp:52-57 | every legal sequence of operations on the real allocator ends in the state of the specified run, valid, and gives its answers |
| FreelistSpec.FirstRun | kernel/src/ram/page_allocators/freelist.hpp:321-343 | the result is the first run of adjacent entries, and none means there is none |
| FreelistSpec.RunIndexExact | kernel/src/ram/page_allocators/freelist.hpp:307-347 | a run is found if and only if one exists and the request is not one page from a list of one; it is the one with the lowest base |
| FreelistSpec.ZeroPagesKeepsPage | kernel/src/ram/page_allocators/freelist.hpp:321-347 | a request for zero pages returns the head page and leaves it on the list |
| FreelistSpec.HandedOutIff | kernel/src/ram/page_allocators/freelist.hpp:307-347 | the page returned leaves the list if and only if at least one page was asked for |
| FreelistSpec.TakeRunGrants | kernel/src/ram/page_allocators/freelist.hpp:307-347 | a request for n pages succeeds exactly if n adjacent pages are free and it is not one page of one; the answer is the lowest base of such pages, and exactly these leave the list |
| FreelistSpec.AllocatePagesGrants | kernel/src/ram/page_allocators/freelist.hpp:287-290 | so does `AllocatePages` on the top list; the low list and both counters stay, and all stays on failure |
| FreelistSpec.AllocatePagesWithGrants | kernel/src/ram/page_allocators/freelist.hpp:292-305 | so does the request by option, on the low list for `LOW` and on the top list otherwise |
| FreelistSpec.AllocatePageWithGrants | kernel/src/ram/page_allocators/freelist.hpp:206-219 | `LOW` gets the lowest page of the low list, not above the cutoff; other options get the lowest page of the top list, above it; only that page leaves, and the counters stay |
| FreelistSpec.AllocatePageGrants | kernel/src/ram/page_allocators/freelist.hpp:191-204 | without options the lowest page of the top list leaves, of the low list if the top one is empty, and its counter counts it |
| FreelistSpec.DeallocPageReturns | kernel/src/ram/page_allocators/freelist.hpp:349-363 | a freed page joins the list on its side of the cutoff, both lists stay sorted, and its counter counts it |
| FreelistSpec.ExtractedAt | kernel/src/ram/page_allocators/freelist.hpp:254-283 | for a page at position k, exactly the entries from k to k+n leave the list |
| FreelistSpec.FreedChainIff | kernel/src/ram/page_allocators/freelist.hpp:366-400 | after a free, memory holds the sorted insertion as a list if and only if the skipped link was null |
| FreelistSpec.StaleLinkExample | kernel/src/ram/page_allocators/freelist.hpp:382-384 | a concrete free after which the list runs on into a page that is not free |
| FreelistRuns.CarelessRunExample | kernel/src/ram/page_allocators/freelist.hpp:307-400 | a run of allocations and frees after which a free puts two pages that are still held back on the list |
| FreelistRuns.CarefulKeepsNull | kernel/src/ram/page_allocators/freelist.hpp:221-232 | single-page allocations, zeroed runs below 2^20 pages, frees, and writes that spare the first word keep the link of every page handed out null |
| FreelistRuns.CarefulRunIsSafe | kernel/src/ram/page_allocators/freelist.hpp:15-23 | over every run of those operations each free of a held page is safe, without any assumption about links, and all that legal runs keep is kept |
| FreelistRuns.RunKeepsWordsApart | kernel/src/ram/page_allocators/freelist.hpp:31-33 | over every run from an aligned store all words stay at multiples of 8 and no two share a byte |
| FreelistRuns.TakeHeadKeeps | kernel/src/ram/page_allocators/freelist.hpp:222-232 | taking the head keeps the list linked and sorted, removes only that page, and writes only list cells |
| FreelistRuns.TakeRunKeeps | kernel/src/ram/page_allocators/freelist.hpp:307-347 | taking a run keeps the list linked and sorted and removes exactly the pages handed out |
| FreelistRuns.ClearHanded | kernel/src/ram/page_allocators/freelist.hpp:301-303 | zeroing the run handed out changes no cell of any list it is not on |
| FreelistRuns.StepConserves | kernel/src/ram/page_allocators/freelist.hpp:15-23 | every operation keeps both lists valid and free and outstanding pages a partition of the initial pages |
| FreelistRuns.StepHandsOut | kernel/src/ram/page_allocators/freelist.hpp:191-363 | after any operation clients hold what they held, without the page freed and with the adjacent pages that the answer stands for, as many as asked for |
| FreelistRuns.StepWritesOnly | kernel/src/ram/page_allocators/freelist.hpp:191-400 | an operation writes to links of free pages, to the page freed, to pages handed out zeroed, and nowhere else |
| FreelistRuns.ClientWriteConserves | kernel/src/ram/page_allocators/freelist.hpp:31-34 | clients may write any aligned word of pages they hold without touching either list |
| FreelistRuns.StepSparesHeld | kernel/src/ram/page_allocators/freelist.hpp:15-23 | a page that is held stays held and keeps its words through every operation that neither frees it nor writes to it |
| FreelistRuns.RunSparesHeld | kernel/src/ram/page_allocators/freelist.hpp:15-23 | the same over every run |
| FreelistRuns.StepKeepsCounters | kernel/src/ram/page_allocators/freelist.hpp:191-204 | every operation keeps each counter equal to the list length plus the pages that left uncounted, modulo 2^64 |
| FreelistRuns.RunKeepsInv | kernel/src/ram/page_allocators/freelist.hpp:15-23 | over every legal run both lists stay sorted, acyclic, duplicate free and split by the cutoff, no page is lost or both free and handed out, and the counters drift exactly by the uncounted pages |
| FreelistRuns.CountersExact | kernel/src/ram/page_allocators/freelist.hpp:191-204 | over runs of AllocatePage, DeallocPage and client writes the counters are the list lengths: always if clients keep the first word of their pages null, and otherwise as long as each free is safe |
| FreelistRuns.AllocateFresh | kernel/unit_tests/allocators/page_allocator/fuzzing/page_fuzzer.cpp:81-89 | AllocatePage returns null exactly when both lists are empty, never a page that is held, and the lowest page of the top list before any low page |
| FreelistRuns.AllocateThenFree | kernel/src/ram/page_allocators/freelist.hpp:191-204 | freeing the page just allocated is safe and restores both lists, both counters and every memory word |
| FreelistRuns.ZeroedPages | kernel/src/ram/page_allocators/freelist.hpp:215-217 | every word inside pages asked for with Z reads as zero; the 32-bit byte count covers a whole run exactly below 2^20 pages |
| SlabSpec.SlotAtIs | kernel/src/kheap/slab/list_descriptor.cpp:67-75 | stepping by the buffer size reaches base + k * size |
| SlabSpec.NewSlabInv | kernel/src/kheap/slab/list_descriptor.cpp:61-77 | a newly linked slab is sound and has no object; its chain is every whole slot and the truncated left-over, in ascending order |
| SlabSpec.CellsBelowLimit | kernel/src/kheap/slab/list_descriptor.cpp:67-76 | the linking loop visits exactly the whole slots and at most one truncated one |
| SlabSpec.CellsSorted | kernel/src/kheap/slab/list_descriptor.cpp:61-139 | in every sound slab the free chain is strictly ascending inside the region, its truncated slot last |
| SlabSpec.LinksInsideSlab | kernel/src/kheap/slab/list_descriptor.cpp:61-77 | all links lie inside the slab if and only if the left-over is empty or at least 8 bytes |
| SlabSpec.ShortTailExample | kernel/src/kheap/slab/list_descriptor.cpp:76 | with slots of 9 bytes in one page the last link shares bytes with the first word behind the slab |
| SlabSpec.SlotCountWrapExample | kernel/src/kheap/slab/list_descriptor.cpp:19 | 128 pages of 8-byte slots have 65536 slots and count as none |
| SlabSpec.MultipleOfEightFits | kernel/src/kheap/slab/list_descriptor.cpp:6-21 | buffer sizes that are multiples of 8 always meet that condition |
| SlabSpec.LinksMissLiveSlots | kernel/src/kheap/slab/list_descriptor.cpp:15 | no link word shares a byte with a slot in use |
| SlabSpec.AllocateLowest | kernel/src/kheap/slab/list_descriptor.cpp:91-101 | allocation fails exactly when the slab is full, else returns the lowest unused slot, whole and inside the slab, and keeps the slab sound |
| SlabSpec.DeallocateReturns | kernel/src/kheap/slab/list_descriptor.cpp:103-139 | freeing removes exactly that object and puts the slot at its sorted place before any truncated slot |
| SlabSpec.DeallocateChain | kernel/src/kheap/slab/list_descriptor.cpp:103-139 | memory then holds the new chain, and no cell outside it changed |
| SlabSpec.DeallocateChainIff | kernel/src/kheap/slab/list_descriptor.cpp:103-139 | freeing a slot leaves a chain if and only if the slot was in use |
| SlabSpec.DeallocateSoundIff | kernel/src/kheap/slab/list_descriptor.cpp:103-139 | for any address at all, the slab and its chain are sound after a free if and only if the address is outside the slab, or the slab has no object, or it is that of an object |
| SlabSpec.LiveCount | kernel/src/kheap/slab/list_descriptor.hpp:41-43 | the used count is the number of slots in use |
| SlabSpec.ChainDeterminedByLive | kernel/src/kheap/slab/list_descriptor.cpp:115-137 | a slab is determined by its slots in use and whether the truncated slot is still linked |
| SlabSpec.FreeOrderIrrelevant | kernel/src/kheap/slab/list_descriptor.cpp:103-139 | freeing two objects in either order gives the same slab and the same memory words |
| SlabSpec.AllocateThenFree | kernel/src/kheap/slab/list_descriptor.cpp:91-139 | allocating and freeing restores the slab, except that filling it up drops the truncated slot for good |
| ListDescriptors.ListDescriptor.constructor | kernel/src/kheap/slab/list_descriptor.cpp:6-21 | size clamped to 8, slot count truncated to 16 bits, a ring of its own |
| ListDescriptors.ListDescriptor.SetupLinkage | kernel/src/kheap/slab/list_descriptor.cpp:61-77 | the slab is sound afterwards if and only if its slot count fits 16 bits; only words that share a byte with a link can change, none outside the region if the links fit |
| ListDescriptors.ListDescriptor.LinkCells | kernel/src/kheap/slab/list_descriptor.cpp:65-76 | the loop threads the chain through every cell of the region in order; words apart from all links keep their value |
| ListDescriptors.ListDescriptor.Allocate | kernel/src/kheap/slab/list_descriptor.cpp:91-101 | the descriptor stays sound and takes the specified slot without writing memory |
| ListDescriptors.ListDescriptor.Deallocate | kernel/src/kheap/slab/list_descriptor.cpp:103-139 | for any address value and memory are those of the specification; the descriptor stays sound if and only if the address is that of an object or is ignored |
| ListDescriptors.ListDescriptor.InsertCell | kernel/src/kheap/slab/list_descriptor.cpp:109-137 | the search loop links any cell at its sorted place |
| ListDescriptors.ListDescriptor.AddList | kernel/src/kheap/slab/list_descriptor.cpp:148-171 | on a ring of any size the new descriptor becomes the last; a descriptor of another size, or the head, is ignored |
| ListDescriptors.ListDescriptor.Remove | kernel/src/kheap/slab/list_descriptor.cpp:173-187 | removes a non-head member of a ring of any size, keeping the order |
| ListDescriptors.ListDescriptor.Extract | kernel/src/kheap/slab/list_descriptor.cpp:189-206 | the same, returning the member, or null for the head |
| ListDescriptors.ListDescriptor.ExtractSelf | kernel/src/kheap/slab/list_descriptor.cpp:208-229 | the head leaves: its successor heads the rest, and it is a ring of its own |
| ListDescriptors.Ring.Add | kernel/src/kheap/slab/buffer.cpp:57-88 | the descriptor is appended to the ring, whose head is set if it was empty; one the head still points to is not added |
| ListDescriptors.Ring.DetachHead | kernel/src/kheap/slab/buffer.cpp:105-117 | the head is a ring of its own, what followed it is the rest of the ring, and the head pointer is still in place |
| ListDescriptors.Ring.DetachEntry | kernel/src/kheap/slab/buffer.cpp:144-153 | an entry other than the head leaves the ring, order kept |
| BufferSpec.Find | kernel/src/kheap/slab/buffer.cpp:228-245 | the search returns the first slab of the ring whose region holds the address, or none if there is none |
| BufferSpec.SettledInv | kernel/src/kheap/slab/buffer.cpp:90-164 | changing one slab and moving it to the ring of its kind keeps every slab on exactly the ring of its kind |
| BufferSpec.AllocateServes | kernel/src/kheap/slab/buffer.cpp:166-211 | allocation fails exactly when every slab is full, else adds one new object; while a partial slab exists the free ring is untouched |
| BufferSpec.RingMembers | kernel/src/kheap/slab/buffer.cpp:41-55 | the free, partial and full ring hold the slabs with no, some and all slots in use |
| BufferSpec.AllocateExact | kernel/src/kheap/slab/buffer.cpp:166-211 | allocation takes the lowest unused slot of the head of the partial ring, or else the first slot of the head of the free ring, or else fails; no other slab changes, and the head moves to the end of its new ring when it must |
| BufferSpec.DeallocateRemoves | kernel/src/kheap/slab/buffer.cpp:213-267 | deallocation removes exactly the given object and keeps the rings exact |
| BufferSpec.DeallocateExact | kernel/src/kheap/slab/buffer.cpp:213-267 | freeing an object changes the slab it lies in and no other; an emptied partial slab and a full one move to the end of their new ring, ring order kept |
| BufferSpec.DeallocateIgnores | kernel/src/kheap/slab/buffer.cpp:213-267 | an allowed free of anything but an object changes nothing |
| BufferSpec.DeallocateIff | kernel/src/kheap/slab/buffer.cpp:213-267 | the buffer is sound after a free if and only if the address is in no slab that has objects, or is that of an object |
| BufferSpec.AddListJoins | kernel/src/kheap/slab/buffer.cpp:41-55 | a new slab joins the ring of its kind with its objects and no others |
| BufferSpec.AddListExact | kernel/src/kheap/slab/buffer.cpp:41-88 | a slab that joins is the last of the ring of its kind, and nothing else changes |
| BufferSpec.RelocatedIs | kernel/src/kheap/slab/buffer.cpp:90-164 | an entry moves to the end of the ring of its kind; one that stays on its ring becomes the last there, or is lost if it was the head |
| BufferSpec.StepRefines | kernel/src/kheap/slab/buffer.cpp:41-267 | each operation keeps the invariant, gives an answer that a pool of slots may give, and does to the buffer's slots and objects what it does to the pool |
| BufferSpec.FullIff | kernel/src/kheap/slab/list_descriptor.hpp:41-43 | every slab is full if and only if every slot is in use |
| BufferSpec.RunRefinesPool | kernel/src/kheap/slab/buffer.cpp:41-267 | over every run the rings stay exact and clients see a pool of slots: an allocation fails exactly when every slot is in use, and otherwise returns a slot that is not |
| BufferSpec.JoinsApart | kernel/src/kheap/slab/buffer.cpp:41-55 | a slab that joins later in a run is apart from every slab there is now |
| BufferSpec.UsedCountsObjects | kernel/src/kheap/slab/list_descriptor.hpp:33 | the used counts over the three rings add up to the number of objects |
| BufferSpec.LinksMissObjects | kernel/src/kheap/slab/list_descriptor.cpp:61-139 | no link of any slab shares a byte with an object of any slab |
| BufferSpec.LinksApart | kernel/src/kheap/slab/list_descriptor.cpp:61-139 | no two links of a buffer share a byte, so a store of whole words is an exact model |
| BufferSpec.ObjectsHoldNoLinks | kernel/src/kheap/slab/list_descriptor.cpp:61-139 | no word inside an object is a link |
| BufferSpec.RemembersStep | kernel/src/kheap/slab/buffer.cpp:166-267 | if one step writes at most its own word of the objects in use, the words of objects that stay in use remain what the last writes made them |
| Buffers.Buffer.constructor | kernel/src/kheap/slab/buffer.cpp:19-30 | a new buffer is valid and empty, with rings of its own |
| Buffers.Buffer.AddList | kernel/src/kheap/slab/buffer.cpp:41-55 | keeps the buffer valid and appends the slab to the ring of its kind |
| Buffers.Buffer.Place | kernel/src/kheap/slab/buffer.cpp:41-88 | exactly the ring of the slab's kind gains it, as last element, unless the slab still is that ring's head |
| Buffers.Buffer.MoveHead | kernel/src/kheap/slab/buffer.cpp:90-131 | the head leaves its ring and becomes the last of the ring of its kind; if that is its own ring it is lost |
| Buffers.Buffer.MoveEntry | kernel/src/kheap/slab/buffer.cpp:133-164 | the same for any entry; one behind the head that stays on its ring becomes the last there |
| Buffers.Buffer.AddToFree | kernel/src/kheap/slab/buffer.cpp:181-189 | takes a slot from the free head and moves that slab on |
| Buffers.Buffer.SearchEndsIff | kernel/src/kheap/slab/buffer.cpp:196-209 | some pass of the search finds space or comes back to the head if and only if the ring has one element or one of the first two has space |
| Buffers.Buffer.SearchPartial | kernel/src/kheap/slab/buffer.cpp:196-209 | where the search ends, its result is the first of the head and the element behind it with space, or null for a ring of one full slab |
| Buffers.Buffer.AddToPartial | kernel/src/kheap/slab/buffer.cpp:191-211 | serves as specified from the partial head, which always has space, so that the search ends on its first pass; the operation counter counts a move |
| Buffers.Buffer.Allocate | kernel/src/kheap/slab/buffer.cpp:166-179 | the buffer stays valid and serves as specified, writing no memory |
| Buffers.Buffer.ReturnTo | kernel/src/kheap/slab/buffer.cpp:234-235 | only this slab's value changes; freeing an object leaves every other chain in memory intact |
| Buffers.Buffer.FindList | kernel/src/kheap/slab/buffer.cpp:232-243 | the ring walk stops at the first descriptor in range, or has tried them all |
| Buffers.Buffer.FreeIn | kernel/src/kheap/slab/buffer.cpp:234-239 | frees the slot in the slab found; an emptied partial slab and a full slab with space again move; the buffer stays valid if and only if the free is allowed |
| Buffers.Buffer.DeallocFrom | kernel/src/kheap/slab/buffer.cpp:228-267 | finds the slab, frees the slot and moves the slab if its kind changed; otherwise reports failure and changes nothing |
| Buffers.Buffer.Deallocate | kernel/src/kheap/slab/buffer.cpp:213-226 | for any address the specified effect, after which the buffer is valid if and only if the address is that of an object or is in no slab that has objects; an allowed free writes only links |
| Buffers.Buffer.ClientWrite | kernel/src/kheap/slab/list_descriptor.cpp:91-101 | a client writing inside its object changes nothing the buffer relies on |
| Buffers.Buffer.Perform | kernel/src/kheap/slab/buffer.cpp:166-267 | each request is the specified step; a client's write arrives, and all other words of objects that stay in use keep their value |
| Buffers.Buffer.Replay | kernel/src/kheap/slab/buffer.cpp:41-267 | every run of the real buffer, with slabs joining and clients writing to their objects, is the specified run with the specified answers; a word in an object that stays in use ends up holding what its client last wrote |
| PageBits.ExtractPageIndices | kernel/src/x86_64/x86pages.cpp:5-17 | all four indices are below 512 |
| PageBits.IndicesOfAddress | kernel/src/x86_64/x86pages.cpp:5-17 | for every address, its number modulo 2^48 is its indices and offset in base 512 and 4096, which fixes each of them |
| PageBits.IndicesByDivision | kernel/src/x86_64/x86pages.cpp:5-17 | each index is the address divided by 2^39, 2^30, 2^21 or 2^12, modulo 512 |
| PageBits.CanonicalHalves | kernel/src/x86_64/x86pages.hpp:26-35 | the canonical addresses are the lowest and the highest 2^47 |
| PageBits.KVirtFromPageIndex | kernel/src/x86_64/utilites.cpp:6-26 | shifting the fields in from the top puts each at its place, under set high bits |
| PageBits.RebuildExtracted | kernel/src/x86_64/utilites.cpp:6-39 | rebuilding an address from its indices and offset returns it if and only if its top 16 bits are set |
| PageBits.ExtractRebuilt | kernel/src/x86_64/utilites.cpp:28-39 | extraction recovers the indices and offset an address was built from |
| PageBits.CanonicalDetermined | kernel/src/x86_64/x86pages.hpp:26-35 | canonical addresses with equal indices and offset are equal |
| PageBits.SamePath | kernel/src/x86_64/x86pages.cpp:5-17 | canonical addresses take the same path through the tables if and only if they are in the same page |
| PageBits.UpperEntryRoundTrip | kernel/src/x86_64/paging/upper_page_entry.hpp:114-143 | a table address survives in an upper entry if and only if it is page aligned and below 2^40; the entry is present, writeable and user accessible |
| PageBits.PageEntryRoundTrip | kernel/src/x86_64/paging/page_entry.hpp:117-149 | a page address survives in a leaf entry if and only if it is page aligned |
| PageBits.CreateUserIs | kernel/src/x86_64/paging/page_entry.hpp:117-149 | an entry for an aligned address is that address with its three lowest bits set and no other |
| PageBits.UpperBaseIs | kernel/src/x86_64/paging/upper_page_entry.hpp:114-143 | the address in an upper entry is its value below 2^40 without the lowest 12 bits |
| PageBits.PageBaseIs | kernel/src/x86_64/paging/page_entry.hpp:117-149 | the address in a leaf entry is its value without the lowest 12 bits |
| PageBits.EntryAddress | kernel/src/x86_64/x86pages.cpp:55-72 | an entry is eight times its index into the table, inside its page |
| PageTables.WithEntryOnly | kernel/src/x86_64/x86pages.cpp:58 | writing one entry changes no other entry of any page-aligned table |
| PageTables.WalkIsLookup | kernel/src/x86_64/x86pages.cpp:28-49 | in a well-formed tree the four-level walk finds exactly the page the tree records |
| PageTables.WalkIsManual | kernel/src/x86_64/x86pages.cpp:28-49 | the walk reaches exactly the frames that the walk of section 4.5 of the Intel SDM Volume 3A, stated in arithmetic, reaches |
| PageTables.LinkTable | kernel/src/x86_64/x86pages.cpp:56-69 | linking a blank frame as a table keeps the tables a tree in which no two share a frame, and neither maps nor unmaps any page |
| PageTables.LinkedFrameMaps | kernel/src/x86_64/x86pages.cpp:55-69 | after any frame is linked as a table, at any level, all translations are as before if and only if no page is reached through it |
| PageTables.PageTableMustBeBlank | kernel/src/x86_64/x86pages.cpp:66-69 | a frame linked as a page table leaves all translations alone if and only if it holds no present entry |
| PageTables.UpperTableMustBeBlank | kernel/src/x86_64/x86pages.cpp:56-65 | after a frame is linked as a table of an upper level, the recorded tables and this one are the tree in memory if and only if the frame holds no present entry |
| PageTables.LinkPage | kernel/src/x86_64/x86pages.cpp:70-72 | writing the leaf entry maps that page and no other |
| PageTables.GrownWayExact | kernel/src/x86_64/x86pages.cpp:55-69 | the tables grow by exactly the missing ones on the way, one frame each, after which none is missing |
| PageTables.LinksCompose | kernel/src/x86_64/x86pages.cpp:55-69 | allocating tables one level after another writes the links to them, with the right flags, and nothing else |
| PageTables.X86Pages.VirtToPhys | kernel/src/x86_64/x86pages.cpp:28-49 | a mapped address keeps its page offset and gets its frame's page number; an unmapped one gives zero |
| PageTables.X86Pages.Descend | kernel/src/x86_64/x86pages.cpp:56-60 | one level of the descent: allocates only a missing table, keeps the tree, changes no translation |
| PageTables.X86Pages.ReachPageTable | kernel/src/x86_64/x86pages.cpp:55-71 | the descent reaches the page table of the address, allocating exactly the missing tables |
| PageTables.X86Pages.MapUserPage | kernel/src/x86_64/x86pages.cpp:51-73 | every canonical address of that page translates to the new frame at its own offset and every other canonical address exactly as before; the tables stay a tree and grow by exactly the missing levels; the links to new tables and the leaf entry are all that is written |
| PageTables.X86Pages.MapPages | kernel/src/x86_64/x86pages.cpp:51-73 | over every sequence of requests each address translates by the latest request for its page, and exactly the missing tables are allocated |
| SizeClasses.SmearStep | kernel/src/kheap/slab_v2/allocator.hpp:54-59 | or-ing a word with itself shifted by k doubles the run of set bits at its top |
| SizeClasses.NbytesToPow2 | kernel/src/kheap/slab_v2/allocator.hpp:51-62 | the six shift-and-or steps compute the power of two just above n - 1, in 64-bit arithmetic |
| SizeClasses.RoundUpIsPow2 | kernel/src/kheap/slab_v2/allocator.hpp:51-62 | the result is a power of two that holds the request if and only if the request is from 1 to 2^63 |
| SizeClasses.RoundUpIsLeast | kernel/src/kheap/slab_v2/allocator.hpp:51-62 | no smaller power of two holds the request |
| SizeClasses.RoundUpWraps | kernel/src/kheap/slab_v2/allocator.hpp:51-62 | requests of zero bytes or of more than 2^63, and no others, are rounded to zero |
| SizeClasses.RoundUpIdempotent | kernel/src/kheap/slab_v2/allocator.hpp:51-62 | rounding a rounded size changes nothing |
| SizeClasses.IndexOfPower | kernel/src/kheap/slab_v2/allocator.hpp:64-78 | exactly the powers of two from 2 to 2048 have a class, the first three sharing one |
| SizeClasses.ClassOfRequest | kernel/src/kheap/slab_v2/allocator.cpp:23-25 | a request has a class if and only if it is from 2 to 2048 bytes, and its class is the smallest that fits |
| SizeClasses.Allocator.InitBuffers | kernel/src/kheap/slab_v2/allocator.cpp:11-21 | the table holds the nine powers of two from 8 to 2048 |
| SizeClasses.Allocator.GetBuffer | kernel/src/kheap/slab_v2/allocator.cpp:23-25 | the buffer chosen fits the request and every smaller one does not |

## Left out

- PageTables.X86Pages.MapUserPage: the frames it takes are assumed to hold no present entry and to lie below 2^40, which the page allocator of the kernel does not guarantee; running out of frames is not modelled.
- Freelists.Freelist.AllocatePageWith: an empty list, on which the source dereferences null, is excluded.
- Buffers.Buffer.SearchPartial: rings on which the source's search never ends are excluded; `SearchEndsIff` says which those are.
- Freelists.Freelist.InitialiseList: the same memory maps as `Init`.
- Freelists.Freelist.SetupRegion: a region length is a multiple of the page size.
- Freelists.Freelist.Init: memory-map regions are assumed page granular, ascending and disjoint, as the boot loader delivers them.
- The remaining methods of the page allocator: `Extract` as a public entry point, and printing.
- Move assignment and destruction of slab descriptors, and the ring of buffers, whose operations repeat those of the descriptor ring.
- The front end of the first slab allocator and the buffers and descriptors of the second one.
- The Limine memory-map request and the queries of the memory map that the allocator does not use.
- Large-page entries, translation look-aside buffer invalidation, control registers, and all device, process and file-system code.

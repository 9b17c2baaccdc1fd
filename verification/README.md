# Verified models of the PZOS kernel's core

This project models the memory stack of PZOS, a small x86-64 kernel, together with its reader/writer lock, its
terminal, its keyboard decoder, and the C library routines the kernel prints and copies with. To verify all modules
with Dafny 4.11:

    dafny verify dfyconfig.toml

Each part that the kernel writes as code that changes state comes in two layers. Functions on values say what one call
does, branch by branch, and lemmas prove what those functions keep over whole runs. A class, or a method over an array,
does the same work in place with the loops of the source, and its postconditions equate its state with those functions.

- **Page tables.** `Bits` says what `|` does to words bit by bit. `Linaddr` holds the address and entry macros,
  `PageTree` the four-level walk of sections 4.5 and 4.6 of the Intel SDM, Volume 3A, which ends in an entry with the
  rights all entries on the way leave to it, and the tree of tables in flat memory. `Paging` proves `map_page` and
  `unmap_page` correct against the walk, with exact panic conditions, and keeps the invariant: one parent per table,
  exact reference counts, no empty table, no table that takes rights away, free frames apart. `PagingRuns` refines every
  run to a plain map from pages to entries and shows that unmapping undoes mapping; `PagingFaults` adds demand paging,
  with frames taken from the allocator and given back. `PagingStart` shows where the runs start. `Pager` is the code in
  place. `RecursiveMap` covers the recursive slot.
- **Direct map.** `EarlyMapping` proves `early_map` for the three page sizes, `DirectMap` that any tiling of a region
  gives the direct map, `Tiling` that a greedy tiling has the fewest pages, and `DirectMapper` that the five loops of
  `mman_init` produce such a tiling and, for the whole memory map, the direct map.
- **Physical pages.** `Frames` has the bitmap, the page stack and the first-fit search, `BootMemory` the reservation,
  the capacity of the stack and the way from boot to later runs, `PageAllocator` the code in place with the boot loops.
- **Virtual areas.** `Vmem` has gap search, expansion and merging, release and lookup; `VmemNodes` what the calls do to
  the list nodes, and runs of both calls; `VmemList` the doubly linked list and the spare nodes in place; `VfreePages`
  the loop that unmaps a freed range, and `VfreeWhole` both parts of `vfree` together.
- **Slabs.** `Slab` and `SlabRuns` have free lists threaded through memory, over any number of slabs; `SlabAllocator`
  is the code in place.
- **Lock.** `RwLock` is a step system over any number of threads.
- **Terminal.** `Terminal` has the grid and the escape parser, `TerminalDrawing` says from row, column and cells what
  characters and sequences do, `TerminalColors` which colors sequences name, `TerminalText` what calls draw and which
  cuts of a text matter, `TerminalSequences` that written sequences are read back, and `TerminalScreen` has the two
  buffers and the cursor in place.
- **Keyboard.** `Keyboard` decodes scancode set 2, `KeyboardLayout` and `KeyboardMeaning` say from the keys of a
  keyboard what the keystrokes mean, and `KeyboardQueue` has the ring and the driver in place.
- **Library.** `MemMove` copies by words. `Printf` and `PrintfText` say what `vprintf` emits, `PrintfLayout` where each
  part of it stands, `PrintfSpec` that it reads specifications back, `PrintfTerminal` what the terminal draws of a
  string, and `Printer` is its code.

Addresses, words and bit masks are naturals with division and remainder; where the width of a C variable matters it is
written out. Locks, interrupt flags, TLB flushes and log output are no-ops, and a panic ends the run (`Panic`, `None`
or `false`). `__va` and `__pa` shift addresses by a constant, so memory is indexed by physical address.

## Where the code does not do what it sets out to do

Each of these is kept as the code has it, with the exact condition under which the call is right.

- `alloc_page` takes exactly one free page if and only if the page on top of the stack is below 2^20, or the stack is
  empty and the first nonzero bitmap word is 1 (`Frames.AllocPageExact`): the product is a 32-bit one, and the bitmap
  arm stores the index of the highest set bit instead of clearing the lowest.
- Pages are conserved over a run while each `alloc_page` is called in such a state (`Frames.RunConserves`); the stack
  keeps to its reserved region in every run (`BootMemory.StackNeverOutgrows`).
- `free_contig` restores what `alloc_aligned` took if and only if the run does not start at page 0
  (`Frames.FreeContigRestores`).
- `vfree` frees exactly the range if and only if the range reaches the end of its area, or is empty at its start
  (`Vmem.VfreeCorrect`); it undoes `vmalloc_at` if and only if the range was not merged to the right
  (`Vmem.VfreeUndoesVmalloc`).
- `vfree` leaves the range unmapped if and only if no page of it but the first was mapped, and the first, if it was, with
  one reference (`VfreePages.RangeUnmapped`): the loop unmaps the first page again for every mapped page.
- The whole `vfree` frees exactly the range, areas and mappings, if and only if both hold (`VfreeWhole.VfreeExact`); a
  page it forgets stays mapped without an area (`VfreeWhole.CoveredAfter`).
- `vmalloc_at` for zero pages keeps the list in order if and only if the first gap has a neighbour with the same flags
  that takes it in: the area before it, or the area after it where that starts at the gap (`Vmem.NoPagesExact`).
- Cursor backward, clamped at the first cell, lands where it should if and only if it does not pass the first cell or
  passes it by what is left of the row; it stays on the screen if and only if it goes back no more cells than there are
  up to the end of its row (`Terminal.BackwardIsLinear`, `Terminal.CsiKeeps`).
- `tty_write` draws its characters and no more if and only if `parsecontrol`, which reads up to the NUL whatever the
  size, lets go there (`TerminalText.WriteReadsOn`): not inside a sequence it has begun, and not between a control
  character it has taken and another one or an ESC. Else what lies behind the cut is drawn now, and again by the next
  call if that writes it (`TerminalText.CutInTwo`; `TerminalText.NewlinesTogether` is a witness). A string cut by a
  precision goes this way (`PrintfTerminal.StringDrawn`).
- A number field reads back as its argument if and only if zeros do not pad it on the right, or the number is 0
  (`PrintfText.SignedReadsBack`, `PrintfText.UnsignedReadsBack`).
- The keypad's Enter does not send the code that `kbd.h` names `Key_NumEnter` and `main.c` waits for: of all keys, the
  keypad's period alone sends that one (`KeyboardMeaning.KeypadEnter`).
- The keystroke ring holds 255 keystrokes: one more loses all (`KeyboardQueue.PushAppends`).

## Model

| member | source | states |
|---|---|---|
| Linaddr.BuildFields | kernel/arch/x86_64/paging.h:39-46 | the four indices and the offset given to BUILD_LINADDR come back out of the address, which is canonical |
| Linaddr.BuildOfFields | kernel/arch/x86_64/paging.h:39-46 | BUILD_LINADDR of the indices and offset of any canonical address is that address |
| Linaddr.TableWordFacts | kernel/arch/x86_64/paging.c:131-135 | a table entry is present, not large, gives the table's frame back, and is bit by bit the address with bits 0 and 1: it takes no rights away |
| Linaddr.LeafWordFacts | kernel/arch/x86_64/paging.c:163 | a 4 KiB entry is present, gives the frame back, is large only if the caller's flags say so, and is bit by bit the address or the flags or bit 0, so that it can be written and executed as the flags say |
| Linaddr.LargeWordFacts | kernel/arch/x86_64/paging.c:71-103 | a 2 MiB or 1 GiB entry is present and large, gives the frame back, and is bit by bit the address or the flags or bits 0, 1 and 7: it can be written, and executed as the flags say |
| Linaddr.PlusIsOr | kernel/arch/x86_64/paging.c:163 | an address added to flags with more low bits set is, bit by bit, the address or the flags or those bits |
| Bits.SumIsOr | kernel/arch/x86_64/paging.c:134 | the sum of words without a common bit is their bitwise or |
| Bits.OrSetsBit | kernel/arch/x86_64/paging.h:25-35 | setting a flag sets its bit and leaves every other bit alone |
| RecursiveMap.Pml4ePtrFields | kernel/arch/x86_64/paging.h:51 | the PML4 entry pointer of a walks the recursive slot four times and ends at eight times a's PML4 index |
| RecursiveMap.PdptePtrFields | kernel/arch/x86_64/paging.h:52 | the PDPT entry pointer walks the recursive slot three times, then a's PML4 index |
| RecursiveMap.PdePtrFields | kernel/arch/x86_64/paging.h:53 | the PD entry pointer walks the recursive slot twice, then a's PML4 and PDPT indices |
| RecursiveMap.PtePtrFields | kernel/arch/x86_64/paging.h:54 | the PT entry pointer walks the recursive slot once, then a's first three indices |
| RecursiveMap.RecursivePointers | kernel/arch/x86_64/paging.h:50-54 | with slot 0x1fe pointing to the PML4, the hardware walk of each pointer macro lands on the physical place of a's entry at that level, whenever the levels above lead there |
| Paging.EnsureKeeps | kernel/arch/x86_64/paging.c:131-151 | making one table on the way keeps the tree, the counts and every walk, uses one free frame if the table was missing, and fails only without a free frame |
| Paging.StaysPermissive | kernel/arch/x86_64/paging.c:131-151 | a table entry that is made or cleared leaves all table entries under the slots with RW and without NX |
| Paging.LeafRights | kernel/arch/x86_64/paging.c:163 | under such tables a page may be written and executed as its own entry says |
| Paging.PathKeeps | kernel/arch/x86_64/paging.c:131-152 | the descent ends at the page's table and fails exactly when the free frames do not cover the missing tables |
| Paging.SetLeafKeeps | kernel/arch/x86_64/paging.c:154-164 | writing the entry changes this page's walk only, counts the table's new entry and the frame, and does nothing for a repeated mapping; the page gets the rights of the entry |
| Paging.MapAtCorrect | kernel/arch/x86_64/paging.c:118-168 | as MapPageCorrect, for a page given by its indices |
| Paging.MapPageCorrect | kernel/arch/x86_64/paging.c:118-168 | map_page changes the walk of its own page only, to the given frame with each flag asked for and the rights the flags give, or not at all if the frame is already there; every other page keeps its entry and its rights; it keeps the invariant and the frames in use, and panics exactly for the null address and for want of frames |
| Paging.ManagedWalk | kernel/arch/x86_64/paging.c:175-186 | a mapped page below the managed slots is a 4 KiB leaf of a frame that is neither free nor a table |
| Paging.ClearLeaf | kernel/arch/x86_64/paging.c:188-195 | clearing the entry after the frame's last reference removes this page only and takes one off the table's count |
| Paging.FreedKeeps | kernel/arch/x86_64/paging.c:195-217 | freeing a table whose count is zero keeps the tree and every walk, and the frame becomes free |
| Paging.PruneKeeps | kernel/arch/x86_64/paging.c:195-217 | the end of unmap_page never panics, leaves no empty table and keeps the invariant and every walk |
| Paging.UnmapAtCorrect | kernel/arch/x86_64/paging.c:170-224 | as UnmapPageCorrect, for a page given by its indices |
| Paging.UnmapPageCorrect | kernel/arch/x86_64/paging.c:170-224 | unmap_page takes one reference from the mapped frame, removes the page exactly with the last one, changes nothing else, keeps the invariant, and panics exactly when the frame had no reference |
| PagingRuns.StepRefines | kernel/arch/x86_64/paging.c:118-224 | each call is the matching step on a plain map from pages to entries; a panic of the code is a panic there or a lack of frames |
| PagingRuns.RunRefines | kernel/arch/x86_64/paging.c:118-224 | over every run, remaps included, the hardware translates each managed page as the plain map says, with the rights of its entry, all other pages as before, and the free and table frames together stay the same |
| PagingRuns.SingleStep | kernel/arch/x86_64/paging.c:118-224 | while each frame is mapped at one page, a map adds its page and an unmap removes its page, and only mapping the null address panics |
| PagingRuns.SingleRun | kernel/arch/x86_64/paging.c:118-224 | the same over every run |
| PagingRuns.UndoTable | kernel/arch/x86_64/paging.c:138-219 | freeing a table that was just made gives the tree from before, with counts and free frames in order |
| PagingRuns.UndoLeaf | kernel/arch/x86_64/paging.c:154-195 | clearing an entry that was just set gives the tree from before |
| PagingRuns.UnmapUndoesMap | kernel/arch/x86_64/paging.c:118-224 | mapping an unused frame at an unmapped page and unmapping the page restores the tree, its present entries, all counts and the free frames with their order |
| PagingFaults.FaultRefines | kernel/arch/x86_64/paging.c:44 | the fault handler takes the next free frame and maps it: the hardware then finds that frame at the page, with each flag asked for in its entry and the rights they give, every other managed page is as the plain map says, and the frame is no longer free |
| PagingFaults.ActRefines | kernel/arch/x86_64/paging.c:41-224 | a call, a fault, or the return of an unmapped frame is the matching step on the plain map, and each frame stays exactly one of free, table or taken |
| PagingFaults.ExecRefines | kernel/arch/x86_64/paging.c:41-224 | the same over every run of calls, faults and returns |
| PagingStart.EmptyTables | kernel/arch/x86_64/mman.c:124-128 | a PML4 with no entry but the recursive one satisfies the invariant of the boot tables, and maps nothing |
| PagingStart.AfterDirectMap | kernel/arch/x86_64/mman.c:182-216 | once the direct map is built, the PML4 slots that it and earlier mappings leave alone stand for an empty map, the start of every run of map_page and unmap_page |
| PagingStart.PoolIsStack | kernel/arch/x86_64/mman.c:251-288 | while the page stack serves with pages below 2^20, the free frames of the page tables are the page stack: both hand out and take back the same frame |
| Pager.Pager.IncPage | kernel/arch/x86_64/paging.c:262-268 | one count goes up by one |
| Pager.Pager.DecPage | kernel/arch/x86_64/paging.c:270-280 | one count goes down by one and is returned; a count of zero panics |
| Pager.Pager.EnsureTable | kernel/arch/x86_64/paging.c:131-151 | the in-place step is the function the lemmas are about |
| Pager.Pager.BuildPath | kernel/arch/x86_64/paging.c:131-152 | the descent in place is that function |
| Pager.Pager.MapPage | kernel/arch/x86_64/paging.c:118-168 | map_page in place has the state and the panics that MapPageCorrect is about |
| Pager.Pager.UnmapPage | kernel/arch/x86_64/paging.c:170-224 | unmap_page in place has the state and the panics that UnmapPageCorrect is about |
| Pager.Pager.IsMapped | kernel/arch/x86_64/paging.c:226-260 | is_mapped is true exactly when the hardware walk finds a page, 2 MiB and 1 GiB pages included |
| Pager.Pager.EarlyMap | kernel/arch/x86_64/paging.c:60-116 | early_map in place has the state and the panics that EarlyMapCorrect is about |
| EarlyMapping.WayIsClear | kernel/arch/x86_64/paging.c:79-112 | for an unmapped block early_map never descends through a large page and never overwrites a present entry |
| EarlyMapping.EnsureOnTheWay | kernel/arch/x86_64/paging.c:79-111 | making a table on the way changes no walk and fails exactly when the table is missing and no frame is free |
| EarlyMapping.LeafPlaced | kernel/arch/x86_64/paging.c:86-114 | the final write gives exactly the pages of the block the leaf |
| EarlyMapping.LeafOfIs | kernel/arch/x86_64/paging.c:68-114 | a leaf of each size has each flag asked for, its frame, and the rights the flags give; a large page has its size bit and may always be written |
| EarlyMapping.EarlyAtCorrect | kernel/arch/x86_64/paging.c:60-116 | as EarlyMapCorrect, for a block given by its indices |
| EarlyMapping.EarlyMapCorrect | kernel/arch/x86_64/paging.c:60-116 | early_map of an unmapped block maps exactly the block with a leaf of its size, its flags and the rights they give, leaves every other walk with its rights and all counts alone, and fails exactly for want of frames |
| DirectMap.BlockAddresses | kernel/arch/x86_64/paging.h:39-43 | the pages below one entry of a level are the addresses of one aligned block |
| DirectMap.RegionMapped | kernel/arch/x86_64/mman.c:182-216 | placing any tiling of a region by aligned blocks of the three sizes translates __va(p) to p for exactly the bytes of the region, executable as the flags say and writable if they say so, and leaves every other address with its rights alone |
| DirectMap.RefusedForFrames | kernel/arch/x86_64/paging.c:60-116 | early_map refuses the next page of a region if and only if it needs more tables than there are free frames |
| Tiling.MaximalHolds | kernel/arch/x86_64/mman.c:191-215 | an aligned page inside the range that meets a block no larger page could replace lies in that block |
| Tiling.GreedyIsFewest | kernel/arch/x86_64/mman.c:191-215 | a tiling by such blocks has no more pages than any cover of the range by aligned 4 KiB, 2 MiB and 1 GiB pages |
| Tiling.GreedyIsUnique | kernel/arch/x86_64/mman.c:191-215 | there is one tiling by such blocks |
| DirectMapper.PadTo1G | kernel/arch/x86_64/mman.c:191-201 | the first two loops pad to 2 MiB and 1 GiB with pages no larger page could replace |
| DirectMapper.MapRegion | kernel/arch/x86_64/mman.c:188-215 | the five loops call early_map for a gapless tiling of the entry's pages in which no larger page would fit, and stop early only at a page early_map refuses |
| DirectMapper.MapEntry | kernel/arch/x86_64/mman.c:184-215 | one memory map entry is added to the direct map by early_map calls for its greedy tiling, or skipped if it is not usable or reclaimable; it fails only where these calls come to a page that needs more tables than there are free frames then |
| DirectMapper.MapMemory | kernel/arch/x86_64/mman.c:182-216 | after the loop over the memory map, __va(p) translates to p for exactly the bytes of usable and reclaimable entries, executable as the flags say and writable if they say so, and every other address is as before; the calls made are those for the greedy tilings in order, and it fails only where they come to a page that needs more tables than there are free frames then |
| Frames.Lowest | kernel/arch/x86_64/mman.c:256-258 | the first free page of the bitmap, or none |
| Frames.Highest | kernel/arch/x86_64/intrin.h:75-79 | the last set bit of a word, or none |
| Frames.AllocPageExact | kernel/arch/x86_64/mman.c:251-272 | alloc_page returns a free page and takes exactly that page out of the free ones if and only if the top of the stack is below 2^20, or the stack is empty and the first nonzero bitmap word is 1 |
| Frames.FreePageExact | kernel/arch/x86_64/mman.c:274-288 | free_page adds exactly its page to the free ones, and panics exactly for a high page with the stack empty |
| Frames.AllocPageOrder | kernel/arch/x86_64/mman.c:251-288 | alloc_page hands out the page freed last, with the free pages as they were, at its address exactly when that is below 4 GiB; with the stack empty it hands out the lowest free page |
| Frames.FirstFitIsFirst | kernel/arch/x86_64/mman.c:297-315 | the search stops at the first multiple of the alignment whose whole run is free, or nowhere |
| Frames.AllocAlignedIsFirstFit | kernel/arch/x86_64/mman.c:290-318 | alloc_aligned clears exactly npages set bits from the least aligned start whose whole run was free, and panics only when there is none |
| Frames.FreeContigRestores | kernel/arch/x86_64/mman.c:324-337 | free_contig of what alloc_aligned returned restores the bitmap exactly if and only if the address is not 0 |
| Frames.StepConserves | kernel/arch/x86_64/mman.c:251-337 | every call, where callers free only what they hold and alloc_page is ready, keeps each page either free or held, once |
| Frames.RunConserves | kernel/arch/x86_64/mman.c:251-337 | the same over every run that does not panic and whose allocations are ready |
| Frames.RunWeight | kernel/arch/x86_64/mman.c:251-337 | in every run, ready or not, the stack entries and the high pages held, counted with repetition, do not grow in number |
| BootMemory.ReservedRun | kernel/arch/x86_64/mman.c:69-84 | the reserved run lies in the chosen entry alone and opens its high part |
| BootMemory.ReserveIsLeast | kernel/arch/x86_64/mman.c:70 | the pages set aside are the fewest with room for the bitmap and four bytes for each page of memory |
| BootMemory.PagesWithinSize | kernel/arch/x86_64/mman.c:50-70 | the map's usable and reclaimable pages are no more than the memory size counts |
| BootMemory.StackFits | kernel/arch/x86_64/mman.c:70 | the bitmap and a stack of distinct pages of the map fit the reserved pages |
| BootMemory.StackNeverOutgrows | kernel/arch/x86_64/mman.c:70-288 | in every run, ready or not, the stack stays inside the reserved region, if at the start it and the high pages held are no more than the pages of the memory map |
| BootMemory.BeforeReclaim | kernel/arch/x86_64/mman.c:122-228 | the ready allocations while the tables are built keep each page free or held once, and leave the boot loader's pages out, as the reclaiming loop needs |
| BootMemory.AddsKeeps | kernel/arch/x86_64/mman.c:228-244 | from a state that holds each page once and none of the boot loader's, the reclaiming loops make exactly these pages free, but for the one skipped |
| BootMemory.PushedFits | kernel/arch/x86_64/mman.c:70-244 | the stack mman_init fills and the pages the reclaiming pushes are together no more than the pages of the memory map |
| BootMemory.BootRunFits | kernel/arch/x86_64/mman.c:228-337 | from mman_init over the building of the tables and the reclaiming to any later run, ready or not: the stack stays inside the reserved region; and if the allocations are ready each usable or reclaimed page outside that region is free or held once, and no other page is |
| PageAllocator.Allocator.AllocPage | kernel/arch/x86_64/mman.c:251-272 | alloc_page in place returns and leaves what AllocPageExact is about |
| PageAllocator.Allocator.AllocLow | kernel/arch/x86_64/mman.c:254-266 | the scan of the bitmap takes the lowest free page and stores the highest bit index as the word |
| PageAllocator.Allocator.FreePage | kernel/arch/x86_64/mman.c:274-288 | free_page in place does what FreePageExact is about |
| PageAllocator.Allocator.AllocAligned | kernel/arch/x86_64/mman.c:290-318 | the nested loops find the first fit and clear its bits one by one |
| PageAllocator.Allocator.AllocContig | kernel/arch/x86_64/mman.c:320-322 | the first fit at alignment 1 |
| PageAllocator.Allocator.FreeContig | kernel/arch/x86_64/mman.c:324-337 | the loop sets exactly the bits of the run, and nothing for address 0 |
| PageAllocator.Allocator.Mark | kernel/arch/x86_64/mman.c:309-312 | n bits become b, the others stay |
| PageAllocator.Allocator.SetupBitmap | kernel/arch/x86_64/mman.c:86-100 | with the rotating mask, the set bits are exactly the usable low pages |
| PageAllocator.Allocator.PushEntry | kernel/arch/x86_64/mman.c:107-119 | the backward loop pushes exactly the entry's high pages outside the reserved run, each once |
| PageAllocator.Allocator.SetupStack | kernel/arch/x86_64/mman.c:102-120 | the stack holds exactly the usable high pages outside the reserved run, each once |
| PageAllocator.Allocator.ReclaimEntry | kernel/arch/x86_64/mman.c:230-243 | the entry's low pages get their bits and its high ones go on the stack, each once, save the one under the boot stack |
| PageAllocator.Allocator.Reclaim | kernel/arch/x86_64/mman.c:228-244 | exactly the boot loader's reclaimable low pages, save that one, get their bits, and exactly the high ones go on the stack, each once, whatever was there before |
| PageAllocator.Allocator.Init | kernel/arch/x86_64/mman.c:49-120 | the first entry with room is chosen, or none if none has room, and the usable pages are split without duplicates into bitmap bits, stack entries and the reserved run |
| Vmem.Before | kernel/src/vmem.c:51-56 | how many areas start before an address, in list order |
| Vmem.Search | kernel/src/vmem.c:157-192 | where the gap search stops: at the first gap, or behind areas without one |
| Vmem.FindsTheArea | kernel/arch/x86_64/paging.c:28-35 | the fault handler's linear search finds the one area that covers an address |
| Vmem.LeftGrows | kernel/src/vmem.c:164-166 | extending the left area covers exactly the new range |
| Vmem.RightGrows | kernel/src/vmem.c:175-178 | extending the right area covers exactly the new range |
| Vmem.MergeGrows | kernel/src/vmem.c:164-174 | merging with both neighbours covers exactly the new range and frees one node |
| Vmem.FillGapGrows | kernel/src/vmem.c:161-182 | each of the four arms for a gap keeps order and covers exactly the new range |
| Vmem.VmallocCorrect | kernel/src/vmem.c:109-209 | the list stays sorted and disjoint through every arm, the returned range was free and now has the given flags, no other address changes, and no list node is lost |
| Vmem.VmallocChooses | kernel/src/vmem.c:109-204 | the returned address, read off the areas alone: start on an empty list or before a single area at or past start + len, the end of a single area otherwise; else the end of the first area with a gap that would do behind it, if no area before it ends the search, and the end of the last area if there is no such gap |
| Vmem.RefusedExactly | kernel/src/vmem.c:124-208 | with spare nodes left, a request is refused if and only if every gap that would do lies behind an area that reaches start and begins at or past end, and there is such an area or nothing fits behind the last one; a single area refuses exactly what fits neither before nor behind it, and an empty list nothing |
| Vmem.RefusedOnlyWhenFull | kernel/src/vmem.c:157-208 | a refused request had no gap before the first area at or past end, does not fit after the last area, nor before a single one; an empty list refuses none |
| Vmem.NoPagesExact | kernel/src/vmem.c:109-209 | a granted request for no pages keeps the list in order if and only if the first gap is taken in by an area with the same flags beside it, and then no address changes |
| Vmem.NoPagesBreaksTheList | kernel/src/vmem.c:45-71 | a witness of the disorder: a request for no pages leaves an empty area, and the next request at the same place puts the list out of order |
| Vmem.RunAllocCorrect | kernel/src/vmem.c:109-209 | in every run the list stays in order, no two ranges handed out overlap, each keeps its flags to the end, and all other addresses are as at the start |
| Vmem.HolderFinds | kernel/src/vmem.c:221-229 | vfree's search stops at the area that holds the address |
| Vmem.AdvancedIsWrong | kernel/src/vmem.c:238-240 | freeing the head of an area never frees just the head |
| Vmem.SplitIsWrong | kernel/src/vmem.c:244-253 | freeing the middle of an area always leaves an area that is empty or ends past 2^64 |
| Vmem.VfreeCorrect | kernel/src/vmem.c:215-256 | vfree frees exactly the range and keeps the list in order if and only if the range reaches the end of its area or is empty at its start; no list node is lost |
| Vmem.VfreeUndoesVmalloc | kernel/src/vmem.c:109-256 | vfree of the range just returned restores the areas and the number of spare nodes if and only if the range was not merged with the area to its right |
| VmemNodes.EditConserves | kernel/src/vmem.c:18-83 | no change of the node lists loses or doubles a node |
| VmemNodes.VfreeUndoesEdit | kernel/src/vmem.c:109-256 | vfree of a range that was not merged to the right puts every list node and every spare node back at its place in order |
| VmemNodes.StepCorrect | kernel/src/vmem.c:109-256 | a call, each vfree up to the end of its area, keeps the list in order, changes exactly its range, and hands out a free range at the address VmallocChooses names |
| VmemNodes.RunCorrect | kernel/src/vmem.c:109-256 | in every run of both calls each range handed out is free at that time, the last call over an address decides what it holds at the end, the list stays in order and no node is lost |
| VmemList.VmaList.AllocVma | kernel/src/vmem.c:18-23 | the first spare node is taken off the spare list, or null if there is none |
| VmemList.VmaList.FreeVma | kernel/src/vmem.c:40-43 | the node leads the spare list |
| VmemList.VmaList.CreateVma | kernel/src/vmem.c:45-71 | a spare node is linked both ways at its place in the order |
| VmemList.VmaList.DestroyVma | kernel/src/vmem.c:73-83 | the node leaves the list, links on both sides are repaired, and it leads the spare list |
| VmemList.VmaList.FindVma | kernel/arch/x86_64/paging.c:28-35 | the node found holds the address, and its flags are those of the first area that covers it |
| VmemList.VmaList.Search | kernel/src/vmem.c:157-192 | the walk along the nodes stops where the search on values stops |
| VmemList.VmaList.VmallocLocked | kernel/src/vmem.c:112-209 | the arms of vmalloc_at in place, under its lock |
| VmemList.VmaList.FillGap | kernel/src/vmem.c:161-182 | the four arms relink the nodes to the areas that FillGapGrows is about, and leave both node lists as the edit of the arm says: one spare node in place, one node freed, or none |
| VmemList.VmaList.VmallocAt | kernel/src/vmem.c:109-209 | the linked list has the areas VmallocCorrect is about, linked both ways and apart from the spare nodes, both node lists are as the edit of the arm taken says, and the address is the one VmallocChooses names |
| VmemList.VmaList.FindHolder | kernel/src/vmem.c:221-229 | the walk along the nodes stops at the node that HolderFinds is about |
| VmemList.VmaList.Split | kernel/src/vmem.c:244-252 | the split arm as written, with the stale flags and the missing back link |
| VmemList.VmaList.Vfree | kernel/src/vmem.c:215-256 | the linked list has the areas VfreeCorrect is about, stays linked both ways whenever it stays in order, and both node lists are as the edit of the arm taken says |
| VmemList.VmaList.constructor | kernel/src/vmem.c:85-93 | vmem_init links the objects of a page both ways as the spare nodes of an empty list |
| VmemList.VmaList.AllocThenFree | kernel/src/vmem.c:109-256 | vmalloc_at and vfree of its result in place: the areas and the number of spare nodes are restored if and only if the range was not merged to the right, and then every node is back at its place in both lists, with its links |
| VmemList.VmaList.Run | kernel/src/vmem.c:109-256 | a run of both calls on the linked list does what RunCorrect is about, stays linked both ways and keeps its nodes |
| VfreePages.LoopKeeps | kernel/src/vmem.c:258-262 | the loop keeps the page tables' invariant and every page but the first, and takes one reference from the first page's frame for each mapped page it meets, with the mapping going with the last one; it panics exactly on a mapped page whose frame has none |
| VfreePages.RangeUnmapped | kernel/src/vmem.c:258-262 | every page but the first keeps its mapping, and the first loses it exactly when the mapped pages are as many as its references, so the range ends up unmapped if and only if no page but the first was mapped, and that one with one reference |
| VfreeWhole.VfreeInPlace | kernel/src/vmem.c:215-265 | the whole of vfree in place: the list part, and the loop over the pages |
| VfreeWhole.VfreeExact | kernel/src/vmem.c:215-265 | vfree keeps the list in order, takes exactly the range out of coverage and leaves none of its pages mapped, if and only if the range reaches the end of its area, no page of it but the first is mapped, and that one, if it is, with one reference |
| VfreeWhole.CoveredAfter | kernel/src/vmem.c:258-262 | where the areas shrink by the range, every mapped page still belongs to an area if and only if the range ends unmapped |
| Slab.DoubledIsLeast | kernel/src/slab.c:27-33 | doubling stops at the least power of two that is large enough |
| Slab.LinksChain | kernel/src/slab.c:50-54 | the links stored in a new page run through all its objects in order and end |
| Slab.AllocKeeps | kernel/src/slab.c:44-68 | slab_alloc hands out an object of the slab that was not live, with or without a new page, and keeps the invariant of all slabs |
| Slab.FreeKeeps | kernel/src/slab.c:78-94 | slab_free finds by the page the slab a live object came from, puts it first on that slab's list, and keeps the invariant of all slabs |
| Slab.StoreKeeps | kernel/src/slab.c:44-94 | a store inside a live object changes no free list of any slab |
| Slab.CreateKeeps | kernel/src/slab.c:17-42 | slab_create refuses exactly size 0 and sizes above half a page, and adds an empty slab whose object size is the least power of two no less than 8 and the request |
| SlabRuns.LiveAligned | kernel/src/slab.c:50-64 | a live object is aligned to its slab's object size |
| SlabRuns.LiveApart | kernel/src/slab.c:44-68 | two live objects, of one slab or of two, do not overlap |
| SlabRuns.ObjectsConserved | kernel/src/slab.c:44-94 | free and live objects of a slab are as many as its pages hold |
| SlabRuns.FreeUndoesAlloc | kernel/src/slab.c:44-94 | freeing what slab_alloc just returned restores lists, owners and memory, with the page it may have added |
| SlabRuns.AllocUndoesFree | kernel/src/slab.c:44-94 | slab_alloc hands out the object freed last, and the lists are as before the free |
| SlabRuns.StepKeeps | kernel/src/slab.c:17-94 | every call keeps the invariant, and no call but slab_free ends an object's life |
| SlabRuns.RunSound | kernel/src/slab.c:17-94 | in every run over any number of slabs the free lists are acyclic chains of exactly the objects not handed out, live objects are apart, and objects are conserved |
| SlabRuns.FirstHeap | kernel/src/slab.c:10-15 | the invariant holds of the kernel's first heap |
| SlabAllocator.PowerTest | kernel/src/slab.c:27 | n & (n - 1) is zero exactly for powers of two |
| SlabAllocator.Slabs.PickSize | kernel/src/slab.c:25-36 | the branches and the loop give the least power of two no less than 8 and the request |
| SlabAllocator.Slabs.SlabCreate | kernel/src/slab.c:17-42 | slab_create in place does what CreateKeeps is about |
| SlabAllocator.Slabs.ThreadPage | kernel/src/slab.c:51-54 | the loop stores exactly the links LinksChain is about |
| SlabAllocator.Slabs.SlabAlloc | kernel/src/slab.c:44-68 | slab_alloc in place does what AllocKeeps is about |
| SlabAllocator.Slabs.SlabFree2 | kernel/src/slab.c:78-86 | the object leads the slab's list |
| SlabAllocator.Slabs.SlabFree | kernel/src/slab.c:88-94 | slab_free in place does what FreeKeeps is about, and panics exactly on a page without slab flag |
| RwLock.InitialInv | kernel/include/kernel/spinlock.h:56-66 | the initialised lock with all threads idle is a good state |
| RwLock.IncrementStep | kernel/include/kernel/spinlock.h:70-71 | the increment leads to a wait for the writer lock exactly when nobody was counted, and keeps the invariant |
| RwLock.DecrementStep | kernel/include/kernel/spinlock.h:86-89 | the reader that brings the count to zero was the last one inside, and owes the release of the writer lock |
| RwLock.StepKeeps | kernel/include/kernel/spinlock.h:19-118 | every primitive step of every thread keeps the invariant |
| RwLock.NoDeadlock | kernel/include/kernel/spinlock.h:68-118 | whenever a thread is under way, some thread under way can move |
| RwLock.RunSafe | kernel/include/kernel/spinlock.h:68-118 | in every interleaving of any number of threads a writer excludes readers and other writers, and the writer lock is held while any reader is inside |
| RwLock.RunExcludes | kernel/include/kernel/spinlock.h:68-118 | in every interleaving no two threads are back from their calls and not yet releasing unless both called read_acquire |
| RwLock.StepRefines | kernel/include/kernel/spinlock.h:68-118 | each step is a step of a lock taken and given back at once, or shows nothing |
| Terminal.ScrollIsShift | kernel/src/tty.c:163-179 | moving only the used cells is a full shift of all rows with a blank last row, and every cell at or past used stays blank |
| Terminal.ForwardIsLinear | kernel/src/tty.c:229-244 | cursor forward moves along the text up to the last cell |
| Terminal.BackwardIsLinear | kernel/src/tty.c:245-260 | cursor backward moves along the text, down to the first cell, if and only if it does not pass the first cell or passes it by what is left of the row; it stays on the screen if and only if it goes back no more cells than there are up to the end of its row |
| Terminal.PutKeeps | kernel/src/tty.c:437-444 | a character keeps the cursor in range and the grid sound |
| TerminalDrawing.PutDraws | kernel/src/tty.c:437-444 | a character becomes the glyph at row and column in the current color, no other cell changes, and the cursor goes one cell on along the text; behind the last cell all rows move up by one instead, with a blank last row and the cursor at its start |
| TerminalDrawing.TextLies | kernel/src/tty.c:358-444 | printable text of any length lies along the rows from the cursor on, in the current color and over nothing else, with the whole text moved up by just as many rows as keep the cursor on the screen |
| Terminal.ControlKeeps | kernel/src/tty.c:365-394 | a control character keeps the cursor in range and the grid sound; ControlDraws says what it does |
| TerminalDrawing.ControlDraws | kernel/src/tty.c:365-394 | newline goes to column 0 one line down, or of the last line with all rows moved up and a blank last one; return goes to column 0; backspace one column back but not past column 0; tab to the next multiple of 8, or as newline does where that is past the last column; else no cell changes |
| Terminal.CsiKeeps | kernel/src/tty.c:225-355 | a complete sequence keeps the cursor in range and the grid sound if and only if no move back leaves the screen |
| TerminalDrawing.ForwardDraws | kernel/src/tty.c:229-244 | cursor forward goes on along the text by the first argument, or 1, up to the last cell, and changes no cell |
| TerminalDrawing.BackDraws | kernel/src/tty.c:245-260 | cursor backward goes back along the text by the first argument, or 1; past the first cell it ends in row 0, at the column that counts from the end of the row it started in |
| TerminalDrawing.OthersDraw | kernel/src/tty.c:261-293 | E and F go down and up in the column, at most to the last and first row; G goes to the column counted from 1, or to the last one for 0 and for columns past it; K blanks the cursor's row and nothing else; m changes the color alone; any other command does nothing |
| TerminalSequences.SequenceReadsBack | kernel/src/tty.c:190-224 | a sequence written out with up to 16 arguments in decimal is read back as its command, its arguments and their number, whatever follows it |
| TerminalSequences.SequenceActs | kernel/src/tty.c:185-431 | the characters of such a sequence, behind ESC, do what the command does with these arguments once the last one is there |
| TerminalText.ParseCut | kernel/src/tty.c:197-224 | a sequence read up to some character is incomplete until its last one, and then is what the whole text gives |
| TerminalText.OpenSequence | kernel/src/tty.c:185-429 | the characters of a sequence parsecontrol reads have, one call each, the effect of the sequence and nothing before its last one, and a sequence it reads to the NUL is held |
| TerminalText.PutCharIsChar | kernel/src/tty.c:412-446 | tty_putchar does what its character does |
| TerminalText.ControlRun | kernel/src/tty.c:358-403 | parsecontrol has the effect of the characters it takes, and stops at a character tty_putchar then gets, or where it lets go at or behind the size |
| TerminalText.WriteIsFold | kernel/src/tty.c:455-483 | tty_write of size characters of a text in memory does what these characters do one at a time, whatever follows them, where parsecontrol lets go at the size |
| TerminalText.WriteReadsOn | kernel/src/tty.c:358-483 | on a supported text in memory tty_write does what the characters up to the first place at or behind the size do where parsecontrol lets go, and that place is the size if and only if it lets go there |
| TerminalText.CallsAreFold | kernel/src/tty.c:405-483 | any sequence of calls does what its text does, where parsecontrol lets go at the end of each |
| TerminalText.ChunkingDoesNotMatter | kernel/src/tty.c:405-483 | two ways to cut a supported text into calls, each call with its own memory behind it, end in the same row, column, color, escape state and grid, where parsecontrol lets go at every cut |
| TerminalText.PlainCut | kernel/src/tty.c:358-403 | a cut outside sequences in front of a printable character never matters |
| TerminalText.CutInTwo | kernel/src/tty.c:455-483 | one text in memory written in two calls: what lies between the cut and the place where parsecontrol lets go is drawn by both |
| TerminalText.NewlinesTogether | kernel/src/tty.c:358-483 | a witness: the first of two newlines, written alone with the second behind it in memory, moves down two rows |
| TerminalColors.TrueColor | kernel/src/tty.c:305-345 | a 24-bit color sequence sets its ground to the color it names and leaves the other ground alone, and the arguments behind it follow |
| TerminalColors.EightBitColor | kernel/src/tty.c:305-345 | an 8-bit color sequence sets its ground to the palette's color, or nothing for a number past the palette, and the arguments behind it follow |
| TerminalColors.RenditionNames | kernel/src/tty.c:295-349 | arguments other than 38 and 48 act one after another: 0 resets, 30 to 37, 90 to 97, 40 to 47 and 100 to 107 set their ground to one of the sixteen colors, 39 and 49 reset theirs, and others do nothing |
| TerminalColors.TableIsTextColor | kernel/include/kernel/ansi.h:59-76 | the sixteen colors: bits 0, 1 and 2 of the number mix red, green and blue, bit 3 makes them bright, and dark yellow is brown |
| TerminalColors.PaletteEnds | kernel/src/tty.c:66-87 | the palette begins with the sixteen colors and ends with 24 grays at n parts of 25 |
| TerminalColors.PaletteCube | kernel/src/tty.c:68-81 | the palette's cube has six levels of each primary color |
| TerminalScreen.PictureIsDetermined | kernel/src/tty.c:44-64 | two visible buffers that agree with the same back buffer and cursor are equal, so the picture after calls follows from the state |
| TerminalScreen.CellWritten | kernel/src/tty.c:149-161 | writing a cell of both buffers keeps them in agreement |
| TerminalScreen.ShiftedRow | kernel/src/tty.c:164-173 | copying used cells of the row below into both buffers keeps them in agreement |
| TerminalScreen.Screen.constructor | kernel/src/tty.c:89-101 | tty_init over a black framebuffer leaves blank buffers that agree, with the cursor in the first cell |
| TerminalScreen.Screen.DrawCursor | kernel/src/tty.c:44-64 | afterwards the visible buffer is the back buffer with the cursor over row and column |
| TerminalScreen.Screen.Clear | kernel/src/tty.c:103-114 | blank buffers that agree, the cursor in the first cell |
| TerminalScreen.Screen.ClearLine | kernel/src/tty.c:142-147 | the row is blank in both buffers |
| TerminalScreen.Screen.BlitChar | kernel/src/tty.c:149-161 | the cell holds the glyph in both buffers and the row's used length covers it |
| TerminalScreen.Screen.Scroll | kernel/src/tty.c:163-179 | the loop scrolls the grid as ScrollIsShift says and keeps the buffers in agreement |
| TerminalScreen.Screen.PutGlyph | kernel/src/tty.c:437-444 | a glyph and the step to the next cell, scrolling at the end of the screen |
| TerminalScreen.Screen.ControlChar | kernel/src/tty.c:365-394 | newline, backspace, tab and carriage return in place have the state ControlDraws is about, and the buffers agree |
| TerminalScreen.Screen.MoveForward | kernel/src/tty.c:233-242 | the loop ends where ForwardIsLinear says |
| TerminalScreen.Screen.MoveBackward | kernel/src/tty.c:249-258 | the loop and the wrapping subtraction end where BackwardIsLinear says |
| TerminalScreen.Screen.SelectRendition | kernel/src/tty.c:292-353 | the loop over the arguments sets the colors the arguments name |
| TerminalScreen.Screen.RunCommand | kernel/src/tty.c:228-354 | a complete sequence in place |
| TerminalScreen.Screen.ParseEscape | kernel/src/tty.c:185-356 | parseescape in place reads and does what the parser on values does |
| TerminalScreen.Screen.ParseControl | kernel/src/tty.c:358-403 | parsecontrol in place reads and does what the parser on values does |
| TerminalScreen.Screen.PutCharLocked | kernel/src/tty.c:412-446 | tty_putchar in place ends with the buffers in agreement and the cursor at row and column |
| TerminalScreen.Screen.WriteLocked | kernel/src/tty.c:455-483 | tty_write in place, given the text in memory and a size, ends with the buffers in agreement and the cursor at row and column |
| TerminalScreen.Screen.Perform | kernel/src/tty.c:405-483 | any calls at whose ends parsecontrol lets go leave the state their text leaves and the picture that belongs to it |
| MemMove.ThereAndBack | libc/string/mem.c:37-58 | moving there and back restores the source, however the two overlap |
| MemMove.Memcpy | libc/string/mem.c:23-35 | the forward word loop and tail equal a simultaneous copy and touch nothing else, when the destination is not above an overlapping source |
| MemMove.WordsDown | libc/string/mem.c:49-56 | the backward word loop finishes the copy |
| MemMove.Memmove | libc/string/mem.c:37-58 | for every length and overlap memmove equals a simultaneous copy and touches nothing outside the destination |
| Keyboard.PlainSequence | kernel/src/kbd.c:109-183 | a key's normal or E0 bytes, with F0 on release, give the keystroke of its table entry and the normal state; KeystrokesMean says what that is |
| Keyboard.PrintScreenSequence | kernel/src/kbd.c:125-144 | the four and six bytes of PrintScreen give one keystroke and the normal state |
| Keyboard.PauseSequence | kernel/src/kbd.c:129-138 | the E1 bytes of Pause give one keystroke and the normal state |
| Keyboard.EventDecodes | kernel/src/kbd.c:109-183 | each event's bytes give one keystroke with the key's table entry, released flag, modifiers and character, and the decoder returns to the normal state; KeystrokesMean says it without the table |
| Keyboard.EventsDecode | kernel/src/kbd.c:109-183 | any events give one keystroke each, in order |
| Keyboard.RepliesIgnored | kernel/src/kbd.c:87-104 | replies to commands, wherever they come in, change nothing of what is decoded |
| KeyboardLayout.UsLayout | kernel/src/kbd.c:8-55 | the keys of the four rows type the characters of a US keyboard, with and without shift |
| KeyboardMeaning.SpecialKeys | kernel/src/kbd.c:8-28 | scancodes 12 and 59 alone are the shift keys, 14 and E0 14 the control keys, 11 and E0 11 the alt keys |
| KeyboardMeaning.TypedCharacter | kernel/src/kbd.c:30-55 | the keys of the four rows, Space, Enter, keypad Enter, Tab and Backspace type their characters with and without shift, and the arrows none |
| KeyboardMeaning.CodeOfKey | kernel/include/kernel/kbd.h:9-29 | the keys of the four rows, the function keys, the keypad's digits, Enter 5a, Space 29, Backspace 66, Tab, Escape, Caps Lock, the arrows E0 6b, E0 72, E0 74 and E0 75, and the six keys above them have the codes of the header |
| KeyboardMeaning.KeystrokesMean | kernel/src/kbd.c:83-184 | whatever keys go down and up, there is one keystroke for each event: released as the event, shift, control and alt exactly if a key of that name is held, the header's code, and the character on the key, shifted if shift is held |
| KeyboardMeaning.KeypadEnter | kernel/src/main.c:95-96 | of all keys the keypad's period alone sends the code kbd.h gives to the keypad's Enter; that key sends the next code, with a newline |
| KeyboardQueue.PushAppends | kernel/src/kbd.c:174-178 | a keystroke is appended, unless 255 are unread: then all are lost |
| KeyboardQueue.PopTakesOldest | kernel/src/kbd.c:186-195 | a read takes the oldest keystroke, and nothing exactly when none is unread |
| KeyboardQueue.IsrsPush | kernel/src/kbd.c:83-184 | the interrupts push what the decoder yields |
| KeyboardQueue.ReadsInOrder | kernel/src/kbd.c:83-195 | in any mix of events and reads with at most 255 unread, reads return one keystroke per event, first in first out, and the rest is still unread |
| KeyboardQueue.Kbd.Finish | kernel/src/kbd.c:151-180 | the key's state, its keystroke in the ring, and the decoder back in the normal state |
| KeyboardQueue.Kbd.Isr | kernel/src/kbd.c:83-184 | one interrupt in place is one step of the decoder and the ring |
| KeyboardQueue.Kbd.Read | kernel/src/kbd.c:186-195 | kbd_read in place takes the oldest unread keystroke |
| Printf.BufferFits | libc/stdio/printf.c:138-268 | the digits of any 64-bit number in base 8, 10 or 16 fit 22 of the buffer's 32 bytes |
| Printf.DigitsRead | libc/stdio/printf.c:180-183 | the digits of a number, turned around, read as the number |
| Printf.FieldLength | libc/stdio/printf.c:318-374 | a number field has exactly the length the code adds to its count |
| Printf.FieldReadsBack | libc/stdio/printf.c:318-373 | a field of blanks, sign, prefix, zeros and digits reads back as its number unless zeros pad it on the right |
| PrintfText.MinDigits | libc/stdio/printf.c:168-171 | the literal for INT64_MIN is its digits |
| PrintfText.SignedReadsBack | libc/stdio/printf.c:149-184 | for d and i the field reads back as the number in the range of the argument's type, char, short, int or 64 bits, that the argument word is congruent to, if and only if zeros do not pad it on the right or it is 0; INT64_MIN is included |
| PrintfText.UnsignedReadsBack | libc/stdio/printf.c:141-268 | for u, o, x, X and p the field reads back, in base 10, 8 and 16, as the number below two to the bits of the argument's type that the argument word is congruent to, under the same condition: the word itself below 2^64 with l, ll, j, z, t and for p, below 2^32 without a modifier, below 2^16 with h and 2^8 with hh |
| PrintfSpec.ReadsDigits | libc/stdio/printf.c:55-67 | decimal digits are read into the width, or into the precision after a dot |
| PrintfSpec.SpecReadsBack | libc/stdio/printf.c:41-134 | every specification written out without stars, wherever it stands in a format, is read back as it was meant: flags, width, precision, length modifier and conversion |
| PrintfSpec.StarsReadBack | libc/stdio/printf.c:41-134 | so is one with stars: a star before the dot takes the width from the next argument, as an int, and one behind the dot the precision from the argument after it |
| PrintfSpec.Rejected | libc/stdio/printf.c:68-130 | a second dot, a second length modifier but for hh and ll, and a format that ends inside a specification are rejected |
| PrintfText.ConvertCounts | libc/stdio/printf.c:269-374 | each conversion adds to the count exactly what it emits |
| PrintfText.CountIsLength | libc/stdio/printf.c:18-379 | over any format and arguments the count is the number of characters handed to the terminal |
| PrintfLayout.PlainText | libc/stdio/printf.c:23-27 | text without percent signs is emitted as it stands and counted |
| PrintfLayout.PercentSign | libc/stdio/printf.c:304-306 | two percent signs emit one and take no argument |
| PrintfLayout.Character | libc/stdio/printf.c:269-272 | %c emits the character with the low byte of its argument and takes that argument |
| PrintfLayout.ConversionUses | libc/stdio/printf.c:149-309 | every other conversion takes one argument, a string conversion emits the field of its string, and exactly the letters that are no conversion make vprintf give up |
| PrintfLayout.PointerText | libc/stdio/printf.c:141-147 | plain %p emits 0x and 16 digits that read back as the argument |
| PrintfLayout.FieldLaidOut | libc/stdio/printf.c:318-373 | a field is the sign, minus, plus or blank in this order of precedence, the prefix, zeros up to the precision, and the digits; the padding up to the width stands behind all that with the minus flag, between prefix and zeros with the zero flag alone, and in front with neither |
| PrintfLayout.NoSpareZero | libc/stdio/printf.c:174-183 | 0 is the digit 0, or nothing at precision 0, and no other number starts with a 0 |
| PrintfLayout.HexInCase | libc/stdio/printf.c:239-266 | prefix and digits are in upper case for X and in lower case for x and p |
| PrintfLayout.StringLaidOut | libc/stdio/printf.c:273-300 | a string field is the string cut to the precision, with blanks up to the width on the left, or on the right with the minus flag |
| Printer.Output.FillDigits | libc/stdio/printf.c:177-183 | the loop fills the buffer with the number's digits and never runs past it |
| Printer.Output.PutNumber | libc/stdio/printf.c:318-374 | padding, sign, prefix, zeros and digits are emitted in the order of the field |
| Printer.Output.PutString | libc/stdio/printf.c:273-300 | a string is cut, padded and counted; what tty_write makes of the cut is StringDrawn |
| PrintfTerminal.StringCallsText | libc/stdio/printf.c:273-300 | the calls a string conversion makes, with the whole string in memory behind the cut, bring the characters of its field |
| PrintfTerminal.StringDrawn | libc/stdio/printf.c:273-300 | the terminal draws exactly the field where parsecontrol lets go at the cut |
| Printer.Output.ParseSpec | libc/stdio/printf.c:41-134 | the parsing loop reads flags, width, precision and length modifiers, or rejects them |
| Printer.Output.PutConversion | libc/stdio/printf.c:136-309 | one conversion in place emits and counts the text that SignedReadsBack, UnsignedReadsBack, Character and ConversionUses are about |
| Printer.Output.PutSpec | libc/stdio/printf.c:41-309 | what follows a percent sign is read and converted, or rejected without output |
| Printer.Output.Vprintf | libc/stdio/printf.c:18-379 | vprintf returns -1 or exactly the number of characters it hands to the terminal |

## Left out

- Devices, firmware tables, interrupt setup, boot assembly and the user interface loop: plumbing around hardware.
- MapPageCorrect: is about PML4 slots set aside for it, never the recursive slot, whose tables were all entered with RW and without NX, as map_page and early_map do, and about data frames that are neither free nor tables; the 32-bit wrap of a reference count and a table mapped through the recursive slot are not modelled.
- UnmapPageCorrect: is about the same slots, so tables that hold early_map entries are not unmapped here, since early_map does not count references.
- RunRefines: the counts of data frames stay with the references held, as the code never takes one back on a remap.
- Pager: its free frames are a plain stack, which PoolIsStack ties to the page stack; the bitmap arm and the 32-bit product of alloc_page are in Frames, apart from the page tables; the lock and the TLB flushes are left out.
- FaultRefines: the search for the area is FindsTheArea; the early_map arm for the pageinfo area and the zeroing of the new page are left out.
- early_map's counter, its log output and the use of cr3 for a null root: no effect on the tables.
- The kernel executable's copied tables, the framebuffer loops and the kernel stack mapping in mman_init: the direct map is proved on any tables that map nothing in its window.
- MapMemory: asks for a direct-map offset aligned to 1 GiB in the upper half and entries below 2^52, as the boot loader gives.
- AllocPageExact: a scan that runs past the bitmap into the page stack's memory, as the loop bound in bytes allows, ends the model as Stray.
- AllocAlignedIsFirstFit: the 64-bit wrap of start + npages for alignments near 2^64 is not modelled; an alignment of 0 is excluded.
- StepConserves: is about calls of alloc_page in a ready state; AllocPageExact says when that is, and StackNeverOutgrows needs no such state.
- RunConserves: is about runs whose every alloc_page is ready, as StepConserves is.
- BootRunFits: conservation is about runs whose every alloc_page is ready, before the reclaiming and after it; the bound on the stack is about every run.
- StackNeverOutgrows: page numbers are below 2^32, the width of a stack entry.
- Init: an entry of length 0 at address 0 is excluded; the boot stack's page is a parameter of Reclaim.
- VmallocCorrect: is about requests whose sums stay below 2^64; VmallocChooses says where the result lies; that is not always inside [start, end), since the gap arm does not check end and the later arms do not check start.
- AllocVma: the refill of an empty spare list, lines 25 to 37, is a null result, since the allocator would wait there for its own lock.
- VmallocLocked: an empty spare list ends as a panic, where the source calls itself with its lock held; the list starts with a first node that has no back link.
- CreateVma: the back link of a new first node keeps what the node held, as in the source.
- vmem_init: the stack pages it maps; that the last spare node ends the list is taken from the page's contents.
- Vfree: VmemList.VmaList.Vfree is the list part only; VfreeWhole.VfreeInPlace is the whole call.
- RunCorrect: is about calls of vfree that reach the end of their area, and requests of at least one page whose sums stay below 2^64; VfreeCorrect and NoPagesExact say what the other calls do.
- FreeKeeps: the caller frees a live object once and never a descriptor; slab_zalloc is an allocation and stores.
- StoreKeeps: a store is one aligned word inside a live object; descriptors are fields of the model, not memory.
- kmalloc and kfree: a lookup of the size class, and above 2048 bytes a page count that is never recorded.
- StepKeeps: the reader count is incremented in one step, as on the single processor the kernel runs; the load before each test-and-set only delays and is not a step of its own; fairness is not claimed.
- Glyph pixels, color blending and the serial port: a cell is its character and color.
- PutChar: a full escape buffer is not flushed in the model, since the flush writes the buffer again while its length is still set; supported texts never fill it.
- ChunkingDoesNotMatter: is about NUL-free texts of printable characters, handled controls and sequences that fit the escape buffer and the argument array, whose backward moves stay on the screen; where parsecontrol reads on over a cut, WriteReadsOn and CutInTwo say what is drawn.
- Write: memory is the text up to its NUL, and a size past the NUL is outside the model.
- StringDrawn: is about cuts at which parsecontrol lets go, as WriteIsFold; at others the terminal draws on behind the precision, and the count of vprintf does not see it.
- KeystrokesMean: the header's codes for the other keys, such as the media keys, are not listed.
- ParseEscape: arguments are unbounded numbers, where the source has int; arguments past the sixteenth read as 0.
- The visible buffer's rows below the last line; what a framebuffer that is not black shows before tty_clear.
- Keyboard commands and what replies do to them: for the decoder RepliesIgnored holds; the active flag is taken as set.
- EventDecodes: the two-byte arm looks up its table without a bound in the source; here codes past the table give no key.
- Memmove: memory is one array of bytes, and a word is its eight bytes.
- Vprintf: missing or mismatched arguments, and L with an unsigned conversion, are undefined in C and excluded; the store through the pointer of n, and the 32-bit range of the count, width and precision, are not modelled; a format has no character past its terminator.

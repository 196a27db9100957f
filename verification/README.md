# The memory management and the scheduler of wordOS, modelled and proved in Dafny

wordOS is a small 32-bit kernel. This project models the parts of it that have to keep invariants over arbitrary
runs, and proves what they do.

- **Free tree and virtual allocator** (`kernel/utils/rbtree.c`, `kernel/memory/vmm.c`). `RedBlackTree` describes a
  red-black tree, and a position in it as a context with a hole. `FreeTreeSpec` says what insertion and deletion
  make of a tree, `NodeStore` how a tree lies in an array of linked node records, and class `FreeTree.FreeTree` is
  the pointer code, writing those records in place. `AddressRanges` is the best-fit search and the split,
  `AddressRuns` whole runs of allocations and page releases, `VirtualMemory` the allocator in place.
  `FreeTreeFaults` holds small trees on which the deletion fails, `AddressFaults` a run that gets to such a tree.
- **Frame bitmap** (`kernel/memory/pmm.c`): `FrameBitmap`.
- **PAE paging** (`kernel/memory/paging.c`). `PageTables` is the processor's walk (section 4.4 of the Intel SDM,
  volume 3A) and the recursive window, `Paging` the routines that edit tables through that window,
  `AddressSpaces` what they do to all translations of all address spaces, `PageAllocation` the mapping loops.
- **Conversion to PAE**: `LegacyTables` is the 32-bit walk (section 4.3), `PaeTransfer` the conversion, during which
  new pages are mapped into the very directory that is being copied.
- **Kernel heap and growable list** (`kernel/memory/heap.c`, `kernel/utils/arraylist.c`). `HeapBytes` is byte memory
  with headers and the walk over them, `HeapBlocks` and `HeapGrowth` what the operations make of the list of blocks,
  `HeapUse` which blocks are handed out, `HeapLayout` what header writes mean for the tiling, `HeapLinks` where links
  lead to a neighbour throughout, `Heap.Heap` the operations on the bytes, `HeapRuns` whole runs, `ArrayList` the list
  in the bytes of a heap block. `HeapFaults` holds short runs that go wrong.
- **Scheduler** (`kernel/kernel/scheduler.c`). `RoundRobin` is the state machine and its runs, `Scheduler` the linked
  process objects.

A method of a class ends in exactly the state that a specification function gives, and the lemmas are about those
functions. Where the code does not do what it is for, the condition under which it does is stated as an
if-and-only-if, and there is a small example that fails:

- `delete_violations` does nothing if only the far nephew is red (`RedBlackTree.FixCtxFair`,
  `FreeTreeFaults.FarNephewStalls`). `delete_node` loses a block when a leaf's size equals its parent's on the right,
  or when the predecessor it moves up has a child (`FreeTreeSpec.DeleteTakesOne`, `EqualSizesMislead`,
  `PredecessorDropsChild`), and it breaks the colouring when it pulls up the only child of a node below the root
  (`DeleteStays`, `OnlyChildReddens`). Three pages allocated together and given back one by one lead to a tree where
  two of these happen next (`AddressFaults.RunGoesWrong`). A tree that is only out of balance goes on conserving blocks
  through searches and insertions (`FreeTreeSpec.InsertConserves`, `AddressRuns.StallKeeps`, `ReturnKeeps`).
- `kfree` follows both links, and neither need lead to a neighbour: a split and a forward merge leave a `prev` as it
  was, and after an exact fit of `rekalloc` a `next` leads past a header (`HeapGrowth.ResizedLinks`,
  `HeapFaults.ExactFitUnlinked`). The release comes out right if and only if each link is null, leads to the block just
  in front or behind, or leads to a status byte that reads as used (`Heap.Heap.Kfree`). With a bad `next`, a header is
  too large (`HeapFaults.SkippedHeaderRun`). With a bad `prev`, the block's own header is wiped and the walk goes on
  inside its payload; if then there was a block at `prev` and `next` is good, one in front is no longer met (`StaleRun`,
  `ForwardMergeRun`).
- `rekalloc` follows `next` in the same way. If that leads to free bytes which are not the block behind, the heap is
  tiled afterwards if and only if the walk gets on from where the block and the rest end
  (`HeapGrowth.MisgrownTiles`, `HeapFaults.SkippedHeaderGrows`). When it moves a block, it copies as many bytes as the
  old block has; what is behind the new block is kept if and only if the bytes past its end are the ones that were
  there (`HeapGrowth.OverrunSpoils`, `HeapFaults.MoveOverrunsRun`). The release at the end is `kfree` on the memory
  after the copy, with the condition above (`HeapFaults.StaleMoveRun`).
- `al_add_item` writes through the null pointer of a `rekalloc` that failed, exactly if the list is full and the free
  block behind it is too small; this is the outcome `Fault` (`ArrayList.AddItem`, `HeapFaults.FullListFaults`).
- `al_delete_item` accepts an index behind the last item and clears that slot, which for a full list need not lie in
  its block; it changes what is behind the block exactly if that is not zero (`ArrayList.DeleteItem`,
  `HeapFaults.ClearOverrunsRun`).
- `vmm_page_alloc` rounds the length up without the offset of `phys`, which it adds to the pointer: all bytes asked for
  are mapped if and only if offset and length together stay within the rounded length (`PageAllocation.ByteTranslates`,
  `OffsetLeavesRange`).
- `pae_unmap` computes the frame from the low 32 bits of an entry (`AddressSpaces.ReleasesIntended`,
  `CutAddressReleases`).
- `transfer_pages_to_pae` leaves the odd slots of the new directory absent (`PaeTransfer.TransferMeaning`,
  `OddSlotLost`).
- `delete_node` falls through after it has emptied the tree and then follows a null pointer, exactly for a sole root;
  this is the outcome `Fault` as well. A kernel panic is the outcome `Halted` or `Panic`, and each has its condition.

Premises that the code takes from its surroundings are preconditions: page allocation works on the kernel's own address
range (the root that is passed to `delete_node` is the kernel's), the bitmap has as many words as `num_frames` says
(2560, so the index of no frame below it wraps), table frames are marked used and distinct, physical addresses have at
least 25 bits, `root_pdpt` of an address space is set when it is switched to, and a `cr3` reload takes effect at once.
Isolation between address spaces needs one more: no unmapping releases the frame of a table. A frame may be mapped any
number of times, and tables may be mapped as pages, as the kernel does it; the premise says only what is unmapped.
`AddressSpaces.UnmapChangesOne` shows that it is exactly what an unmapping needs, and `UnmapKeepsLeaves` that it holds
wherever each managed frame is mapped at most once and no table's frame is.

## Model

| member | source | states |
|---|---|---|
| RedBlackTree.InsertFixRedBlack | kernel/utils/rbtree.c:83-139 | recolouring upwards and all four rotation shapes end in a black root, no red-red edge, equal black counts |
| RedBlackTree.InsertFixCells | kernel/utils/rbtree.c:83-139 | the insertion fix-up keeps the in-order sequence |
| RedBlackTree.FixCtxFair | kernel/utils/rbtree.c:183-283 | every case of the deletion fix-up conserves path weights, adds no red-red edge, keeps the victim's parent and side, and ends with a double-black node exactly where it stalls: black sibling, only the far child red |
| RedBlackTree.FixCtxCells | kernel/utils/rbtree.c:183-283 | the deletion fix-up keeps the in-order sequence around the victim |
| FreeTreeSpec.PlaceCorrect | kernel/utils/rbtree.c:149-168 | the descent stops behind exactly the smaller blocks |
| FreeTreeSpec.InsertConserves | kernel/utils/rbtree.c:141-181 | insertion into any tree in order, balanced or not, keeps the order and gains exactly the new block |
| FreeTreeSpec.InsertCorrect | kernel/utils/rbtree.c:141-181 | insertion keeps the red-black invariant and the order; the sequence gains exactly the new block, in front of all at least as large |
| FreeTreeSpec.DeleteStays | kernel/utils/rbtree.c:285-352 | deletion leaves a red-black tree if and only if no node below the root takes over its only child, no fix-up for a black node stalls, and a black leaf is cut off on its own side |
| FreeTreeSpec.DeleteTakesOne | kernel/utils/rbtree.c:285-352 | deletion removes exactly the chosen block, and releases a node that has left the tree, if and only if the side test of a leaf is right and the predecessor moved up has no child |
| FreeTreeSpec.DeleteKeepsOrder | kernel/utils/rbtree.c:285-352 | such a deletion keeps the order |
| FreeTreeSpec.DeleteKeepsSlots | kernel/utils/rbtree.c:285-352 | such a deletion uses no node twice and no node that was not there |
| FreeTreeFaults.FarNephewStalls | kernel/utils/rbtree.c:265-280 | a tree whose deletion stalls at a far-only red nephew and leaves unequal black counts |
| FreeTreeFaults.EqualSizesMislead | kernel/utils/rbtree.c:296-300 | three insertions of one size, then deleting the right leaf cuts off the left one |
| FreeTreeFaults.PredecessorDropsChild | kernel/utils/rbtree.c:322-325 | the predecessor's child is lost |
| FreeTreeFaults.OnlyChildReddens | kernel/utils/rbtree.c:333-349 | a node below the root takes its child's red colour and black counts differ |
| NodeStore.AtPlug | kernel/utils/rbtree.c:36-82 | the node records hold a tree exactly if they hold a subtree and its surroundings, parent links included |
| FreeTree.FreeTree.AllocNodeObj | kernel/utils/rbtree.c:9-20 | the first unmarked record is taken and nothing else changes |
| FreeTree.FreeTree.FreeNodeObj | kernel/utils/rbtree.c:22-34 | only the second flag and the base are cleared, so a record is never handed out again |
| FreeTree.FreeTree.LeftRotation | kernel/utils/rbtree.c:36-58 | the pointer writes rotate the subtree in place, links and root consistent |
| FreeTree.FreeTree.RightRotation | kernel/utils/rbtree.c:60-82 | likewise to the right |
| FreeTree.FreeTree.InsertViolations | kernel/utils/rbtree.c:83-139 | the pointer code yields the tree of `InsertFix`, records linked both ways |
| FreeTree.FreeTree.InsertNode | kernel/utils/rbtree.c:141-181 | the pointer code yields the tree of `Insert` |
| FreeTree.FreeTree.MakeNode | kernel/utils/rbtree.c:354-370 | a fresh record with this block is inserted, or becomes the root |
| FreeTree.FreeTree.DeleteViolations | kernel/utils/rbtree.c:183-283 | terminates with the tree of `FixCtx`, the red-sibling repetition on the same node included |
| FreeTree.FreeTree.DeleteNode | kernel/utils/rbtree.c:285-352 | faults exactly on a sole root, which is gone then; otherwise the tree of `Delete`, records linked both ways, and exactly the record that left is given back |
| AddressRanges.BestFit | kernel/memory/vmm.c:164-185 | the search returns a block of least size at least the request, or none exactly if there is none |
| AddressRanges.PageUpPages | kernel/memory/paging.h:26-26 | the least multiple of a page that is large enough, or 0 where that does not fit into 32 bits |
| AddressRanges.LogBound | kernel/memory/vmm.c:168-180 | on n nodes it takes at most 2 log2(n + 1) rounds |
| AddressRanges.VictimSide | kernel/utils/rbtree.c:294-300 | a leaf chosen by the search is on the side that the size test expects, even among equal sizes |
| AddressRanges.TakenBlocks | kernel/memory/vmm.c:187-194 | an allocation replaces the chosen block by its remainder and changes no other free block, if the deletion moves up no predecessor with a child |
| AddressRanges.TakenExactly | kernel/memory/vmm.c:187-194 | it does so if and only if the predecessor that the deletion moves up has no child |
| AddressRanges.TakenLoses | kernel/utils/rbtree.c:313-331 | if it has one, exactly the block of that child is missing afterwards |
| AddressRanges.TakenOnPages | kernel/memory/vmm.c:155-194 | an allocation of whole pages leaves all free blocks on page boundaries, lost blocks or not |
| AddressRuns.TakeShares | kernel/memory/vmm.c:187-194 | taking the front of a block keeps every address in exactly one range |
| AddressRuns.FreeShares | kernel/memory/vmm.c:229-229 | giving back one page keeps every address in exactly one range |
| AddressRuns.AllocShares | kernel/memory/vmm.c:187-194 | an allocation that leaves a node keeps each address in exactly one range if and only if no predecessor's child is lost, or that one is empty |
| AddressRuns.StepKeeps | kernel/memory/vmm.c:151-194 | a request whose deletion leaves a red-black tree and loses nothing keeps the tree ready for the next one, and the address space shared out |
| AddressRuns.StallKeeps | kernel/memory/vmm.c:187-194 | an allocation that loses no block keeps order, nodes and sharing, whether its deletion stalls or not |
| AddressRuns.ReturnKeeps | kernel/memory/vmm.c:229-229 | and a page can be given back to such a tree, with the same effect |
| AddressRuns.RunShares | kernel/memory/vmm.c:151-194 | over any run whose deletions neither stall nor move up a predecessor with a child, each address stays in exactly one free block or handed-out range, and their total stays the size given to `make_node` |
| AddressRuns.RunInPages | kernel/memory/vmm.c:151-194 | over such runs free blocks and handed-out ranges start on page boundaries |
| AddressRuns.SharedDisjoint | kernel/memory/vmm.c:151-194 | shared out means pairwise disjoint |
| AddressRuns.FreshConsistent | kernel/memory/vmm.c:50-59 | the single block of `create_vmm` is such a state |
| AddressRuns.AloneRun | kernel/memory/vmm.c:151-194 | from that block, while requests are smaller than what remains, ranges follow each other without any further premise |
| AddressFaults.RunGoesWrong | kernel/utils/rbtree.c:285-352 | three pages allocated at once and given back singly; then taking one page loses another, and taking the other block whole stalls |
| VirtualMemory.Vmm.constructor | kernel/memory/vmm.c:35-63 | one free block from `low`, rounded up to the next page, whose size is `high` |
| VirtualMemory.Vmm.FindBest | kernel/memory/vmm.c:164-185 | the pointer loop finds the best block within the logarithmic bound |
| VirtualMemory.Vmm.Reserve | kernel/memory/vmm.c:151-194 | null exactly if nothing fits, a fault exactly if the only block is taken whole, otherwise the start of a smallest block that holds the fewest whole pages for the request, and the step of the runs; bases stay on page boundaries |
| FrameBitmap.SetBitReads | kernel/memory/pmm.c:71-77 | setting a bit changes that bit only |
| FrameBitmap.ClearBitReads | kernel/memory/pmm.c:63-68 | clearing a bit changes that bit only |
| FrameBitmap.ConversionsInverse | kernel/memory/pmm.c:81-92 | index to address and back is the identity exactly while 32-bit arithmetic does not wrap |
| FrameBitmap.Bitmap.constructor | kernel/memory/pmm.c:140-149 | the 48 reserved frames are used; the other frames in the zeroed bytes are free |
| FrameBitmap.Bitmap.GetFirstFrame | kernel/memory/pmm.c:47-61 | the least free index, or all ones if there is none |
| FrameBitmap.Bitmap.SetFrame | kernel/memory/pmm.c:71-77 | adds just that index |
| FrameBitmap.Bitmap.ClearFrame | kernel/memory/pmm.c:63-68 | removes just that index, if it is at most `num_frames` |
| FrameBitmap.Bitmap.AllocPhysPage | kernel/memory/pmm.c:94-107 | marks the least free index and returns its page, or panics past the last page |
| FrameBitmap.TakenAfterCleared | kernel/memory/pmm.c:146-149 | a frame used at the start is handed out only after it was cleared, in any run |
| FrameBitmap.NoDoubleUse | kernel/memory/pmm.c:94-107 | a frame is handed out twice only if it was cleared in between |
| PageTables.PageEntry | kernel/memory/paging.c:109-109 | frame and flags can be read back from an entry |
| PageTables.WindowBits | kernel/memory/paging.c:91-94 | the bitwise or in the window's address computations gives the address of the table, and of the directory, whose constant repeats a bit |
| PageTables.WindowWalk | kernel/memory/paging.c:91-94 | through the window, a table is where the directory says |
| PageTables.EntryChangesOne | kernel/memory/paging.c:108-109 | writing one entry changes exactly one translation in all directories together |
| PageTables.TableChangesNone | kernel/memory/paging.c:161-168 | hanging in a zeroed table changes no translation |
| Paging.Machine.GetPhysFromVirt | kernel/memory/paging.c:61-79 | zero without a table, otherwise the frame that the walk finds |
| Paging.Machine.CreateNewPaePt | kernel/memory/paging.c:161-172 | the frame is hung in before it is zeroed through the window; panics exactly if no frame is left |
| Paging.Machine.PaeMmap | kernel/memory/paging.c:81-110 | succeeds exactly if the address has no bit above the maximum and is a multiple of 1024, and there is a table or a frame for one; the writes through the window yield the state of `MapStep` |
| Paging.Machine.PaeUnmap | kernel/memory/paging.c:112-128 | writes through the window yield the state of `UnmapStep`; the managed frame whose number the low 32 address bits give is released, and no other |
| Paging.Machine.SetCurrentVmm | kernel/memory/vmm.c:131-145 | replaces the three lower entries, if the space has its own directories, and none otherwise |
| Paging.MapTables | kernel/memory/paging.c:104-106 | after a mapping there is a table for its 2 MiB region, and no other table has come or gone |
| AddressSpaces.MmapTranslates | kernel/memory/paging.c:81-110 | the walk of `virt` yields the page and its flags; every other page outside the window keeps its walk, also when a table is added |
| AddressSpaces.MapChangesOne | kernel/memory/paging.c:81-110 | the same for all directories at once, current or not |
| AddressSpaces.UnmapChangesOne | kernel/memory/paging.c:112-128 | unmapping removes one translation over all directories; all invariants last if and only if it releases no frame that holds a table |
| AddressSpaces.UnmapKeepsLeaves | kernel/memory/paging.c:112-128 | where each managed frame is mapped at most once and no table's frame is, it releases none, and this stays so |
| AddressSpaces.MapKeepsLeaves | kernel/memory/paging.c:81-110 | and mapping a frame that is mapped nowhere keeps it so, a new table included |
| AddressSpaces.FreshMayMap | kernel/memory/pmm.c:94-107 | as every newly allocated frame is |
| AddressSpaces.RoundTripWalks | kernel/memory/paging.c:81-128 | mapping a fresh frame and unmapping it restores the walk of every page outside the window |
| AddressSpaces.RoundTripFrames | kernel/memory/paging.c:81-128 | and the bitmap, but for a new table's frame |
| Paging.ReleasesExactly | kernel/memory/paging.c:122-124 | for every entry: the bitmap stays as it was if and only if the page number cut to 32 address bits names no managed frame that is in use |
| AddressSpaces.ReleasesIntended | kernel/memory/paging.c:122-124 | the frame that the entry maps is released, and no other, if and only if it lies below 4 GiB or the cut number names no managed frame in use |
| AddressSpaces.CutAddressReleases | kernel/memory/paging.c:122-124 | a page above 4 GiB releases the frame that its low 32 address bits name |
| AddressSpaces.SwitchInstalls | kernel/memory/vmm.c:131-145 | a switch installs the directories of the new space |
| AddressSpaces.SwitchKeepsKernel | kernel/memory/vmm.c:131-145 | no switch changes a translation of the kernel quarter |
| AddressSpaces.SwitchKeepsShared | kernel/memory/vmm.c:136-136 | a switch to a space without directories of its own changes no walk |
| AddressSpaces.StepKeeps | kernel/memory/paging.c:81-128 | each switch, mapping or unmapping (of no table's frame) keeps every invariant and edits one directory at most |
| AddressSpaces.RunIsolates | kernel/memory/paging.c:81-128 | over any interleaving of those, frames shared or not, a space that is not current keeps all translations below 3 GiB |
| AddressSpaces.SwitchBackRestores | kernel/memory/vmm.c:131-145 | switching away, running others, and switching back restores the low 3 GiB |
| AddressSpaces.NewSpacesOk | kernel/kernel/scheduler.c:112-135 | runs can start from any spaces with distinct, zeroed, self-mapped directories, next to any well-formed directory of the kernel |
| PageAllocation.MapFreshPages | kernel/memory/vmm.c:196-200 | reaches the end exactly if there is a frame for each page and each missing table; then every page of the range has a frame that was free, all different, and no other page changed |
| PageAllocation.MapGivenPages | kernel/memory/vmm.c:203-206 | reaches the end exactly if the last page fits and there is a frame for each missing table; then page k has frame k of the given stretch, and no other page changed |
| PageAllocation.VmmPageAlloc | kernel/memory/vmm.c:151-213 | reservation of the fewest whole pages, mapping and result together; null, fault and halt each under its exact condition, and the pointer translates to `phys` or the first new frame |
| PageAllocation.PointerTranslates | kernel/memory/vmm.c:212-212 | the returned pointer, offset included, translates to exactly `phys` |
| PageAllocation.FramesSuffice | kernel/memory/vmm.c:196-200 | two free frames for each page are always enough for the kernel not to panic |
| PageAllocation.RangeExact | kernel/memory/vmm.c:195-207 | the kernel does not panic if and only if there are as many free frames as new pages and 2 MiB regions without a table, and the last given page lies below the maximum |
| PageAllocation.ByteTranslates | kernel/memory/vmm.c:155-212 | each byte from the pointer on translates to the same byte of the physical stretch while offset and distance stay below the rounded size; behind that it is where it was before |
| PageAllocation.OffsetLeavesRange | kernel/memory/vmm.c:212-212 | one page at an offset of 0x800: the last bytes are behind the one page that is mapped |
| LegacyTables.NewDirectoryOk | kernel/memory/paging.c:406-417 | the kernel's first directory is well formed, maps itself, and has one table |
| LegacyTables.WindowShows | kernel/memory/paging.c:36-36 | in 32-bit paging, a table appears in the last 4 MiB |
| LegacyTables.WordChangesOne | kernel/memory/paging.c:39-39 | writing one entry changes exactly one translation outside the window |
| LegacyTables.TableAdds | kernel/memory/paging.c:138-144 | a new table, of which only a quarter is zeroed, changes no translation elsewhere; below it, nothing is mapped in that quarter, and behind it whatever the frame held |
| PaeTransfer.Legacy.TakeFrame | kernel/memory/pmm.c:94-107 | a frame that is no table and that the conversion does not hold yet, exactly if one is left |
| PaeTransfer.Legacy.CreateNewPt | kernel/memory/paging.c:131-148 | succeeds exactly if a frame is left; hangs in one that nobody used and keeps whatever was mapped |
| PaeTransfer.Legacy.MemoryMap | kernel/memory/paging.c:18-40 | succeeds exactly if there is a table or a frame for one; the page is mapped to the frame and everything mapped before stays |
| PaeTransfer.Legacy.CopyHalf | kernel/memory/paging.c:274-288 | the copy loop, reading through the window, fills the new table with exactly one half of the old one |
| PaeTransfer.Legacy.TransferPagesToPae | kernel/memory/paging.c:261-299 | succeeds exactly if the frames suffice for its pages and their tables; each entry of the new directory is then the copied half table with its flags, or untouched where the old one was absent; the last one refers to the directory |
| PaeTransfer.TransferMeaning | kernel/memory/paging.c:268-294 | the PAE walk equals the 32-bit walk at the time of copying if and only if the slot is even or nothing was mapped |
| PaeTransfer.OddSlotLost | kernel/memory/paging.c:291-291 | a mapped page in an odd slot that is absent afterwards |
| PaeTransfer.TransferPreserves | kernel/memory/paging.c:261-299 | whatever was mapped in an even slot when the conversion began is mapped the same way afterwards, but for the pages it took for itself |
| HeapBytes.WalkMeets | kernel/memory/heap.c:39-60 | headers that lie end to end are exactly what the size walk meets |
| HeapBytes.WalkTiles | kernel/memory/heap.c:39-60 | and whatever the walk meets lies end to end |
| HeapBlocks.TilingTotals | kernel/memory/heap.c:59-59 | headers and payloads together are all bytes up to the end of the heap |
| HeapBlocks.RoundsUp | kernel/memory/heap.c:35-35 | a request is rounded up to the least multiple of 32, or to 0 where that does not fit into 32 bits |
| HeapBlocks.KallocLinks | kernel/memory/heap.c:30-76 | where `next` links are null or lead to the block behind, an allocation keeps that |
| HeapBlocks.KfreeLinks | kernel/memory/heap.c:78-105 | likewise through a release |
| HeapUse.KallocHandsOut | kernel/memory/heap.c:30-76 | the set of used blocks gains exactly the one returned, which was not in it |
| HeapUse.KallocShape | kernel/memory/heap.c:39-75 | the lowest free block that is large enough is taken, and split exactly if 48 bytes are left over; if there is none, a block of the rounded size comes at the end; all other blocks stay |
| HeapUse.KallocRelinks | kernel/memory/heap.c:43-66 | which links an allocation sets: `prev` to the block just in front, a rest keeps those of the block it was cut from |
| HeapUse.KfreeTakesBack | kernel/memory/heap.c:78-105 | the set of used blocks loses exactly the one released, in every merge outcome |
| HeapUse.KfreeShape | kernel/memory/heap.c:78-105 | one free block takes the place of the released one and of each free neighbour that a link leads to; all others stay |
| HeapUse.KfreeRelinks | kernel/memory/heap.c:86-104 | which links a release sets: those of the outer blocks are kept, and a join passes one back |
| HeapLayout.StaleLoses | kernel/memory/heap.c:94-98 | joining through such a link loses a block to the walk |
| HeapLayout.NotLegible | kernel/memory/heap.c:86-90 | a release is `lost` exactly if it takes payload bytes for a free header of impossible size or link |
| HeapFaults.StaleRun | kernel/memory/heap.c:47-54 | a run after which a block's `prev` leads past a used block to a free one |
| HeapFaults.ForwardMergeRun | kernel/memory/heap.c:86-92 | a run after which `prev` leads to a header that was merged away and still reads as free |
| HeapFaults.ExactFitUnlinked | kernel/memory/heap.c:122-125 | an exact fit after which a block links past the header behind it |
| HeapFaults.SkippedHeaderRun | kernel/memory/heap.c:86-90 | after an exact fit, releasing the block that links past a header breaks the tiling although its `prev` is null |
| HeapFaults.SkippedHeaderGrows | kernel/memory/heap.c:118-132 | and so does resizing it |
| HeapFaults.StaleMoveRun | kernel/memory/heap.c:137-139 | moving a block whose `prev` is stale breaks the tiling |
| HeapFaults.MoveOverrunsRun | kernel/memory/heap.c:137-138 | a list in an unsplit block of 64 bytes moves to one of 32, and the copy writes over the block behind |
| HeapFaults.ClearOverrunsRun | kernel/utils/arraylist.c:74-74 | a full list of one 20-byte item and a block behind it, whose header a deletion at index 1 clears |
| HeapLinks.KallocFull | kernel/memory/heap.c:30-76 | where every block links to the one behind it, an allocation keeps that |
| HeapLinks.KfreeFull | kernel/memory/heap.c:78-105 | and so does a release, in every merge outcome |
| HeapLinks.MoveSeats | kernel/memory/heap.c:137-139 | and a move; the block it hands out has a `prev` that leads to the block just in front |
| Heap.Heap.constructor | kernel/memory/heap.c:11-18 | an empty tiling in zeroed memory |
| Heap.Heap.Kalloc | kernel/memory/heap.c:30-76 | the lowest free block that fits the rounded request, or the end of the heap only if none does; the heap stays tiled and no other used block's size, status or payload changes |
| Heap.Heap.Kfree | kernel/memory/heap.c:78-105 | no-merge, forward, backward and double merge each leave the exact tiling if and only if each link is null, leads to the block just in front or behind, or reads as used; payloads are then kept but for one word where a passed-on link leads to no block; otherwise a header is too large or wiped, and a block in front is lost |
| Heap.Heap.Rekalloc | kernel/memory/heap.c:107-145 | growing into the block behind fails, changing nothing, exactly if that is too small; otherwise the same block is handed out with its bytes kept, all others intact, and the heap tiled; growing into anything else and moving, to a shorter block or through stale links included, each with the exact condition for a tiled heap |
| HeapGrowth.ResizedLinks | kernel/memory/heap.c:122-132 | growing in place keeps links sound if and only if bytes are left over or the neighbour had no successor |
| HeapGrowth.ResizedShape | kernel/memory/heap.c:119-132 | the block and a free rest take the place of the two blocks, and all others stay |
| HeapGrowth.ResizedRelinks | kernel/memory/heap.c:122-132 | which links that sets: an exact fit leaves a header without any, otherwise the rest is linked both ways |
| HeapGrowth.MisgrownTiles | kernel/memory/heap.c:118-132 | after growing into bytes that are not the block behind, the heap is tiled if and only if the walk gets on from where block and rest end |
| HeapGrowth.OverrunSpoils | kernel/memory/heap.c:137-138 | the copy of a move leaves every byte behind the new block alone if and only if it does not run past it, or only writes what is there |
| HeapGrowth.StillReleasable | kernel/memory/heap.c:137-139 | the allocation inside a move leaves the old block's links as good as they were |
| HeapRuns.AfterSound | kernel/memory/heap.c:30-145 | each `kalloc`, `kfree` and `rekalloc` keeps the tiling, and hands out, takes back or exchanges exactly one block |
| HeapRuns.RunSound | kernel/memory/heap.c:30-145 | over any run of these, exact fits and moves included, while the links they follow are not stale and no block moves to a shorter one, bytes are conserved and used blocks do not overlap |
| ArrayList.CreateArrayList | kernel/utils/arraylist.c:19-29 | an empty list with room for one item in a new block |
| ArrayList.AddItem | kernel/utils/arraylist.c:31-53 | of a full list it is taken that its links are not stale and that there is room if it has to move; it faults exactly if the list is full and the free block behind it too small, and is lost exactly if the list moves to a shorter block and the copy changes what is behind; otherwise the item is appended, up to 32768 items, and a steady heap stays so unless the neighbour is used up |
| ArrayList.SteadyGrows | kernel/utils/arraylist.c:35-45 | in a heap whose links lead to the neighbours, all that is taken of a full list is room |
| HeapLinks.RegrownSteady | kernel/memory/heap.c:107-145 | growing a list keeps such a heap so, unless the neighbour is used up |
| HeapFaults.FullListFaults | kernel/utils/arraylist.c:35-47 | one 64-byte item, an allocation behind it, its release: the second item faults |
| ArrayList.Get | kernel/utils/arraylist.c:55-62 | null exactly behind the slot after the last item; for an item, where its bytes are |
| ArrayList.DeleteItem | kernel/utils/arraylist.c:64-77 | faults exactly past the count of items that have bytes; removal at the index, or of the last item for the index behind it; clearing the slot behind a full list spoils what is behind its block exactly if that is not zero; in an empty list the count wraps to 65535 |
| RoundRobin.StepOk | kernel/kernel/scheduler.c:208-244 | every event keeps the list free of duplicates and of the idle process, and all processes but the current one ready |
| RoundRobin.SavedIsLast | kernel/kernel/scheduler.c:212-214 | after any run, what is saved for a process is the context of its last preemption, or its first one |
| RoundRobin.DispatchesLast | kernel/kernel/scheduler.c:212-243 | after any run, a tick returns to the process it picks the context that it last gave up, in that tick or before, or was added with |
| RoundRobin.KillLeavesPrefix | kernel/kernel/scheduler.c:150-157 | the tick after a kill leaves exactly the prefix before the dead process, which is plain removal exactly if it was last |
| RoundRobin.ForwardExact | kernel/kernel/scheduler.c:216-237 | a process behind the current one runs after exactly the distance in ticks |
| RoundRobin.BoundedWaiting | kernel/kernel/scheduler.c:208-244 | from any state, any process that stays on the list runs within its distance plus the additions made meanwhile, if the list has to be started over |
| RoundRobin.AddedWaits | kernel/kernel/scheduler.c:55-63 | an added process is last on the list, and runs within that distance |
| RoundRobin.StartsOver | kernel/kernel/scheduler.c:216-236 | a tick at the start, from the idle process or after a kill picks the first process on the list, and the idle process only if there is none |
| RoundRobin.Rotation | kernel/kernel/scheduler.c:208-244 | without additions, ticks move the current place around the list |
| RoundRobin.OncePerRound | kernel/kernel/scheduler.c:208-244 | in a run of as many ticks as there are processes, without additions, a position is current after exactly the tick of its turn |
| Scheduler.Scheduler.AddProcess | kernel/kernel/scheduler.c:47-64 | the process becomes the last one on the list |
| Scheduler.Scheduler.DeleteProcess | kernel/kernel/scheduler.c:66-90 | exactly this process leaves the list |
| Scheduler.Scheduler.KillCurrentProcess | kernel/kernel/scheduler.c:150-157 | the process is dead, and what was behind it is off the list |
| Scheduler.Scheduler.SetCurrentProcessIdle | kernel/kernel/scheduler.c:28-32 | the process is marked idle, and nothing the scheduler's steps depend on changes |
| Scheduler.Scheduler.Schedule | kernel/kernel/scheduler.c:208-244 | one tick of the state machine on linked objects; the context of the process that is current then is returned |

## Left out

- PageAllocation.VmmPageAlloc: covers the PAE path with a nonzero length and a present flag; a range that reaches the recursive window or a quarter without directory is excluded, since the kernel's range does not.
- PaeTransfer.Legacy.TransferPagesToPae: the virtual pages that `page_kalloc` supplies are a parameter, so the free tree is not run along with it; `root_pd` is taken to be the frame that `cr3` refers to.
- VirtualMemory.Vmm.Reserve: needs a free record; the scan of `alloc_node_obj` past its page is not modelled.
- AddressRuns.FreeShares: of `vmm_page_free` and `pae_page_free` only the return of one page to the tree; their table lookups do not match the layout of the tables.
- AddressRuns.RunShares: a run ends at the first request whose deletion goes wrong; on a tree that is out of balance only searches and insertions are followed further, since the next fix-up may meet a missing sibling.
- AddressSpaces.RunIsolates: an unmapping that releases a table's frame ends the run, since the frame may then be handed out while the table is in use.
- Paging.Machine.PaeUnmap: only below an existing table; without one the kernel faults.
- Paging.Machine.CreateNewPaePt: the branch for a missing directory, which never finishes setting one up.
- Heap.Heap.Kalloc: needs room behind the last block when none fits; the kernel checks no bound there.
- Heap.Heap.Kfree: where `next` leads to bytes of a payload that read as free, but not as a header (a size that reaches 4 GiB, or a link that leads out of memory or in front), the outcome is `lost`, and what the release does is not followed.
- Heap.Heap.Rekalloc: the same for the release at the end of a move; nor is it followed what comes of a copy that has changed bytes behind the new block, or of growing past the end of the heap.
- HeapRuns.RunSound: a run ends where a stale link would be followed or a copy would overrun, since the heap may not be tiled then.
- ArrayList.AddItem: what the writes through the null pointer do, and what follows an overrun; these outcomes are the end of the model.
- Scheduler.Scheduler.DeleteProcess: the release of the process's memory, and the null dereference when the process is not on a list.
- Process creation (`create_new_pdptes`): it neither zeroes the third directory nor keeps its frame, so distinct and well-formed directories are a premise of isolation, not established there.
- `vmm_transfer_dynamic`, `transfer_dynamic`, early boot paging, `init_pae`, `pre_malloc`, multiboot and ACPI tables: they run once, before any of the state above exists or to hand it over, and keep no invariant afterwards.
- TLB staleness, permission bits, `cr0` and `cr3` themselves: only the table walk is kept.
- `find_node` and `get_process_head` are searches that nothing above calls; `handle_schedule` hands the context back until the scheduler is set up, and is `schedule` from then on; the non-PAE loops of `vmm_page_alloc` are the two modelled loops with `memory_map`, itself modelled, in place of `pae_mmap`.
- Drivers, terminal, keyboard, interrupt frames, GDT and IDT packing, FAT: their state belongs to the hardware.

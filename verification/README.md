# ARC kernel core: a verified model

This project models the state-keeping core of the ARC kernel (amd64) in Dafny and proves what
each component keeps over every run of its operations.  Each component is a class whose methods
follow the C code step by step, with a `Valid()` invariant and an abstract state that the
pointer, bitmap or ring code refines:

| file | component |
|---|---|
| `Pmm.dfy` | page-frame bitmap allocator |
| `HeapLayout.dfy`, `HeapLinks.dfy`, `Heap.dfy` | kernel heap: block layout, headers and free list in memory, kmalloc and kfree |
| `BlockCache.dfy` | write-back block cache |
| `VmLayout.dfy`, `VmMap.dfy`, `VmSystem.dfy` | address-space entries as a map from addresses, the entry array, shared objects, runs over several spaces |
| `ExecStack.dfy` | the initial user stack built by exec |
| `CSpace.dfy`, `Port.dfy`, `IpcSystem.dfy` | capability tables, message ports, runs over several tasks and ports |
| `Pipe.dfy`, `Futex.dfy`, `Vnode.dfy` | pipe ring, futex queues, vnode cache (`Lists.dfy` holds list helpers) |
| `Path.dfy` | path normaliser |
| `Mmap.dfy` | mmap region table |
| `SigFrame.dfy`, `Signal.dfy` | the signal frame in memory, signal delivery and return |
| `Udiv.dfy` | 64-bit division by shifting |

Where locks split an operation, every locked section is one method, so that an interleaving of
processes is a sequence of method calls, and what each method keeps holds in every interleaving.
Memory allocation, device requests, page mapping and copies to or from user memory may fail: the
outcome is a parameter or an arbitrary choice.

The main results:

- Heap: over every run of kmalloc and kfree the heap is tiled by well-sized blocks, the free list in
  memory is the address-sorted list of the free ones, none adjacent; the layout is a function of
  what is live; payloads never overlap or change; frames are conserved.
- Block cache: any sequence of reads, writes and syncs, with evictions and failing devices, reads
  what an uncached device would hold.
- Address spaces: map, unmap and protect refine a map from addresses, exactly when stated; over every
  run of map, unmap, fault and destroy on any number of spaces, their entries in order or not,
  reference counts equal the entries plus outside references, a page keeps its frame while any address
  of any space stays mapped to it, and two faults get one frame if and only if they mean one page.
  Protect is part of the run exactly when the entries it loses and those that come in for them cancel.
- exec: the stack decodes to exactly the arguments, within bounds the budget test only implies.
- IPC: over every run of creating, allocating, freeing, sending, receiving and exiting, what all tasks
  are granted and what was withdrawn is what was issued and what was forged; a receive conserves the
  sum if no slot moved was a leftover of old memory, and only then unless the receiver runs out of
  slots; nothing is ever forged if the memory tables grow into looks unused.  Ports are FIFO queues.
- Pipes, futexes, vnodes: stream, queue and cache invariants over every interleaving of steps.
- Paths, regions, signals, division: refinement of a stack machine, of a map from pages, a round
  trip through the bytes of user memory, and exact arithmetic.

Where the code departs from what its comments, its tests or the interface promise, the model follows
the code.  A lemma or method gives an input that shows it (the first name), and an if-and-only-if says
when the promise holds (the second):

- The frame bitmap is too short for some page counts (`BitmapCoverageCounterexample`,
  `BitmapCoversIff`), and an area above 2^44 frees pages that are not in it, because page numbers are
  cut to 32 bits (`HighAreaCounterexample`, `AreaIff`).
- kmalloc's 32-bit rounding hands out a short block for sizes above 2^32-16
  (`PayloadCounterexample`, `PayloadHoldsIff`).
- vm_map_unmap and vm_map_protect go on writing into the entry array that growing it has freed, so a
  split that has to grow leaves overlapping entries (`UnmapInFullArray` and `ProtectInFullArray`,
  `VmLayout.UnmapRightIff` and `ProtectRightIff`).
- vm_map_protect also leaves entries out of order when the range starts inside one and runs past its
  end (`ProtectRightPart`), and loses the last entry when it lies inside one that is not the last
  (`ProtectMiddlePart`; `ProtectRightIff` for both).  After such a loss the reference counts are right
  if and only if the stale slot names the same object as the lost entry (`AddressSpace.Protect`).
- The page array of a shared object cannot grow past page 2^31: the doubling goes through 0 and never
  ends (`GrowthStuck`, `GrowthEndsIff`).
- cspace_grow leaves the new slots as the memory held them, and a slot that looks in use can then be
  disposed of although nobody granted it (`GrowthStrays` and `StrayAccepted`, `GrownMarkedIff` and
  `Deliver`).
- exec's stack pointer is 16-byte aligned only when argc + envc is odd, although the comment above the
  code says it always is (`MisalignedStart`, `BuildStack`).
- futex_requeue drops the waiters already linked on its second queue, and onto the same address it also
  drops most of its own and miscounts (`RequeueLoses`, `LostIff`, `SelfLostIff` and `SelfValidIff`).
- vfs_build_abs_path reports a name too long although its result fits (`FitsButFails`,
  `BuildFitsIff`).
- munmap shows the wrong part of a file after cutting a mapping at the front, and drops the head of a
  split it has no slot for (`FrontCutShowsWrongPage` and `FullSplitDropsHead`, `Mmap.UnmapRightIff`);
  mmap keeps a vnode reference for good when the range is out of bounds (`MapKeepsReference`,
  `RegionTable.Map`).
- A signal delivered inside a handler, as a fault is, makes the outer handler's return take the
  interrupted stack for its frame (`NestedFault`, `NestedReturn`).
- A pending SIGKILL is not delivered while a handler runs, although the comment in sys_kill says it is
  at the next entry to the kernel (`KillHeldBack`, `CheckPending`).
- A signal that ends sigsuspend is not delivered if the old mask blocks it, because that mask is back
  before delivery (`SuspendMisses`, `SuspendAndReturn`).

## Model

| member | source | states |
|---|---|---|
| `Pmm.BitUpdatesOneFrame` | mk/vm/pmm.c:71-94 | setting or clearing a page's bit changes no other page |
| `Pmm.FreeSetAfterSet` | mk/vm/pmm.c:71-73 | setting the bit of a free page takes exactly it out of the free pages |
| `Pmm.FreeSetAfterClear` | mk/vm/pmm.c:75-77 | clearing the bit of a used page adds exactly it to the free pages |
| `Pmm.BitmapCoversIff` | mk/vm/pmm.c:160-162 | the pages set aside for the bitmap hold a bit for every page if and only if the page count is below 8, a multiple of 8, or its byte count is not a multiple of 4096 |
| `Pmm.BitmapCoverageCounterexample` | mk/vm/pmm.c:160-162 | 32769 pages need one bit more than the bitmap has |
| `Pmm.AreaIff` | mk/vm/pmm.c:230-231 | the pages computed for an area are the pages that lie wholly in it if and only if both page numbers are below 2^32, or the first is not and their low halves leave nothing between |
| `Pmm.HighAreaCounterexample` | mk/vm/pmm.c:230-231 | 64 kilobytes at 2^44 make page 3 free |
| `Pmm.FrameAllocator.constructor` | mk/vm/pmm.c:213-289 | after the bitmap passes the counter equals the clear bits, and a page is free if and only if it is below the page count, an available area has it and no range set aside covers it; if the page numbers fit, the areas that have it are those it lies wholly in |
| `Pmm.FrameAllocator.FreeArea` | mk/vm/pmm.c:216-246 | exactly the pages numbered so become free, which are the whole pages of the area if the page numbers fit |
| `Pmm.FrameAllocator.Reserve` | mk/vm/pmm.c:248-289 | exactly the pages of the range stop being free, whatever they were before |
| `Pmm.FrameAllocator.AllocPage` | mk/vm/pmm.c:297-319 | the lowest free page, taken out of the free pages; NULL if and only if none is free; the counter stays exact |
| `Pmm.FrameAllocator.AllocPages` | mk/vm/pmm.c:321-349 | the lowest run of count free pages, and nothing else taken; NULL if and only if count is 0 or no such run exists |
| `Pmm.FrameAllocator.FreePage` | mk/vm/pmm.c:351-360 | exactly that page becomes free, page 0 included; a double free or an out-of-range page changes nothing |
| `Pmm.FrameAllocator.FreePages` | mk/vm/pmm.c:362-373 | exactly the pages of the run become free |
| `Pmm.RunFits` | mk/vm/pmm.c:324-327 | a run of free pages is no longer than the number of free pages, so the early test of the counter rejects no request that could be met |
| `HeapLayout.AllocGood` | mk/vm/heap.c:260-322 | first fit with split, or growth at the break, keeps the blocks tiling the heap, well sized, no two free ones adjacent and none free at the break |
| `HeapLayout.JoinedGood` | mk/vm/heap.c:186-197 | freeing a block and joining it with its free neighbours on both sides leaves no two adjacent free blocks |
| `HeapLayout.TrimGood` | mk/vm/heap.c:199-229 | giving free blocks at the end back to the break restores the whole invariant |
| `HeapLayout.ReleaseGood` | mk/vm/heap.c:336-391 | kfree keeps the whole layout invariant |
| `HeapLayout.LayoutDeterminedByLive` | mk/vm/heap.c:186-391 | two well-formed heaps with the same live blocks are equal, free blocks and break included |
| `HeapLayout.AllocLive` | mk/vm/heap.c:260-322 | kmalloc adds one block of at least the size asked and less than a minimal block more, disjoint from every live one, and keeps those |
| `HeapLayout.ReleaseLive` | mk/vm/heap.c:336-391 | kfree takes away exactly its block from the live ones |
| `HeapLayout.AllocReleaseRoundTrip` | mk/vm/heap.c:260-391 | freeing what was just allocated restores the layout and the break exactly |
| `HeapLayout.ReleaseOrderIrrelevant` | mk/vm/heap.c:336-391 | freeing two blocks in either order leaves the same layout and the same break |
| `HeapLayout.StepGood` | mk/vm/heap.c:260-391 | any call on a well-formed layout, with a live address or not, keeps it and every other live block |
| `HeapLayout.RunKeepsLayoutAndAllocations` | mk/vm/heap.c:260-391 | over every run of calls the layout stays well formed and a block not freed stays live |
| `HeapLayout.RunsAgree` | mk/vm/heap.c:260-391 | two runs from the empty heap that leave the same blocks live leave the same heap |
| `HeapLinks.TakeLinked` | mk/vm/heap.c:294-299 | unlinking the chosen block and marking it used leaves the headers spelling out the new layout and its free list in address order |
| `HeapLinks.SplitLinked` | mk/vm/heap.c:286-299 | so does cutting the chosen block and linking the rest in its place |
| `HeapLinks.AppendLinked` | mk/vm/heap.c:306-319 | so does a new block at the break |
| `HeapLinks.InsertLinked` | mk/vm/heap.c:382-385 | so does linking a freed block between its free neighbours |
| `HeapLinks.MergeLinked` | mk/vm/heap.c:186-197 | so does swallowing the next free block |
| `HeapLinks.DropLinked` | mk/vm/heap.c:223-228 | so does dropping a free block at the break |
| `Heap.PayloadHoldsIff` | mk/vm/heap.c:264-265 | the payload holds the size asked if and only if that is at most 2^32-16 |
| `Heap.NeedIsLeast` | mk/vm/heap.c:264-265 | unless it wraps, the request is the least multiple of 16 that is at least 32 and has room for the header and the size asked |
| `Heap.PayloadCounterexample` | mk/vm/heap.c:264-264 | 2^32-1 bytes get a minimal block |
| `Heap.WalkStaysBelowLimit` | mk/vm/heap.c:266-305 | the limit on steps along the free list cannot be reached in a well-formed heap |
| `Heap.KernelHeap.constructor` | mk/vm/heap.c:248-254 | the empty heap is well formed and its first pages come out of the free frames |
| `Heap.KernelHeap.MapUntil` | mk/vm/heap.c:163-176 | maps pages up to the one that covers the address and no further, one frame each; succeeds if and only if before the call there were as many free frames as missing pages and each of those can be mapped; mapped memory keeps its contents; no frame is made or lost |
| `Heap.KernelHeap.UnmapAbove` | mk/vm/heap.c:230-245 | unmaps exactly the pages above the bound and gives their frames back |
| `Heap.KernelHeap.FindFit` | mk/vm/heap.c:266-305 | the walk finds the first free block that fits, with its predecessor on the list, or none fits |
| `Heap.KernelHeap.Kmalloc` | mk/vm/heap.c:260-322 | the layout becomes that of the first-fit allocator and the pointer its block; 0 if and only if the size is 0 or, before the call, no free block fits and the break cannot be raised for want of address space, frames or mappings; how far the mapping then reaches; no byte of a live payload changes; free plus heap frames are conserved |
| `Heap.KernelHeap.Coalesce` | mk/vm/heap.c:186-197 | merges a free block with the next one exactly when that is free |
| `Heap.KernelHeap.FindPlace` | mk/vm/heap.c:366-381 | the walk finds the free neighbours in address order |
| `Heap.KernelHeap.Shrink` | mk/vm/heap.c:199-246 | trims free blocks at the end, keeps every payload, unmaps exactly the pages above the break but not the first four, conserves frames |
| `Heap.KernelHeap.CheckPointer` | mk/vm/heap.c:336-365 | kfree's tests accept exactly the pointers whose header looks live, and give its size |
| `Heap.KernelHeap.Kfree` | mk/vm/heap.c:336-391 | an outstanding payload is released and every other payload kept, and the mapping then ends at the break, rounded up, or the fourth page; any other pointer is ignored; frames are conserved |
| `Heap.KernelHeap.FreedIsRejected` | mk/vm/heap.c:354-359 | the payload of a free block fails kfree's tests, so a double free is ignored |
| `BlockCache.KeysDistinct` | bsd/vfs/block.c:171-241 | the blocks of one request are different blocks |
| `BlockCache.KeyAt` | bsd/vfs/block.c:171-241 | the block i places on, wrapping once past the last |
| `BlockCache.SetSlot` | bsd/vfs/block.c:93-99 | changing the slot of a block changes what is read for that block only |
| `BlockCache.Evict` | bsd/vfs/block.c:150-155 | taking a clean slot for another block changes what is read for none |
| `BlockCache.Bypass` | bsd/vfs/block.c:225-231 | writing an uncached block to the device changes what is read for that block only |
| `BlockCache.Cache.constructor` | bsd/vfs/block.c:58-60 | without slots every block reads as the device holds it |
| `BlockCache.Cache.Writeback` | bsd/vfs/block.c:93-99 | the slot is clean if and only if the device took it; nothing that is read changes, even on failure |
| `BlockCache.Cache.Lookup` | bsd/vfs/block.c:101-115 | the ways of the hash hold the block or no slot does |
| `BlockCache.Cache.Victim` | bsd/vfs/block.c:116-135 | a dirty way is chosen only when all are dirty |
| `BlockCache.Cache.Get` | bsd/vfs/block.c:101-156 | a held slot for the block, or none after a device failure; nothing that is read changes and dirty data is never dropped |
| `BlockCache.Cache.Release` | bsd/vfs/block.c:158-164 | gives the slot up without changing what is read |
| `BlockCache.Cache.Init` | bsd/vfs/block.c:62-76 | turning the cache on changes nothing that is read |
| `BlockCache.Cache.ReadOne` | bsd/vfs/block.c:185-205 | the block as an uncached device would hold it; fails only with the device |
| `BlockCache.Cache.BlkRead` | bsd/vfs/block.c:171-207 | the whole range as an uncached device would hold it; reading changes no block; fails only with the device |
| `BlockCache.Cache.WriteOne` | bsd/vfs/block.c:223-239 | the block reads back as written and no other changes |
| `BlockCache.Cache.WriteThrough` | bsd/vfs/block.c:209-220 | an uncached write changes only the blocks of its range |
| `BlockCache.Cache.BlkWrite` | bsd/vfs/block.c:209-241 | the range reads back as written; on failure the blocks before the failing one do and the blocks behind it are as before; fails only with the device |
| `BlockCache.Cache.BlkSync` | bsd/vfs/block.c:243-258 | no block changes for a reader; success, exactly when no request failed, makes the device hold what is read; other devices are untouched |
| `VmLayout.RewriteShape` | mk/vm/vm_map.c:235-298 | replacing every entry by pieces of itself keeps the entries sorted and disjoint |
| `VmLayout.RewriteMeaning` | mk/vm/vm_map.c:235-298 | an address then means what the pieces of its entry say |
| `VmLayout.UnmapMeaning` | mk/vm/vm_map.c:223-304 | cutting the range out of every entry takes away exactly the range; every other address keeps object, offset, protection |
| `VmLayout.UnmapRightIff` | mk/vm/vm_map.c:223-304 | what vm_map_unmap leaves is that if and only if the range does not lie inside an entry of a full array; otherwise two entries overlap |
| `VmLayout.UnmapInFullArray` | mk/vm/vm_map.c:273-298 | 64 entries in the array of 64 and one page unmapped inside the first |
| `VmLayout.InsertMeaning` | mk/vm/vm_map.c:193-214 | inserting at the search position adds exactly the new range and keeps the order |
| `VmLayout.WantedRight` | mk/vm/vm_map.c:306-425 | recolouring every entry's overlap in place would protect exactly the range |
| `VmLayout.SwappedWrong` | mk/vm/vm_map.c:354-375 | the right-partial branch leaves the entries out of order |
| `VmLayout.GrownWrong` | mk/vm/vm_map.c:339-414 | a split that has to grow the array leaves two entries that overlap |
| `VmLayout.LostLastShows` | mk/vm/vm_map.c:376-414 | the three-way branch, with an entry behind, is right only if the slot it leaves in place of the last entry happens to equal it |
| `VmLayout.ProtectRightIff` | mk/vm/vm_map.c:306-425 | vm_map_protect changes exactly the range if and only if no split has to grow the array and no entry strictly contains its start, or one contains both ends and is the last or the stale slot equals the last |
| `VmLayout.ProtectInFullArray` | mk/vm/vm_map.c:334-353 | 64 entries in the array of 64 and the first page of the first protected |
| `VmLayout.ProtectRightPart` | mk/vm/vm_map.c:354-375 | one entry of three pages and its last two protected |
| `VmLayout.ProtectMiddlePart` | mk/vm/vm_map.c:376-414 | two entries of three pages and the middle page of the first protected |
| `VmMap.ObjectTable.CreateShared` | mk/vm/vm_object.c:138-147 | a new object with one reference, if and only if its size is positive and memory is had |
| `VmMap.ObjectTable.SharedFault` | mk/vm/vm_object.c:287-349 | the page's frame: the one it has, or a free one, which is then free no more; no other frame is taken and no other page gets one; frames once given stay, no two pages share one; succeeds if and only if the offset is inside and the page has a frame or a place in the array, a free frame and room to map it |
| `VmMap.ObjectTable.GrowPages` | mk/vm/vm_object.c:299-316 | the page array grows past the page and keeps every frame |
| `VmMap.ObjectTable.Retain` | mk/vm/vm_object.c:185-194 | one reference more for that object only |
| `VmMap.ObjectTable.Release` | mk/vm/vm_object.c:196-240 | one reference less; with the last one exactly the object's frames become free |
| `VmMap.GrowthEndsIff` | mk/vm/vm_object.c:300-302 | the 32-bit doubling passes the page if and only if that is below 2^31 |
| `VmMap.GrowthStuck` | mk/vm/vm_object.c:300-302 | for page 2^31 no number of doublings is enough |
| `VmMap.AddressSpace.constructor` | mk/vm/vm_map.c:104-120 | an empty map is valid |
| `VmMap.AddressSpace.EnsureCapacity` | mk/vm/vm_map.c:73-98 | room for the new entries with the old ones in place, refused if and only if there was none and the limit or memory forbids growing; a new array if and only if there was no room |
| `VmMap.AddressSpace.ShiftRight` | mk/vm/vm_map.c:59-63 | moves the entries from the index on one up and no other |
| `VmMap.AddressSpace.RemoveAt` | mk/vm/vm_map.c:65-70 | takes out exactly that entry |
| `VmMap.AddressSpace.FindEntry` | mk/vm/vm_map.c:427-449 | what the binary search finds covers the address; with entries in order it is the covering entry, or none covers |
| `VmMap.AddressSpace.FindInsertion` | mk/vm/vm_map.c:193-200 | the first entry that starts behind the address |
| `VmMap.AddressSpace.AddEntry` | mk/vm/vm_map.c:186-214 | the entry goes in before the first that starts behind it, counts stay balanced; with entries in order the new range is added and everything else keeps its meaning |
| `VmMap.AddressSpace.Map` | mk/vm/vm_map.c:146-221 | one entry more, counts balanced and frames kept, whatever the order; refused if and only if the arguments are bad, an entry overlaps or the array is full and cannot grow; with entries in order exactly the requested range, unmapped before, gets the object's pages |
| `VmMap.AddressSpace.CutAt` | mk/vm/vm_map.c:235-298 | one round of unmap replaces the entry by what is left of it, whole if the split had to grow the array, and moves the object's count by the pieces |
| `VmMap.AddressSpace.SplitAt` | mk/vm/vm_map.c:273-298 | the right piece goes in behind; the left one is seen only if the array did not grow |
| `VmMap.AddressSpace.UnmapRange` | mk/vm/vm_map.c:223-304 | each count equals outside references plus entries, whatever the order and also on failure; a failure needs an entry to split and a full array that cannot grow; with entries in order, the entries the code leaves: exactly the range becomes unmapped if and only if no split had to grow the array, it fails if and only if one would have to and cannot, and a failure changes nothing |
| `VmMap.AddressSpace.SplitInThree` | mk/vm/vm_map.c:376-414 | the two shifts by one count leave a stale slot in the place of the last entry unless the split entry was last; it is the second free slot if the array did not grow |
| `VmMap.AddressSpace.RecolorAt` | mk/vm/vm_map.c:318-418 | what one round of protect leaves, branch by branch, with and without growing the array |
| `VmMap.AddressSpace.Protect` | mk/vm/vm_map.c:306-425 | counts are right up to the entries lost and those that came in for them; with entries in order, the table the code leaves, that it is the promised one if and only if `ProtectWorks` of the entries, the free slots and the second free slot, and that after a loss counts are right if and only if the stale slot names the lost entry's object; a call that fails has found an entry whose pieces have no place and has protected exactly the part before it |
| `VmMap.OwedIff` | mk/vm/vm_map.c:376-414 | if what came in names living objects, counts are right if and only if it cancels what was lost, object by object |
| `VmMap.RoundOwed` | mk/vm/vm_map.c:318-418 | a round of protect keeps the account, adding the last entry to what was lost and the stale slot to what came in when it splits in three before another entry |
| `VmMap.AddressSpace.Destroy` | mk/vm/vm_map.c:122-144 | every entry gives its reference back |
| `VmMap.AddressSpace.ResolveFault` | mk/vm/vm_map.c:451-498 | the frame of the page, aligned before the size test, that the entry found says, under its protection; with entries in order that is what the address means; succeeds if and only if an entry is found, the access is allowed, the page starts inside the object and has or can get a frame; a frame is taken only for a page without one |
| `VmMap.CutBalanced` | mk/vm/vm_map.c:250-294 | counts stay balanced when an entry becomes pieces of itself |
| `VmMap.InsertBalanced` | mk/vm/vm_map.c:206-214 | and when an entry is added with its reference |
| `VmSystem.FrameForever` | mk/vm/vm_object.c:287-349 | a page keeps its frame to the end of the run as long as some entry of some space keeps mapping an address to it |
| `VmSystem.MeansPageIff` | mk/vm/vm_map.c:427-449 | with entries in order, the page an entry maps an address to is the page the address means |
| `VmSystem.CountedIff` | mk/vm/vm_map.c:122-304 | all counts are right if and only if each space is balanced against the others |
| `VmSystem.MappedAlive` | mk/vm/vm_object.c:196-240 | an object that an address of any space means is alive |
| `VmSystem.System.NewSpace` | mk/vm/vm_map.c:104-120 | a new empty space beside the others |
| `VmSystem.System.Map` | mk/vm/vm_map.c:146-221 | a step of the run in any order of the entries: counts right over all spaces, no live page loses its frame, one entry more in that space; refused exactly when the map refuses; with entries in order exactly the range is added and the order stays |
| `VmSystem.System.Unmap` | mk/vm/vm_map.c:223-304 | a step of the run in any order of the entries; with entries in order exactly the range goes if and only if no split grows the array, and it is refused if and only if one has to and cannot |
| `VmSystem.System.Protect` | mk/vm/vm_map.c:306-425 | a step of the run if what is lost and what comes in cancel, and if that names living objects only then; with entries in order, if and only if nothing is lost or the stale slot names the lost entry's object |
| `VmSystem.Settled` | mk/vm/vm_map.c:376-414 | when the world after a loss is counted all the same |
| `VmSystem.System.Destroy` | mk/vm/vm_map.c:122-144 | the same, and the space is empty |
| `VmSystem.System.Fault` | mk/vm/vm_map.c:451-498 | a step of the run in any order of the entries; the frame given is that of a page the address is mapped to with that access, and the one that page had in any earlier state since which any address of any space has stayed mapped to it; a free frame is taken exactly for a page without one; with entries in order refused if and only if what the address means cannot be resolved |
| `VmSystem.System.FaultBoth` | mk/vm/vm_object.c:287-349 | two faults in one space or in two, with entries in order, get one frame if and only if the addresses mean the same page of the same object; both succeed if each could and two frames are free |
| `VmSystem.System.Create` | mk/vm/vm_object.c:138-147 | a step of the run that adds an object without pages held by one reference from outside, and changes no other |
| `VmSystem.System.Drop` | mk/vm/vm_object.c:196-240 | a step of the run that gives one outside reference back |
| `ExecStack.DecodeEncode` | bsd/proc/exec.c:522-546 | a word read back from its bytes is the word written |
| `ExecStack.LayoutDecodes` | bsd/proc/exec.c:472-550 | memory from the stack pointer decodes to at most one argv and envp |
| `ExecStack.Strlen` | bsd/proc/exec.c:479-485 | the length of the packed string |
| `ExecStack.PackedLength` | bsd/proc/exec.c:479-485 | the bytes of the packed strings with their terminators |
| `ExecStack.UserStack.CopyToUser` | bsd/proc/exec.c:506-507 | writes the bytes inside the mapped stack or fails |
| `ExecStack.UserStack.PushStrings` | bsd/proc/exec.c:501-518 | every string is written below the last, 16-byte aligned, with its address recorded, and none falls below the bound |
| `ExecStack.UserStack.PushArray` | bsd/proc/exec.c:523-542 | the pointers and their NULL, in order |
| `ExecStack.UserStack.BuildStack` | bsd/proc/exec.c:472-550 | too big if and only if the budget test says so, and otherwise memory decodes from the stack pointer to exactly argc, argv and envp, the writes are disjoint and above the mapped bound; aligned if and only if argc + envc is odd |
| `ExecStack.MisalignedStart` | bsd/proc/exec.c:472-550 | without arguments and environment the stack pointer is not 16-byte aligned |
| `CSpace.CapsUpdate` | mk/vm/cspace.c:145-294 | the records after one slot changes |
| `CSpace.MarkedIff` | mk/vm/cspace.c:178-237 | the records the table shows are those granted if and only if every slot in use is marked |
| `CSpace.GrownMarkedIff` | mk/vm/cspace.c:90-123 | a grown table is exact if and only if the old one was and nothing in the new half looks in use; what is granted does not change |
| `CSpace.GrowthStrays` | mk/vm/cspace.c:90-123 | a full table of 256 grown into memory that held capabilities has slots in use that no bit marks |
| `CSpace.HandleRoundTrip` | mk/include/task.h:105-116 | a handle gives back its task, and its slot if and only if that is below 2^31 |
| `CSpace.Space.constructor` | mk/vm/cspace.c:49-77 | a table without records whose slot 0 is reserved |
| `CSpace.Space.BitmapAlloc` | mk/vm/cspace.c:126-137 | sets the lowest clear bit, or all are set |
| `CSpace.Space.BitmapFree` | mk/vm/cspace.c:139-143 | clears exactly that bit |
| `CSpace.Space.Grow` | mk/vm/cspace.c:90-123 | doubles the table with every record in place, the new slots whatever the memory held; exact if and only if that looks unused; refused if and only if the limit or memory says so |
| `CSpace.Space.AllocSlot` | mk/vm/cspace.c:145-176 | one record more is granted, in a slot that was not marked, and all others stay; refused if and only if all are marked and the table cannot grow; exact afterwards if and only if no other slot is stray |
| `CSpace.Space.FreeSlot` | mk/vm/cspace.c:178-211 | exactly that slot empties, if and only if it was in use; a record is withdrawn if and only if it was marked |
| `CSpace.Move` | mk/vm/cspace.c:239-294 | the record changes tables, or nothing changes; what both were granted together grows by exactly the record if its slot was not marked and stays the same otherwise; refused if and only if there is no record or no room |
| `Port.Enqueued` | mk/vm/port.c:376-398 | writing at the tail appends to the queue |
| `Port.Dequeued` | mk/vm/port.c:459-470 | reading at the head takes the first |
| `Port.Linearised` | mk/vm/port.c:130-163 | copying the ring from its head into a doubled one keeps the queue |
| `Port.IpcPort.constructor` | mk/vm/port.c:261-311 | an empty queue |
| `Port.IpcPort.GrowQueue` | mk/vm/port.c:130-163 | doubles the ring without touching the queue; fails if and only if it has 2048 places or memory fails |
| `Port.IpcPort.Send` | mk/vm/port.c:356-407 | a message cut to 64 bytes joins the end with its sender; refused if and only if it disposes of something not held, or full if and only if the ring is full and cannot grow |
| `Port.IpcPort.Dequeue` | mk/vm/port.c:417-470 | messages come out in send order, a notification only when none is queued |
| `Port.IpcPort.Recv` | mk/vm/port.c:411-482 | the first message, else the pending notification, which is then gone; with the message its capabilities from the recorded sender: only slots disposed of empty, no third task's slots or marks change, exact tables stay exact, and what both were granted grows by what was forged: nothing if every slot disposed of was marked, and only then unless the receiver ran out of slots |
| `Port.IpcPort.Notify` | mk/vm/port.c:486-499 | leaves the queue alone |
| `Port.ValidateDispose` | mk/vm/port.c:173-194 | accepts if and only if every disposal names a slot of the sender's that holds its kind |
| `Port.CheckHeld` | mk/vm/port.c:182-191 | the tests pass if and only if the handle names that task and a slot in use of its table, of the kind given |
| `Port.StrayAccepted` | mk/vm/port.c:173-194 | a disposal of slot 300 of a table grown into used memory is accepted |
| `Port.Deliver` | mk/vm/port.c:202-236 | records move from the recorded sender to the receiver, exactly the slots disposed of empty unless the receiver is out of slots, and what both were granted grows by what was forged: nothing if the disposals name marked slots, and only then unless the receiver is out of slots |
| `IpcSystem.SumUpdate` | mk/vm/cspace.c:145-294 | what all tasks are granted together after one table changes |
| `IpcSystem.TwoChange` | mk/vm/cspace.c:239-294 | and after records move between two |
| `IpcSystem.LedgerStep` | mk/vm/cspace.c:145-294 | the books balance after a call that withdraws, issues and forges |
| `IpcSystem.NothingForged` | mk/vm/cspace.c:90-123 | if nothing was forged and tables are exact, every table shows what its task was granted, all of it issued, and the sum is what was issued and not withdrawn |
| `IpcSystem.System.NewTask` | mk/vm/cspace.c:49-77 | a task more, with nothing granted |
| `IpcSystem.System.Exit` | mk/vm/cspace.c:79-87 | what the task was granted is withdrawn, and nothing else changes |
| `IpcSystem.System.Alloc` | mk/vm/cspace.c:145-176 | exactly the new record is issued, and only that task's table changes |
| `IpcSystem.System.Free` | mk/vm/cspace.c:178-211 | exactly the record of a marked slot is withdrawn |
| `IpcSystem.System.NewPort` | mk/vm/port.c:261-311 | an empty port more, no table changes |
| `IpcSystem.System.Send` | mk/vm/port.c:356-407 | no table changes, and the message joins its queue with its sender |
| `IpcSystem.System.Recv` | mk/vm/port.c:411-482 | what all tasks are granted together grows by what was forged, which is nothing if all memory tables grew into looked unused; only sender and receiver change; a notification only when no message is queued |
| `Pipe.UsedUnwrapped` | bsd/uipc/pipe.c:67-73 | the difference of the wrapped counters is the number of bytes held |
| `Pipe.IndexUnwrapped` | bsd/uipc/pipe.c:147-149 | an index from a wrapped counter is the index from the true one |
| `Pipe.Logged` | bsd/uipc/pipe.c:207-214 | a chunk extends the whole stream and its writer's part of it |
| `Pipe.SharedPipe.constructor` | bsd/uipc/pipe.c:301-333 | an empty pipe with one end of each kind |
| `Pipe.SharedPipe.UsedIs` | bsd/uipc/pipe.c:67-73 | occupancy is the bytes written and not read, at most 4096, also after the counters wrap |
| `Pipe.SharedPipe.ReadStep` | bsd/uipc/pipe.c:129-167 | the oldest bytes, as many as asked and there; end of file if and only if empty without writers |
| `Pipe.SharedPipe.StartWrite` | bsd/uipc/pipe.c:169-179 | an empty write returns 0 |
| `Pipe.SharedPipe.SampleStep` | bsd/uipc/pipe.c:179-200 | goes on to copy if and only if there are readers and room; otherwise waits, or returns what was written so far or an error; SIGPIPE if and only if there is no reader and its action is the default |
| `Pipe.SharedPipe.CopyStep` | bsd/uipc/pipe.c:202-219 | the next bytes of the source that fit join the stream; a writer's chunks are a prefix of its source and its return value their length |
| `Pipe.SharedPipe.Open` | bsd/uipc/pipe.c:80-93 | an end more, the stream left alone |
| `Pipe.SharedPipe.Close` | bsd/uipc/pipe.c:95-126 | an end less, the stream left alone; frees the pipe if and only if no end is open and no close has freed it before |
| `Futex.WaitersAreFound` | bsd/uipc/futex.c:96-114 | the queue a process names is the only one its key finds |
| `Futex.LostIff` | bsd/uipc/futex.c:285-320 | a requeue leaves everyone still waiting on a list if and only if all were before and no one linked on the second queue was still waiting |
| `Futex.SelfValidIff` | bsd/uipc/futex.c:285-326 | after a requeue onto the same address the counts are right if and only if nothing was moved |
| `Futex.SelfLostIff` | bsd/uipc/futex.c:285-320 | and everyone still waiting is on a list if and only if all but the one left there had been woken before |
| `Futex.RequeueLoses` | bsd/uipc/futex.c:285-326 | three waiters at two addresses, one of whom a requeue loses, between the addresses and onto the same one |
| `Futex.FutexTable.constructor` | bsd/uipc/futex.c:77-81 | no queues |
| `Futex.FutexTable.Find` | bsd/uipc/futex.c:96-103 | the one queue of that address space and address; none if and only if the chain has none |
| `Futex.FutexTable.FindOrCreate` | bsd/uipc/futex.c:96-114 | that queue or a new empty one; fails if and only if there is none and no memory for one |
| `Futex.FutexTable.Remove` | bsd/uipc/futex.c:116-125 | an empty queue is found no more |
| `Futex.FutexTable.WaitLink` | bsd/uipc/futex.c:135-183 | which of the four results, by the queue, memory and the futex word; a process that parks is counted, named and linked first on the queue of its key; a fault or changed value leaves no trace |
| `Futex.FutexTable.SleepUnlink` | bsd/proc/proc.c:206-223 | a process waking up is off the list it went to sleep on, and no other leaves a list |
| `Futex.FutexTable.Finish` | bsd/uipc/futex.c:197-221 | a process returning from futex_wait is on no list and counted nowhere |
| `Futex.FutexTable.Wake` | bsd/uipc/futex.c:226-256 | wakes the first n linked waiters of the key and nobody else; no one waiting is lost |
| `Futex.FutexTable.Requeue` | bsd/uipc/futex.c:261-330 | nothing happens if and only if a count is negative, the first address has no queue, or the second has none and none can be made, which alone is out of memory; otherwise the first waiters are woken; between two addresses the next become the second list in order with their counts, and who is lost, by `LostIff`; onto the same address, the list and count it leaves, by `SelfValidIff` and `SelfLostIff` |
| `Futex.FutexTable.RequeueSelf` | bsd/uipc/futex.c:285-326 | the loop on the links: a second move finds the process just moved and empties the list, a single one leaves it alone on it |
| `VnodeCache.UnlinkRing` | bsd/vfs/vnode.c:81-84 | unlinking through the neighbours' pointers takes exactly that vnode out of the ring, both ways round |
| `VnodeCache.PushRing` | bsd/vfs/vnode.c:86-91 | pushing puts the vnode first, both ways round |
| `VnodeCache.KeyUnique` | bsd/vfs/vnode.c:71-79 | at most one hashed vnode has a mount and inode |
| `VnodeCache.RingIsUnreferenced` | bsd/vfs/vnode.c:261-291 | the ring is exactly the hashed vnodes without references |
| `VnodeCache.Cache.constructor` | bsd/vfs/vnode.c:53-58 | an empty cache |
| `VnodeCache.Cache.Find` | bsd/vfs/vnode.c:71-79 | the hashed vnode of the key, or none has it |
| `VnodeCache.Cache.Destroy` | bsd/vfs/vnode.c:94-98 | only a vnode that exists, is unreferenced and in no list is destroyed, and never twice |
| `VnodeCache.Cache.Trim` | bsd/vfs/vnode.c:102-127 | evicts the longest released first and no more than needed, until at most 256 are hashed or the ring is empty |
| `VnodeCache.Cache.Get` | bsd/vfs/vnode.c:129-152 | a hit gains a reference and leaves the ring; a miss makes a vnode outside the hash |
| `VnodeCache.Cache.Commit` | bsd/vfs/vnode.c:154-174 | hashes the vnode if and only if its key is not there, then trims; the loser's reference is dropped |
| `VnodeCache.Cache.Ref` | bsd/vfs/vnode.c:253-259 | one reference more |
| `VnodeCache.Cache.Unref` | bsd/vfs/vnode.c:261-291 | with the last reference a hashed vnode goes to the front of the ring and the ring is trimmed; any other is destroyed |
| `VnodeCache.Cache.Drop` | bsd/vfs/vnode.c:186-208 | a vnode leaves hash and ring, destroyed if unreferenced and doomed otherwise |
| `VnodeCache.Cache.Invalidate` | bsd/vfs/vnode.c:176-209 | afterwards the key is not found; nothing else changes |
| `VnodeCache.Cache.FlushMount` | bsd/vfs/vnode.c:211-240 | exactly the mount's vnodes leave the hash, and the ring keeps its order |
| `Path.ParseAtSlash` | bsd/vfs/vfs.c:956-962 | a slash separates the components before it from those after it |
| `Path.RunAgrees` | bsd/vfs/vfs.c:956-988 | the machine on texts computes the push and pop of components and keeps the text absolute without double slashes |
| `Path.RunFitsIff` | bsd/vfs/vfs.c:979-985 | it succeeds if and only if every text on the way fits with its NUL |
| `Path.CleanText` | bsd/vfs/vfs.c:968-983 | such a text is its components joined, up to one slash at the end |
| `Path.BuildNormal` | bsd/vfs/vfs.c:926-991 | on success the components are those of the current directory, for a relative input and an absolute directory, else none, pushed and popped by the input's; none is "." or ".." unless the directory has one |
| `Path.CwdCleanIff` | bsd/vfs/vfs.c:943-988 | no result from an absolute directory goes wrong if and only if the directory has no double slash |
| `Path.BuildFitsIff` | bsd/vfs/vfs.c:930-991 | the exact condition of a success: room for the directory and one byte more, if it is used, and for every text on the way |
| `Path.FitsButFails` | bsd/vfs/vfs.c:944-985 | two calls whose result "/" would fit fail |
| `Path.PopComponent` | bsd/vfs/vfs.c:970-976 | the loop drops the last component of the buffer's text |
| `Path.PushComponent` | bsd/vfs/vfs.c:979-987 | appends the component after a slash, or fails if and only if it does not fit |
| `Path.CopyCwd` | bsd/vfs/vfs.c:944-948 | copies the directory if and only if one byte more than it needs is left |
| `Path.BuildAbsPath` | bsd/vfs/vfs.c:930-991 | succeeds if and only if there is that room; the buffer ends up with the directory's text worked on by the input and its NUL, whose components are as above; nothing outside the buffer is written |
| `Mmap.OneMeaning` | bsd/sys/sys_mmap.c:66-75 | an address has at most one protection, file and offset |
| `Mmap.CutOk` | bsd/sys/sys_mmap.c:304-358 | taking a range out keeps the regions aligned, non-empty, in bounds and disjoint |
| `Mmap.ReplaceMeaning` | bsd/sys/sys_mmap.c:304-358 | MAP_FIXED takes away exactly the range, and besides it only the tail of a split that finds no slot |
| `Mmap.FullStaysFull` | bsd/sys/sys_mmap.c:332-364 | in that case the table stays full, so the call fails |
| `Mmap.UnmapRightIff` | bsd/sys/sys_mmap.c:402-442 | munmap leaves every other page as it was if and only if it cuts no file mapping at the front and splits no region of a full table |
| `Mmap.FrontCutShowsWrongPage` | bsd/sys/sys_mmap.c:402-442 | two pages of a file, the first unmapped: the second shows the first page of the file |
| `Mmap.FullSplitDropsHead` | bsd/sys/sys_mmap.c:402-442 | a full table and a middle page unmapped: the page before it is gone too |
| `Mmap.MapKeepsReference` | bsd/sys/sys_mmap.c:237-302 | a file mapping at the top of user space fails and keeps its reference |
| `Mmap.RegionTable.FindRegion` | bsd/sys/sys_mmap.c:66-75 | the region with the address, or nothing is mapped there |
| `Mmap.RegionTable.AllocSlot` | bsd/sys/sys_mmap.c:78-84 | the first free slot, or all are used |
| `Mmap.RegionTable.CutRange` | bsd/sys/sys_mmap.c:304-358 | the loop trims every region or splits one, and moves the vnode references with the regions |
| `Mmap.RegionTable.Place` | bsd/sys/sys_mmap.c:302-380 | records the region if and only if a slot is left, and then exactly the range changes |
| `Mmap.RegionTable.Map` | bsd/sys/sys_mmap.c:237-380 | succeeds if and only if the arguments are acceptable and the range, at the address if fixed and else at the cursor, lies in user space; success gives exactly the pages it touches the protection and flags given and the file's bytes from the offset on, and every other page keeps its meaning; a plain mapping never overlaps; one vnode reference per file region, except the one kept when an accepted file mapping is out of range |
| `Mmap.PageUpWhole` | bsd/sys/sys_mmap.c:266-269 | rounding a length up wraps if and only if it is above 2^64 - 4096, and else gives the least whole number of pages |
| `Mmap.RegionMeans` | bsd/sys/sys_mmap.c:267-360 | the region made from the arguments means the pages that the length touches, with the protection, flags and file bytes given |
| `Mmap.RegionTable.Unmap` | bsd/sys/sys_mmap.c:382-444 | accepted if and only if the range is aligned and mapped throughout; then it is unmapped, and the rest is as it was by `UnmapRightIff` |
| `Mmap.RegionTable.Teardown` | bsd/sys/sys_mmap.c:113-121 | no region is left and every region's reference is given back |
| `Mmap.RegionTable.Fork` | bsd/sys/sys_mmap.c:125-139 | every address means in the child what it means in the parent, with references of its own |
| `Signal.RoundTrip` | bsd/sys/sys_signal.c:346-385 | returning through frame bytes that nobody wrote restores rip, rsp, rax, the safe flags and the mask of signals 1 to 31, or re-issues the same system call number and arguments at the rewound pc |
| `Signal.NestedReturn` | bsd/sys/sys_signal.c:346-350 | after a delivery inside a handler and its return, the outer return through a restorer takes the interrupted stack for its frame; without a restorer it finds its frame if and only if it returns with the stack pointer it was entered with |
| `Signal.NestedFault` | bsd/sys/sys_mmap.c:205-235 | a fault inside the handler of SIGUSR1, run through: the outer return looks for its frame of 0x7F80 at 0x8000 |
| `Signal.Process.FaultSignal` | bsd/sys/sys_mmap.c:220-234 | SIGSEGV is caught at once even inside a handler, unless blocked; a failed copy ends the process |
| `Signal.FrameBelow` | bsd/signal/signal.c:351-368 | the frame and the restorer's address are disjoint and end at the top of the stack |
| `Signal.ByDefault` | bsd/signal/signal.c:67-82 | CHLD, URG and WINCH are ignored, STOP, TSTP, TTIN and TTOU stop, CONT continues, all others end the process |
| `Signal.HandlerStarts` | bsd/signal/signal.c:338-391 | a handler gets its signal in rdi, no longer pending, with sa_mask and, without SA_NODEFER, the signal itself blocked and no other that was not |
| `Signal.StackUsed` | bsd/signal/signal.c:351-391 | with SA_ONSTACK the frame lies wholly on an alternate stack that is large enough and not in use, which then is; else wholly below the interrupted stack pointer |
| `Signal.StackKept` | bsd/signal/signal.c:351-372 | a delivery writes nothing at or above the top of the stack it uses |
| `Signal.CopiedOut` | bsd/signal/signal.c:369-373 | the frame is read back from its bytes after the first copy and still after the second, and the restorer after that |
| `SigFrame.BitsRoundTrip` | bsd/signal/signal.c:338-341 | a mask read back from its number is the mask |
| `SigFrame.WordsRoundTrip` | bsd/include/bsd/signal.h:99-122 | the fields of the frame packed into its fifteen words come back, whatever the unused ones hold |
| `SigFrame.FrameRoundTrip` | bsd/include/bsd/signal.h:99-122 | and so they do from the 120 bytes |
| `SigFrame.FrameUntouched` | bsd/sys/sys_signal.c:351-352 | the same bytes give the same frame |
| `Signal.MixedMask` | bsd/signal/signal.c:338-349 | the packed and repacked mask is the handler's mask with KILL and STOP out |
| `Signal.Process.HasPending` | bsd/signal/signal.c:56-65 | true if and only if some signal is deliverable |
| `Signal.Process.PackMask` | bsd/signal/signal.c:338-341 | the blocked set in mask bits |
| `Signal.Process.Deliver` | bsd/signal/signal.c:243-391 | what becomes of a signal by mask, handler and default action; a failed copy leaves pending, mask and registers unchanged; memory changes only where the frame and the restorer go; KILL and STOP stay unblocked |
| `Signal.Process.Catch` | bsd/signal/signal.c:303-391 | the frame bytes hold the interrupted context, and kernel state changes only after both copies |
| `Signal.Process.CheckPending` | bsd/signal/signal.c:538-565 | delivers the lowest deliverable signal; none if and only if there is none or a handler is running; if one of the copies to the stack fails the process ends with SIGSEGV |
| `Signal.KillHeldBack` | bsd/signal/signal.c:538-546 | SIGKILL sent to a process in a handler is not delivered |
| `Signal.Process.RestoreMask` | bsd/sys/sys_signal.c:274-282 | the saved mask without KILL and STOP |
| `Signal.Process.Sigreturn` | bsd/sys/sys_signal.c:346-385 | the context and mask of the frame in the bytes at the recorded address, or a fault |
| `Signal.Process.Sigprocmask` | bsd/sys/sys_signal.c:429-484 | blocks, unblocks or sets exactly the mask less KILL and STOP; a bad pointer or argument changes nothing |
| `Signal.Process.SuspendBegin` | bsd/sys/sys_signal.c:205-220 | the mask given, KILL and STOP unblocked, while it sleeps |
| `Signal.Process.Sigsuspend` | bsd/sys/sys_signal.c:205-224 | sleeps if and only if nothing is deliverable under the mask given; leaves everything but the pending set as it was |
| `Signal.Process.SuspendAndReturn` | bsd/sys/sys_signal.c:205-224 | on the way back nothing is delivered if and only if the old mask blocks all that is pending; otherwise the lowest that it lets through |
| `Signal.SuspendMisses` | bsd/sys/sys_signal.c:219-223 | a blocked SIGUSR1 let in by sigsuspend ends it and is not delivered |
| `Signal.Process.Sigaction` | bsd/sys/sys_signal.c:165-200 | KILL and STOP cannot be caught or masked; only that signal's action changes |
| `Signal.Process.Kill` | bsd/sys/sys_signal.c:75-119 | the signal is pending, and deliverable if it is KILL or STOP; stop and continue change the state; a process that kills itself is gone at once |
| `Udiv.Align` | mk/lib/udivdi3.c:49-52 | the divisor is shifted below the dividend without losing a bit |
| `Udiv.DivMod` | mk/lib/udivdi3.c:41-62 | quotient and remainder of every 64-bit dividend and divisor; a zero divisor gives 0 and the dividend |
| `Udiv.DivSigned` | mk/lib/udivdi3.c:89-98 | the quotient truncated toward zero |
| `Udiv.ModSigned` | mk/lib/udivdi3.c:100-108 | the remainder with the dividend's sign |
| `Udiv.TruncatedUnique` | mk/lib/udivdi3.c:89-108 | truncating division has one answer |

## Left out

- Udiv.DivSigned: operands whose negation does not fit 64 bits are excluded, because negating them is undefined in the source.
- Udiv.ModSigned: the same operands are excluded.
- Futex.FutexTable.SleepUnlink: the sleep, its deadline and the wake-up of threads are not modelled, and no claim is made that a waiting process is scheduled; the sleep may end early without this step.
- Heap.KernelHeap.Kfree: a payload filled with words that imitate a header just below the pointer is excluded, because the source cannot tell them apart either.
- Pmm.FrameAllocator.constructor: that the bitmap covers all pages is required; `BitmapCoversIff` says when it does.
- Path.BuildNormal: a current directory with a double slash is excluded, because the code keeps it (`CwdCleanIff`).
- VmMap.ObjectTable.SharedFault: faults inside the object on pages numbered 2^31 and above are excluded, because the source loops forever there (`GrowthEndsIff`).
- VmMap.AddressSpace.ResolveFault: shared objects only; anonymous, physical, shadow and user-paged faults are not modelled.
- VmMap.AddressSpace.RecolorAt: retaining an object through a stale entry that names none is taken to have no effect.
- BlockCache.Cache.BlkRead: one caller at a time and leaf devices only; a partition re-enters the cache.
- Port.IpcPort.Recv: a task that receives from itself a message with a capability it holds is excluded, because cspace_move then waits for a lock it has.
- Port.Deliver: the same.
- VmMap.AddressSpace.SplitAt: the freed array is taken to stay readable and writable, with its contents, until the call that freed it ends; that kfree may unmap its pages, so that the write faults, and its reuse by another processor are not modelled.
- VmMap.AddressSpace.SplitInThree: the same.
- VmSystem.System.Protect: the run ends with a call after which the counts are wrong, because an object may then be freed while entries name it; what the contract says of the call itself covers it.
- VmSystem.System.Fault: the same pages as for SharedFault are excluded.
- IpcSystem.System.Recv: the same as for Port.IpcPort.Recv is excluded.
- IpcSystem.System.Exit: messages queued by the task stay queued, as in the source; the ports it held are not released.
- CSpace.Space.Grow: the new half is arbitrary but, for one length of table, the same whenever it is asked for within one call.
- Pipe.SharedPipe.SampleStep: safety only; readers and writers test and sleep without the lock, so wake-ups are not claimed.
- Signal.Process.Deliver: a copy that fails is taken to write nothing.
- ExecStack.UserStack.BuildStack: starts from packed strings of at most 128 arguments each; collecting them from user memory is not modelled.
- arm64 and i386 variants of the heap, signals and address constants.
- Page tables, the frames they take, COW, and freeing the pages of unmapped ranges.
- Port lifetime, waiters and sys_port_call; task creation and handle lookup.
- sys_mprotect, sys_sigaltstack, permission checks of sys_kill, and descriptor lookup.
- Null-pointer arguments, user range checks, logging and panics.
- Races inside vnode_unref between its two locks.
- The network stack, drivers, terminals, boot code, the scheduler and system call dispatch: input and output only, or easy members.

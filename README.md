# Simple-Operating-System kernel core in Dafny

This project models five pieces of a small teaching kernel for 32-bit x86 and proves properties of them:

- **Contiguous frame pool** (mp2 `ContFramePool`). It allocates runs of physical frames. Each frame's state (Free, Used, or head-of-sequence "HoS") is 2 bits of a bitmap, 4 frames per byte. Pools join a process-wide registry, so that `release_frames` can route a bare frame number to the pool that owns it.
- **Two-level page tables** (mp3 and mp4 `PageTable`).
  - The constructor identity-maps the first 4 MiB.
  - The fault handler installs a fresh page table on a directory miss. Otherwise it maps the faulting page to a fresh frame.
  - mp4 adds several things:
    - every frame comes from the process pool;
    - a recursive directory slot (entry 1023 maps the directory itself);
    - a walk over the registered virtual-memory pools before serving a fault;
    - `free_page`, which unmaps a page and returns its frame.
- **Virtual-memory pool** (mp4 `VMPool`). It is a sorted array of allocated regions held in the pool's first page.
  - Allocation rounds a request up to whole pages and places it after the first live region followed by a gap that is large enough.
  - Release finds a region by its base, reports the pages to unmap, and closes the hole.
- **Simple file system** (mp7 `FileSystem`).
  - Block 0 holds the inode list. Block 1 holds the free map, one byte per block.
  - A file's index block lists its data blocks up to the first 0 byte.
- **Ready queue of the scheduler** (mp6 `Queue` and `Scheduler`). This is a singly linked FIFO with static head and tail pointers. `resume` and `add` enqueue a thread; `yield` dequeues and dispatches the front thread.

Modelling choices:
- **Imperative form.** The parts the source writes imperatively stay imperative:
  - The frame bitmap and the VMPool region array are `array`s.
  - The inode table and free map are arrays of a `FileSystem` object.
  - The queue is a linked list of `Node` objects.
  - Each loop is a `while` loop with its invariants, proved against a specification function.
- **Physical memory.** The memory holding paging structures is a map from frame number to its 1024 entries. A directory entry that names a frame therefore names exactly the table the handler writes.
- **Class statics.** The source's class statics (current page table, the frame pools, the registered pool lists, queue head and tail) are fields of one state object.
- **Integers.** Machine words are bounded integers (`u32`). In the address and page-table-entry arithmetic and in the VM pool, every shift, mask and OR of the source is written out as the division, remainder or sum it computes, and wrap-around is made explicit with `Wrap32`. The frame-pool bitmap bytes are `bv8`, and `get_state`/`set_state` keep the source's shifts, masks, OR and XOR on them.

Two behaviours of the source are modelled as written and proved as properties rather than corrected:
- **`allocate` can place a region past the pool's end.** Its only failure test compares the pool's end with the stale slot just past the live regions (`VmPool.AllocateCanLeavePool`).
- **`CreateFile` can claim block 0 on a full disk.** There, `GetFreeBlock` returns 0, which is the inode block. `CreateFile` then records block 0 as the file's index block and marks it used (`FileSystem.FileSystem.CreateFile`).

## Model

| member | source | states |
|---|---|---|
| Common.Wrap32 | mp4/MP4_Sources/vm_pool.C:68 | the 32-bit unsigned result is congruent to the exact sum modulo 2^32 and equal to it when it fits |
| FramePool.EncodeThenDecode | mp2/MP2_Sources/cont_frame_pool.C:110-145 | after set_state writes a state into a 2-bit slot, get_state reads it back, and the other three slots of the byte keep their bits |
| FramePool.EncodeKeepsSlot | mp2/MP2_Sources/cont_frame_pool.C:127-145 | writing one 2-bit slot leaves each other slot of the byte with the bits it had |
| FramePool.DecodeAfterWrite | mp2/MP2_Sources/cont_frame_pool.C:127-145 | over a whole bitmap, one set_state changes the decoded state of that frame only |
| FramePool.NeededInfoFrames | mp2/MP2_Sources/cont_frame_pool.C:297-303 | the number of info frames is the least whose 16384 slots each cover n frames |
| FramePool.FirstFit | mp2/MP2_Sources/cont_frame_pool.C:231-252 | the scan result is the lowest start of m consecutive Free frames inside the limit; no earlier start has such a run |
| FramePool.Claimed | mp2/MP2_Sources/cont_frame_pool.C:253-258 | claiming a run marks its first frame HoS and the rest Used, and changes nothing else |
| FramePool.RunEnd | mp2/MP2_Sources/cont_frame_pool.C:152-157 | the release loop stops at the first frame after the head that is not Used, or at the pool's end |
| FramePool.ClaimedCount | mp2/MP2_Sources/cont_frame_pool.C:253-259 | claiming a run lowers the free count by the number of Free frames in it, which is the run's length exactly when the run was all Free |
| FramePool.FreshPoolCount | mp2/MP2_Sources/cont_frame_pool.C:190-207 | a fresh pool has nframes Free frames, or one fewer when the bitmap lives in the pool's own first frame |
| FramePool.FreeFrameGivesFit | mp2/MP2_Sources/cont_frame_pool.C:237-252 | whenever a frame is Free, a one-frame request finds a fit |
| FramePool.ReleasedRunCount | mp2/MP2_Sources/cont_frame_pool.C:147-158 | releasing a run at its head raises the free count by the run's length |
| FramePool.ClaimThenRelease | mp2/MP2_Sources/cont_frame_pool.C:147-158 | releasing a run just claimed restores every frame state, and claiming keeps the bitmap well formed (every Used frame follows a HoS or Used frame) |
| FramePool.ReleasedRunWellFormed | mp2/MP2_Sources/cont_frame_pool.C:147-158 | releasing keeps the bitmap well formed |
| FramePool.AsWrittenReleaseLeavesRun | mp2/MP2_Sources/cont_frame_pool.C:152-157 | releasing a 3-frame run as written frees only the head and the next frame, while the run release frees all three |
| FramePool.Owner | mp2/MP2_Sources/cont_frame_pool.C:286-289 | the first registered pool whose range [base, base + nframes) holds the frame; no earlier pool holds it |
| FramePool.OwnerAsWritten | mp2/MP2_Sources/cont_frame_pool.C:286-289 | routing as written: the first pool whose range with an inclusive upper end holds the frame |
| FramePool.AsWrittenRoutingMisroutes | mp2/MP2_Sources/cont_frame_pool.C:286-289 | with pools [512, 1024) and [1024, 8192), frame 1024 is routed as written to the first pool, which does not own it |
| FramePool.AsWrittenReleaseLeaks | mp2/MP2_Sources/cont_frame_pool.C:147-158 | with pools [512, 1024) and [1024, 8192), frame 1024 is routed as written to the first pool, the corrected routing names the second; the first pool releases its slot 512, one past its frames, and unless that slot reads HoS nothing changes, so the process pool's frame stays claimed |
| FramePool.OwnerAsWrittenAgrees | mp2/MP2_Sources/cont_frame_pool.C:286-289 | when the pool picked as written really owns the frame, the corrected routing picks the same pool |
| FramePool.ContFramePool.GetState | mp2/MP2_Sources/cont_frame_pool.C:110-125 | the decoded state of a frame is its entry in the bitmap's state view |
| FramePool.ContFramePool.SetState | mp2/MP2_Sources/cont_frame_pool.C:127-145 | one slot of one byte changes to the new state; every other byte and slot is unchanged |
| FramePool.ContFramePool.constructor | mp2/MP2_Sources/cont_frame_pool.C:185-222 | every frame of the pool is Free, except frame 0 when it holds the bitmap (HoS); the counter is nframes or nframes - 1; the pool is appended to the registry |
| FramePool.ContFramePool.MarkFree | mp2/MP2_Sources/cont_frame_pool.C:200-202 | frames 0 .. n-1 become Free and every other slot keeps its state |
| FramePool.ContFramePool.ScanFirstFit | mp2/MP2_Sources/cont_frame_pool.C:231-252 | the scan finds a run exactly when a first fit exists, and stops at that first fit |
| FramePool.ContFramePool.GetFrames | mp2/MP2_Sources/cont_frame_pool.C:224-266 | returns 0 and changes nothing when the counter is below n or no run fits; otherwise claims the first fit of Span(n) frames, returns base + its index and lowers the counter by Span(n), which is n, or 1 when n is 0; the pool stays ready, and the counter stays exact if it was exact before |
| FramePool.ContFramePool.GetTwoFrames | mp3/MP3_Sources/page_table.C:28-29 | two get_frames(1) calls return two distinct frames that were Free and are now taken: the first is the first fit, the second the first fit once the first is claimed; no other frame changes, and the counter falls by two and stays exact |
| FramePool.ContFramePool.ClaimRun | mp2/MP2_Sources/cont_frame_pool.C:253-259 | the claim loop leaves the run claimed and lowers the counter by its length |
| FramePool.ContFramePool.MarkInaccessible | mp2/MP2_Sources/cont_frame_pool.C:268-280 | the run is marked HoS then Used and the counter drops by its length; the counter stays exact exactly when the run was all Free |
| FramePool.ContFramePool.ReleaseFrameInPool | mp2/MP2_Sources/cont_frame_pool.C:147-158 | as written, for any slot up to nframes (the slot the as-written routing can pass): nothing changes unless the frame is a head; a head and at most one following Used frame become Free |
| FramePool.ContFramePool.FreeRunAt | mp2/MP2_Sources/cont_frame_pool.C:151-157 | the head and the Used frames after it become Free, and the counter rises by their number |
| FramePool.ContFramePool.FreeUsedFrom | mp2/MP2_Sources/cont_frame_pool.C:153-157 | from a given frame on, the Used frames up to the run's end become Free, one counter step each |
| FramePool.ContFramePool.ReleaseRunInPool | mp2/MP2_Sources/cont_frame_pool.C:147-158 | corrected release: the whole run a head starts becomes Free; the counter stays exact and the scan sentinel stays non-Free |
| FramePool.ExtentsOf | mp2/MP2_Sources/cont_frame_pool.C:287 | each pool's extent is its (base, nframes) |
| FramePool.PoolRegistry.Extents | mp2/MP2_Sources/cont_frame_pool.C:287 | the registry's extents are those of its pools, in registration order |
| FramePool.PoolRegistry.constructor | mp2/MP2_Sources/cont_frame_pool.C:182-183 | the registry starts empty |
| FramePool.PoolRegistry.ReleaseAt | mp2/MP2_Sources/cont_frame_pool.C:291 | the release runs in the owning pool only: that pool's run is released and every other pool keeps its states and counter; ready pools stay ready |
| FramePool.PoolRegistry.ReleaseFrames | mp2/MP2_Sources/cont_frame_pool.C:282-295 | corrected (see Findings): the first pool with base <= frame < base + nframes releases the whole run the frame heads and keeps its counter exact; every other pool keeps its states and counter |
| Paging.DirIndex | mp4/MP4_Sources/page_table.C:66 | the directory index is below 1024 |
| Paging.TableIndex | mp4/MP4_Sources/page_table.C:67 | the table index is below 1024 |
| Paging.AddressSplit | mp4/MP4_Sources/page_table.C:66-67 | an address is its directory index times 4 MiB plus its table index times 4 KiB plus its offset |
| Paging.FreePageIndexAgrees | mp4/MP4_Sources/page_table.C:113-114 | free_page's (a << 10) >> 22 table index equals handle_fault's (a >> 12) & 1023 |
| Paging.FrameAddress | mp3/MP3_Sources/page_table.C:76 | a frame's address is page aligned and divides back to the frame |
| Paging.Or3 | mp3/MP3_Sources/page_table.C:78 | OR-ing 3 sets the two low bits and keeps the rest |
| Paging.EntryFrame | mp3/MP3_Sources/page_table.C:85 | an entry's frame is the entry with its low 12 bits cleared, divided by the page size |
| Paging.MapEntryDecodes | mp4/MP4_Sources/page_table.C:94 | an entry made from a frame with \| 3 is present and decodes back to that frame; the not-present value 2 is not present |
| Paging.Unmapped | mp3/MP3_Sources/page_table.C:79-82 | a fresh table holds 1024 not-present entries |
| Paging.Identity | mp3/MP3_Sources/page_table.C:30-36 | entry i of the first table maps frame i |
| Paging.FillIdentity | mp3/MP3_Sources/page_table.C:30-36 | the fill loop builds the identity table |
| Paging.FillNotPresent | mp4/MP4_Sources/page_table.C:88-91 | the fill loop builds the all-unmapped table |
| Mp3PageTable.InitialDirectory | mp3/MP3_Sources/page_table.C:37-43 | entry 0 maps the first table; entries 1 to 1023 are unmapped |
| Mp3PageTable.FillDirectory | mp3/MP3_Sources/page_table.C:37-43 | the directory loop builds that directory |
| Mp3PageTable.PagingState.InitPaging | mp3/MP3_Sources/page_table.C:15-24 | records the two pools and the shared size; no table is current and paging is off |
| Mp3PageTable.PagingState.EnablePaging | mp3/MP3_Sources/page_table.C:60-66 | paging is on |
| Mp3PageTable.PagingState.HandleFault | mp3/MP3_Sources/page_table.C:68-90 | a directory miss installs an all-unmapped table in the frame get_frames(1) returns from the kernel pool, which claims that frame and lowers its counter by one, and leaves the process pool alone; a hit maps the faulting entry to the frame get_frames(1) claims from the process pool and leaves the kernel pool alone; the pool used stays ready and an exact counter stays exact |
| Mp3PageTable.PagingState.FaultTwice | mp3/MP3_Sources/page_table.C:68-90 | two faults on an address whose directory entry is missing leave the address mapped |
| Mp3PageTable.InitialTablesWellFormed | mp3/MP3_Sources/page_table.C:26-48 | the two frames the constructor fills form a well-formed table set: the only present directory entry names the table, a frame other than the directory's |
| Mp3PageTable.PagingState.TakeTwoFrames | mp3/MP3_Sources/page_table.C:28-29 | two distinct frames that were free in the kernel pool and are now taken, the first being its first fit and the second the first fit once the first is claimed; no other kernel frame changes; the counter falls by two and stays exact |
| Mp3PageTable.PageTable.constructor | mp3/MP3_Sources/page_table.C:26-48 | the directory and the first table are the kernel pool's two successive first fits, distinct frames that were free and are now taken, no other kernel frame changing, with the counter two lower and exact; memory holds exactly the identity table and the initial directory |
| Mp3PageTable.PageTable.InstallTable | mp3/MP3_Sources/page_table.C:76-82 | the directory entry maps the new frame, which holds an all-unmapped table; the table invariant is kept |
| Mp3PageTable.PageTable.MapPage | mp3/MP3_Sources/page_table.C:85-87 | exactly one entry of the named table changes, to the new frame |
| Mp3PageTable.PageTable.Load | mp3/MP3_Sources/page_table.C:51-58 | the table becomes the current one |
| Mp4PageTable.InitialDirectory | mp4/MP4_Sources/page_table.C:35-45 | entry 0 maps the first table, entries 1 to 1022 are unmapped, and entry 1023 maps the directory itself |
| Mp4PageTable.FillDirectory | mp4/MP4_Sources/page_table.C:35-45 | the directory loop builds that directory |
| Mp4PageTable.FirstLegitimate | mp4/MP4_Sources/page_table.C:70-79 | the first registered VM pool that admits the address; no earlier one does |
| Mp4PageTable.PagingState.InitPaging | mp4/MP4_Sources/page_table.C:15-22 | records the pools and the shared size; no table is current, paging is off, and no VM pool is registered |
| Mp4PageTable.PagingState.EnablePaging | mp4/MP4_Sources/page_table.C:57-61 | paging is on |
| Mp4PageTable.PagingState.RegisterPool | mp4/MP4_Sources/page_table.C:98-110 | the pool is appended at the end of the registered list |
| Mp4PageTable.PagingState.NewVMPool | mp4/MP4_Sources/vm_pool.C:47-58 | a new VM pool with no regions is created and registered last |
| Mp4PageTable.PagingState.CheckLegitimate | mp4/MP4_Sources/page_table.C:70-82 | the walk finds a pool exactly when one admits the address; when it finds none it has walked off the list, so the assert guard never holds |
| Mp4PageTable.PagingState.HandleFault | mp4/MP4_Sources/page_table.C:63-96 | as written: every fault is served; a miss installs an all-unmapped table in the frame get_frames(1) returns, a hit maps the faulting entry to that frame; the process pool claims it and lowers its counter by one, keeping an exact counter exact; the kernel pool is untouched |
| Mp4PageTable.PagingState.HandleFaultChecked | mp4/MP4_Sources/page_table.C:63-96 | corrected: once a pool is registered, a fault that no pool admits changes neither memory nor either pool; any other fault is served as above, with the same claim in the process pool |
| Mp4PageTable.PagingState.TakeTwoFrames | mp4/MP4_Sources/page_table.C:26-27 | two distinct frames that were free in the process pool and are now taken, the first being its first fit and the second the first fit once the first is claimed; no other process frame changes; the counter falls by two and stays exact |
| Mp4PageTable.PagingState.ServeMiss | mp4/MP4_Sources/page_table.C:84-91 | the directory entry maps the frame get_frames(1) returns, which holds an all-unmapped table; the process pool claims that frame and lowers its counter by one |
| Mp4PageTable.PagingState.ServeHit | mp4/MP4_Sources/page_table.C:92-95 | exactly the faulting entry maps the frame get_frames(1) returns; the process pool claims that frame and lowers its counter by one |
| Mp4PageTable.PagingState.ReleaseFrames | mp4/MP4_Sources/page_table.C:117 | corrected (see Findings): the first pool with base <= frame < base + nframes releases the whole run the frame heads; the other pools are unchanged and both paging pools stay ready |
| Mp4PageTable.PagingState.FaultTwice | mp4/MP4_Sources/page_table.C:63-96 | two faults on a legitimate address whose directory entry is missing leave the address mapped |
| Mp4PageTable.InitialTablesWellFormed | mp4/MP4_Sources/page_table.C:24-48 | the two frames the constructor fills form a well-formed table set: below the self-map slot the only present directory entry names the table, a frame other than the directory's |
| Mp4PageTable.PageTable.constructor | mp4/MP4_Sources/page_table.C:24-48 | the directory and the first table are the process pool's two successive first fits, distinct frames that were free and are now taken, no other process frame changing, with the counter two lower and exact; memory holds exactly the identity table and the self-mapping directory |
| Mp4PageTable.PageTable.InstallTable | mp4/MP4_Sources/page_table.C:86-91 | the directory entry maps the new frame, which holds an all-unmapped table |
| Mp4PageTable.PageTable.MapPage | mp4/MP4_Sources/page_table.C:94 | exactly one entry of the named table changes, to the new frame |
| Mp4PageTable.PageTable.Load | mp4/MP4_Sources/page_table.C:51-55 | the table becomes the current one |
| Mp4PageTable.PageTable.FreePage | mp4/MP4_Sources/page_table.C:112-121 | an unmapped page changes nothing, neither memory nor any pool's frame states or free count; a mapped page has its entry set to not present, its frame's run released through the corrected release_frames, and the table reloaded |
| Mp4PageTable.PageTable.ReleaseEntry | mp4/MP4_Sources/page_table.C:116-119 | the entry's frame is released through the corrected release_frames, then the entry is cleared and the table loaded |
| Mp4PageTable.PageTable.ClearAndLoad | mp4/MP4_Sources/page_table.C:118-119 | the entry is cleared and the table becomes current |
| Mp4PageTable.PageTable.ClearEntry | mp4/MP4_Sources/page_table.C:118 | exactly one entry becomes not present |
| VmPool.RoundedSize | mp4/MP4_Sources/vm_pool.C:61-64 | the request rounded up to whole pages: the least page multiple not below it, or 0 when that wraps |
| VmPool.FirstGap | mp4/MP4_Sources/vm_pool.C:71-76 | the first region whose gap from its predecessor exceeds the rounded size; no earlier gap does |
| VmPool.AllocateLive | mp4/MP4_Sources/vm_pool.C:60-93 | an empty pool gets one region a page above the base; otherwise the stale-slot test refuses, or the region is inserted at the first fitting gap, right after its predecessor, keeping the others in order |
| VmPool.AllocateCanLeavePool | mp4/MP4_Sources/vm_pool.C:77-87 | a pool whose one region reaches its end still accepts a page and places it past the end |
| VmPool.InsertKeepsSorted | mp4/MP4_Sources/vm_pool.C:82-87 | inserting at the first fitting gap keeps the live regions sorted and disjoint |
| VmPool.RemoveKeepsSorted | mp4/MP4_Sources/vm_pool.C:115-118 | removing a region keeps the others in order, sorted and disjoint |
| VmPool.FindBase | mp4/MP4_Sources/vm_pool.C:98-104 | the first live region whose base is the address; no earlier one has it |
| VmPool.PageAddresses | mp4/MP4_Sources/vm_pool.C:110-112 | the addresses passed to free_page: one per page of the region, in order |
| VmPool.VMPool.constructor | mp4/MP4_Sources/vm_pool.C:47-58 | base and size recorded, no live region |
| VmPool.VMPool.FindGap | mp4/MP4_Sources/vm_pool.C:71-76 | the gap loop returns the first fitting gap |
| VmPool.VMPool.Allocate | mp4/MP4_Sources/vm_pool.C:60-93 | the region array, count and result are those of the allocate specification |
| VmPool.VMPool.Place | mp4/MP4_Sources/vm_pool.C:82-87 | the later regions shift up and the new one sits at the gap |
| VmPool.VMPool.ShiftUp | mp4/MP4_Sources/vm_pool.C:82-84 | each region from the gap to the count moves up one slot |
| VmPool.VMPool.ShiftDown | mp4/MP4_Sources/vm_pool.C:115-117 | each later live region moves down one slot |
| VmPool.VMPool.FindRegion | mp4/MP4_Sources/vm_pool.C:98-107 | the search loop returns the first live region with that base |
| VmPool.VMPool.Release | mp4/MP4_Sources/vm_pool.C:95-119 | an unknown base changes nothing; otherwise the region's pages are reported and the region is removed |
| VmPool.VMPool.IsLegitimate | mp4/MP4_Sources/vm_pool.C:121-127 | an address is legitimate exactly when it lies in [base, base + size) |
| FileSystem.FindInode | mp7/MP7_Sources/file_system.C:99-105 | the first inode with the id; no earlier inode has it |
| FileSystem.FirstFree | mp7/MP7_Sources/file_system.C:159-168 | the first block whose free-map byte is 0 |
| FileSystem.FreeBlockResult | mp7/MP7_Sources/file_system.C:158-170 | a block index in the map, or 0 (NULL) when no block is free |
| FileSystem.Listed | mp7/MP7_Sources/file_system.C:141-144 | the index block's entries before its first 0 byte |
| FileSystem.Cleared | mp7/MP7_Sources/file_system.C:141-146 | each listed block's map byte is 0 and the others keep their values |
| FileSystem.MountedFreeMap | mp7/MP7_Sources/file_system.C:74-77 | the stored free map with blocks 0 and 1 marked used |
| FileSystem.Format | mp7/MP7_Sources/file_system.C:83-94 | blocks 0 and 1 are zeroed and the result is true |
| FileSystem.FileSystem.constructor | mp7/MP7_Sources/file_system.C:40-46 | no disk, inode list or free map |
| FileSystem.FileSystem.Mount | mp7/MP7_Sources/file_system.C:63-81 | the inode list is the stored one and the free map is block 1 with blocks 0 and 1 used |
| FileSystem.FileSystem.LookupFile | mp7/MP7_Sources/file_system.C:96-106 | the search loop returns the first inode with the id |
| FileSystem.FileSystem.GetFreeBlock | mp7/MP7_Sources/file_system.C:158-170 | the first free block is zeroed on disk and marked used; with none, nothing changes and 0 is returned |
| FileSystem.FileSystem.CreateFile | mp7/MP7_Sources/file_system.C:108-129 | an existing id or no empty inode gives false and no change; otherwise the first empty inode gets the id, a free block and size 0, and the block is marked used; id 0 always fails |
| FileSystem.FileSystem.DeleteFile | mp7/MP7_Sources/file_system.C:131-156 | an unknown id gives false; otherwise the blocks listed in the index block and the index block are freed, and the inode is emptied with its size kept |
| FileSystem.FileSystem.FreeListed | mp7/MP7_Sources/file_system.C:139-146 | the inner loop frees exactly the listed blocks |
| FileSystem.CreatedIsFound | mp7/MP7_Sources/file_system.C:108-129 | after a successful create, looking the id up finds the inode it took |
| FileSystem.CreateKeepsUnique | mp7/MP7_Sources/file_system.C:113-118 | create refuses an id that is already held, so writing the new id into an inode keeps every non-zero id held by one inode only |
| FileSystem.DeleteKeepsUnique | mp7/MP7_Sources/file_system.C:131-156 | delete clears an inode's id, which keeps the ids unique |
| FileSystem.UniqueIdsOnce | mp7/MP7_Sources/file_system.C:96-106 | with unique ids, a non-zero id is held by at most one inode, the hypothesis of DeletedIsGone |
| FileSystem.DeletedIsGone | mp7/MP7_Sources/file_system.C:131-156 | after a delete, the id is no longer found and the emptied inode is the first empty one unless an earlier one was |
| FileSystem.FormattedMount | mp7/MP7_Sources/file_system.C:63-94 | mounting a formatted disk marks only blocks 0 and 1 used, and the first free block is 2 |
| Scheduler.Node.constructor | mp6/MP6_Sources/scheduler.C:51-54 | the node holds the thread and ends a list |
| Scheduler.ReadyQueue.constructor | mp6/MP6_Sources/scheduler.C:48-49 | head and tail start NULL and the queue is empty |
| Scheduler.ReadyQueue.HeadNullIffTailNull | mp6/MP6_Sources/scheduler.C:56-79 | head is NULL exactly when tail is, exactly when the queue is empty |
| Scheduler.ReadyQueue.Enqueue | mp6/MP6_Sources/scheduler.C:56-65 | the node's thread joins the back; the others keep their order |
| Scheduler.ReadyQueue.Dequeue | mp6/MP6_Sources/scheduler.C:67-79 | the front thread is returned and the rest keep their order; a one-element queue ends with head and tail NULL |
| Scheduler.Scheduler.constructor | mp6/MP6_Sources/scheduler.C:81-83 | the scheduler works on the ready queue |
| Scheduler.Scheduler.Resume | mp6/MP6_Sources/scheduler.C:98-107 | the thread joins the back of the queue in a fresh node |
| Scheduler.Scheduler.Add | mp6/MP6_Sources/scheduler.C:109-117 | the same as resume |
| Scheduler.Scheduler.Yield | mp6/MP6_Sources/scheduler.C:85-96 | an empty queue is left as it is and nothing is dispatched; otherwise the front thread is dispatched and removed |
| Scheduler.Scheduler.Terminate | mp6/MP6_Sources/scheduler.C:119-129 | yields: the front thread, if any, is dispatched and removed |
| Scheduler.Scheduler.AddAddYieldYield | mp6/MP6_Sources/scheduler.C:85-117 | on an empty queue, two threads added in turn are dispatched in the same order and the queue ends empty |

## Left out

- Hardware and I/O are not modelled: the cr0, cr2 and cr3 registers, `Console` output, and the disk driver. The faulting address is a parameter; `load` only sets the current table; a disk is a sequence of blocks. `get_info_of_linked_list`, which only prints, is not modelled.
- The recursive window of mp4 is modelled by what it reaches: the handler writes the table that the directory entry names.
- Mp4PageTable.PagingState.HandleFault: requires the fault to lie below the top 4 MiB. A fault there would write the directory through its own self-mapping slot.
- Mp4PageTable.PagingState.HandleFaultChecked: the same requirement as HandleFault, for the same reason.
- Mp4PageTable.PagingState.FaultTwice: the same requirement as HandleFault, for the same reason.
- Mp4PageTable.PageTable.FreePage: releases the frame through the corrected `release_frames` (first pool with base <= frame < base + nframes, whole run freed), not the code as written at cont_frame_pool.C:287 and 153-157. As written, with pools [512, 1024) and [1024, 8192), frame 1024 goes to the first pool, which reads its own slot 512, the one just past its bitmap entries, and frees nothing unless that slot reads HoS; the process frame leaks. Both defects are under Findings.
- Mp4PageTable.PageTable.ReleaseEntry: the same corrected release as FreePage.
- Mp4PageTable.PagingState.ReleaseFrames: the same corrected release as FreePage; the as-written routing is `FramePool.OwnerAsWritten` and the as-written loop `FramePool.ContFramePool.ReleaseFrameInPool`.
- Mp4PageTable.PageTable.FreePage: requires the page's directory entry to be present. Otherwise the source's read through the recursive window would itself fault.
- Mp4PageTable.PageTable.FreePage: requires a registered pool to own a mapped page's frame. Otherwise the source's `release_frames` walks off the end of the pool list.
- Mp3PageTable.PagingState.FaultTwice: requires the kernel pool not to hand out the directory's own frame, which holds when the directory was allocated from that pool.
- Mp4PageTable.PagingState.FaultTwice: the same requirement, for the process pool.
- Mp3PageTable.PageTable.constructor: requires two free frames with an exact free counter. When `get_frames` returns 0, the source's directory lands at physical address 0, which is not modelled.
- Mp4PageTable.PageTable.constructor: the same requirement, for the process pool.
- FramePool.ContFramePool.GetFrames: requires the bitmap slot just past the pool not to be Free. The source's scan reads that slot (`frame_no <= nframes`) and would otherwise run on into memory beyond the bitmap.
- `nFreeFrames` is an unbounded integer. The wrap-around of an unsigned counter driven below 0 (for example by `mark_inaccessible` on frames already taken) is not modelled.
- FramePool.ContFramePool.ReleaseFrameInPool: requires the slot after the released one to lie inside the bitmap, since the source's loop reads it; for slot nframes, the one the as-written routing can pass, the bitmap must also hold slot nframes + 1. Reads past the bitmap are not modelled.
- FramePool.ContFramePool.ReleaseRunInPool: the corrected release loop also stops at the pool's end, where the source's loop would read on.
- The registry's linked list of pools (`head`, `next`, `num_pools`) is a sequence in registration order. The same holds for the list of VM pools in mp4.
- VmPool.VMPool.Release: returns the page addresses instead of calling `free_page` on each. The paging layer frees them with `Mp4PageTable.PageTable.FreePage`.
- VmPool.VMPool.Allocate: requires fewer than MAX_REGIONS live regions (512: one 4096-byte page of 8-byte entries). With 512, the source writes a 513th entry past the end of its one-page region array; that overflow is not modelled.
- FramePool.ContFramePool.MarkInaccessible: requires the marked run to lie inside the pool. For a run outside it, the source writes past the pool's bitmap; that write is not modelled.
- The VM pool's region array is a separate array. Its placement in the pool's own first page, and the aliasing with the memory it describes, are not modelled.
- `MAX_INODES` is the constructor parameter `maxInodes`. Decoding the inode list from the bytes of block 0 is replaced by the decoded list, passed to `Mount`. In the source, `inodes` points into the `inode_list` buffer (file_system.C:72), which `Mount` then deletes (file_system.C:78), so every later use of `inodes` reads freed memory; the model gives the file system its own inode array instead, and that use-after-free is not modelled.
- FileSystem.FileSystem.Mount: requires a disk of at least 512 blocks, the blocks the free map covers, and stored inodes whose block numbers lie below 512. The `size` field and the destructor, which writes the two blocks back, are not modelled.
- Thread dispatch (`dispatch_to`), `delete_stack` in `terminate`, the interrupt enable and disable calls, and `RRScheduler` are not modelled. `RRScheduler::yield` has the same queue effect as `Scheduler.Yield`, plus a timer reset.
- Threads are known to the queue only by an identity number.
- Deleting the queue node in `dequeue` is not modelled: the node simply leaves the list.

## Findings

| source | as written | input that shows it | evidently intended | confidence | as-written member | corrected member |
|---|---|---|---|---|---|---|
| mp2/MP2_Sources/cont_frame_pool.C:287 | `release_frames` skips a pool only when the frame is above `base + nframes`, so `base + nframes` itself counts as inside | pools [512, 1024) and [1024, 8192), releasing frame 1024 | a frame belongs to the pool with base <= frame < base + nframes | high, not executed | FramePool.AsWrittenRoutingMisroutes | FramePool.PoolRegistry.ReleaseFrames |
| mp2/MP2_Sources/cont_frame_pool.C:153-157 | the release loop never advances `fno`, so it frees at most the frame after the head | a run HoS, Used, Used released at its head | every Used frame of the run becomes Free | high, not executed | FramePool.AsWrittenReleaseLeavesRun | FramePool.ContFramePool.ReleaseRunInPool |
| mp4/MP4_Sources/page_table.C:73-82 | after the walk finds no pool, `cur_vm_pool` is NULL, so `is_valid == 0 && cur_vm_pool != NULL` never holds and illegitimate faults are served | any address outside every registered VM pool | once a pool is registered, a fault that no pool admits is refused | medium, not executed | Mp4PageTable.PagingState.CheckLegitimate | Mp4PageTable.PagingState.HandleFaultChecked |


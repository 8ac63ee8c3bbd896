# Verification of the monolithic kernel

This project models the stateful components of a small i386 kernel in Dafny and proves what they keep and what
they promise. Run `dafny verify dfyconfig.toml` in this directory to check all of it.

| component | files | what is proved |
|---|---|---|
| FAT16 file system | `FatLayout`, `FatChains`, `FatDirectory`, `ShortNames`, `FatState`, `FatWrite`, `FatRead`, `FatFiles`, `FatVolume`, `FatFormat`, `Fat16`, `Fat16Sessions`, `FatMount` | A sector array refines a map from names to byte strings (`FatVolume.Volume`, over the files whose size fits their clusters): creating, deleting and closing are updates of one name, a write touches no other name and no other open file. Chains stay finite and disjoint, the FAT copies stay equal, and a stored file reads back. What a file is, is also told in the bytes of the sectors. |
| Physical frames | `FrameBitmap`, `Pmm` | The bitmap is a set. Frames are conserved: free and handed-out ones make up the pool set up at start. |
| Kernel heap | `HeapBlocks`, `HeapList`, `HeapPages`, `Heap` | The doubly linked list tiles the heap, is coalesced, and grows by whole pages or not at all. |
| Paging | `PageTables`, `Paging`, `Vmm` | The first directory maps what it should. Edits through the recursive slot and the temporary window are updates of an abstract page map, for every directory that shares the tables. |
| Scheduler | `SchedulerSteps`, `SchedulerRuns`, `SchedulerFamilies`, `SchedulerOrphans`, `SchedulerStacks`, `ReadyList`, `Scheduler` | The linked ready queue refines a step relation. Over every run: a bound on waiting, the length of sleeps and quanta, who is whose child, that a wait sees the status of the exit, and where stacks go. |
| First user stack | `UserStack` | The page decodes to what was passed, and nothing in it overlaps. |
| Module loader | `ModuleLayout`, `ModuleRelocation`, `RelocationRecords`, `ModuleLoader` | Placement, relocation record by record, and clean-up. |
| Shared | `Common`, `Arithmetic`, `Bytes` | Constants, facts about rows and columns, and the little-endian layout of words. |
| Numbers as text | `Itoa` | Numerals are unique and decode to their value. |

Each component has a class whose methods follow the C functions branch by branch, and modules of functions and
lemmas that say what the methods do. Lists and tables that the C code links by pointers are linked by addresses
or indices here, with a ghost sequence that says what the links mean.

Where the code does not do what one might expect, the exact condition is proved, and an input that shows it:

- A write that ends on a cluster boundary leaves the handle's cached cluster one behind its position
  (`FatFiles.CursorAfterWrite`), and the next write then overwrites that cluster (`FatFiles.LaggingWriteOverwrites`;
  two writes to a fresh file: `Fat16Sessions.WriteOverBoundary`).
- A FAT volume whose boot sector leaves no room for data is accepted with a wrapped cluster count
  (`FatMount.ClustersInsideVolume`; a boot sector: `FatMount.CrampedVolumeMounts`).
- A created file whose name begins with the deletion mark is lost (`FatDirectory.CreateAdds`, `ShortNames.LostNames`;
  a path: `ShortNames.MarkIsLost`).
- Listing and normalising a name are inverse only if spaces merely pad its fields (`ShortNames.PrintedRoundTrip`;
  a path: `ShortNames.InnerSpaceIsLost`).
- The exit of a child wakes a parent that merely sleeps (`SchedulerRuns.ExitWakes`; a run from start-up:
  `SchedulerRuns.SleeperWokenEarly`).
- A child whose parent was reaped before it still names the entry as its parent; whoever takes that entry is woken from
  its sleep by the exit of the child (`SchedulerFamilies.StepFamilies`; a run from start-up:
  `SchedulerOrphans.StrangerWoken`).
- A process that cannot be created for want of memory costs a kernel stack for good (`SchedulerStacks.SlotsLost`), and
  there can be one task fewer (`SchedulerStacks.TasksLeft`).
- A sleep of less than ten milliseconds below 2^32 lasts one tick (`SchedulerRuns.DelayIs`).
- An empty available range of memory at address 0 makes every frame available, and one at an address that is not aligned
  makes one available (`Pmm.CoversMeans`).
- A request for memory that is less than sixteen bytes below 2^32 is rounded to nothing and given a block that is
  too small (`Heap.RoundUpWraps`, `Heap.FitIsEnough`).
- The first growth of the heap and the first load of a module need a frame for a page table and do not check that
  there is one: they fault exactly when the frames run out there (`Heap.KernelHeap.ExpandHeap`,
  `Heap.KernelHeap.Init`, `ModuleLoader.Loader.Load`).
- The clean-up of a failed module load misses pages when alignment left gaps (`ModuleLayout.CleanupReaches`,
  `ModuleLoader.GaveUpCleaned`; a module: `ModuleLayout.CleanupMisses`).
- `itoa` loses the sign in every base but ten (`Itoa.SignLost`).

The proofs hide definitions that a step does not need (`hide`), and lemmas carry `{:induction false}` where the
verifier would otherwise look for an induction of its own.

## Model

| member | source | states |
|---|---|---|
| FatMount.DecodeBoot | src/kernel/monolithic/kernel/src/kernel/fat16.c:581-599 | the boot sector fields that mounting reads are in their field widths |
| FatMount.ClustersInsideVolume | src/kernel/monolithic/kernel/src/kernel/fat16.c:606-626 | the counted clusters lie inside the volume if and only if FATs, root directory and reserved sectors leave room for data; otherwise the unsigned sector count has wrapped |
| FatMount.MountedVolumeUsable | src/kernel/monolithic/kernel/src/kernel/fat16.c:566-641 | an accepted volume with room for data, 512-byte sectors and a FAT wide enough has the layout that every file operation relies on, and a root directory with room for its entries and less than a sector more |
| FatMount.RootSectorsHold | src/kernel/monolithic/kernel/src/kernel/fat16.c:620 | the root directory gets the fewest sectors that hold its entries of 32 bytes |
| FatMount.MountAccepts | src/kernel/monolithic/kernel/src/kernel/fat16.c:581-604 | in bytes: a sector is accepted if and only if it ends in 55 AA and none of the counts that mounting uses is zero |
| FatMount.MountedIs | src/kernel/monolithic/kernel/src/kernel/fat16.c:606-641 | in bytes: every field of the geometry, and the cluster count as the whole clusters of what the total, of 16 bits or else of 32, leaves for data |
| FatMount.CrampedVolumeMounts | src/kernel/monolithic/kernel/src/kernel/fat16.c:606-626 | a literal boot sector of one sector in all and three before the data: accepted, with 0xFFFFFFFE clusters |
| FatLayout.ClusterLba | src/kernel/monolithic/kernel/src/kernel/fat16.c:184-187 | the sector computed for a cluster is the one the layout assigns to it |
| FatLayout.ClusterSectorInjective | src/kernel/monolithic/kernel/src/kernel/fat16.c:184-187 | no two clusters share a sector |
| FatLayout.FatEntryAt | src/kernel/monolithic/kernel/src/kernel/fat16.c:262-275 | where the entry of a cluster lies in the table |
| FatLayout.FatStoredEffect | src/kernel/monolithic/kernel/src/kernel/fat16.c:75-98 | storing an entry in every FAT copy changes exactly that entry and keeps the copies equal |
| FatLayout.PositionSplit | src/kernel/monolithic/kernel/src/kernel/fat16.c:819-823 | dividing a position by the cluster size finds the cluster and the offset that hold the byte |
| FatChains.NextCluster | src/kernel/monolithic/kernel/src/kernel/fat16.c:189-192 | the end-of-chain test stops exactly at the last cluster of a chain and otherwise yields the next one |
| FatChains.FreeIsUnowned | src/kernel/monolithic/kernel/src/kernel/fat16.c:100-111 | an entry of zero lies on no chain |
| FatChains.StartChain | src/kernel/monolithic/kernel/src/kernel/fat16.c:113-136 | taking a free cluster alone starts a chain disjoint from all others and uses up that one cluster |
| FatChains.ExtendChain | src/kernel/monolithic/kernel/src/kernel/fat16.c:113-136 | taking a free cluster behind the end of a chain extends that chain alone; all chains stay finite, terminated and pairwise disjoint |
| FatChains.ChunkEffect | src/kernel/monolithic/kernel/src/kernel/fat16.c:825-849 | a sector read-modify-write changes exactly the bytes of the file it is meant to change and no other cluster |
| FatChains.WrittenGrows | src/kernel/monolithic/kernel/src/kernel/fat16.c:865-876 | a cluster appended in the middle of a write keeps what was written |
| FatChains.WriteIsolation | src/kernel/monolithic/kernel/src/kernel/fat16.c:797-876 | a write through one chain leaves every byte of a disjoint chain alone |
| FatDirectory.LookupAgrees | src/kernel/monolithic/kernel/src/kernel/fat16.c:277-334 | the directory scan finds a slot if and only if the name is in the map of regular files, and then with the map's cluster and size |
| FatDirectory.FirstFreeIsFirst | src/kernel/monolithic/kernel/src/kernel/fat16.c:336-368 | the slot chosen for a new entry is the first that is deleted or unused |
| FatDirectory.SlotWritten | src/kernel/monolithic/kernel/src/kernel/fat16.c:138-155 | rewriting the 32 bytes of a slot changes one directory entry |
| FatDirectory.CreateAdds | src/kernel/monolithic/kernel/src/kernel/fat16.c:422-452 | creation adds the name with an empty file, keeps names unique and nothing live behind the first end mark; a name that starts with the deletion mark is lost |
| FatDirectory.DeleteRemoves | src/kernel/monolithic/kernel/src/kernel/fat16.c:404-420 | deletion removes exactly the name that was looked up |
| FatDirectory.UpdateStores | src/kernel/monolithic/kernel/src/kernel/fat16.c:138-155 | storing cluster and size updates the file of that slot if it still has one, and no other |
| ShortNames.NormalizeShortName | src/kernel/monolithic/kernel/src/kernel/fat16.c:203-260 | the normalisation loop accepts exactly the paths that are slashes, a base of one to eight bytes and perhaps a dot and up to three bytes more; it stores base and extension in fields padded with blanks, lower-case letters in upper case and every other byte as it is |
| ShortNames.NoLowerCase | src/kernel/monolithic/kernel/src/kernel/fat16.c:194-200 | no byte of a name is a lower-case letter |
| ShortNames.CaseBlind | src/kernel/monolithic/kernel/src/kernel/fat16.c:194-260 | paths that differ in the case of letters only have the same name, or none |
| ShortNames.PrintName | src/kernel/monolithic/kernel/src/kernel/fat16.c:495-518 | what the directory lister prints for an 11-byte name |
| ShortNames.SpaceFreeIsCanonical | src/kernel/monolithic/kernel/src/kernel/fat16.c:203-260 | a path without spaces normalises to a name whose fields are only padded with spaces |
| ShortNames.PrintedRoundTrip | src/kernel/monolithic/kernel/src/kernel/fat16.c:495-518 | printing a normalised name and normalising again gives the same 11 bytes if and only if spaces only pad its two fields |
| ShortNames.InnerSpaceIsLost | src/kernel/monolithic/kernel/src/kernel/fat16.c:495-518 | a path like A B is listed without its space, which is another name |
| ShortNames.LostNames | src/kernel/monolithic/kernel/src/kernel/fat16.c:422-452 | the names that are lost are those of paths that begin, slashes aside, with the byte 0xE5 |
| ShortNames.MarkIsLost | src/kernel/monolithic/kernel/src/kernel/fat16.c:422-452 | the path of that byte alone can be created and adds no file |
| FatFormat.VolumeInSectors | src/kernel/monolithic/kernel/src/kernel/fat16.c:277-334 | a file of the volume stands in a 32-byte slot of the root directory with that name, its bytes are as many as the slot says, and byte for byte they lie in the sectors of the clusters that the table links from the slot's first one on |
| FatFormat.RawFilesListed | src/kernel/monolithic/kernel/src/kernel/fat16.c:277-334 | the slots whose bytes are those of a file, neither free nor deleted nor a long name, label or subdirectory, are exactly the files of the directory |
| FatFormat.ChainIs | src/kernel/monolithic/kernel/src/kernel/fat16.c:189-192 | a chain is a run of different clusters, each named by two bytes of the table at its predecessor, up to a mark of 0xFFF8 or more |
| FatFormat.FreeIs | src/kernel/monolithic/kernel/src/kernel/fat16.c:100-111 | a cluster is free exactly when its two bytes of the table are zero |
| FatFormat.NewSlotIs | src/kernel/monolithic/kernel/src/kernel/fat16.c:422-452 | a fresh slot is the name, the archive bit and zeros |
| FatState.FilesDisjoint | src/kernel/monolithic/kernel/src/kernel/fat16.c:643-691 | in every reachable state the files of two slots lie on disjoint chains, whether the directory or an open handle tells where each of them starts |
| FatState.WriteStep | src/kernel/monolithic/kernel/src/kernel/fat16.c:770-881 | a change of one handle and of its chain that leaves FAT copies equal and chains owned keeps the rest of the invariant: the directory, every handle on its own chain, unique starts |
| FatWrite.WriteKeepsValid | src/kernel/monolithic/kernel/src/kernel/fat16.c:770-881 | a write that is done, all of it or as much as fits, leaves the whole invariant: equal FAT copies, finite disjoint chains, owned cursors, unique starts |
| FatState.OpenKeepsValid | src/kernel/monolithic/kernel/src/kernel/fat16.c:643-691 | opening keeps the invariant |
| FatState.CloseKeepsValid | src/kernel/monolithic/kernel/src/kernel/fat16.c:883-907 | closing keeps the invariant |
| FatState.EmptyVolume | src/kernel/monolithic/kernel/src/kernel/fat16.c:566-641 | a volume without live directory entries meets what the driver needs to start |
| Fat16.FileSystem.constructor | src/kernel/monolithic/kernel/src/kernel/fat16.c:566-641 | the driver over a well-formed volume with no file open starts in a valid state |
| Fat16.FileSystem.ReadFatEntry | src/kernel/monolithic/kernel/src/kernel/fat16.c:262-275 | reads the entry of the table for every cluster of the volume |
| Fat16.FileSystem.WriteFatEntry | src/kernel/monolithic/kernel/src/kernel/fat16.c:75-98 | stores an entry in every copy; table and mirroring change accordingly and nothing outside the FATs |
| Fat16.FileSystem.FindFreeCluster | src/kernel/monolithic/kernel/src/kernel/fat16.c:100-111 | the lowest free cluster, or none if and only if there is none |
| Fat16.FileSystem.AllocateCluster | src/kernel/monolithic/kernel/src/kernel/fat16.c:113-136 | takes the lowest free cluster, alone or behind the end of a chain, or fails with nothing changed |
| Fat16.FileSystem.Write | src/kernel/monolithic/kernel/src/kernel/fat16.c:770-881 | the whole effect of a write in every valid state, the error returns included; every other name and every handle on another file is as it was |
| Fat16.FileSystem.Read | src/kernel/monolithic/kernel/src/kernel/fat16.c:693-768 | on a valid state the exact slice, on arbitrary FAT contents termination with at most `count` bytes and no byte beyond them touched |
| Fat16.FileSystem.FindRootEntry | src/kernel/monolithic/kernel/src/kernel/fat16.c:277-334 | the scan over sectors and slots computes the lookup |
| Fat16.FileSystem.FindFreeRootEntry | src/kernel/monolithic/kernel/src/kernel/fat16.c:336-368 | the scan computes the first free slot |
| Fat16.FileSystem.Create | src/kernel/monolithic/kernel/src/kernel/fat16.c:422-452 | 0 exactly when the path normalises, the name is absent and a slot exists; then the volume gains the name with no bytes, unless it begins with the deletion mark and is lost |
| Fat16.FileSystem.Delete | src/kernel/monolithic/kernel/src/kernel/fat16.c:539-564 | 0 exactly when a regular file has the name; then the volume loses that name alone |
| Fat16.FileSystem.Open | src/kernel/monolithic/kernel/src/kernel/fat16.c:643-691 | a descriptor exactly when the file can be opened and a handle is free; the handle is at the start of the file |
| Fat16.FileSystem.Close | src/kernel/monolithic/kernel/src/kernel/fat16.c:883-907 | writes cluster and size back if the file was written, so that the volume shows the handle's bytes under the name of its slot, and frees the handle |
| FatWrite.WriteChunk | src/kernel/monolithic/kernel/src/kernel/fat16.c:819-865 | one round of the write loop advances the write by its chunk; the cluster is left exactly when the chunk ends it |
| FatWrite.WriteFinishes | src/kernel/monolithic/kernel/src/kernel/fat16.c:860-881 | when the data is used up the write has done all it should: bytes, growth of the chain, free clusters |
| FatWrite.WriteStops | src/kernel/monolithic/kernel/src/kernel/fat16.c:865-876 | without a free cluster the write stops with the chain filled to its end |
| FatWrite.OutcomeOfFirst | src/kernel/monolithic/kernel/src/kernel/fat16.c:797-806 | an empty file is first given a cluster, and the outcome of the write is as for any other file |
| FatRead.ReadFinishes | src/kernel/monolithic/kernel/src/kernel/fat16.c:693-768 | a read delivers the next bytes of the chain, as many as are wanted, left and there |
| FatFiles.CursorOkMeans | src/kernel/monolithic/kernel/src/kernel/fat16.c:819-823 | the cursor is in order exactly when the cached cluster is the chain element at position / cluster size |
| FatFiles.WriteSplices | src/kernel/monolithic/kernel/src/kernel/fat16.c:770-881 | a successful write from a cursor in order replaces or extends the file's bytes at the position with the buffer |
| FatFiles.CursorAfterWrite | src/kernel/monolithic/kernel/src/kernel/fat16.c:854-876 | after it the cursor is in order again if and only if the write did not end on a cluster boundary; otherwise it lags by one cluster |
| FatFiles.LaggingWriteOverwrites | src/kernel/monolithic/kernel/src/kernel/fat16.c:860-863 | the write after one that ended on a cluster boundary overwrites the cluster before the position |
| FatVolume.OtherFilesKept | src/kernel/monolithic/kernel/src/kernel/fat16.c:797-876 | a write changes no byte and no cluster of any other file, be it found in the directory or only open |
| FatVolume.CreateShows | src/kernel/monolithic/kernel/src/kernel/fat16.c:422-452 | creation makes of the volume's map the same map with the name holding nothing, unless the name is lost |
| FatVolume.DeleteShows | src/kernel/monolithic/kernel/src/kernel/fat16.c:539-564 | deletion makes of it the same map without the name |
| FatVolume.CloseShows | src/kernel/monolithic/kernel/src/kernel/fat16.c:883-907 | closing a written handle makes of it the same map with the name of its slot holding the handle's bytes |
| FatVolume.CloseIsolates | src/kernel/monolithic/kernel/src/kernel/fat16.c:883-907 | whatever the handle claims, no other name is touched |
| FatVolume.WriteShows | src/kernel/monolithic/kernel/src/kernel/fat16.c:770-881 | a write leaves every name but that of its slot as it was, bytes and presence |
| FatVolume.OtherHandlesKept | src/kernel/monolithic/kernel/src/kernel/fat16.c:770-881 | a write leaves what the open handles on other files show, and where they stand, as it was |
| FatVolume.FrameExtends | src/kernel/monolithic/kernel/src/kernel/fat16.c:770-881 | what two writes through one handle leave alone, both leave alone |
| FatFiles.ReadSlices | src/kernel/monolithic/kernel/src/kernel/fat16.c:693-768 | a read delivers the next slice of the file's bytes and is ready for the one after |
| FatFiles.OpenedReady | src/kernel/monolithic/kernel/src/kernel/fat16.c:643-691 | a freshly opened file is ready for reading and writing |
| Fat16Sessions.WriteAll | src/kernel/monolithic/kernel/src/kernel/fat16.c:770-881 | a run of writes in which no call but the last ends on a cluster boundary writes the concatenation and leaves the directory, every other name and every handle on another file alone |
| Fat16Sessions.WriteOverBoundary | src/kernel/monolithic/kernel/src/kernel/fat16.c:854-881 | two writes to a fresh file, the first of one cluster: both succeed, the second overwrites the first one's bytes, and the size exceeds the clusters |
| Fat16Sessions.Reload | src/kernel/monolithic/kernel/src/kernel/fat16.c:643-768 | opening any file of the volume and reading it with reads of any sizes delivers its bytes in order and then nothing |
| Fat16Sessions.ReadAll | src/kernel/monolithic/kernel/src/kernel/fat16.c:693-768 | a run of reads of any positive sizes delivers consecutive slices of the content and then nothing |
| Fat16Sessions.Store | src/kernel/monolithic/kernel/src/kernel/fat16.c:422-907 | create, open, one write, close: the volume becomes itself with the name holding the data, and every open handle shows what it did |
| Fat16Sessions.StoreAndReload | src/kernel/monolithic/kernel/src/kernel/fat16.c:422-907 | create, open, one write of any fitting length, close, open, reads of any sizes: exactly the bytes come back, then nothing, and every other name is as it was |
| FrameBitmap.BitChanged | src/kernel/monolithic/kernel/src/kernel/pmm.c:68-83 | setting or clearing one bit of a byte changes that bit alone |
| Pmm.CoversMeans | src/kernel/monolithic/kernel/src/kernel/pmm.c:116-119 | an available range that is not empty covers the frames that it shares a byte with; an empty one covers the frame around its address if that is not aligned, and every frame if it is 0 |
| Pmm.UpperMeans | src/kernel/monolithic/kernel/src/kernel/pmm.c:145-152 | without a map the frames wholly below the top of upper memory are available |
| Pmm.FramePool.FreeMap | src/kernel/monolithic/kernel/src/kernel/pmm.c:126-150 | exactly the frames that share a byte with an available range of the map are freed, for a map of ranges that neither wrap around nor are empty, and the total covers them; for any map, the frames that the truncated arithmetic covers |
| Pmm.FramePool.Init | src/kernel/monolithic/kernel/src/kernel/pmm.c:101-198 | after start-up a frame is free if and only if it has a byte in an available range, or without a map lies below the top of upper memory, and has none in the first MiB, the kernel image or the memory map; for maps whose ranges wrap around or are empty, what the truncated arithmetic makes of them |
| Pmm.FramePool.AllocFrame | src/kernel/monolithic/kernel/src/kernel/pmm.c:200-211 | the lowest free frame moves from free to handed out, or null if and only if none is free |
| Pmm.FramePool.FreeFrame | src/kernel/monolithic/kernel/src/kernel/pmm.c:213-217 | a frame that was handed out is free again and nothing else moves |
| Pmm.FramePool.GetFreeFrames | src/kernel/monolithic/kernel/src/kernel/pmm.c:224-235 | counts the free set |
| HeapPages.PagesForWraps | src/kernel/monolithic/kernel/src/kernel/malloc.c:29-30 | the page count of a rounded request is its size and header rounded up to pages, unless it is above 0xFFFFEFF0: then, and only then, it wraps to no page at all |
| HeapPages.GrownExtended | src/kernel/monolithic/kernel/src/kernel/malloc.c:37-51 | pages mapped one by one leave exactly the heap's pages mapped, each to a frame of its own taken from the pool |
| HeapPages.RolledBack | src/kernel/monolithic/kernel/src/kernel/malloc.c:60-68 | after the roll-back mappings and frames are as before the call |
| HeapBlocks.AllocTiled | src/kernel/monolithic/kernel/src/kernel/malloc.c:88-105 | splitting or taking a chunk keeps headers and payloads tiling the heap with positive multiples of 16 |
| HeapBlocks.AllocLive | src/kernel/monolithic/kernel/src/kernel/malloc.c:88-105 | an allocation hands out one new block, of the rounded size or that plus 16, and nothing else changes hands |
| HeapBlocks.FreeTiled | src/kernel/monolithic/kernel/src/kernel/malloc.c:135-161 | release and two-sided coalescing keep the tiling |
| HeapBlocks.FreeLive | src/kernel/monolithic/kernel/src/kernel/malloc.c:135-161 | a release takes exactly the released block out of what is handed out |
| HeapBlocks.FreeCoalesced | src/kernel/monolithic/kernel/src/kernel/malloc.c:144-160 | a release leaves no two free neighbours |
| HeapBlocks.GrownCoalesced | src/kernel/monolithic/kernel/src/kernel/malloc.c:109-128 | a chunk added behind a free one leaves no two free neighbours once the retry has taken it |
| HeapBlocks.FreeUndoesAlloc | src/kernel/monolithic/kernel/src/kernel/malloc.c:75-161 | releasing what was just allocated restores the heap block by block |
| HeapBlocks.LiveDisjoint | src/kernel/monolithic/kernel/src/kernel/malloc.c:88-105 | blocks that are handed out are aligned, inside the heap and disjoint, headers included |
| HeapBlocks.FirstFitIsLowest | src/kernel/monolithic/kernel/src/kernel/malloc.c:85-107 | the first chunk that fits is the one with the lowest address |
| HeapBlocks.AllFreeIsOne | src/kernel/monolithic/kernel/src/kernel/malloc.c:135-161 | nothing is handed out if and only if the list is one free chunk spanning the heap |
| HeapList.MutualInverses | src/kernel/monolithic/kernel/src/kernel/malloc.c:94-100 | `next` and `prev` undo each other, and `next` is the header right behind the payload |
| HeapList.SplitLinked | src/kernel/monolithic/kernel/src/kernel/malloc.c:93-101 | the pointer writes of a split yield the list of the split blocks |
| HeapList.JoinLinked | src/kernel/monolithic/kernel/src/kernel/malloc.c:145-160 | the pointer writes of either coalescing step yield the list of the joined blocks |
| HeapList.AppendLinked | src/kernel/monolithic/kernel/src/kernel/malloc.c:114-126 | linking a chunk behind the last one yields the longer list |
| HeapPages.GrownOutcome | src/kernel/monolithic/kernel/src/kernel/malloc.c:37-58 | when the loop over the pages completes, the heap is longer by all of them, on frames apart from each other and from that of the page table |
| HeapPages.UndoneOutcome | src/kernel/monolithic/kernel/src/kernel/malloc.c:60-68 | when it stops early, the roll-back leaves mappings and end as they were, and of the frames only that of a page table that was made is gone |
| Heap.RoundUpWraps | src/kernel/monolithic/kernel/src/kernel/malloc.c:81 | rounding gives the next multiple of 16 up to 0xFFFFFFF0, and 0 beyond |
| Heap.FitIsEnough | src/kernel/monolithic/kernel/src/kernel/malloc.c:81-88 | every block that passes the test for the rounded size holds the request, if and only if the request is at most 0xFFFFFFF0 |
| Heap.KernelHeap.ExpandHeap | src/kernel/monolithic/kernel/src/kernel/malloc.c:27-69 | grows by the pages it counts, or changes nothing; it succeeds if and only if the region has room for all of them and the pool for them and for a page table that is still to be made. It faults if and only if the count wrapped to 0 or there is a frame for the first page but none for its table |
| Heap.KernelHeap.Kmalloc | src/kernel/monolithic/kernel/src/kernel/malloc.c:75-129 | for any request that rounding to 16 does not wrap: the lowest chunk that fits, else a chunk over new pages found by the one retry, else null with blocks, headers and mappings unchanged; null exactly when neither can be had, and a fault exactly when growing faults |
| Heap.KernelHeap.Kfree | src/kernel/monolithic/kernel/src/kernel/malloc.c:135-161 | exactly the block behind the pointer is released, and the list stays tiled, linked and coalesced |
| Heap.KernelHeap.Init | src/kernel/monolithic/kernel/src/kernel/malloc.c:167-172 | one free chunk over one page, with a second frame spent on the page table if there is none yet; an empty heap when the pool is empty; a fault exactly when the only frame left went to the page and none is left for the table |
| Paging.PagingInit | src/kernel/monolithic/kernel/src/kernel/paging.c:19-80 | with frames enough, a well-formed directory that maps exactly the first 4 MiB to themselves, the kernel image and the kernel stacks, each stack page on a frame of its own |
| Paging.MapStacks | src/kernel/monolithic/kernel/src/kernel/paging.c:59-68 | 511 stack pages on pairwise distinct frames of the pool, the rest of the table as it was |
| Paging.BootViewHolds | src/kernel/monolithic/kernel/src/kernel/paging.c:35-71 | the directory with these entries translates every page below the recursive region as intended and no other page |
| Paging.BootSpaces | src/kernel/monolithic/kernel/src/kernel/paging.c:41-71 | a directory on two tables of its own that maps itself is well formed |
| Paging.BootAddresses | src/kernel/monolithic/kernel/src/kernel/paging.c:35-71 | by address: 4 MiB of identity, the image from 0xC0000000 on, the stack frames from 0xC0200000 up to 0xC03FF000, and nothing else below 0xFFC00000 |
| Paging.TaskStackMapped | src/kernel/monolithic/kernel/src/kernel/task.c:479-497 | every page of every kernel stack that the scheduler can hand out lies on a stack frame of its own |
| PageTables.Entry | src/kernel/monolithic/kernel/src/kernel/vmm.c:161-173 | an entry is present and names the frame of the address |
| PageTables.EntryBits | src/kernel/monolithic/kernel/src/kernel/vmm.c:161-173 | bit 0 is set, the other flag bits are those given, and the frame is that of the address |
| PageTables.RecursivePage | src/kernel/monolithic/kernel/src/kernel/vmm.c:134-170 | through the self slot the page at 0xFFC00000 + 4096 * i is the table in slot i, and the directory for slot 1023 |
| PageTables.WriteLeaf | src/kernel/monolithic/kernel/src/kernel/vmm.c:172-176 | a write to a table entry changes one page in the directories that share the table and keeps all directories well formed |
| PageTables.LinkKeeps | src/kernel/monolithic/kernel/src/kernel/vmm.c:138-161 | linking a zeroed table from a free frame changes no translation |
| PageTables.MapCreatedUpdates | src/kernel/monolithic/kernel/src/kernel/vmm.c:128-177 | mapping with a new table is one update of the abstract page map with the window left unmapped |
| PageTables.TouchedCreating | src/kernel/monolithic/kernel/src/kernel/vmm.c:128-177 | the only words that change are the directory entry, the table entry, the window's slot and the one frame that was taken |
| PageTables.CopyKeeps | src/kernel/monolithic/kernel/src/kernel/vmm.c:29-64 | a copied directory that maps itself translates as its source and disturbs no other |
| Vmm.TableAddress | src/kernel/monolithic/kernel/src/kernel/vmm.c:134-170 | the pointer arithmetic through 0xFFFFF000, 0xFFC00000 and the window |
| Vmm.AddressSpaces.CreateTableAt | src/kernel/monolithic/kernel/src/kernel/vmm.c:138-166 | a table is made from the lowest free frame through the window, or nothing changes |
| Vmm.AddressSpaces.MapPage | src/kernel/monolithic/kernel/src/kernel/vmm.c:128-177 | refines one abstract map update in the active directory and those sharing its table; exactly the lowest free frame leaves the pool if a table is wanted; without one nothing happens |
| Vmm.AddressSpaces.UnmapPage | src/kernel/monolithic/kernel/src/kernel/vmm.c:183-192 | removes exactly one page |
| Vmm.AddressSpaces.GetPhysAddr | src/kernel/monolithic/kernel/src/kernel/vmm.c:198-214 | agrees with the walk of the memory unit at every address |
| Vmm.AddressSpaces.CloneKernelMappings | src/kernel/monolithic/kernel/src/kernel/vmm.c:29-64 | a new directory that translates as the active one, the window left unmapped, or 0 with nothing changed |
| Vmm.AddressSpaces.MapPageForPdt | src/kernel/monolithic/kernel/src/kernel/vmm.c:66-72 | the same map update in another directory, with the same account of words and frames, the active directory restored |
| Vmm.AddressSpaces.UnmapPageForPdt | src/kernel/monolithic/kernel/src/kernel/vmm.c:74-80 | removes one page of another directory |
| SchedulerSteps.StepKeeps | src/kernel/monolithic/kernel/src/kernel/task.c:97-167 | every step keeps the queue equal to the ready tasks without duplicates, one running task that is current, separate marked stacks and an idle task that is ready or running |
| SchedulerSteps.WakeFromKeeps | src/kernel/monolithic/kernel/src/kernel/task.c:420-434 | waking sleepers keeps all that holds, appends to the queue only and leaves no due sleeper |
| SchedulerSteps.AllocKeeps | src/kernel/monolithic/kernel/src/kernel/task.c:519-563 | a new control block comes from an unused entry and a free stack slot, and is refused exactly when one of them is missing |
| SchedulerSteps.TerminateKeeps | src/kernel/monolithic/kernel/src/kernel/task.c:444-471 | the exit of a task and the waking of its parent keep the queue exact |
| SchedulerSteps.ForkKeeps | src/kernel/monolithic/kernel/src/kernel/syscall.c:329-494 | a fork, failed or not, keeps all that holds |
| SchedulerSteps.BuryKeeps | src/kernel/monolithic/kernel/src/kernel/syscall.c:567-592 | reaping a zombie keeps all that holds |
| SchedulerSteps.BuryMeans | src/kernel/monolithic/kernel/src/kernel/syscall.c:567-592 | reaping frees the entry and its stack slot, takes the child from the list of its parent, whose other children stay in order, and changes nothing else |
| SchedulerRuns.RunKeeps | src/kernel/monolithic/kernel/src/kernel/task.c:97-167 | the invariants hold in every state of every run |
| SchedulerRuns.StacksDisjoint | src/kernel/monolithic/kernel/src/kernel/task.c:479-497 | kernel stacks of distinct tasks in use are disjoint and inside the stack region |
| SchedulerRuns.NoOversleeping | src/kernel/monolithic/kernel/src/kernel/task.c:420-434 | after a tick no sleeper that is due is left |
| SchedulerRuns.TickWakes | src/kernel/monolithic/kernel/src/kernel/task.c:420-434 | a tick ends a wait if and only if it is a sleep that is due |
| SchedulerRuns.ExitWakes | src/kernel/monolithic/kernel/src/kernel/task.c:444-471 | an exit ends a wait if and only if it is the parent's, for this child or for any; a parent that merely sleeps is woken early |
| SchedulerRuns.TickQueue | src/kernel/monolithic/kernel/src/kernel/task.c:420-434 | a tick puts the sleepers that are due at the end of the queue, in the order of the table; then, with the last tick of its quantum, the running task, and the first in line runs |
| SchedulerRuns.DelayIs | src/kernel/monolithic/kernel/src/kernel/syscall.c:209-228 | a sleep lasts the fewest ticks of ten milliseconds that are no less than asked for, if and only if the request is at most 0xFFFFFFF6; above that it lasts one tick |
| SchedulerRuns.SleepLasts | src/kernel/monolithic/kernel/src/kernel/syscall.c:209-228 | over every run, a task that goes to sleep waits in every state before its time and in none at it, unless a child of it exits |
| SchedulerRuns.QuantumKept | src/kernel/monolithic/kernel/src/kernel/task.c:1073-1103 | over every run in which it does not give the processor up, a task keeps it until it has had five ticks |
| SchedulerRuns.QuantumEnds | src/kernel/monolithic/kernel/src/kernel/task.c:1073-1103 | with the fifth tick the task that was first in line at the start of the run has it |
| SchedulerRuns.YieldIs | src/kernel/monolithic/kernel/src/kernel/task.c:1056-1071 | yielding runs the first in line and puts the one that yields last |
| SchedulerRuns.NewTaskIs | src/kernel/monolithic/kernel/src/kernel/task.c:519-563 | a new task in full: the lowest unused entry, the lowest free stack, the next process number, the end of the queue |
| SchedulerRuns.ForkIs | src/kernel/monolithic/kernel/src/kernel/syscall.c:329-494 | a forked process in full, with the running one as its parent and before its older children |
| SchedulerRuns.SleeperWokenEarly | src/kernel/monolithic/kernel/src/kernel/task.c:444-471 | a run from start-up: a user process starts, forks, and sleeps until 100 ticks later; its child exits at the tick the sleep began, and the parent is ready at that tick |
| SchedulerRuns.StepAdvances | src/kernel/monolithic/kernel/src/kernel/task.c:1039-1103 | every step brings every queued task closer to the processor or leaves its remaining wait as it is |
| SchedulerRuns.BoundedWaiting | src/kernel/monolithic/kernel/src/kernel/task.c:1073-1103 | a ready task at queue index k runs within 5 * (k + 1) ticks, and so within 75, whatever steps are interleaved |
| SchedulerRuns.QueueShort | src/kernel/monolithic/kernel/src/kernel/task.c:97-113 | the queue never holds more than fifteen tasks |
| SchedulerFamilies.StepFamilies | src/kernel/monolithic/kernel/src/kernel/task.c:211-241 | in every step process numbers in use stay different and every child listed is in use and names its parent; what a task names as its parent stays its parent exactly unless a parent of others is reaped |
| SchedulerFamilies.FamiliesHold | src/kernel/monolithic/kernel/src/kernel/task.c:211-241 | so families are in order in every state of every run from start-up |
| SchedulerFamilies.ParentsHold | src/kernel/monolithic/kernel/src/kernel/task.c:211-241 | and parents are, as long as no parent of others is reaped |
| SchedulerFamilies.WaitFinds | src/kernel/monolithic/kernel/src/kernel/task.c:243-255 | a wait finds exactly the child with that process number |
| SchedulerFamilies.StatusKept | src/kernel/monolithic/kernel/src/kernel/task.c:444-451 | over every run, number and status of a task that exited stay as they are until a wait collects them |
| SchedulerFamilies.WaitSeesStatus | src/kernel/monolithic/kernel/src/kernel/syscall.c:545-592 | over every run, the first wait for a child after its exit finds it, sees the status it exited with, and frees its entry |
| SchedulerOrphans.StrangerWoken | src/kernel/monolithic/kernel/src/kernel/task.c:444-471 | a run from start-up: a parent is reaped before its child, another process takes its entry and sleeps, and the exit of the child ends that sleep at once |
| SchedulerStacks.StepLost | src/kernel/monolithic/kernel/src/kernel/task.c:479-563 | a step loses a kernel stack slot exactly when a creation finds entry and stack but not the memory it needs, and no step gives one back |
| SchedulerStacks.SlotsLost | src/kernel/monolithic/kernel/src/kernel/task.c:479-563 | over every run each such failure costs one slot for good, and nothing else does |
| SchedulerStacks.SlotsAccounted | src/kernel/monolithic/kernel/src/kernel/task.c:479-517 | the taken slots are one for each task in use, and the lost ones |
| SchedulerStacks.TasksLeft | src/kernel/monolithic/kernel/src/kernel/task.c:479-563 | after any run from start-up there are at most sixteen tasks, less one for each such failure |
| ReadyList.AppendLinks | src/kernel/monolithic/kernel/src/kernel/task.c:97-113 | the pointer writes of an insertion yield the list of the longer queue |
| ReadyList.RemoveLinks | src/kernel/monolithic/kernel/src/kernel/task.c:115-137 | the pointer writes of a removal anywhere yield the list without that task |
| Scheduler.TaskScheduler.EnqueueTask | src/kernel/monolithic/kernel/src/kernel/task.c:97-113 | the task is ready at the tail; the list stays well formed both ways |
| Scheduler.TaskScheduler.RemoveTask | src/kernel/monolithic/kernel/src/kernel/task.c:115-137 | the task leaves the queue; the others keep their order |
| Scheduler.TaskScheduler.SelectNextTask | src/kernel/monolithic/kernel/src/kernel/task.c:139-167 | the head runs with a new quantum, or nothing changes if there is none |
| Scheduler.TaskScheduler.ScheduleTask | src/kernel/monolithic/kernel/src/kernel/task.c:1039-1071 | the running task goes to the tail and the head runs |
| Scheduler.TaskScheduler.WakeWaitingTasks | src/kernel/monolithic/kernel/src/kernel/task.c:420-434 | the loop over the table wakes exactly as the step relation says |
| Scheduler.TaskScheduler.TickTask | src/kernel/monolithic/kernel/src/kernel/task.c:1073-1103 | one tick step, the invariant kept |
| Scheduler.TaskScheduler.YieldTask | src/kernel/monolithic/kernel/src/kernel/syscall.c:682-687 | one yield step, the invariant kept |
| Scheduler.TaskScheduler.SleepTask | src/kernel/monolithic/kernel/src/kernel/syscall.c:209-227 | one sleep step, the invariant kept |
| Scheduler.TaskScheduler.ExitTask | src/kernel/monolithic/kernel/src/kernel/task.c:444-477 | one exit step, the invariant kept |
| Scheduler.TaskScheduler.AllocateStack | src/kernel/monolithic/kernel/src/kernel/task.c:479-497 | the lowest free stack slot, or failure when all are taken |
| Scheduler.TaskScheduler.FreeStack | src/kernel/monolithic/kernel/src/kernel/task.c:499-517 | the slot of the stack is free again |
| Scheduler.TaskScheduler.AllocTask | src/kernel/monolithic/kernel/src/kernel/task.c:519-563 | the first unused entry with the first free stack, a used-up process number even on failure |
| Scheduler.TaskScheduler.CreateTask | src/kernel/monolithic/kernel/src/kernel/task.c:609-707 | a new task at the tail, or a given-up entry that keeps its stack slot |
| Scheduler.TaskScheduler.SpawnTask | src/kernel/monolithic/kernel/src/kernel/task.c:609-707 | one creation step while another task runs, the invariant kept |
| Scheduler.TaskScheduler.ForkCurrent | src/kernel/monolithic/kernel/src/kernel/syscall.c:329-494 | one fork step, the invariant kept; the new process number, or -1 exactly when the caller is no user process or entry, stack or memory is missing |
| Scheduler.TaskScheduler.ReapChild | src/kernel/monolithic/kernel/src/kernel/syscall.c:545-592 | one reap step: the child's number if some child of the running user process has it, and then the status of the first such child, which is gone from table, stacks and its parent's list; otherwise -1 and nothing changed |
| Scheduler.TaskScheduler.SetCurrent | src/kernel/monolithic/kernel/src/kernel/task.c:1110-1139 | the task leaves the queue and runs |
| Scheduler.TaskScheduler.Boot | src/kernel/monolithic/kernel/src/kernel/task.c:565-624 | starting up leaves exactly one task, the idle task, running on the first stack slot with an empty queue, and establishes the invariant |
| UserStack.SetupUserStack | src/kernel/monolithic/kernel/src/kernel/task.c:257-370 | success exactly when strings, alignment and vectors fit one page; then the page decodes from the stack pointer to return address, argc, argv, null, envp, null, each pointer showing its string, and neither strings nor words overlap |
| UserStack.FitsIff | src/kernel/monolithic/kernel/src/kernel/task.c:257-330 | everything fits if and only if the strings with their NULs, each set rounded up to four, the two null-ended vectors, the count and the return address come to no more than 4096 bytes |
| UserStack.PushStrings | src/kernel/monolithic/kernel/src/kernel/task.c:290-322 | strings are packed downwards if and only if they fit, each with its NUL, apart from each other and below what was there |
| UserStack.FrameTargets | src/kernel/monolithic/kernel/src/kernel/task.c:338-366 | the pointers point to where the strings were packed, so the strings lie apart above the words |
| UserStack.PushVector | src/kernel/monolithic/kernel/src/kernel/task.c:338-354 | a null-terminated vector of pointers below what was there |
| UserStack.FrameReads | src/kernel/monolithic/kernel/src/kernel/task.c:338-366 | the words and strings in memory read back as the vectors that were passed |
| UserStack.HeldStringReads | src/kernel/monolithic/kernel/src/kernel/task.c:290-303 | a stored string reads back up to its NUL |
| ModuleLayout.AlignedUp | src/kernel/monolithic/kernel/src/kernel/module_loader.c:542-547 | the aligned offset is the next multiple of the alignment and of the page size |
| ModuleLayout.LaidStep | src/kernel/monolithic/kernel/src/kernel/module_loader.c:533-608 | a further section is placed behind the others on pages of its own |
| ModuleLayout.RangesApart | src/kernel/monolithic/kernel/src/kernel/module_loader.c:533-608 | sections of a loaded module lie on disjoint page ranges, at most 16 pages in all, so the mapping table never overflows |
| ModuleLayout.CleanupReaches | src/kernel/monolithic/kernel/src/kernel/module_loader.c:201-213 | the clean-up reaches every page of the module if and only if the load size, gaps included, is within its page count |
| ModuleLayout.CleanupMisses | src/kernel/monolithic/kernel/src/kernel/module_loader.c:201-213 | two small sections, the second aligned to two pages: the clean-up misses the second |
| ModuleRelocation.EachRelocatedOnce | src/kernel/monolithic/kernel/src/kernel/module_loader.c:450-468 | where target words are disjoint each ends as S + A or S + A - P modulo 2^32 for its original contents |
| ModuleRelocation.OthersKept | src/kernel/monolithic/kernel/src/kernel/module_loader.c:450-468 | all other bytes are unchanged |
| ModuleLayout.LaidMeans | src/kernel/monolithic/kernel/src/kernel/module_loader.c:528-614 | every section that is to be allocated and is not empty has one place, at a multiple of its alignment from the load base on, on as many pages as its size takes up, behind the sections in front of it; no other section has one |
| RelocationRecords.PatchesExist | src/kernel/monolithic/kernel/src/kernel/module_loader.c:284-322 | relocation succeeds if and only if every record of a known kind, of a section that was loaded, names a symbol of the table, and the kernel exports what it names if it is external |
| RelocationRecords.RecordsCarriedOut | src/kernel/monolithic/kernel/src/kernel/module_loader.c:324-474 | each such record, told by section and index, has its word end as S + A or S + A - P where no two words share a byte |
| RelocationRecords.OtherBytesKept | src/kernel/monolithic/kernel/src/kernel/module_loader.c:324-474 | a byte of no record's word keeps its value |
| ModuleLoader.PutWherePlaced | src/kernel/monolithic/kernel/src/kernel/module_loader.c:600-606 | the mapping table gives a section exactly the base at which it was placed |
| ModuleLoader.FilledMeans | src/kernel/monolithic/kernel/src/kernel/module_loader.c:574-598 | a placed section holds its bytes of the file, and zeros up to the end of its pages |
| ModuleLoader.Loader.AllocateFrames | src/kernel/monolithic/kernel/src/kernel/module_loader.c:184-199 | one frame per page within the module's limit, or failure exactly when limit or pool are too small |
| ModuleLoader.Loader.Cleanup | src/kernel/monolithic/kernel/src/kernel/module_loader.c:201-213 | every frame goes back; as many pages from the load base on are unmapped; a fault exactly when there are frames but no page table |
| ModuleLoader.Loader.FillSection | src/kernel/monolithic/kernel/src/kernel/module_loader.c:574-598 | the pages of a section hold its bytes and then zeros |
| ModuleLoader.Loader.LoadSections | src/kernel/monolithic/kernel/src/kernel/module_loader.c:528-614 | all sections are placed, mapped and filled exactly when pages, file contents and the frames left beside the page table suffice |
| ModuleLoader.Loader.ProcessRelocations | src/kernel/monolithic/kernel/src/kernel/module_loader.c:324-474 | 0 if and only if every record that applies resolves; then every record's word, where no two share a byte, went from A to S + A or S + A - P, S being the symbol's value from the base of its section on or the kernel's export, and every other byte is as it was |
| ModuleLoader.GaveUpCleaned | src/kernel/monolithic/kernel/src/kernel/module_loader.c:528-624 | the pages a load that gave up at a section leaves mapped: those of the mapped sections beyond as many pages as it held frames; none exactly when the layout by then is no larger than that |
| ModuleLoader.Loader.Load | src/kernel/monolithic/kernel/src/kernel/module_loader.c:476-666 | a fault exactly when there are frames, but not for the first section and the page table behind the load base; otherwise success exactly when sections fit and symbols resolve; a failure returns every frame but the page table's, and the pages it leaves mapped are told exactly, after a failed relocation and after a failed section |
| Itoa.NumeralDecodes | src/kernel/monolithic/libc/src/stdlib/itoa.c:58-63 | decoding the numeral of a value gives the value |
| Itoa.NumeralUnique | src/kernel/monolithic/libc/src/stdlib/itoa.c:58-63 | it is the only numeral without leading zeros for that value |
| Itoa.WordShort | src/kernel/monolithic/libc/src/stdlib/itoa.c:47-75 | at most 32 digits for a 32-bit value in any base |
| Itoa.BasesWithText | src/kernel/monolithic/libc/src/stdlib/itoa.c:3-10 | exactly the bases from 2 to 36 give a text |
| Itoa.Uitoa | src/kernel/monolithic/libc/src/stdlib/itoa.c:47-75 | any buffer with room for the text and a NUL holds the most-significant-first numeral and the NUL afterwards, or the empty string for an unsupported base |
| Itoa.Itoa | src/kernel/monolithic/libc/src/stdlib/itoa.c:3-45 | in any buffer with room for the text and a NUL: a sign in base 10 only, then the numeral of the magnitude |
| Itoa.ReverseInPlace | src/kernel/monolithic/libc/src/stdlib/itoa.c:36-42 | the in-place loop reverses the range and touches nothing else |
| Itoa.DecimalRoundTrip | src/kernel/monolithic/libc/src/stdlib/itoa.c:3-45 | in base 10 the text gives the integer back |
| Itoa.SignLost | src/kernel/monolithic/libc/src/stdlib/itoa.c:15-23 | in any other base two values share a text if and only if they have the same magnitude |

## Left out

- Devices, interrupts, assembly, the TLB, logging, menus and the console are not modelled: the disk is an array of sectors that never fails inside its bounds, `cr3` is a field, a timer tick is a call.
- FAT volumes with a sector size other than 512, more than one mounted volume, null `fs`, path and buffer arguments, and subdirectories are not modelled; `fat16_memcpy` and `fat16_memcmp` are sequence operations.
- Fat16.FileSystem.Write: requests that take a position past 2^32 - 1 are outside the model, and so are two writers on one file and deleting a file that is open.
- Space of deleted files: `fat16_delete` only marks the entry, so the clusters stay taken; nothing is claimed about getting them back.
- Pmm.FramePool.Init: the kernel image and the memory map are assumed to be below 128 MiB and not empty, as the boot loader places them; region records are kept only as far as they bound the frame count.
- Pmm.FramePool.FreeFrame: given a frame that is handed out; the code does not check.
- Heap.KernelHeap.Kmalloc: requests above 0xFFFFFFF0 bytes are outside its contract, since the block they get is too small; only headers are modelled as memory, payload bytes belong to the callers; the array of frame addresses on the kernel stack is taken to fit there; one page table covers the heap region, and what a faulting call leaves behind is not told.
- Heap.KernelHeap.Kfree: given null or a pointer that is handed out; the code does not check.
- Paging.PagingInit: enough free frames for the tables and stacks, and a kernel image that ends below the stack region; the code checks neither, and its writes before paging is on are to physical addresses.
- Vmm.AddressSpaces.MapPage: addresses below 0xFFC00000 and flags in the low twelve bits; the user and write permission bits are stored but nothing is claimed about them.
- Vmm.AddressSpaces.UnmapPage: given an address whose table is present; otherwise the store faults.
- `vmm_free_page_directory` is not modelled: tables are shared between directories, so isolation of address spaces does not hold after it.
- SchedulerSteps.Fork: the copying of pages, registers and user memory is one flag that says whether memory sufficed; a failed creation keeps its stack slot, as in the code.
- Scheduler.TaskScheduler.CreateTask: the creation of kernel tasks never runs out of memory in the code; the flag covers the user variants, whose loaders are not modelled, and the other fields of a given-up entry are not tracked.
- Scheduler.TaskScheduler.ReapChild: the branch of `sys_wait` for a child that still runs is not modelled, since it returns without a switch; the list of children is a sequence in the control block where the code links siblings by pointers.
- Scheduler.TaskScheduler.ExitTask: the status word stored in the parent's memory and the saved registers are not modelled.
- Scheduler.TaskScheduler.TickTask: neither ticks nor process numbers wrap around 32 bits.
- UserStack.SetupUserStack: the stack frame is an array of bytes, mapped through the window in the code; null argument vectors are empty ones.
- ModuleLoader.Loader.Load: section headers, symbols and relocations are given decoded, with power-of-two alignments, addresses below 2^32 and relocations inside their sections; entry points are not looked up; the page tables of further slots, which a module reaches only through large alignments, are taken to be present; only one module is loaded, and what a faulting load leaves behind is not told.
- Itoa.Itoa: not for the smallest integer in base 10, whose negation overflows.
- `elf_loader.c`, `task_replace_process_image`, the fishbone and barebones kernels, user programs and `vsprintf` are not part of this model.

# idos-nx: a verified model of its stateful cores

This project models, in Dafny, the parts of the idos-nx operating system in which a clever mutable structure has to behave
like a simple mathematical object, and proves that it does.

- **The FAT12 stack.** `HashIndex.dfy` and `DiskAccess.dfy` model the write-back sector cache (open-addressing index, least
  recently used eviction, 16-sector readahead) and prove it a flat array of bytes over every run. `FatTable.dfy`,
  `FatChains.dfy`, `FatOperations.dfy`, `ClusterBytes.dfy`, `FatGrowth.dfy` and `FatRuns.dfy` build 12-bit entries, chains
  and cluster contents on that array; `DirEntries.dfy`, `FatFile.dfy` and `SubDirectory.dfy` put files and subdirectories on
  top. All updates are the one in-place overwrite of `Bytes.dfy`, so the top theorems over runs (`TableRun`, `FileSession`,
  `DirSession`) speak about the whole stack. The format is that of the sections "FAT Data Structure" and
  "FAT Directory Structure" of the Microsoft FAT specification, version 1.03.
- **The two heaps.** `FreeListHeap.dfy` is the C library's first-fit coalescing heap over a memory of 4-byte words.
  `SlabLists.dfy` and `SlabAllocator.dfy` are the Rust runtime's slab allocator, whose tracking nodes are slots of its own.
  `HeapRuns.dfy` and `SlabRuns.dfy` prove that whole runs of both, with the program's own stores in between, behave as the
  separate objects of `Objects.dfy`.
- **The memory map.** `MemoryMap.dfy` places, splits and removes regions.
- **Kernel communication.** `Pipe.dfy`, `RingBuffer.dfy`, `Futex.dfy` and `WakeSet.dfy`. The ring and the wake set are state
  machines over single steps, with history variables; a run is any sequence of events.
- **Device transfer.** `Floppy.dfy` and `BootLoader.dfy`. The loader's image is tied to the FAT driver's contents.
- `Collections.dfy` holds what several of these share: options, sequences without duplicates, sizes of sets.

State that the source updates in place is a class (or an array) here; a linked list or an ordered map of the source is a
sequence held in a field. Ghost fields and ghost parameters (`View`, `chain`, `taken`, `held`, ...) carry the abstraction.
What the kernel, the controller or the device answers is a parameter or a field.

Where a property fails for the code, the code is modelled as it is and the exact condition is proved:

- A mapping request may be given a place outside the map's bounds or on top of another region: a hint is not tested against
  the upper bound, and the search from the top answers 0 when nothing fits. `MapMemory` says exactly when the region joins
  the map (`Safe`; `HintPastEndExample`, `FullMapExample`, `PartPageExample`).
- The part of a region behind an unmapped range keeps its backing un-offset (`TailTranslationExample`,
  `TranslationKeptExactly`).
- A futex wait that times out, or whose task is terminated, leaves an entry on the watch list. It uses up a wake, or resumes
  a task that waits elsewhere, although the documentation speaks of waking up to that many tasks on the address.
  `WakeIsExact` says exactly when a wake does its job (`StaleEntryExample`, `EndedEntryExample`, `StrayWakeExample`); as long
  as waits end by wakes only, it always does (`EveryWakeIsRight`).
- The scan for a free cluster does not know how many clusters the volume has. `AllocateCluster` says exactly when its answer
  is right (`NoPhantom`, `PhantomExample`).
- A write without data past the end can make a file longer than its clusters (`Hollow`, `HollowExample`); one that meets a
  full volume leaves the size as it was (`FullVolumeExample`); and a first cluster may not get into the stored entry
  (`Named`, `UnnamedExample`). `File.Write` says exactly when each happens.
- Unmapping tests its bound on a 32-bit sum that wraps around. `UnmapMemory` says exactly which ranges past the end are not
  refused, and when the kernel panics instead (`WrapExample`).
- A large block whose tracking node is not to be had makes the slab allocator store through a null pointer. `Alloc` says
  exactly when (`NoNode`).

Conventions: ages, offsets, ring counters and the wake signal are unbounded numbers; the code's 32-bit counters are assumed
not to wrap, and so are the sums of a hint and a size when memory is mapped. The 32-bit sum of unmapping and the bootloader's
16-bit sector numbers do wrap in the model.

## Model

| member | source | states |
|---|---|---|
| `HashIndex.EmptyBucketExists` | components/drivers/fatdriver/src/disk.rs:106-120 | with fewer than 256 slots indexed some bucket is empty, so every probe loop ends |
| `HashIndex.ProbeStopsRightly` | components/drivers/fatdriver/src/disk.rs:106-120 | in an exact index every indexed slot lies on its probe path strictly before any empty bucket |
| `HashIndex.InsertExact` | components/drivers/fatdriver/src/disk.rs:122-132 | filling the first empty bucket on a new slot's probe path keeps the index exact for all slots and the new one |
| `HashIndex.NeverPastTheSweep` | components/drivers/fatdriver/src/disk.rs:134-156 | during removal no entry that is taken out and reinserted ends up past the sweep position |
| `HashIndex.SweepStep` | components/drivers/fatdriver/src/disk.rs:145-151 | one round of clear-and-reinsert keeps the sweep invariant and moves the sweep on by one bucket |
| `HashIndex.SweepDone` | components/drivers/fatdriver/src/disk.rs:134-156 | when the sweep reaches an empty bucket the index is exact for every slot but the removed one |
| `DiskCache.DiskAccess.constructor` | components/drivers/fatdriver/src/disk.rs:46-75 | for every buffer size that gives 16 to 255 slots, a cold cache stands for the device's own bytes, with an exact empty index and the slots that the page rounding yields |
| `DiskCache.DiskAccess.HashLookup` | components/drivers/fatdriver/src/disk.rs:106-120 | answers a slot that holds the sector, and none exactly when no slot does |
| `DiskCache.DiskAccess.HashInsert` | components/drivers/fatdriver/src/disk.rs:122-132 | fills the first empty bucket on the probe path, and changes nothing if the table is full |
| `DiskCache.DiskAccess.HashRemove` | components/drivers/fatdriver/src/disk.rs:134-156 | afterwards the index is exact for all slots but the removed sector's; an uncached sector changes nothing |
| `DiskCache.DiskAccess.ClearAndRehash` | components/drivers/fatdriver/src/disk.rs:142-152 | clearing a bucket and reinserting the run behind it leaves an index exact for all the other slots |
| `DiskCache.DiskAccess.OldestEntry` | components/drivers/fatdriver/src/disk.rs:232-240 | the first entry of least age |
| `DiskCache.WriteBack` | components/drivers/fatdriver/src/disk.rs:242-248 | writing a slot back keeps disk, cache and flat array coherent, whether the slot is then kept clean or given away |
| `DiskCache.WriteThrough` | components/drivers/fatdriver/src/disk.rs:296-314 | writing into a cached sector and into the flat array at the same place keeps them coherent |
| `DiskCache.DiskAccess.WriteSlotBack` | components/drivers/fatdriver/src/disk.rs:242-248 | overwrites exactly the sector of that slot on the device |
| `DiskCache.DiskAccess.Evict` | components/drivers/fatdriver/src/disk.rs:231-261 | gives the slot of the least recently used entry, which is outside the current batch, to the new sector, writing it back first if dirty and else not touching the device; no other slot changes |
| `DiskCache.DiskAccess.AllocateSlot` | components/drivers/fatdriver/src/disk.rs:218-262 | a slot never used before, as long as there is one, and then the least recently used; it is not one of the batch being loaded, everything else stays cached, and coherence is kept |
| `DiskCache.DiskAccess.CountUncached` | components/drivers/fatdriver/src/disk.rs:176-188 | how many sectors from the start on, at most 16, are uncached, and the next one is cached if fewer than 16 |
| `DiskCache.DiskAccess.AllocateBatch` | components/drivers/fatdriver/src/disk.rs:190-195 | the slots of one batch are pairwise distinct and all still hold their sectors at the end of the batch |
| `DiskCache.DiskAccess.LoadBatch` | components/drivers/fatdriver/src/disk.rs:197-214 | after staging and copying, every slot of the batch agrees with the flat array |
| `DiskCache.DiskAccess.Readahead` | components/drivers/fatdriver/src/disk.rs:176-214 | the requested sector is cached afterwards, so the lookup that follows cannot fail, and the flat array is unchanged |
| `DiskCache.DiskAccess.CacheSector` | components/drivers/fatdriver/src/disk.rs:158-172 | returns a slot that holds the sector's bytes of the flat array, which is unchanged, and makes it the newest entry |
| `DiskCache.DiskAccess.ReadBytes` | components/drivers/fatdriver/src/disk.rs:264-287 | fills the buffer range with exactly that slice of the flat array |
| `DiskCache.DiskAccess.WriteChunk` | components/drivers/fatdriver/src/disk.rs:300-312 | marks the slot dirty and overwrites just those bytes of the flat array |
| `DiskCache.DiskAccess.WriteBytes` | components/drivers/fatdriver/src/disk.rs:296-314 | the flat array is overwritten at the offset and nowhere else |
| `DiskCache.DiskAccess.FlushAll` | components/drivers/fatdriver/src/disk.rs:323-333 | afterwards the disk equals the flat array and no entry is dirty |
| `DiskCache.CleanIsView` | components/drivers/fatdriver/src/disk.rs:323-333 | a coherent cache without dirty entries stands for exactly what is on the disk |
| `DiskCache.ViewIsDetermined` | components/drivers/fatdriver/src/disk.rs:158-333 | disk, buffer and entries determine the flat array, so it is no free choice of the specification |
| `DiskCache.ServeOne` | components/drivers/fatdriver/src/disk.rs:264-333 | one read, write or flush answers and acts as on the flat array |
| `DiskCache.Serve` | components/drivers/fatdriver/src/disk.rs:158-333 | every run of reads, writes and flushes answers as a flat byte array does; after a last flush the disk is that array |
| `FatTable.RegionsFollow` | components/drivers/fatdriver/src/bpb.rs:28-36 | from the boot block: tables, root directory and clusters follow each other without gaps, clusters of that many sectors one after the other; exactly when the layout holds for a volume |
| `FatTable.EntryBytes` | components/drivers/fatdriver/src/table.rs:35-44 | the twelve bits of an entry in its bytes, for even and odd clusters |
| `FatTable.PairRoundTrip` | components/drivers/fatdriver/src/table.rs:35-93 | three bytes hold a pair of entries without loss |
| `FatTable.HalfRoundTrip` | components/drivers/fatdriver/src/table.rs:68-93 | storing one 12-bit half reads back and leaves the other half alone |
| `FatTable.StoreEntry` | components/drivers/fatdriver/src/table.rs:68-93 | rewriting one pair changes exactly one entry of the whole table |
| `FatTable.FatUntouched` | components/drivers/fatdriver/src/table.rs:68-93 | a write outside a table copy leaves all its entries alone |
| `FatTable.BothDecodersAgree` | bootloader/bootbin/src/disk.rs:120-133 | the bootloader's two-byte decode equals the driver's three-byte decode on every image and cluster |
| `FatChains.ChainIsAcyclic` | components/drivers/fatdriver/src/table.rs:120-130 | a chain that ends in 0xFFF repeats no cluster, so walking it ends |
| `FatChains.ChainsAgree` | components/drivers/fatdriver/src/dir.rs:592-607 | two chains from the same first cluster are the same chain |
| `FatChains.FreeIsOnNoChain` | components/drivers/fatdriver/src/table.rs:97-117 | a cluster whose entry is zero lies on no chain |
| `FatChains.GrowthIsLocal` | components/drivers/fatdriver/src/table.rs:97-117 | a chain that is new or grows by free clusters, with no other entry changed, disturbs no set of disjoint chains, and no used cluster falls off all chains |
| `FatChains.FreeingIsLocal` | components/drivers/fatdriver/src/table.rs:120-130 | clearing a chain disturbs no other one of any set of disjoint chains, and no used cluster falls off all chains |
| `FatChains.FreeKeepsForest` | components/drivers/fatdriver/src/table.rs:120-130 | clearing a chain leaves exactly the other chains |
| `FatChains.FreeLosesNothing` | components/drivers/fatdriver/src/table.rs:120-130 | after clearing a chain every used cluster still lies on some chain |
| `FatOperations.GetNextCluster` | components/drivers/fatdriver/src/table.rs:35-51 | the entry of the cluster in the first copy, none for 0xFFF; the volume is unchanged |
| `FatOperations.SetClusterEntry` | components/drivers/fatdriver/src/table.rs:68-93 | in every copy exactly that entry becomes the 12-bit value, and nothing outside the tables changes, for every cluster of the volume |
| `FatOperations.AllocateCluster` | components/drivers/fatdriver/src/table.rs:97-117 | the lowest free cluster, marked 0xFFF in every copy, as one more chain beside the others; it answers a cluster of the volume or a rightful none exactly when a cluster is free or nothing behind the entries looks free |
| `FatOperations.PhantomExample` | components/drivers/fatdriver/src/table.rs:97-117 | a full volume of one cluster whose table goes on with zeros, so that the scan takes a cluster that is none |
| `FatOperations.FreeChain` | components/drivers/fatdriver/src/table.rs:120-130 | terminates with exactly the chain's entries zeroed, in every copy; all other chains stay |
| `ClusterBytes.ChainRead` | components/drivers/fatdriver/src/dir.rs:674-718 | byte k * cluster size + o of a chain is byte o of its k-th cluster on the disk |
| `ClusterBytes.ClusterWrite` | components/drivers/fatdriver/src/dir.rs:650-659 | a write inside one cluster changes that cluster only |
| `ClusterBytes.ChainWrite` | components/drivers/fatdriver/src/dir.rs:650-659 | a write into the k-th cluster overwrites the chain's byte string at that place |
| `ClusterBytes.TableIsNoCluster` | components/drivers/fatdriver/src/table.rs:14-33 | table updates reach no cluster |
| `ClusterBytes.ClusterIsNoTable` | components/drivers/fatdriver/src/table.rs:14-33 | writes behind the tables reach no table copy |
| `FatGrowth.AppendCluster` | components/drivers/fatdriver/src/dir.rs:623-648 | the chain gains the lowest free cluster, every other chain and all chain contents are kept, every copy gets the same two entries; failure exactly when none is free, changing nothing |
| `FatRuns.AppliedSound` | components/drivers/fatdriver/src/table.rs:97-130 | taking, extending or releasing a chain keeps the table a set of disjoint chains that covers every used cluster |
| `FatRuns.RunSound` | components/drivers/fatdriver/src/table.rs:97-130 | so does every run of such requests |
| `FatRuns.ServeTable` | components/drivers/fatdriver/src/table.rs:68-130 | one request on the disk acts on every table copy and on the list of chains as on the table of numbers |
| `FatRuns.TableRun` | components/drivers/fatdriver/src/table.rs:68-130 | every run of requests on the disk leaves in every copy the table that the run on numbers gives, with exactly its chains, disjoint and covering |
| `DirEntries.EntryRoundTrip` | components/drivers/fatdriver/src/dir.rs:6-36 | an entry stored in its 32 bytes reads back as itself |
| `DirEntries.DecodesExactly` | components/drivers/fatdriver/src/dir.rs:6-36 | any 32 bytes decode to an entry exactly when they hold its fields: the name in bytes 0 to 7, the extension in 8 to 10, the attributes in 11, the first cluster in 26 and 27 and the size in 28 to 31, low byte first |
| `DirEntries.EncodesInPlace` | components/drivers/fatdriver/src/dir.rs:6-36 | an entry that is written is there field by field, and no byte around it changes |
| `DirEntries.BytesRoundTrip` | components/drivers/fatdriver/src/dir.rs:6-36 | any 32 bytes are the encoding of what they decode to |
| `DirEntries.AsciiCharMatches` | components/drivers/fatdriver/src/dir.rs:156-164 | two characters match exactly when they are equal or are the capital and the small form of one letter A to Z |
| `DirEntries.MatchesName` | components/drivers/fatdriver/src/dir.rs:139-154 | a name matches exactly when both parts are equal but for the case of letters |
| `FatFile.EntryWritten` | components/drivers/fatdriver/src/dir.rs:665-669 | storing the directory entry touches neither the tables nor the file's bytes nor any other cluster |
| `FatFile.SameFileTwice` | components/drivers/fatdriver/src/dir.rs:609-672 | two changes to one file, one after the other, are again a change to that file only |
| `FatFile.OtherFileKept` | components/drivers/fatdriver/src/dir.rs:609-672 | every other file whose chain is disjoint keeps its chain and its bytes when one file changes |
| `FatFile.File.CacheClusterChain` | components/drivers/fatdriver/src/dir.rs:592-607 | the handle's cluster list becomes exactly the chain, the only one from its first cluster; the volume is unchanged |
| `FatFile.File.GrowTo` | components/drivers/fatdriver/src/dir.rs:640-648 | extends the chain past the given cluster by free clusters only; gives up only when none is left and the whole capacity is used |
| `FatFile.File.WriteLoop` | components/drivers/fatdriver/src/dir.rs:632-663 | puts the data in place cluster by cluster, and stops early only if the data exceeds the capacity |
| `FatFile.File.StartWrite` | components/drivers/fatdriver/src/dir.rs:619-630 | the handle then knows a chain, a first cluster being taken for an empty file; failing changes nothing |
| `FatFile.File.Write` | components/drivers/fatdriver/src/dir.rs:609-672 | at any offset, a complete write makes the contents the old ones with the data there, the gap past the old end holding anything; complete exactly when there is no data or it fits the capacity; else the size stays; the chain grows by free clusters; no other chain and nothing else changes; the handle stays right exactly when the write is not hollow, and after a hollow one the file is longer than its clusters; the stored entry equals the handle's exactly under `Named`, and a size that grew is in its bytes on the disk |
| `FatFile.HollowExample` | components/drivers/fatdriver/src/dir.rs:665-669 | a file in the root directory of a small volume, and a write without data past its chain, which is hollow |
| `FatFile.UnnamedExample` | components/drivers/fatdriver/src/dir.rs:623-630 | a new file on an empty volume, and an empty write whose first cluster the stored entry does not name |
| `FatFile.FullVolumeExample` | components/drivers/fatdriver/src/dir.rs:640-648 | a full volume on which a file of one cluster holds 512 bytes and not one more |
| `FatFile.File.Read` | components/drivers/fatdriver/src/dir.rs:674-718 | returns exactly min(buffer, size - offset) bytes of the contents, none past the chain, and changes nothing |
| `FatFile.ServeFile` | components/drivers/fatdriver/src/dir.rs:592-718 | one request through a handle acts and answers as on a byte string, changes no other file, and keeps the stored entry up to date |
| `FatFile.FileSession` | components/drivers/fatdriver/src/dir.rs:592-718 | every run of reads and writes through one handle, down to the sector cache, also on a new file and past its end, is the run on a byte string (a gap holding anything); over the whole run every other file keeps its chain and bytes, the chain grows by free clusters, the copies stay equal, and the stored entry keeps up |
| `SubDirectory.ListedExactly` | components/drivers/fatdriver/src/dir.rs:956-989 | the listing is exactly the undeleted slots before the first never-used one, in order |
| `SubDirectory.ListingIsListed` | components/drivers/fatdriver/src/dir.rs:956-989 | the listing as a list of entries is what the listed slots hold |
| `SubDirectory.FillInserts` | components/drivers/fatdriver/src/dir.rs:826-870 | filling the first free slot inserts exactly that entry into the listing and keeps the clean tail |
| `SubDirectory.ExtendInserts` | components/drivers/fatdriver/src/dir.rs:856-870 | a zeroed cluster with the entry in front appends exactly that entry to the listing of a full directory and keeps the clean tail |
| `SubDirectory.DeleteDrops` | components/drivers/fatdriver/src/dir.rs:897-934 | marking the first match deleted drops exactly the first matching entry of the listing and keeps the clean tail |
| `SubDirectory.SlotPlace` | components/drivers/fatdriver/src/dir.rs:946-951 | the disk offset of a slot, and that the slot's bytes decode to that slot of the directory |
| `SubDirectory.SlotsLie` | components/drivers/fatdriver/src/dir.rs:946-951 | every slot of the directory is on the disk at its offset, field by field |
| `SubDirectory.SlotStored` | components/drivers/fatdriver/src/dir.rs:826-870 | storing an entry in a slot changes that slot of the directory and nothing else on the volume |
| `SubDirectory.RemoveEntry` | components/drivers/fatdriver/src/dir.rs:897-934 | marks exactly the first listed match deleted, by its first byte and no other, and returns it; the listing loses exactly that entry; none exactly when no listed entry matches, changing nothing; no table copy changes |
| `SubDirectory.ExtendWith` | components/drivers/fatdriver/src/dir.rs:852-870 | appends a free cluster, zeroed, with the entry in its first slot, keeping the table copies equal; failure changes nothing |
| `SubDirectory.WriteEntry` | components/drivers/fatdriver/src/dir.rs:826-870 | the entry goes into the first free slot, or into a new zeroed cluster when the directory is full; the listing gains exactly that entry; no other slot, no other chain and no byte off the directory changes, and the table copies stay equal; the fields are on the disk at the offset returned |
| `SubDirectory.SameDirectoryTwice` | components/drivers/fatdriver/src/dir.rs:826-934 | two changes to one directory, one after the other, are again a change to that directory only |
| `SubDirectory.OtherFilesKept` | components/drivers/fatdriver/src/dir.rs:826-934 | every file whose chain is disjoint keeps its chain and its bytes when one directory changes |
| `SubDirectory.SubdirIter.constructor` | components/drivers/fatdriver/src/dir.rs:785-804 | the iteration starts at the first slot of the chain |
| `SubDirectory.SubdirIter.Advance` | components/drivers/fatdriver/src/dir.rs:962-981 | moves on by exactly one slot, across clusters and off the end |
| `SubDirectory.SubdirIter.NextEntry` | components/drivers/fatdriver/src/dir.rs:956-989 | the first slot still to be listed with its disk offset; none exactly when nothing is left |
| `SubDirectory.ListAll` | components/drivers/fatdriver/src/dir.rs:785-804 | iterating to the end yields exactly the listed entries in chain order with their disk offsets, where their fields are on the disk |
| `SubDirectory.ServeDir` | components/drivers/fatdriver/src/dir.rs:785-989 | one addition, removal or listing acts and answers as on a list of entries and changes nothing off the directory; an addition is refused only on a full volume |
| `SubDirectory.DirSession` | components/drivers/fatdriver/src/dir.rs:785-989 | every run of additions, removals and listings answers as a list of entries does; over the whole run the tail stays clean, every other file keeps its chain and bytes, the copies stay equal, and no addition is refused while a free cluster is left for each request |
| `FreeListHeap.SplitTiled` | libc/src/allocator.rs:133-140 | cutting a block in two keeps the blocks tiling the mapped heap exactly |
| `FreeListHeap.MergeTiled` | libc/src/allocator.rs:91-107 | joining two adjacent blocks keeps the tiling |
| `FreeListHeap.HeldBlocksAreSafe` | libc/src/allocator.rs:114-182 | a held block's payload is mapped, 8-aligned, and shares no word with any other block, header or payload |
| `FreeListHeap.Heap.FindPlace` | libc/src/allocator.rs:82-89 | the place in the address-ordered list where the block belongs |
| `FreeListHeap.Heap.JoinNext` | libc/src/allocator.rs:91-97 | the block is linked to what follows it, or takes it in if they touch |
| `FreeListHeap.Heap.JoinPrev` | libc/src/allocator.rs:99-110 | the block is linked behind its predecessor, or taken in by it; the list is again sorted with no two blocks adjacent |
| `FreeListHeap.Heap.InsertFree` | libc/src/allocator.rs:74-111 | the block is no longer held, all other payloads are unchanged, and the heap invariant holds |
| `FreeListHeap.Heap.FindFit` | libc/src/allocator.rs:126-161 | the first listed block that is large enough, or none fits |
| `FreeListHeap.Heap.TakeFit` | libc/src/allocator.rs:131-157 | the block is held at just the size that the split rule gives, what is cut off stays listed, and all other payloads are unchanged |
| `FreeListHeap.Heap.GrowHeap` | libc/src/allocator.rs:42-70 | the fresh pages become one held block and the end of the heap moves up to theirs; failure changes nothing |
| `FreeListHeap.Heap.KeepFront` | libc/src/allocator.rs:170-178 | a held block is cut down and the rest joins the list |
| `FreeListHeap.Heap.MallocGrown` | libc/src/allocator.rs:163-182 | a block from fresh pages at just the size that the split rule gives, the rest of them listed |
| `FreeListHeap.Heap.Malloc` | libc/src/allocator.rs:114-182 | an 8-aligned block that was nobody's with at least the asked size and at most a header and 16 bytes more than rounding needs, first fit and else fresh; what is left of the block or region it was cut from is unused; null exactly when the size is zero, or the kernel has no memory and no stretch of unused memory has room, and then nothing changes; all held payloads kept |
| `FreeListHeap.RoomIffFit` | libc/src/allocator.rs:74-161 | the list has no block for a request exactly when no stretch of mapped memory outside the held blocks has room for it, as free neighbours are joined |
| `FreeListHeap.UnusedIsFree` | libc/src/allocator.rs:74-111 | every mapped word outside the held blocks lies in a block of the list |
| `FreeListHeap.Heap.Free` | libc/src/allocator.rs:185-192 | exactly that block is given back; all other payloads kept |
| `FreeListHeap.Heap.CopyPayload` | libc/src/allocator.rs:230-230 | copies the payload and touches no other one |
| `FreeListHeap.Heap.Realloc` | libc/src/allocator.rs:208-233 | the old contents are preserved, in place or moved; growing fails exactly when the kernel has no memory and no unused stretch has room, and then keeps the old block; all other payloads kept |
| `HeapRuns.ServeHeap` | libc/src/allocator.rs:114-233 | one allocation, release, resizing, store or load acts and answers as on separate objects; it is refused exactly when it asks for nothing, or the kernel has no memory and no unused stretch has room |
| `HeapRuns.HeapSession` | libc/src/allocator.rs:114-233 | every run of such requests, whatever the kernel answers, behaves as separate objects that keep their words until given back; the held blocks are exactly those of the objects left; a request that the unused memory of the heap can serve at that moment is never refused, and nothing is while the kernel has memory |
| `SlabLists.ClassIndex` | sdk/src/allocator/mod.rs:16-18 | the smallest class that holds the size, none exactly above 1024 bytes |
| `SlabLists.SlotsApart` | sdk/src/allocator/mod.rs:201-210 | different slots of a page do not overlap |
| `SlabLists.PopSlot` | sdk/src/allocator/mod.rs:205-210 | popping the first free slot keeps every page's threaded list and the set of used slots exact |
| `SlabLists.PushSlot` | sdk/src/allocator/mod.rs:231-236 | pushing a used slot keeps every page's threaded list and the set of used slots exact; a page shows full exactly when it has no free slot |
| `SlabLists.AddPage` | sdk/src/allocator/mod.rs:156-176 | a newly threaded page joins with all its slots free and disturbs no other page |
| `SlabLists.Repartial` | sdk/src/allocator/mod.rs:212-216 | the partial list of a class holds exactly its pages with a free slot, through both changes |
| `SlabHeap.SlabAllocator.constructor` | sdk/src/allocator/mod.rs:72-80 | the empty allocator satisfies the invariant |
| `SlabHeap.SlabAllocator.SlabDealloc` | sdk/src/allocator/mod.rs:224-244 | the slot in hand is the first free one of its page, the page is on the partial list (in front, if it was full), everything else is as before |
| `SlabHeap.FirstFit` | sdk/src/allocator/mod.rs:253-278 | the first run that is large enough, or none is |
| `SlabHeap.SlabAllocator.TakeRun` | sdk/src/allocator/mod.rs:263-271 | a whole free run comes into hand, leaves the list of free runs, and its node goes back to its slab page |
| `SlabHeap.SlabAllocator.CarveRun` | sdk/src/allocator/mod.rs:117-121 | the front of a free run comes into hand and the rest stays tracked |
| `SlabHeap.SlabAllocator.AcquirePage` | sdk/src/allocator/mod.rs:97-145 | the first page of the first free run comes into hand and leaves the list, or the kernel's page if there is no run, filled with zeros; failing changes nothing; no live block's contents change |
| `SlabHeap.SlabAllocator.ZeroPage` | sdk/src/allocator/mod.rs:113-114 | fills the page in hand with zeros and changes neither a free list nor a live block |
| `SlabHeap.SlabAllocator.CutRun` | sdk/src/allocator/mod.rs:103-132 | the front of a free run, or all of it, comes into hand and leaves the list |
| `SlabHeap.SlabAllocator.BuildFreeList` | sdk/src/allocator/mod.rs:168-176 | every slot of the page names the next and the last one the end; other pages' links are unchanged |
| `SlabHeap.SlabAllocator.LinkPage` | sdk/src/allocator/mod.rs:156-186 | the page in hand becomes a slab page and goes in front of both lists of its class, which are otherwise unchanged |
| `SlabHeap.SlabAllocator.NewSlabPage` | sdk/src/allocator/mod.rs:150-187 | a new page of the class, in front of its list; none exactly when there is neither a free run nor a page of the kernel, and then nothing has changed |
| `SlabHeap.SlabAllocator.PopFree` | sdk/src/allocator/mod.rs:201-218 | the first free slot of the page comes into hand; a page that becomes full leaves the partial list |
| `SlabHeap.SlabAllocator.SlabAlloc` | sdk/src/allocator/mod.rs:191-219 | the first free slot of the first page with one comes into hand, else the first slot of a new page; refused exactly when no page of the class has a free slot, there is no free run and the kernel has no page, and then nothing has changed |
| `SlabHeap.SlabAllocator.RecordLargeAlloc` | sdk/src/allocator/mod.rs:290-297 | the run in hand becomes a live block with a tracking node of its own, in front of the records, whatever the nested slot allocation did; fails exactly when no slot is to be had for the node, changing nothing |
| `SlabHeap.SlabAllocator.AcquireRun` | sdk/src/allocator/mod.rs:249-287 | the front of the first free run that is large enough comes into hand, else the kernel's run |
| `SlabHeap.SlabAllocator.LargeAlloc` | sdk/src/allocator/mod.rs:249-287 | the block is the front of the first free run that is large enough, else the kernel's run, and is recorded in front of the others; null exactly when neither is to be had, changing nothing; the store through a null node exactly when the kernel gives a run and no slot is to be had |
| `SlabHeap.SlabAllocator.AddFreePages` | sdk/src/allocator/mod.rs:327-333 | the run in hand goes in front of the free runs; when a 32-byte slot is free no page is needed and the other runs stay as they were |
| `SlabHeap.SlabAllocator.FindLarge` | sdk/src/allocator/mod.rs:302-323 | the record of that address, or there is none |
| `SlabHeap.SlabAllocator.LargeDealloc` | sdk/src/allocator/mod.rs:302-325 | the record is removed and its run goes in front of the free runs, without ever needing a page; an unknown pointer changes nothing |
| `SlabHeap.SlabAllocator.Alloc` | sdk/src/allocator/mod.rs:342-352 | small: null exactly when every page of the class is full, there is no free run and the kernel has no page, and else the first free slot; large: null exactly when no free run is large enough and the kernel has none, and else the first run that fits or the kernel's; a new live block at an address that was not live; null changes nothing; the fault comes exactly when a large block needs a node that is not to be had, with all live blocks as before; no live block's contents change; mapped pages are never given up and only those of the kernel's answers are added |
| `SlabHeap.SlabAllocator.Dealloc` | sdk/src/allocator/mod.rs:354-367 | exactly that block is no longer live, null is ignored, no page is mapped or lost, and the contents of the other live blocks stay; a small block is the next of its page to be handed out, a large one is the first of the free runs |
| `SlabHeap.AreaHolds` | sdk/src/allocator/mod.rs:16-18 | the area set aside for a block has room for the size asked for |
| `SlabHeap.LiveBlocksApart` | sdk/src/allocator/mod.rs:97-367 | in every reachable heap live blocks are pairwise disjoint, over their whole slots and pages |
| `SlabHeap.LiveBlockApartFromOwn` | sdk/src/allocator/mod.rs:97-367 | a live block shares no byte with a page header, a free slot or a tracking node |
| `SlabHeap.LiveBlockApartFromFreeRun` | sdk/src/allocator/mod.rs:97-367 | a live block shares no byte with a free run |
| `SlabHeap.PagesPartitioned` | sdk/src/allocator/mod.rs:97-367 | every mapped page is exactly one of: a slab page, in one live large block, in one free run; and no other page is any |
| `SlabHeap.LiveBlockAligned` | sdk/src/allocator/mod.rs:342-352 | a live block starts at a multiple of its power-of-two alignment, for every alignment up to a page |
| `SlabHeap.HeldOutsideLive` | sdk/src/allocator/mod.rs:224-244 | a slot that the allocator has in hand, and so may store into, lies in no live block |
| `SlabHeap.TakenOutsideLive` | sdk/src/allocator/mod.rs:97-187 | no place of a page in hand lies in a live block |
| `SlabHeap.StoresAreHarmless` | sdk/src/allocator/mod.rs:191-244 | whatever the program stores into its live blocks, all threaded free lists survive |
| `SlabRuns.ServeSlab` | sdk/src/allocator/mod.rs:342-367 | one allocation, release, store or load acts and answers as on separate objects, or is the fault; an allocation is refused exactly when the heap and the kernel have nothing for it |
| `SlabRuns.SlabSession` | sdk/src/allocator/mod.rs:342-367 | every run of such requests behaves as separate objects that keep their words until given back, whatever the allocator stores in its own slots; the live blocks are exactly those of the objects left; a small request is refused only when the kernel has no page, a large one only when it has no run; the run ends early only by the fault, at a large request that gets a run and no page |
| `MemoryMap.OverlapIsOverlap` | kernel/src/task/memory.rs:470-476 | the length test is the usual overlap test for ranges that are not empty |
| `MemoryMap.PlaceInGapIsBest` | kernel/src/task/memory.rs:384-400 | the placement inside one gap is nearest to the hint, forward on ties, among all in the gap |
| `MemoryMap.MappedMemory.CanFitRange` | kernel/src/task/memory.rs:351-360 | true exactly when the range overlaps no region |
| `MemoryMap.MappedMemory.FindNearestFreeSpace` | kernel/src/task/memory.rs:364-442 | a fitting aligned place in [0x1000, upper) such that no fitting place is nearer to the hint on either side, and none as near is forward of the hint when it is not; none exactly when nothing fits |
| `MemoryMap.MappedMemory.FindFreeMappingSpace` | kernel/src/task/memory.rs:448-467 | the highest fitting place, or 0 when nothing fits; the answer fits exactly when some place does |
| `MemoryMap.FullMapExample` | kernel/src/task/memory.rs:448-467 | a full map, where nothing fits, the request goes to address 0 all the same, and a page that was mapped no longer is |
| `MemoryMap.PartPageExample` | kernel/src/task/memory.rs:448-467 | a map where no place fits whole pages and the request is still safe |
| `MemoryMap.HintPastEndExample` | kernel/src/task/memory.rs:191-215 | a hint at the upper bound, which is taken and leaves the map out of order |
| `MemoryMap.JoinsExactly` | kernel/src/task/memory.rs:207-215 | storing a region under its key adds it to the ordered map exactly when its range is clear and ends below the upper bound, and then adds just its bytes |
| `MemoryMap.SafeExactly` | kernel/src/task/memory.rs:180-215 | the place chosen suits the region exactly when the request is safe, a condition on the map, the hint and the size before the call |
| `MemoryMap.MappedMemory.MapMemory` | kernel/src/task/memory.rs:180-215 | the region goes to the place promised for each kind of request; it joins the ordered map, and the mapped set grows by exactly the region, exactly when the request is safe; with a hint the map stays in order exactly then; errors change nothing |
| `MemoryMap.MappedMemory.InitialIndex` | kernel/src/task/memory.rs:243-252 | no region before it reaches the range |
| `MemoryMap.MappedMemory.TouchedKeys` | kernel/src/task/memory.rs:254-263 | the keys of exactly the regions the range touches |
| `MemoryMap.MappedMemory.CutKey` | kernel/src/task/memory.rs:265-316 | one region replaced by what the range leaves of it, and the piece taken out |
| `MemoryMap.Unmapping` | kernel/src/task/memory.rs:225-319 | what is left stays ordered and disjoint and has exactly the addresses outside the range; the pieces are right |
| `MemoryMap.MappedMemory.UnmapMemory` | kernel/src/task/memory.rs:225-319 | the mapped set loses exactly the range; the pieces are disjoint, cover exactly what was removed, and each is backed by the device address or file offset of its region plus its distance from the region's start, or is anonymous; errors change nothing; a range past the end is refused exactly when the sum does not wrap around in 32 bits, and else nothing happens, or the assertion fails exactly when a region holds both ends |
| `MemoryMap.WrapExample` | kernel/src/task/memory.rs:233-235 | a range of nearly all memory that is not refused |
| `MemoryMap.StepKeeps` | kernel/src/task/memory.rs:180-319 | a safe mapping or an unmapping keeps the regions in order and changes the mapped addresses as it should |
| `MemoryMap.EveryMix` | kernel/src/task/memory.rs:180-319 | after any mix of unmappings and mappings that are safe when made the regions are in order and disjoint, and the mapped addresses are those that the calls added and removed |
| `MemoryMap.TailTranslationExample` | kernel/src/task/memory.rs:308-314 | unmapping the middle page of a device mapping changes what its last page translates to |
| `MemoryMap.TranslationKeptExactly` | kernel/src/task/memory.rs:300-315 | what stays mapped keeps its backing exactly when no device or file region reaches across the end of the range |
| `PipeDriver.RingPut` | kernel/src/pipes/driver.rs:211-214 | storing at the head appends to the ring's bytes while the ring is not full |
| `PipeDriver.Pipe.constructor` | kernel/src/pipes/driver.rs:60-78 | a new pipe holds nothing and has no pending read |
| `PipeDriver.Pipe.Drain` | kernel/src/pipes/driver.rs:95-115 | moves exactly the first min(buffer, available) ring bytes into the buffer |
| `PipeDriver.Pipe.Read` | kernel/src/pipes/driver.rs:94-134 | a read is finished exactly when it does not block or the ring suffices, with the ring's first bytes; otherwise it is pending with the whole ring; a second pending read panics |
| `PipeDriver.Pipe.FillPending` | kernel/src/pipes/driver.rs:180-192 | the pending buffer is extended by exactly the bytes copied |
| `PipeDriver.Pipe.FillRing` | kernel/src/pipes/driver.rs:202-217 | the ring is extended by exactly the bytes that fit below 511 |
| `PipeDriver.Pipe.GiveToPending` | kernel/src/pipes/driver.rs:161-200 | a pending read gets the data first; its callback is taken exactly when its buffer becomes full; panics exactly when its buffer crosses a page |
| `PipeDriver.Pipe.Write` | kernel/src/pipes/driver.rs:153-220 | accepts exactly min(length, need + room) bytes; hands the callback back exactly when this write fills the pending buffer, with the length of the read; panics exactly when a pending buffer crosses a page |
| `PipeDriver.RunConserves` | kernel/src/pipes/driver.rs:94-220 | over every run on the queue of bytes, what was held plus what was accepted is what was delivered plus what is held; likewise for reads left pending and handed back |
| `PipeDriver.DeliveredIsPrefix` | kernel/src/pipes/driver.rs:94-220 | over every run of a new pipe up to a panic, the bytes of finished reads are a prefix of the bytes accepted, and the reads handed back are those left pending, in order and at full length, but for the pending one; without one at most 511 bytes are held |
| `PipeDriver.ServeRead` | kernel/src/pipes/driver.rs:94-134 | one read on the ring replies and acts as on a queue of bytes |
| `PipeDriver.ServeWrite` | kernel/src/pipes/driver.rs:153-220 | one write on the ring replies and acts as on a queue of bytes |
| `PipeDriver.ServeAll` | kernel/src/pipes/driver.rs:94-220 | every run of reads and writes on the ring gives the replies of the run on a queue of bytes |
| `SpscRing.NoTornRead` | kernel/src/collections/ringbuffer.rs:56-71 | the consumer never fetches a slot whose store is under way, and fetches the next unread value |
| `SpscRing.TestsAreExact` | kernel/src/collections/ringbuffer.rs:36-61 | the full test refuses exactly at len - 1 items and the empty test exactly at none, with indices only |
| `SpscRing.AnyStep` | kernel/src/collections/ringbuffer.rs:32-71 | every single load or store of either side keeps the invariant |
| `SpscRing.EveryInterleaving` | kernel/src/collections/ringbuffer.rs:32-71 | under every interleaving, unfinished calls included, the consumer has a prefix of the values written and at most len - 1 are in the ring |
| `SpscRing.WholeWrite` | kernel/src/collections/ringbuffer.rs:32-53 | a write, with any steps of the consumer between its own, adds just its value, or refuses, exactly when len - 1 items are in the ring at its test |
| `SpscRing.WholeRead` | kernel/src/collections/ringbuffer.rs:56-71 | a read, with any steps of the producer between its own, hands out the oldest unread value, or none, exactly when there is none at its test |
| `SpscRing.EveryProgram` | kernel/src/collections/ringbuffer.rs:32-71 | any number of writes and reads, in any interleaving of their single steps, are those of a queue of at most len - 1 items: the values written are those whose test found room, and as many are read, in order, as tests found one |
| `Futex.WaitingListed` | kernel/src/sync/futex.rs:33-63 | joining a watch list and blocking keeps every blocked task on the list of its address |
| `Futex.WokenListed` | kernel/src/sync/futex.rs:77-104 | a wake keeps every task that stays blocked on the list of its address |
| `Futex.TickedListed` | kernel/src/task/state.rs:257-270 | a timeout keeps every task that stays blocked on the list of its address |
| `Futex.ChangedListed` | kernel/src/task/state.rs:242-244 | so does any other change of a task, its termination and removal included |
| `Futex.WakeIsExact` | kernel/src/sync/futex.rs:77-104 | a wake resumes only tasks blocked on the address and as many as asked or are there, exactly when the entries taken off hold no task blocked elsewhere and are all such tasks once each or include all of them |
| `Futex.EveryWakeIsRight` | kernel/src/sync/futex.rs:33-104 | in every run in which no futex wait ends other than by a wake, every wake does its job; the tasks may change their run states in any way besides |
| `Futex.WakeEverybody` | kernel/src/sync/futex.rs:77-104 | a wake for as many tasks as are listed leaves nobody blocked on the address |
| `Futex.LastInLine` | kernel/src/sync/futex.rs:77-104 | as long as no entry is stale, a wake reaches the last task that came exactly when it is for more tasks than came before |
| `Futex.TimeoutIsExact` | kernel/src/task/state.rs:257-270 | in every run a wait that no wake ends is over with the first tick that makes the ticks add up to its timeout, and until then is blocked for the rest; without a timeout it stays blocked |
| `Futex.StaleEntryExample` | kernel/src/sync/futex.rs:85-94 | an entry left behind by a timeout uses up a wake that then does not reach a blocked task |
| `Futex.EndedEntryExample` | kernel/src/task/actions/lifecycle.rs:96-125 | so does the entry of a task that is terminated while it waits |
| `Futex.StrayWakeExample` | kernel/src/sync/futex.rs:85-94 | such an entry also makes a wake on one address resume a task that waits on another |
| `Futex.FutexTable.FutexWaitInner` | kernel/src/sync/futex.rs:33-63 | blocks the task on that address exactly when the value is still the expected one and the address is mapped |
| `Futex.FutexTable.WakeFirst` | kernel/src/sync/futex.rs:83-97 | runs exactly the blocked tasks among the first entries and returns the others |
| `Futex.FutexTable.FutexWakeInner` | kernel/src/sync/futex.rs:77-104 | takes off exactly the first count entries; the tasks reenqueued are exactly those that stop being blocked; an emptied list is removed |
| `Futex.FutexTable.UpdateTimeout` | kernel/src/task/state.rs:257-270 | counts the timeout down or resumes the task, and says which |
| `WakeSet.WakeReaches` | kernel/src/sync/wake_set.rs:22-26 | a producer's futex wake for one task reaches the blocked waiter |
| `WakeSet.AnyStep` | kernel/src/sync/wake_set.rs:22-59 | every step of producers, waiter, clock and other futex users, and every change or end of a task, keeps the invariant |
| `WakeSet.EveryRun` | kernel/src/sync/wake_set.rs:22-59 | in every run handles are returned once each in queue order; a waiter blocked with handles queued has some producer that has yet to issue its wake; every futex-blocked task is on its list |
| `WakeSet.HandleNeverLost` | kernel/src/sync/wake_set.rs:22-26 | from the first step of a wake on, in every run, its handle is in its place among those returned and those queued |
| `WakeSet.TakesTheOldest` | kernel/src/sync/wake_set.rs:36-59 | a wait hands out the oldest handles, as many as are queued and fit, and no other step hands out any |
| `WakeSet.WaitReturns` | kernel/src/sync/wake_set.rs:29-59 | with a handle queued and counted in, a wait does not block, hands out the first of the queue and leaves the signal at what is left |
| `WakeSet.SignalIsExact` | kernel/src/sync/wake_set.rs:36-41 | after a wait that no wake is in the middle of, the signal is the length of the queue again once no wake is, so that the next wait blocks exactly when nothing is queued |
| `WakeSet.FinishingWakes` | kernel/src/sync/wake_set.rs:22-42 | that producer, by just finishing its call, gets the waiter running with the queue intact |
| `WakeSet.PopBatch` | kernel/src/sync/wake_set.rs:45-59 | a batch is exactly the first handles of the queue in order |
| `FloppyDriver.ChsRoundTrip` | components/drivers/floppy/src/geometry.rs:12-24 | sector numbers and cylinder, head, sector positions are inverse to each other, hence injective; a number is 36 times the cylinder, 18 times the head and the sector, counted from 1 |
| `FloppyDriver.TransferFits` | components/drivers/floppy/src/main.rs:274-297 | every transfer moves at least a byte, has at most 8 sectors, ends on its track and inside the disk |
| `FloppyDriver.WholeSectors` | components/drivers/floppy/src/main.rs:341-349 | a transfer that is not read first covers all its sectors |
| `FloppyDriver.ChunkStored` | components/drivers/floppy/src/main.rs:341-357 | what one transfer from the DMA buffer does to the disk, with or without the read before it |
| `FloppyDriver.Floppy.FetchChunk` | components/drivers/floppy/src/main.rs:273-300 | one transfer brings exactly the disk's bytes at the position |
| `FloppyDriver.Floppy.ReadBlocks` | components/drivers/floppy/src/main.rs:259-307 | the buffer becomes exactly that slice of the disk; a controller failure leaves a prefix of it; nothing else is an error but a failing controller; empty buffers and closed handles |
| `FloppyDriver.Floppy.StoreChunk` | components/drivers/floppy/src/main.rs:323-357 | one transfer overwrites exactly those bytes of the disk |
| `FloppyDriver.Floppy.WriteBlocks` | components/drivers/floppy/src/main.rs:309-364 | exactly those bytes of that disk change; a controller failure leaves a prefix written; nothing else is an error but a failing controller; empty data and closed handles |
| `BootLoader.RunIsClusters` | bootloader/bootbin/src/main.rs:187-200 | reading a run of consecutive clusters in one go is reading them one at a time |
| `BootLoader.RunCopied` | bootloader/bootbin/src/main.rs:187-240 | one round of the loader appends exactly the next clusters of the chain |
| `BootLoader.LbaIsExact` | bootloader/bootbin/src/main.rs:196-196 | the 16-bit sector arithmetic is exact for addressable clusters |
| `BootLoader.FindRun` | bootloader/bootbin/src/main.rs:187-194 | the run found lies on the chain, fits one copy, and the entry after it is where the chain goes on |
| `BootLoader.LoadKernel` | bootloader/bootbin/src/main.rs:171-245 | on any table the ceiling of size / cluster bytes + 2 bounds the number of copies; a chain within it is loaded, one longer by a copy is refused, and the image is the chain's clusters in order, or their front when refused |
| `BootLoader.OwnChainFits` | bootloader/bootbin/src/main.rs:174-174 | the chain of a file is never longer than the ceiling |
| `BootLoader.DriverChainBoots` | bootloader/bootbin/src/disk.rs:120-133 | a chain of the FAT driver's table is a chain for the loader |
| `BootLoader.ImageIsChainBytes` | bootloader/bootbin/src/main.rs:196-199 | the image is the driver's contents of the chain |
| `BootLoader.LoadFile` | bootloader/bootbin/src/main.rs:171-245 | for a file's own chain in the driver's table, loading succeeds and the image is the contents of the chain as the driver reads them |

## Left out

- FatOperations.AllocateCluster: says nothing of the disk once it has taken a number past the volume; the bytes that the scan reads behind the entries lie inside the volume.
- FatGrowth.AppendCluster: is for volumes on which the allocation's answer is right, as `AllocateCluster` states it.
- FatFile.File.Write: on a volume of fewer than 4083 clusters there is room for the data, as the allocation's answer is not right otherwise.
- FatFile.File.Read: is for files with a first cluster, and not for offsets between the size and the end of the last cluster; there the code underflows or reads cluster 0.
- FatFile.FileSession: reads start at most at the end of the file, and a write past the end has data, as a hollow write makes the handle wrong.
- SubDirectory.DirSession: on a volume of fewer than 4083 clusters there is a free cluster for each request.
- DiskCache.DiskAccess.ReadBytes: is for ranges inside the volume, and the device is taken to fill the whole buffer it is given.
- DiskCache.DiskAccess.WriteBytes: is for ranges inside the volume.
- SlabHeap.SlabAllocator.Alloc: says what holds up to a `Fault`, the store through a null tracking node, and not what that store does; zero-size layouts are not covered.
- SlabRuns.SlabSession: resizing is not part of the run, as the code leaves it to the default of its trait; page headers and tracking nodes are kept apart from the memory of the run, and that they share no byte with a live block is `LiveBlockApartFromOwn`.
- SlabHeap.LiveBlockAligned: alignments above a page are not met by the code, which returns whole pages.
- SlabHeap.SlabAllocator.Dealloc: the pointer is null or a live block with its own layout; double frees are not covered.
- FreeListHeap.Heap.Free: the pointer is null or a held block; double frees are not covered.
- PipeDriver.Pipe.Read: promises nothing after a panic.
- MemoryMap.MappedMemory.MapMemory: sizes are up to 0xFFFFF000, and the sum of hint and size is taken not to wrap around.
- PipeDriver.ServeAll: each call is one step; the code loads the ring's counters and the pending read's progress before it takes the lock.
- BootLoader.LoadKernel: the ELF header checks between copies are not modelled, nor is the message for a chain above the ceiling.
- SpscRing.EveryInterleaving: loads and stores are taken in one total order; the weaker memory orderings of the code are not modelled.
- WakeSet.EveryRun: a futex wait (test, listing, blocking) is one step, as the code means it to be with interrupts off on one processor.
- FloppyDriver.Floppy.ReadBlocks: is for ranges inside the disk; seeks, interrupts and controller commands are one step that copies sectors or fails.
- FloppyDriver.Floppy.WriteBlocks: is for ranges inside the disk.
- The root directory's iterator, path resolution, the driver's request dispatch and file mapping tokens.
- Dates and times of directory entries, which are carried along as bytes.
- calloc, and the lock around the slab allocator.
- Page tables, task switching, scheduling, interrupts, system calls and program loading.
- Pipe ends, their reference counts and their dispatch; a closed writer shows as a read that does not block.
- The other copies of the ring algorithm (console input, shared pipes).
- Network, console, graphics, audio and clock drivers.

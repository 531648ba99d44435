# SwitchOS, verified

SwitchOS suspends a running system, copies all of its usable memory to a virtio disk or exchanges it with
the copy that is already there, and resumes. This project models the parts of it that keep state, in layers,
and proves each layer against the simple thing that it stands for.

* **Virtqueue driver and device** (`Virtio`, `VirtioRuns`, `VirtioBlk`, `VirtioInit`): the split virtqueue as a state
  machine of two parties, with one invariant that every step of either keeps, and the driver's code as a class whose
  methods let the device take any number of steps between any two accesses. Request and consume are a copy of sectors.
* **Dump** (`DumpFormat`, `DumpSwitch`, `Dump`): header and extents as bytes on the disk; store, load and the
  in-place exchange through a bounded buffer, over the driver. A request is served when there is a header block for
  it, the queue has its three descriptors, and the device answers that it is done.
* **Suspend cycles** (`CoreRuns`): core's dispatch, the hooks on the waking vector and the return to the kernel, as
  runs that refine a machine of two places, memory and disk, for an image paired with its vector.
* **RAM table** (`RamTable`): the merging of memory descriptors into the areas that the layers above take as given.
* **Block allocator** (`Alloc`): five pools whose free lists live in the free blocks, over an array of bytes.
* **Argument library** (`Permute`, `Getopt`, `HashTable`): the in-place block exchange by cycles, the permuting
  scan of argv, and the resizing hash table with its iterator.
* **ACPI patching** (`PkgLength`, `AcpiTable`, `AmlMethod`): the package length codec, method search and rename,
  append and checksum.
* **Page tables** (`Paging`): the identity mapping, walked as section 4.5 of the Intel SDM, volume 3A, says.

`Arith`, `Bits` and `Bytes` hold what the others share. `dafny verify dfyconfig.toml` checks everything.

## Where the code differs from what it says

* The prepend branch of `insert_desc` moves the start of an area without growing it, so it loses memory. Exactly then:
  `RamTable.ExactUnlessPrepended`.
* `build_pkg_length` assigns the lead byte a second time instead of or-ing into it, and stores the shifted size. What
  its own parser makes of that: `PkgLength.LiteralRoundTrip`, against the described form in `PkgLength.RoundTrip`.
* `parse_pkg_length` checks its bound one byte short (`PkgLength.ReadsPast`); in `find_method` it never matters
  (`AmlMethod.PastIsIgnored`).
* `find_method` hands out the PkgLength that it parsed last, not that of the match (`AmlMethod.RenameHits`,
  `AmlMethod.RenameMisses`).
* `find_allocator_for_allocation` counts the end of a buffer as in it (`Alloc.HomeIsSmaller`, `Alloc.HomeIsOwner`).
* `init_virtio_blk_queue` accepts queue sizes that are not powers of two. With some of them, such as 15, and several
  chains in flight, an unread slot is overwritten as the 16-bit counter wraps (`VirtioBlk.SizesThatServe`,
  `VirtioBlk.OverwritesUnread`). One chain at a time, as core uses the queue, works with every size
  (`VirtioBlk.VirtioBlk.TransferSectors`).
* Its allocations refuse every queue of more than 512 descriptors (`VirtioInit.LargestQueue`).
* `getopt_internal` returns -1 not only at the end of a scan: without long options a `-` left at the end of a cluster
  ends it at once and permutes nothing. With long options it reads that word again for ever (`Getopt.Scan`). The word
  `-` is never an option, whatever a comment there says, because `GNU_COMPATIBLE` is defined.
* Areas of 4 GiB and more, or beyond 2^32 sectors, are stored in part and without an error (`DumpFormat.StoresAllIff`).
  A switch exchanges such areas all the same (`Dump.Core.SwitchDump`).
* A header write that fails at the end of a switch may leave the old header, and then the disk counts as a dump with
  the other image's vector (`CoreRuns.OldHeaderMispairs`).
* A store does not invalidate an older header first, so its header-last order protects only a disk that held no dump
  (`DumpFormat.HeaderLast`, `DumpFormat.OldHeaderCounts`).

## Model

| member | source | states |
|---|---|---|
| `Virtio.AllocKeeps` | core/drivers/virtio/virtio_queue.c:104-119 | taking the head of the free list keeps the whole queue invariant: every descriptor in one place, the list threaded and ended, both rings and all chains in flight as they were |
| `Virtio.ReleaseKeeps` | core/drivers/virtio/virtio_queue.c:121-131 | giving a descriptor in the driver's hands back keeps the invariant |
| `Virtio.PublishKeeps` | core/drivers/virtio/virtio_blk.c:279-282 | the store to `avail->idx` of a written three-descriptor chain makes it a request in flight and keeps the invariant |
| `Virtio.PopKeeps` | core/drivers/virtio/virtio_queue.c:137-149 | popping the oldest used element takes exactly that request out of flight and hands its chain to the driver |
| `Virtio.FetchKeeps` | core/drivers/virtio/virtio_queue.c:12-30 | a device that takes the next unread slot of the available ring keeps the invariant |
| `Virtio.AnswerKeeps` | core/drivers/virtio/virtio_blk.c:326-353 | a device that answers any chain it holds, in any order, with a status byte, a used element and then the counter, keeps the invariant |
| `Virtio.ChainIsRequest` | core/drivers/virtio/virtio_blk.c:254-277 | what the device reads out of the shared memory behind a chain head is the request the driver made, however many are in flight |
| `VirtioRuns.RunKeeps` | core/drivers/virtio/virtio_blk.c:231-296 | the invariant holds in every world reachable by any interleaving of driver and device steps, as long as no more chains are in flight than keep their slots apart |
| `VirtioRuns.FreeListEnds` | core/drivers/virtio/virtio_queue.c:81-85 | the free list is acyclic and in range, meets each free descriptor once, and ends in 0xffff |
| `VirtioRuns.OnePlace` | core/drivers/virtio/virtio_queue.c:104-131 | every descriptor is exactly once in the free list, in the driver's hands, or in the chain of one request |
| `VirtioRuns.OneStage` | core/drivers/virtio/virtio_blk.c:279-282 | every request in flight is exactly one of unread, held by the device, and answered but not popped |
| `VirtioRuns.UnreadAvailKept` | core/drivers/virtio/virtio_blk.c:280-282 | no driver step overwrites a slot of the available ring that the device has not read |
| `VirtioRuns.UnreadUsedKept` | core/drivers/virtio/virtio_queue.c:133-149 | no device step overwrites an answer that the driver has not popped |
| `VirtioRuns.DataRefines` | core/drivers/virtio/virtio_blk.c:231-296 | against a plain array of sectors: a step leaves memory and disk alone or performs one request exactly as published |
| `VirtioRuns.RunRefines` | core/drivers/virtio/virtio_blk.c:231-402 | over any run, however many requests are in flight: memory and disk are what the completed requests make of them, one after the other in the order of completion, each the request that was in flight under its number |
| `VirtioBlk.VirtioBlk.constructor` | core/drivers/virtio/virtio_queue.c:45-92 | the initial queue satisfies the invariant with every descriptor free |
| `VirtioInit.InitVirtioBlkQueue` | core/drivers/virtio/virtio_queue.c:45-102 | it fails exactly for the sizes 0 and 0xffff, when the allocator has no block for one of the three parts, or without a notification offset, and then gives back all it took; otherwise an idle device with three new blocks of the sizes of its parts |
| `VirtioInit.LargestQueue` | core/drivers/virtio/virtio_queue.c:57-63 | with the pools of the program just initialised the parts of a queue can be had if and only if it has at most 512 descriptors |
| `Virtio.ThreeEach` | core/drivers/virtio/virtio_blk.c:249-277 | every request in flight takes three descriptors of its own, so a queue has room for size / 3 of them |
| `VirtioBlk.SlotFreeIff` | core/drivers/virtio/virtio_queue.c:133-149 | the next slot of a ring is one still unread exactly when the 16-bit counter has wrapped less than 65536 % size chains ago and that many are unread |
| `VirtioBlk.OverwritesUnread` | core/drivers/virtio/virtio_blk.c:279-282 | in exactly those worlds the driver's store to the available ring replaces the head of a chain that the device has yet to read |
| `VirtioBlk.SizesThatServe` | core/drivers/virtio/virtio_queue.c:45-60 | with as many chains in flight as a queue has room for, no counter value brings that about if and only if 65536 % size is 0 or at least size / 3 |
| `VirtioRuns.SlotReady` | core/drivers/virtio/virtio_blk.c:249-281 | with such a size a driver that holds the three descriptors of a chain may always store its head |
| `VirtioBlk.FifteenOverwrites` | core/drivers/virtio/virtio_blk.c:279-282 | a queue of 15 descriptors that satisfies the whole invariant and in which storing the next head overwrites one not yet read |
| `VirtioBlk.CountersTell` | core/drivers/virtio/virtio_queue.c:133-135 | the wrapped counters differ if and only if an answer is unread |
| `VirtioBlk.VirtioBlk.AllocQueueDesc` | core/drivers/virtio/virtio_queue.c:104-119 | fails exactly when no descriptor is free, and else takes the head |
| `VirtioBlk.VirtioBlk.FreeQueueDesc` | core/drivers/virtio/virtio_queue.c:121-131 | an invalid descriptor is ignored, another becomes the head |
| `VirtioBlk.VirtioBlk.RequestVirtioBlk` | core/drivers/virtio/virtio_blk.c:231-296 | with the device taking turns between all accesses, and room for one more slot: it succeeds if and only if the size is whole sectors, a header block is to be had and three descriptors are free, and then a new request is in flight, the next to be published; otherwise exactly what was taken is given back, header block included |
| `VirtioBlk.VirtioBlk.PopUsed` | core/drivers/virtio/virtio_queue.c:137-149 | the oldest answer, read through the wrapped counter |
| `VirtioBlk.VirtioBlk.ValidateUsedResponse` | core/drivers/virtio/virtio_blk.c:326-353 | accepts a response if and only if its status is OK and its length is the footer plus, for a read, the data |
| `VirtioBlk.VirtioBlk.FreeRequest` | core/drivers/virtio/virtio_blk.c:358-380 | the three descriptors and the header block of the chain are given back |
| `VirtioBlk.VirtioBlk.WaitForResponse` | core/drivers/virtio/virtio_blk.c:387-389 | with a device that takes steps the busy wait ends |
| `VirtioBlk.VirtioBlk.ConsumeResponse` | core/drivers/virtio/virtio_blk.c:382-402 | the oldest request leaves with its descriptors and header, whatever its response says; the answer is success if and only if the device carried the request out |
| `VirtioBlk.VirtioBlk.TransferSectors` | core/drivers/virtio/virtio_blk.c:231-402 | request and consume together, one at a time and for any queue size: it succeeds if and only if the size is whole sectors, the header block and three descriptors are to be had and the one new outcome is that the device has done it; then exactly the sectors are copied to or from memory and nothing else changes; a request that is not issued changes nothing, one that fails at most its target; the device is idle again with the same header blocks |
| `DumpFormat.DecodeEncode` | core/dump.c:14-33 | a dump header survives being written and read as bytes |
| `DumpFormat.ExtentsInOrder` | core/dump.c:87-101 | extents are clear of the header sectors, in table order and disjoint |
| `DumpFormat.SectorBytes` | core/dump.c:87-101 | the sector numbers and byte positions of the extents agree |
| `DumpFormat.DescribedIsAccepted` | core/dump.c:110-144 | a header that describes the table is accepted if and only if its vector is not 0 and the table not empty |
| `DumpFormat.StoredAfter` | core/dump.c:152-160 | after k area writes the first k extents are the RAM areas and the header sectors and all later bytes are as before |
| `DumpFormat.HeaderLast` | core/dump.c:146-168 | from a disk without a valid header, after any number of the writes a valid header means that all extents equal the RAM areas |
| `DumpFormat.OldHeaderCounts` | core/dump.c:146-168 | over any disk: every prefix of a store from write n on is consistent, an accepted header meaning that all extents equal the areas, if and only if the disk held no accepted header or every extent from n on equals its area already |
| `DumpFormat.MixedImages` | core/dump.c:146-168 | a disk with an old dump on which the first area write leaves an accepted header over extents of two images |
| `DumpFormat.WrittenWhole` | core/dump.c:153-160 | with its 32-bit length and sector fields the write of an area stores it, for every memory and disk, if and only if area size and sector number are below 2^32 |
| `DumpFormat.StoresAllIff` | core/dump.c:146-168 | a store that reports success has stored every area, for every memory and disk, if and only if every area is below 4 GiB and every extent begins below sector 2^32 |
| `DumpSwitch.BoundaryRebuildable` | core/dump.c:224-226 | between two chunks both images can be rebuilt from memory and disk |
| `DumpSwitch.ReadRebuildable` | core/dump.c:228-233 | with the chunk in the switch buffer both images can be rebuilt, whatever the write has done to its sectors |
| `DumpSwitch.CopyRebuildable` | core/dump.c:234-235 | both images can be rebuilt after the write and after every byte of the copy |
| `DumpSwitch.ChunkStep` | core/dump.c:224-238 | one chunk moves the exchanged boundary by its size |
| `DumpSwitch.SwitchStep` | core/dump.c:252-257 | one more area exchanged leaves the other areas and extents alone |
| `DumpSwitch.TwiceIsIdentity` | core/dump.c:252-257 | two runs of the loop over the areas give every area, every extent and the bytes of the disk around the extents back |
| `Dump.Core.FindOriginalWakingVector` | core/acpi.c:56-68 | the word RSV1 of the FACS, refused when 0 |
| `Dump.Core.FillDumpHeader` | core/dump.c:75-105 | succeeds exactly when there is a vector and all areas are whole sectors, with the extents laid out one after the other |
| `Dump.Core.IsDumpHeaderValid` | core/dump.c:110-144 | accepts exactly the headers with magic, vector, and the very areas of the table |
| `Dump.Core.ReadDumpHeader` | core/dump.c:45-54 | the header is the decoded first sectors, read by one request, and the read fails exactly if that is not served; outside core's own memory nothing changes |
| `Dump.Core.WriteDumpHeader` | core/dump.c:60-69 | the first sectors become the bytes of core's header, padding and all, exactly if the one request is served; a failure touches at most those |
| `Dump.Core.ReadSectors` | core/drivers/virtio/virtio_blk.c:298-305 | a read copies the sectors exactly if it is whole sectors and served, and never changes the disk or other memory |
| `Dump.Core.WriteSectors` | core/drivers/virtio/virtio_blk.c:307-314 | a write copies the memory exactly if it is whole sectors and served, and never changes memory or other sectors |
| `Dump.Core.WriteArea` | core/dump.c:153-160 | one area write exactly as the 32-bit fields make it, for areas of any size, if and only if the area is whole sectors and the request is served; a failure touches at most its target |
| `Dump.Core.StoreDump` | core/dump.c:146-168 | for areas of any size: it succeeds if and only if there is a vector, all areas are whole sectors and every request is served; success makes all area writes as the 32-bit fields make them and then writes the header; failure at write k, after k + 1 requests, leaves exactly the writes before it and garbage at most in its target; without a vector or with other areas nothing is asked of the disk |
| `Dump.WrittenWholly` | core/dump.c:146-168 | and with areas that the fields can hold the result is a whole store |
| `Dump.Core.DoesDiskContainDump` | core/dump.c:170-180 | says whether the header on the disk is accepted, exactly if its read is served, and changes nothing |
| `Dump.Core.LoadDump` | core/dump.c:182-206 | it succeeds if and only if every request is served, the header is accepted and the areas are whole sectors; an accepted header is followed; whatever header, and whether it fails or not, only areas and core's own memory are written; after a store's header every area equals its extent |
| `Dump.Core.Memcpy` | shared/include/mem.h:7-14 | byte by byte, after i bytes exactly those have moved |
| `Dump.Core.SwitchMemoryArea` | core/dump.c:214-244 | area and extent exchanged, if and only if the area is whole sectors and every request is served; a failure leaves a moment from which both images can be rebuilt; nothing but the area, its sectors and the buffer changes |
| `Dump.Core.SwitchAreas` | core/dump.c:252-257 | for areas of any size: all areas exchanged, if and only if they are whole sectors and every request is served, or those before the one where it stopped, with both images of that one rebuildable |
| `Dump.Core.ReplaceVector` | core/dump.c:260-265 | the header on the disk becomes core's with the vector of the FACS, exactly if there is one and the write is served; a failure touches at most the header sectors |
| `Dump.Core.SwitchDump` | core/dump.c:246-269 | the whole switch, for areas of any size: untouched, exactly if the header read is not served or the header not accepted; stopped in an area; images exchanged with anything in the header sectors; or images exchanged with only the vector of the header changed, if and only if the header is accepted, the areas are whole sectors, there is a vector and every request is served; the caller's vector changes only once all areas are switched; in every case memory outside the areas, the header and the switch buffer is as before |
| `Dump.StoredIsDump` | core/dump.c:146-168 | what a successful store leaves is a complete dump of memory with the kernel's vector, accepted unless the table is empty |
| `Dump.StoreThenLoad` | core/dump.c:146-206 | whatever happens to memory after a store, loading brings back every byte and the vector |
| `Dump.SwitchedIsDump` | core/dump.c:259-265 | after a switch the disk still holds a complete, accepted dump, with the new vector, whatever the size of its areas |
| `Dump.SwitchTwiceIsIdentity` | core/dump.c:246-269 | two whole switches: every area and the whole disk are back, but for the vector in the header, which is that of the second |
| `Dump.SwitchesKeepDump` | core/dump.c:246-269 | and so after any number of switches |
| `CoreRuns.HooksKeepVector` | uefi/services/hooks/set_variable/set_variable.c:36-42 | core is entered and finds the kernel's vector if and only if a hook ran after the kernel's last write and `_PTS` did not run after another hook; otherwise it finds its own |
| `CoreRuns.CoreMain` | core/core.c:15-56 | the dispatch, and why it ends as it does: with a valid header, a vector and a device, a store of whole sectors is written if and only if every request is served, a switch is done if and only if moreover the header on the disk is accepted, and it refuses only without those, for another action, for a store of other areas, or when a header read fails or finds no dump; and which vector is resumed in each outcome |
| `CoreRuns.CoreStepHolds` | core/core.c:33-56 | one entry into core is one step of a two-place machine of images paired with vectors |
| `CoreRuns.CoreKeepsFacs` | core/core.c:33-56 | in every outcome of core the FACS is as the hooks left it |
| `CoreRuns.CycleHolds` | core/acpi.c:41-54 | one whole cycle, kernel, hooks, core and resume: the firmware resumes the vector of the image then in memory |
| `CoreRuns.ImageAndVectorStayPaired` | core/core.c:15-56 | over any run of cycles with proper hooks, stores of areas that their fields can hold, and no failure once a dump has been touched, memory and disk hold what the two-place machine holds |
| `CoreRuns.HeaderLostStillResumes` | core/dump.c:259-265 | even when the last header write of a switch fails, the resumed vector belongs to the image in memory |
| `CoreRuns.OldHeaderMispairs` | core/dump.c:259-265 | but when it leaves the old header in place, the disk counts as a dump of one image under the vector of the other |
| `RamTable.InsertCovers` | uefi/core_header_utils.c:88-119 | exactly which bytes one insertion covers: going in front of an area loses as many bytes at its end |
| `RamTable.AnyOrderSound` | uefi/core_header_utils.c:88-119 | for a memory map in any order the table is disjoint, of whole pages, and inside the descriptors |
| `RamTable.ExactUnlessPrepended` | uefi/core_header_utils.c:101-104 | the table covers the descriptors exactly if and only if none was put in front of an area |
| `RamTable.PrependLoses` | uefi/core_header_utils.c:101-104 | two neighbouring pages, the upper first: the upper is lost |
| `RamTable.AscendingExact` | uefi/core_header_utils.c:88-119 | in ascending order the cover is exact and no two areas are next to each other |
| `RamTable.UsableMapped` | uefi/core_header_utils.c:146-155 | the usable descriptors of a memory map are a memory map, with the same order |
| `RamTable.FilledServes` | shared/include/core/header.h:75-93 | such a table passes the core header check and every check of a store, and a header with a vector for it is accepted |
| `RamTable.DevicesLeftOut` | uefi/core_header_utils.c:124-162 | at whatever descriptor the filling stops and in whatever order they come, no byte of a reserved, unusable, NVS, memory-mapped, port or PAL descriptor is in the table |
| `RamTable.MemoryCovered` | uefi/core_header_utils.c:124-162 | from an ascending map every byte of the nine kinds is |
| `RamTable.IsMemoryDescUsable` | uefi/core_header_utils.c:67-81 | true exactly for the nine kinds of memory that a system may use or runs on |
| `RamTable.Table.InsertDesc` | uefi/core_header_utils.c:88-119 | the insertion, refused exactly when the table is full |
| `RamTable.Table.FillRamAreas` | uefi/core_header_utils.c:124-162 | the table of all usable descriptors, or a full table at the descriptor that no longer fits; never a byte of reserved or broken memory or of a device, and from an ascending map that fits every byte of the nine kinds |
| `Alloc.BlocksApart` | core/alloc.c:33-43 | two blocks of whatever pools do not overlap |
| `Alloc.HomeIsSmaller` | core/alloc.c:52-62 | the inclusive bound can only send a block to a pool of blocks no larger than it, and only the first block of a buffer that starts where that pool's ends |
| `Alloc.HomeIsOwner` | core/alloc.c:52-62 | every block is freed to its own pool if and only if no buffer starts at the end of an earlier listed one |
| `Alloc.PoppedKeeps` | core/alloc.c:94-105 | popping keeps the invariant: each block live or in one list once, lists threaded through their own blocks, capacities sufficient |
| `Alloc.PushedKeeps` | core/alloc.c:120-127 | freeing a live block keeps it, whichever pool it goes to |
| `Alloc.WriteKeeps` | core/alloc.c:8-14 | a client that writes inside what it asked for disturbs no list |
| `Alloc.LiveApart` | core/alloc.c:94-105 | live blocks are disjoint, inside a buffer, and as large as asked |
| `Alloc.TraceKeeps` | core/alloc.c:94-127 | on every trace of allocations, frees and client writes |
| `Alloc.PoolsConserved` | core/alloc.c:52-62 | with no such neighbouring buffers every list keeps to blocks of its own pool on every trace |
| `Alloc.ConservedIffSeparate` | core/alloc.c:52-62 | from fresh lists, every trace of allocations, frees and writes leaves each list blocks of its own pool if and only if no buffer starts where an earlier listed one ends |
| `Alloc.MixingTrace` | core/alloc.c:94-127 | otherwise allocating every block of such a pool and freeing its first one is a trace that mixes two pools |
| `Alloc.ProgramPoolsFormed` | core/alloc.c:33-47 | the five pools of the program meet what the proofs need, wherever their buffers are |
| `Alloc.Allocators.FindAllocatorForAllocation` | core/alloc.c:52-62 | the first pool whose buffer holds the address or ends at it |
| `Alloc.Allocators.FindAllocatorForSize` | core/alloc.c:69-78 | the first pool whose blocks are large enough |
| `Alloc.Allocators.CoreInitAllocators` | core/alloc.c:80-92 | every block of every pool in its list, none live |
| `Alloc.Allocators.CoreMalloc` | core/alloc.c:94-105 | NULL exactly when no class fits or its list is empty, else the head of that list |
| `Alloc.Allocators.CoreCalloc` | core/alloc.c:107-118 | the product modulo 2^64 is allocated and cleared |
| `Alloc.Allocators.CoreFree` | core/alloc.c:120-127 | a live block goes to the head of its home list, other pointers are ignored |
| `Permute.Gcd` | cli/lib/argtable/argtable3.c:1571-1584 | the greatest common divisor |
| `Permute.Bezout` | cli/lib/argtable/argtable3.c:1571-1584 | which is a combination of both numbers |
| `Permute.StepOrder` | cli/lib/argtable/argtable3.c:1604-1606 | a cycle comes back to its start after (a + b) / gcd steps and not before |
| `Permute.OrbitResidue` | cli/lib/argtable/argtable3.c:1607-1620 | a cycle stays in its residue class, so different cycles are disjoint |
| `Permute.OrbitCovers` | cli/lib/argtable/argtable3.c:1607-1620 | a cycle reaches every position of its class |
| `Permute.TakeStep` | cli/lib/argtable/argtable3.c:1610-1619 | one swap of the inner loop |
| `Permute.AllCycles` | cli/lib/argtable/argtable3.c:1607-1620 | all cycles together exchange the two blocks |
| `Permute.PermuteArgs` | cli/lib/argtable/argtable3.c:1591-1621 | argv[s..e) and argv[e..o) change places, each in its order, and all else stays |
| `Getopt.Grammar.Option` | cli/lib/argtable/argtable3.c:1915-2009 | the option branch, for every option string and table of long options: it consumes no more than argv has, a cluster loses its first letter, it stands still exactly at a lone "-" left of a cluster with long options or without "-" as a letter, and it returns -1 exactly at one without long options |
| `Getopt.Grammar.DeclaredLetter` | cli/lib/argtable/argtable3.c:1945-2009 | read off the option string: a declared letter returns itself; without ":" it takes its word only when the cluster is used up, with "::" its own word, with ":" the rest of its word, else exactly the next word, else it is BADARG |
| `Getopt.Grammar.UndeclaredLetter` | cli/lib/argtable/argtable3.c:1945-1967 | a letter that is not declared, or ":", is answered with "?" and the cluster goes on |
| `Getopt.Grammar.LoneDash` | cli/lib/argtable/argtable3.c:1921-1954 | a "-" at the end of a cluster that is no letter moves nothing, and is -1 or BADARG |
| `Getopt.Grammar.LongName` | cli/lib/argtable/argtable3.c:1628-1787 | "--name" and "--name=value" for every table of long options: only a required argument that is not in the word takes the next one, else BADARG; a value for an option without argument, an unknown or ambiguous name is "?" |
| `Getopt.Grammar.LongOnlyName` | cli/lib/argtable/argtable3.c:1921-1942 | the same behind a single "-" with FLAG_LONGONLY |
| `Getopt.Grammar.LongOnlyLetters` | cli/lib/argtable/argtable3.c:1933-1942 | but a name that finds nothing and begins with a declared letter is read as letters |
| `Getopt.Grammar.DoubleDashed` | cli/lib/argtable/argtable3.c:1968-1987 | "-W name" and "-Wname" where the option string has "W;" |
| `Getopt.SeparateArgument` | cli/lib/argtable/argtable3.c:1988-2006 | a word "-c" of a letter with a required argument takes the word behind it, whatever that is, and the scan goes on behind both |
| `Getopt.TakesAreOptions` | cli/lib/argtable/argtable3.c:1793-2010 | every step of a scan over argv that takes words takes as many as the option branch says at that place |
| `Getopt.ArgumentsFollow` | cli/lib/argtable/argtable3.c:1793-2010 | after a scan the words that an option takes stand together in front of optind: its argument is never among the skipped words and follows directly behind its option word |
| `Getopt.SeparateScan` | cli/lib/argtable/argtable3.c:1988-2006 | with "o:" the scan of prog, x, -o, file leaves prog, -o, file, x and optind 3 |
| `Getopt.Grammar.LongOption` | cli/lib/argtable/argtable3.c:1628-1787 | a long option consumes at least its own word, and returns -1 only when it may be a short one, without having moved |
| `Getopt.Grammar.StrayNeedsDash` | cli/lib/argtable/argtable3.c:1947-1954 | only a word that both begins and ends with "-" can lead a scan to such a lone "-" |
| `Getopt.PermuteStep` | cli/lib/argtable/argtable3.c:1848-1880 | moving the options met after skipped words in front of them keeps the layout |
| `Getopt.WordsAreScanned` | cli/lib/argtable/argtable3.c:1793-2010 | every word scanned is once an option word or a skipped word |
| `Getopt.SkippedAreNonOptions` | cli/lib/argtable/argtable3.c:1848-1880 | no skipped word is an option |
| `Getopt.PartitionKeepsWords` | cli/lib/argtable/argtable3.c:1793-2010 | a stable partition loses and invents nothing, keeps what lies outside, and has no option from optind on |
| `Getopt.Getopt.GetoptInternal` | cli/lib/argtable/argtable3.c:1793-2010 | one call returns the next code that the walk over argv foresees, and takes exactly its steps; -1 leaves a stable partition with optind at the first non-option, or without permutation stops at the non-option; the state before the call tells when instead a lone "-" keeps argv and optind as they are |
| `Getopt.Scan` | cli/lib/argtable/argtable3.c:1793-2010 | a scan in each of the three modes: the codes it returns, the steps it takes and how it ends are those of the walk over the argv it began with; in permute mode it ends with a stable partition, after exactly the calls foreseen, if and only if it meets no lone "-"; at one it ends at once inside that word without long options, and never with them; without permutation it ends at the first non-option with argv as it was |
| `Getopt.StrayWalk` | cli/lib/argtable/argtable3.c:1947-1954 | getopt_long with "a" and no long options on prog, x, -a- meets one in its second call |
| `Getopt.StrayScan` | cli/lib/argtable/argtable3.c:1947-1954 | that scan returns -1 with argv as it was and optind at the option word |
| `Getopt.StrayIsNoPartition` | cli/lib/argtable/argtable3.c:1947-1954 | which is no stable partition, whatever words are taken for options |
| `HashTable.PushKeeps` | cli/lib/argtable/argtable3.c:647-668 | a new entry at the head of the chain of its hash keeps every entry once in its bucket |
| `HashTable.DropKeeps` | cli/lib/argtable/argtable3.c:687-715 | taking an entry out of its chain keeps the others |
| `HashTable.LinkedDrop` | cli/lib/argtable/argtable3.c:687-715 | one pointer redirected is one entry less in the chain |
| `HashTable.AheadStep` | cli/lib/argtable/argtable3.c:782-817 | what an iterator has ahead loses exactly the entry it passes |
| `HashTable.AheadDrop` | cli/lib/argtable/argtable3.c:819-846 | and nothing else when that entry is removed |
| `HashTable.Create` | cli/lib/argtable/argtable3.c:575-606 | an empty table of the first prime size above the one asked for; more than 2^30 is refused |
| `HashTable.Table.Find` | cli/lib/argtable/argtable3.c:670-685 | the entry of a key with its predecessor, or none exactly when the key is absent |
| `HashTable.Table.Search` | cli/lib/argtable/argtable3.c:670-685 | the value of the finite map, or NULL |
| `HashTable.Table.Change` | cli/lib/argtable/argtable3.c:874-892 | the map updated at a present key |
| `HashTable.Table.Insert` | cli/lib/argtable/argtable3.c:647-668 | the map extended by a new key; the table grows to the next prime if and only if it would hold more entries than its load limit and a larger prime is left |
| `HashTable.Table.Remove` | cli/lib/argtable/argtable3.c:687-715 | the map without the key |
| `HashTable.Table.Expand` | cli/lib/argtable/argtable3.c:608-641 | the same entries in the next prime number of buckets, unless that was the last prime |
| `HashTable.Iterator.Advance` | cli/lib/argtable/argtable3.c:782-817 | the current entry leaves what is ahead, and the parent is the entry before the new one |
| `HashTable.Iterator.Remove` | cli/lib/argtable/argtable3.c:819-846 | the same with the entry removed from the table |
| `HashTable.CreateIterator` | cli/lib/argtable/argtable3.c:747-768 | everything is ahead |
| `HashTable.Drive` | cli/lib/argtable/argtable3.c:747-846 | driven to the end with any choice of passing and removing: every key visited exactly once, exactly the removed ones gone |
| `PkgLength.RoundTrip` | uefi/acpi/patch/pkg_length.c:5-85 | what the encoder's comments describe is parsed back to size and encoded size, whatever follows, for every size below 2^28 |
| `PkgLength.FailsExactly` | uefi/acpi/patch/pkg_length.c:42-66 | the parser fails exactly on no bytes, on a lead byte over 63 with bit 4 or 5 set, and when more bytes are to follow than are counted |
| `PkgLength.ReadsBytes` | uefi/acpi/patch/pkg_length.c:56-79 | otherwise what it reads is the low four bits and the following bytes, each worth 256 times the one before |
| `PkgLength.LiteralRoundTrip` | uefi/acpi/patch/pkg_length.c:31-36 | what the code writes is parsed as the size without its low four bits when the size is over 63 |
| `PkgLength.LiteralIsExact` | uefi/acpi/patch/pkg_length.c:31-36 | so its own round trip works if and only if the size is at most 63 or a multiple of 16 |
| `PkgLength.ReadsPast` | uefi/acpi/patch/pkg_length.c:62-63 | when the parser reads the byte past what its caller counts |
| `PkgLength.OnlyCounted` | uefi/acpi/patch/pkg_length.c:42-85 | otherwise that byte does not matter |
| `PkgLength.BuildPkgLength` | uefi/acpi/patch/pkg_length.c:5-40 | succeeds exactly below 2^28, and what it stores as `size` |
| `PkgLength.ParsePkgLength` | uefi/acpi/patch/pkg_length.c:42-85 | the parser with its or of shifted bytes |
| `AcpiTable.FixedSum` | uefi/acpi/patch/patch_utils.c:5-16 | after the checksum is fixed the bytes sum to 0 modulo 256 |
| `AcpiTable.AppendTwice` | uefi/acpi/patch/dsdt.c:70-88 | two appends are one append of both |
| `AcpiTable.PartsAreOne` | uefi/acpi/patch/method.c:57-66 | appending a method in parts is appending the parts joined |
| `AcpiTable.PatchesKeep` | uefi/acpi/patch/method.c:73-110 | any sequence of appends and renames: a table of the right length and sum, with only length, checksum and names changed in the original |
| `AmlMethod.FindMethod` | uefi/acpi/patch/method.c:9-55 | succeeds exactly when every candidate fits and exactly one declares the name; hands out the last candidate's PkgLength |
| `AmlMethod.PastIsIgnored` | uefi/acpi/patch/method.c:30-38 | the byte past the table that may be read never decides anything |
| `AmlMethod.RenameHits` | uefi/acpi/patch/method.c:73-95 | with l the last candidate and s the one declaration, the table is the old one with the name at s replaced if and only if the PkgLengths at l and s are equally long, but for names whose overlapping bytes make both writes the same |
| `AmlMethod.RenamedDeclares` | uefi/acpi/patch/method.c:73-95 | and then the declaration is one of the new name |
| `AmlMethod.RenameMisses` | uefi/acpi/patch/method.c:44-52 | a definition block where it does not |
| `AmlMethod.FixTableChecksum` | uefi/acpi/patch/patch_utils.c:5-16 | the loop computes that checksum and touches no other byte |
| `AmlMethod.FadtPointsThere` | uefi/acpi/patch/dsdt.c:56-68 | after the redirection both FADT pointers name the new table, its sum is 0, and all else is as before |
| `AmlMethod.Acpi.AppendDsdt` | uefi/acpi/patch/dsdt.c:70-101 | exactly when the firmware has pages for so many bytes: a new table of sum 0 at their address with the appended contents, the FADT redirected, of sum 0 and otherwise as the firmware made it, and the old table freed exactly if it was allocated here; otherwise nothing changes |
| `AmlMethod.Acpi.AppendMethod` | uefi/acpi/patch/method.c:57-66 | appends part after part and stops exactly at the first that there are no pages for; DSDT and FADT keep sum 0 and the FADT names the last table |
| `AmlMethod.Acpi.RenameMethod` | uefi/acpi/patch/method.c:73-95 | the four bytes written where the last PkgLength says, the checksum fixed, nothing else changed: the declaration renamed exactly if the PkgLengths allow it |
| `AmlMethod.Acpi.HookMethod` | uefi/acpi/patch/method.c:97-110 | exactly when the method is found and both names have four characters, the rename and then the appends up to the first part that there are no pages for, with both tables of sum 0 whether the hook succeeds or not; otherwise nothing |
| `Bits.OrLow` | core/pm/paging.c:19-25 | or-ing low bits into a multiple of a power of two is adding them |
| `Paging.FlagsAdd` | core/pm/paging.c:19-25 | the flag bits of both kinds of entry are added |
| `Paging.SetupPdpt` | core/pm/paging.c:53-59 | one PDPT filled, and no entry outside it |
| `Paging.SetupPml4` | core/pm/paging.c:61-70 | the whole region filled, each entry with its value |
| `Paging.WalkIsIdentity` | core/pm/paging.c:53-70 | the hardware walk maps every 48-bit address to itself, writable |

## Left out

- Port and memory-mapped I/O, barriers, interrupts, PCI enumeration and feature negotiation: each access to a ring or a register is one atomic step of the model.
- The device: any device that obeys section 2.7 and section 5.2.6 of Virtio 1.2, fetching in order and answering in any order with success or an error; on an error the target of the request may hold anything. A device that breaks the rules is not modelled.
- VirtioRuns.RunKeeps: a step that stores to the available ring is taken only while the slots of all chains in flight stay apart, which a size that serves guarantees (VirtioBlk.SizesThatServe, VirtioRuns.SlotReady) and one request at a time always does (VirtioBlk.VirtioBlk.TransferSectors); what happens otherwise is VirtioBlk.OverwritesUnread and is not followed further.
- VirtioBlk.VirtioBlk.RequestVirtioBlk: has that room as its precondition; what `core_calloc` answers comes from outside, any sequence of NULL and addresses where no header is live; that the block allocator of `Alloc` gives such answers is not connected, and the stores to one descriptor are one step.
- VirtioBlk.VirtioBlk.TransferSectors: `len` is a 32-bit field, so a size of 4 GiB or more transfers only the size modulo 2^32.
- Dump.Core.LoadDump: what an accepted header that no store of this table wrote brings into the areas is not described, only that nothing else is written.
- Dump.Core.IsDumpHeaderValid: a number of areas above 64 is refused whatever the code would find behind the 64 entries that it reads past.
- CoreRuns.CoreMain: ends with the vector that goes to `acpi_return_kernel`; uACPI is left out but for the two words of the FACS, and a disk that the running kernel writes to itself is not modelled.
- VirtioInit.InitVirtioBlkQueue: a pointer field that holds no block yet is taken to point into no buffer of the allocator, as when it is NULL; the code leaves it to what the stack held.
- Alloc.Allocators.CoreFree: freeing a pointer into a buffer that is not a live block is not modelled.
- RamTable.Table.FillRamAreas: gets the memory map as a sequence; the boot services calls that fetch it are left out.
- Getopt.Scan: how a name or an abbreviation finds its long option is a parameter, any function of the name; codes of long options are not negative and characters are not above 127, so that no option itself is -1; `optarg`, `optopt`, `flag` and error messages are left out, and so is a NULL option string.
- HashTable.Table.Insert: keys already present are not inserted again, as the code's own comment asks; keys are compared by equality, the hash is any function of the key, and the floating-point load limit any function of the size.
- HashTable.Table.Remove: `xfree` of keys, values and entries is not modelled, so neither is a use of freed memory.
- AmlMethod.Acpi.AppendDsdt: what the firmware answers to a request for pages comes from outside, none or an address below 4 GiB of memory that nothing else uses; freeing pages does not fail; `g_fadt` is not NULL.
- Paging.WalkIsIdentity: CR3, PAE and long mode are taken as switched on; a read outside the region counts as a fault.
- The rest of argtable3, the command line tool, the operating system layers, tracing, hook loading, real-mode and assembly code: input, output and plumbing.
- `arg_mgsort`, `disk_pci` and RSDP bookkeeping of the core header: nothing modelled here calls the one or depends on the others.

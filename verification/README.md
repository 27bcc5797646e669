# A verified model of the kernel's memory, file system, allocators and protocols

This project models the stateful core of a small Unix-like kernel and its C library in Dafny 4.11 and
proves what that code is for: that address spaces do not see each other's stores after a fork, that a
write-back page cache is a flat byte array, that FAT32 files and directories behave as their users expect,
that the three allocators hand out disjoint memory and lose none, and that wake-ups are not lost.

`dafny verify dfyconfig.toml` checks everything.

## How it is organised

| files | subject |
|---|---|
| `Base` | definitions shared by all parts |
| `Pmm`, `Vma`, `PageTables`, `AddressSpaces`, `Isolation`, `MemorySteps`, `VirtualMemory` | frames, area lists, three-level tables, demand paging, copy-on-write fork (`kernel/mm/pmm.c`, `vma.c`, `vmm.c`) |
| `FileCacheTheory`, `CacheLinks`, `FileCache` | the page cache and cached reads and writes (`kernel/fs/vfs.c`) |
| `ClusterChains`, `FatFiles` | FAT32 cluster chains and file contents (`kernel/fs/fat32.c`) |
| `LongNames`, `DirectoryScan`, `DirectoryGrowth`, `ShortNames`, `Directories` | FAT32 directories |
| `FileRemoval` | unlinking: the directory entry and the clusters together |
| `Calendar` | dates and FAT time stamps |
| `LinkLists` | doubly linked lists that share their nodes, for the two modules below |
| `HeapPages`, `Slabs`, `HeapTheory`, `KernelHeap` | `kmalloc` and `kfree` (`kernel/mm/heap.c`) |
| `Scheduler`, `Sync` | run queues and wait lists; semaphores and mutexes (`kernel/threading`) |
| `UserHeap` | `malloc` and `free` of the C library (`user/src/stdlib.c`) |
| `Terminal` | canonical terminal input (`kernel/drivers/tty.c`) |
| `Signals` | signal state and signal frames (`kernel/syscalls/kill.c`) |

State that the program updates in place is a class with arrays, sequences or maps as fields; each method is
one section under the program's lock and is proved against functions of the old state. Memory records that
the program links by pointers are maps from addresses to records. Whether the kernel heap or the volume has
room is an input of the operation that asks for it: a flag `memory` or `heap` under which every request
succeeds, or the number of requests that do. What `mmap` answers, time stamps, the bytes of mapped files and
user data are parameters too.

## What the proofs say about the code

Some properties one would expect do not hold of the code as it is; each is proved with the exact condition
under which it does hold, and with an input for which it fails where the condition does not name one.

* The frame reference count saturates at 255: it stays exact exactly if the frame has fewer than 255
  references when a sharer is added (`AddressSpaces.SaturationIff`, `VirtualMemory.Machine.ForkPage`). Fork
  therefore needs every frame that the parent maps to have a reference left (`MemorySteps.Shareable`), which is
  so for any number of address spaces as long as fewer than 255 share one frame, and always with fewer than
  255 spaces (`MemorySteps.FewSpaces`).
* Freeing a frame that is on the free stack pushes it a second time unless the stack is full, and giving it a
  reference leaves it there: these are exactly the calls that break the allocator
  (`Pmm.FrameAllocator.FreeFrame`, `Pmm.FrameAllocator.IncRef`).
* Growing the stack moves the start of the first area marked as growing down without looking at what lies
  between; the list stays sorted and disjoint exactly if the new start is below the old one and the gap is
  free (`Vma.ExpandOkIff`, `Vma.ExpandUpwardsBreaks`). A page fault keeps the machine's invariant exactly if it
  is not such a growth (`VirtualMemory.Machine.PageFault`).
* An append into the middle of a page that is not cached does not load the page: the bytes before the offset
  in that page become zeros. The result is right exactly if they were zeros (`FileCacheTheory.AppendIff`,
  with `FileCacheTheory.AppendLosesBytes` as the smallest case).
* `allocate_cluster` links the new cluster before it has memory to clear it. If that memory is not there, the
  file's last cluster is left pointing at a free cluster and the volume is no longer sound
  (`FatFiles.BadLinkBreaks`); the contract of `FatFiles.Fat.WriteFile` keeps this outcome apart.
* `find_free_cluster` looks at whole table sectors of `total_clusters` entries although clusters are numbered
  from 2: for a total of 0 or 127 modulo 128 it misses the last clusters, for most others it looks past the end
  of the volume (`FatFiles.ScanEnd`, `FatFiles.ScanMisses`). It returns a cluster of the volume exactly if it
  sees a free one, and an entry past the end exactly if it sees none and the unused end of the last table
  sector has a zero (`FatFiles.Fat.FindFreeCluster`); the smallest freshly formatted volume that is full is
  such a case (`FatFiles.OverrunExists`). A write is then no longer the flat one, and only then or for want of
  memory (`FatFiles.Fat.WriteFile`).
* The clipping test of `fat32_read_file` is a 64-bit sum; a read whose sum wraps also returns the slack of the
  last cluster (`FatFiles.ReadIsSlice`, `FatFiles.ReadRunsOver`). A gap left by a write past the end reads as
  zeros exactly if the old slack was zero (`FatFiles.FileWritten`, `FatFiles.StaleGap`).
* A name whose short form begins with byte 0xE5 is created but does not show, since that byte marks deleted
  slots (`DirectoryGrowth.CreatedVisible`, `ShortNames.FirstByte`, `ShortNames.HiddenName`).
* A name that needs no long slots is stored in its short form only. It shows as asked for exactly if its
  characters are all legal there and it does not end in a dot, and its plain form is free
  (`ShortNames.ShortShows`, `Directories.Directory.Create`): a file created as "A+B" shows as "A_B"
  (`ShortNames.OtherName`).
* `fat32_create_entry` records the cluster where the new slots begin and an index counted from there. The index
  lies in that cluster exactly if the run of slots does not cross into the next one
  (`Directories.Directory.Create`); with one slot left in a cluster even the name "a" crosses
  (`Directories.PlaceLeavesCluster`). A later write of such a file leaves its entry as it was
  (`FatFiles.Fat.WriteFile`).
* FAT time stamps give the time back exactly for the years 1980 to 2107 (`Calendar.FatRoundTrip`).
* The page count of a large kernel block has 16 bits; releasing a block gives all its pages back exactly if it
  has fewer than 65536 (`HeapPages.ReleasedFree`, `HeapPages.AllLost`).
* `malloc` of more than 2^64 - 32 bytes wraps: what it asks `mmap` for is then smaller than the request
  (`UserHeap.RequestCovers`, `UserHeap.LargestRequests`).
* The kernel refuses an `mmap` with -ENOMEM or -EINVAL and the library tests for -1: `malloc` writes a header
  at the error word exactly if nothing on the list fits and the refusal is another word than -1
  (`UserHeap.Allocator.Malloc`, `UserHeap.NoMemoryFaults`).
* `mutex_release` does not look who calls it; a release by a task that does not hold the mutex is harmless
  exactly if the mutex is free (`Sync.ForeignReleaseIff`), and otherwise admits a second holder
  (`Sync.ForeignRelease`).
* The two instructions of the signal trampoline are written as 64-bit words, so that a zero word stands between
  the move of the system-call number and the call (`Signals.Trampoline`). What sigreturn itself restores is right
  (`Signals.Process.Handled`).
* A newline that finds the line buffer full or the read ring too full is not delivered whole, and the line
  counter then runs ahead of the ring (`Terminal.Tty.Newline`, `Terminal.Tty.Receive`); 254 letters before it
  are enough (`Terminal.OverfullLine`).

## Model

| member | source | states |
|---|---|---|
| Pmm.FrameAllocator.constructor | kernel/mm/pmm.c:38-75 | after initialisation the kernel's frames are referenced once, and the free stack holds exactly the others, each once |
| Pmm.FrameAllocator.AllocFrame | kernel/mm/pmm.c:96-116 | takes the top free frame, its count becomes one, or reports an empty stack; used frames plus stack size stay the total |
| Pmm.FrameAllocator.IncRef | kernel/mm/pmm.c:29-36 | one reference more, saturating at 255, for addresses inside managed memory only; the allocator stays sound exactly if the frame is not on the free stack |
| Pmm.FrameAllocator.FreeFrame | kernel/mm/pmm.c:118-152 | one reference less, and the frame is free exactly when the last goes; the allocator stays sound exactly unless the frame is on a free stack that still has room |
| Pmm.FrameAllocator.MarkUsedRegion | kernel/mm/pmm.c:77-94 | exactly the free frames of the region leave the free stack; their counts stay zero |
| Pmm.FrameAllocator.PhysRoundTrip | kernel/mm/pmm.c:20-27 | a page-aligned address has a frame number exactly if it is that frame's address |
| Pmm.SwapRemove | kernel/mm/pmm.c:77-94 | replacing a stack slot by the top removes exactly one frame from the free set |
| Pmm.SameFree | kernel/mm/pmm.c:96-152 | two free stacks that fit the same counts hold the same frames |
| Vma.InsertVma | kernel/mm/vma.c:107-139 | inserts in order exactly if the range is free, and otherwise changes nothing |
| Vma.InsertOk | kernel/mm/vma.c:107-139 | insertion into a free range keeps the list sorted, disjoint and page aligned |
| Vma.InsertFind | kernel/mm/vma.c:107-159 | after insertion lookups find the new area in its range and the old ones elsewhere |
| Vma.FindVma | kernel/mm/vma.c:142-159 | finds the one area that contains the address, or none |
| Vma.UnmappedOk | kernel/mm/vma.c:161-239 | removing a range keeps the list sorted, disjoint and aligned |
| Vma.UnmappedFind | kernel/mm/vma.c:161-239 | coverage afterwards is the old coverage minus the range, with the old rights |
| Vma.FindFree | kernel/mm/vma.c:242-284 | the first-fit loop computes the first-fit address |
| Vma.FirstFitFree | kernel/mm/vma.c:242-284 | the address first fit finds begins a free range of that size |
| Vma.FirstFitLowest | kernel/mm/vma.c:242-284 | no lower address at or above the base begins a free range of that size |
| Vma.ExpandOkIff | kernel/mm/vma.c:412-441 | moving an area's start keeps the list sound exactly if it moves down into a free gap |
| Vma.ExpandUpwardsBreaks | kernel/mm/vma.c:412-441 | a concrete list that moving the start breaks |
| PageTables.WalkUse | kernel/mm/vmm.c:71-85 | a table walk ends at the table the ownership records name, or at none |
| PageTables.IndexSplit | kernel/mm/vmm.c:71-85 | the three indices of a walk are the page number, nine bits each, the top ones first |
| PageTables.TablesDecide | kernel/mm/vmm.c:71-113 | frames that are no tables do not influence any walk |
| PageTables.WriteLeaf | kernel/mm/vmm.c:71-113 | writing one entry changes the translation of exactly one page of one space |
| PageTables.AddTable | kernel/mm/vmm.c:87-113 | hanging a zeroed frame into an empty slot changes no translation |
| AddressSpaces.ZeroCountUnused | kernel/mm/pmm.c:96-138 | a frame with count zero is no table and is mapped nowhere |
| AddressSpaces.SharersBounded | kernel/mm/vma.c:443-510 | a frame is mapped at most once per address space |
| AddressSpaces.SaturationIff | kernel/mm/pmm.c:29-36 | counts stay exact when a mapping is added exactly if the count was below 255 |
| Isolation.OnlyOwnStores | kernel/mm/vma.c:331-409 | a page shows its earlier bytes overlaid by its own process's later stores only |
| Isolation.ForkIsolation | kernel/mm/vma.c:443-510 | after a fork parent and child both show the fork-time bytes, each overlaid by its own later stores only |
| Isolation.FaithfulStored | kernel/mm/vma.c:331-409 | a store through a writable entry reaches no other private page |
| MemorySteps.CountsRestored | kernel/mm/vma.c:45-84 | if all other spaces' tables and pages are as before, so is every reference count |
| MemorySteps.ForkCount | kernel/mm/vma.c:443-510 | during a fork a page not yet copied has a frame with as many references as before the fork |
| MemorySteps.FewSpaces | kernel/mm/vma.c:443-510 | with fewer than 255 spaces every mapped frame can take one more reference |
| MemorySteps.ForkSaturates | kernel/mm/pmm.c:29-36 | sharing a page whose frame count stands still at 255 breaks the invariant |
| MemorySteps.ForkGone | kernel/mm/vma.c:45-84 | once the child is gone every count is as before the fork and only the protection of the parent's pages is left |
| MemorySteps.FirstBytes | kernel/mm/vma.c:354-362 | the bytes read for a first touch are those of the file from the page's place in it on, and zeros |
| MemorySteps.FirstFitSound | kernel/mm/vma.c:242-284 | with 64-bit wrap-around taken into account, an address passed on by the search is free or out of user space |
| VirtualMemory.Machine.constructor | kernel/mm/pmm.c:38-75 | the machine without address spaces satisfies the whole invariant |
| VirtualMemory.Machine.AllocTable | kernel/mm/vmm.c:87-113 | one level of the allocating walk: a fresh table in an empty slot, nothing else changed |
| VirtualMemory.Machine.PteAlloc | kernel/mm/vmm.c:87-113 | the allocating walk finds or makes the last-level table, or memory is out; no page's data changes |
| VirtualMemory.Machine.Create | kernel/mm/vma.c:11-43 | a new space with the stack area and constants exactly if heap and frames are there; no other space's tables or pages change |
| VirtualMemory.Machine.Destroy | kernel/mm/vma.c:45-84 | all tables and pages of the space are given back and nothing of any other space changes |
| VirtualMemory.Machine.Allocate | kernel/mm/vma.c:242-330 | makes an area of the asked kind, flags and file in a free range: the hinted one, or the lowest at or above the base; with heap, fails only if there is none |
| VirtualMemory.Machine.Unmap | kernel/mm/vma.c:161-239 | removes exactly the range from coverage and exactly its present pages; refused, changing nothing, exactly for an empty range or if an area must be split without heap |
| VirtualMemory.Machine.PageFault | kernel/mm/vma.c:331-409 | the served page has exactly its area's rights to write and to execute, and shows zeros, the file's bytes at the page's place, or its old bytes; or the stack grows as stated, or the fault is refused for a stated reason; no other space changes; the invariant holds afterwards exactly unless the stack grew over something |
| VirtualMemory.Machine.DemandPage | kernel/mm/vma.c:331-409 | a first touch maps an unused frame, with exactly the area's rights, that shows zeros or the file's bytes from the page's place on, zeros behind its end |
| VirtualMemory.Machine.CopyPage | kernel/mm/vma.c:331-409 | a write to a copy-on-write page moves it to an unused frame with the same bytes and exactly the area's rights |
| VirtualMemory.Machine.ExpandStack | kernel/mm/vma.c:412-441 | the first growing area starts at the faulting page; refused exactly outside the window or without such an area; the invariant holds afterwards exactly if it grew down into a free gap |
| VirtualMemory.Machine.Duplicate | kernel/mm/vma.c:443-510 | succeeds exactly if there is a frame and heap for every area; child and parent then have the same entry for every parent page not lost, private pages readable, not writable and marked, execute rights kept; all other entries and all bytes are as before; the isolation law holds; on failure every count is as before |
| VirtualMemory.Machine.ForkPage | kernel/mm/vma.c:443-510 | one page: both entries become the same, read-only and marked if private; the whole invariant holds afterwards exactly if the frame had fewer than 255 references or the page was skipped |
| VirtualMemory.Machine.Store | kernel/mm/vma.c:331-409 | a user store changes one byte of one page of one space |
| VirtualMemory.Machine.Load | kernel/mm/vma.c:331-409 | a user load of private anonymous memory returns what the history of the run demands |
| VirtualMemory.Machine.Act | kernel/mm/vma.c:161-409 | a fault, mapping, unmapping or store of one process leaves all other spaces' tables and pages alone |
| VirtualMemory.Machine.Lifetime | kernel/mm/vma.c:11-84 | creating a space, any sequence of faults, mappings, unmappings and stores in it, and destroying it leaves the set of free frames as it was |
| VirtualMemory.Machine.ForkAndDestroy | kernel/mm/vma.c:443-510 | a fork followed by the end of the child leaves every count and the set of free frames as they were |
| FileCacheTheory.EvictedOk | kernel/fs/vfs.c:66-96 | dropping a page, written back if dirty, keeps cache and backing file consistent |
| FileCacheTheory.EvictedByte | kernel/fs/vfs.c:66-96 | eviction changes no byte that a reader can see |
| FileCacheTheory.LoadedOk | kernel/fs/vfs.c:223-276 | caching what the backing file holds changes no byte |
| FileCacheTheory.WriteStep | kernel/fs/vfs.c:278-330 | one round of a write lays its piece over the flat array and nothing else |
| FileCacheTheory.FlushedFile | kernel/fs/vfs.c:98-133 | when no page of a file is cached the backing file is the file |
| FileCacheTheory.AppendIff | kernel/fs/vfs.c:305-311 | an append into an uncached page keeps the file exactly if the bytes before it in that page are zeros |
| FileCacheTheory.AppendLosesBytes | kernel/fs/vfs.c:305-311 | a one-byte file whose byte an append loses |
| CacheLinks.DropOk | kernel/fs/vfs.c:39-96 | unlinking an entry from its chain and from the recency list leaves both with the same remaining entries |
| CacheLinks.AddOk | kernel/fs/vfs.c:47-168 | linking a new entry keeps both structures in agreement with exactly that entry more |
| FileCache.Cache.Lookup | kernel/fs/vfs.c:135-146 | walks one chain and finds the entry with the key if there is one |
| FileCache.Cache.LruTouch | kernel/fs/vfs.c:56-60 | moves the entry to the front of the recency order and changes no page |
| FileCache.Cache.EvictOne | kernel/fs/vfs.c:66-96 | drops exactly the least recently used entry, written back if dirty, invisibly to readers |
| FileCache.Cache.EvictInode | kernel/fs/vfs.c:98-133 | afterwards no page of the file is cached, other files' pages are untouched and the backing file equals the file |
| FileCache.Cache.Add | kernel/fs/vfs.c:148-168 | evicts at the limit and adds a clean entry at the front; the number of entries never exceeds the limit |
| FileCache.Cache.Read | kernel/fs/vfs.c:223-276 | returns exactly the slice of the file, shorter only for want of memory; with memory, or if all its pages are cached, in full |
| FileCache.Cache.Write | kernel/fs/vfs.c:278-330 | overwrites exactly its range whatever is evicted in between, apart from the zeroed bytes of an uncached append; all of it with memory or if its pages are cached; other files are untouched |
| ClusterChains.ChainDistinct | kernel/fs/fat32.c:226-236 | a chain that ends visits no cluster twice |
| ClusterChains.AllocatedOk | kernel/fs/fat32.c:271-297 | an allocation appends zeros to one chain, keeps all chains acyclic and disjoint and touches no other |
| ClusterChains.AllocatedNoLeak | kernel/fs/fat32.c:271-297 | after an allocation every used cluster is still in a chain |
| ClusterChains.PieceOk | kernel/fs/fat32.c:359-408 | rewriting part of a cluster is writing that part of the flat array |
| FatFiles.Fat.FindFreeCluster | kernel/fs/fat32.c:253-269 | the lowest free entry of the scanned sectors; a cluster of the volume exactly if one is free there, past the end exactly if none is and the tail has a zero |
| FatFiles.ScanEnd | kernel/fs/fat32.c:253-269 | how the scan's end compares with the volume's, for every cluster count |
| FatFiles.OverrunExists | kernel/fs/fat32.c:253-269 | a full volume of one cluster, its table tail zero as formatted, on which the scan runs past the end |
| FatFiles.ScanMisses | kernel/fs/fat32.c:253-269 | a volume of 128 clusters whose last one is free and not found |
| FatFiles.Fat.AllocateCluster | kernel/fs/fat32.c:271-297 | a zeroed cluster at the end of the chain exactly if a free one is in sight, an unchanged volume, a bad link when memory is out, or an entry past the end exactly if only the tail has a zero |
| FatFiles.BadLinkBreaks | kernel/fs/fat32.c:282-291 | a link to a free cluster or past the end makes the volume unsound |
| FatFiles.Fat.WriteFile | kernel/fs/fat32.c:359-454 | the chain becomes the flat array, extended with zeros, with the bytes at the offset; no other file's bytes and no chain but its own change, no cluster leaks; short or unsound only if memory is out or no free cluster is in sight |
| FatFiles.Fat.ReadFile | kernel/fs/fat32.c:299-357 | returns the clipped slice of what the chain holds and changes only the access date |
| FatFiles.ReadIsSlice | kernel/fs/fat32.c:299-312 | the read is the slice of the file exactly if the 64-bit sum does not wrap or there is no slack |
| FatFiles.ReadRunsOver | kernel/fs/fat32.c:299-312 | a read that returns a byte behind the file |
| FatFiles.FileWritten | kernel/fs/fat32.c:359-422 | at the level of files a write is the flat overwrite exactly if the gap's slack is zero, and slack stays zero |
| FatFiles.StaleGap | kernel/fs/fat32.c:359-422 | a write past the end whose gap shows an old byte |
| FatFiles.WriteThenRead | kernel/fs/fat32.c:299-454 | reading the range just written returns the bytes |
| FatFiles.EntryStamped | kernel/fs/fat32.c:424-451 | an entry stamped by a write reads back with that first cluster, size, write time and dates, its other bytes as before |
| FatFiles.Fat.FreeClusterChain | kernel/fs/fat32.c:962-968 | ends on every table whose links stay inside it, cyclic or not, and frees exactly the clusters reachable from the start |
| FatFiles.ChainReaches | kernel/fs/fat32.c:962-968 | what a chain's first cluster reaches is the chain |
| FatFiles.Fat.FreeFile | kernel/fs/fat32.c:1096-1098 | freeing a file's chain frees its clusters and no others, keeps the other files and leaks nothing |
| FileRemoval.UnlinkFile | kernel/fs/fat32.c:1006-1137 | the entry leaves the list, its clusters and no others become free, every other file keeps its chain and its content, and none leaks |
| FileRemoval.StampedFirst | kernel/fs/fat32.c:424-451 | an entry that a write has stamped with a first cluster is unlinked by freeing the chain of that cluster |
| LongNames.ExtractChars | kernel/fs/fat32.c:163-177 | the characters of a slot up to its end mark go to their place in the buffer, nothing else changes |
| LongNames.Checksum | kernel/fs/fat32.c:154-161 | the rotate-and-add sum of the 11 bytes |
| LongNames.FilledBytes | kernel/fs/fat32.c:693-729 | the bytes of a filled slot: order, last mark, attribute, checksum, and units that hold the name, its end and the filler |
| LongNames.FilledChars | kernel/fs/fat32.c:163-177 | extracting from a filled slot gives back its piece of the name |
| DirectoryScan.Forgets | kernel/fs/fat32.c:456-517 | once a run is broken, what had been gathered of a name never shows |
| DirectoryScan.DeletedVisible | kernel/fs/fat32.c:1006-1117 | deleting an entry, with any orphan slots left behind, shows the old list minus exactly that entry |
| DirectoryScan.MatchesIff | kernel/fs/fat32.c:521-526 | names match exactly if they differ in nothing but the case of letters |
| Directories.Directory.Lookup | kernel/fs/fat32.c:456-565 | finds the first visible entry of that name, ignoring case, and its place |
| Directories.Directory.DeleteEntries | kernel/fs/fat32.c:1006-1117 | removes exactly the entry a lookup finds, also when its slots cross clusters, and reports the first cluster its bytes name |
| Directories.FirstCluster | kernel/fs/fat32.c:1071 | the cluster whose high half is in bytes 20 and 21 of the entry and whose low half is in bytes 26 and 27 |
| Directories.Directory.Kill | kernel/fs/fat32.c:1068-1093 | marks the short slot and the run's slots in its first cluster as deleted |
| Directories.Directory.Unlink | kernel/fs/fat32.c:1119-1137 | removes what a lookup finds unless that has the directory bit, reports its first cluster, and otherwise changes nothing |
| Directories.Directory.ReadDir | kernel/fs/fat32.c:1169-1229 | delivers the entry with that number of the same visible list |
| Directories.Directory.FindFree | kernel/fs/fat32.c:731-781 | finds the first run of free slots, which has no end mark before it; succeeds exactly if the directory and the clusters it may append hold the run; the clusters it appends show nothing |
| Directories.Directory.WriteSlots | kernel/fs/fat32.c:783-814 | the entries lie over the slots from the place on, across clusters, and nothing else changes |
| Directories.Directory.Create | kernel/fs/fat32.c:816-873 | exactly one entry more shows, in the first run of free slots; under exactly the name asked for, and found by a lookup of it, if that takes long slots or is legal in a plain form that is free; with the plain short form exactly if that is free and the lowest free tail otherwise; the place recorded lies in its cluster exactly if the run stays in the cluster it starts in |
| Directories.OneFirstRun | kernel/fs/fat32.c:731-781 | the free slots alone decide where an entry goes |
| Directories.PlainChoice | kernel/fs/fat32.c:652-662 | the plain form is chosen exactly if it is free |
| Directories.AsAsked | kernel/fs/fat32.c:816-873 | when a created entry shows under exactly the name asked for and a lookup finds it |
| Directories.PlaceLeavesCluster | kernel/fs/fat32.c:816-873 | a directory and a name for which the recorded place leaves its cluster |
| DirectoryGrowth.RunShown | kernel/fs/fat32.c:693-729 | scanning the slots that creation fills decodes the full name |
| DirectoryGrowth.CreatedVisible | kernel/fs/fat32.c:816-873 | new slots over a free run show one entry more and change no other |
| DirectoryGrowth.CreatedFound | kernel/fs/fat32.c:816-873 | a created entry is what a lookup of its name finds, if nothing had that name |
| ShortNames.GenerateShortName | kernel/fs/fat32.c:567-618 | the 11 bytes made from a name and a tail number |
| ShortNames.ShortOneToOne | kernel/fs/fat32.c:587-604 | different tail numbers give different short names |
| ShortNames.SomeTailFree | kernel/fs/fat32.c:652-662 | with fewer than 999998 names taken some tail gives a free name |
| ShortNames.FirstByte | kernel/fs/fat32.c:567-618 | the first byte is never the end mark, and is the deletion mark exactly if the first kept character is that byte |
| ShortNames.HiddenName | kernel/fs/fat32.c:567-618 | a name whose short form is that of a deleted entry |
| ShortNames.ShortShows | kernel/fs/fat32.c:138-151 | the plain short form of a name that needs no long slots shows as that name exactly if its characters are legal and it does not end in a dot |
| ShortNames.TailReads | kernel/fs/fat32.c:587-604 | a form with a tail is as much of the plain base as there is room for, a tilde and the number |
| ShortNames.OtherName | kernel/fs/fat32.c:567-618 | a name that shows as another |
| Directories.Directory.ShortNameExists | kernel/fs/fat32.c:620-650 | whether a visible entry has these 11 bytes |
| Directories.Directory.GenerateUniqueShortName | kernel/fs/fat32.c:652-662 | the plain form if no entry has it, and otherwise the form with the lowest tail that no entry has; a free one in a directory with fewer than 999998 entries |
| Calendar.UnixToDatetime | kernel/fs/fat32.c:47-74 | the one valid date worth the timestamp |
| Calendar.DatetimeToUnix | kernel/fs/fat32.c:76-91 | the seconds a date is worth |
| Calendar.SecondsOneToOne | kernel/fs/fat32.c:47-91 | two valid dates worth the same are equal |
| Calendar.LeapCount | kernel/fs/fat32.c:37-91 | the days before a year: 365 each, and one for every fourth year but not every hundredth, and every four-hundredth |
| Calendar.MonthLengths | kernel/fs/fat32.c:37-45 | months of 31 and 30 days take turns, anew from August, and the second has the rest of the year |
| Calendar.FatRoundTrip | kernel/fs/fat32.c:93-127 | packing and unpacking give the time rounded down to an even second exactly from 1980 to 2107 |
| HeapPages.TakenOk | kernel/mm/heap.c:71-92 | marking a free run keeps the page records consistent |
| HeapPages.ReleasedFree | kernel/mm/heap.c:94-107 | releasing a block frees all its pages exactly if it has fewer than 65536 |
| HeapPages.AllLost | kernel/mm/heap.c:94-107 | a block of 65536 pages none of which comes back |
| KernelHeap.Heap.constructor | kernel/mm/heap.c:234-273 | after initialisation all pages behind the metadata are free and nothing is live |
| KernelHeap.Heap.AllocPages | kernel/mm/heap.c:71-92 | the lowest run of free pages that is long enough; fails only if there is none |
| KernelHeap.Heap.FreePages | kernel/mm/heap.c:94-107 | as many pages as the 16-bit count says become free |
| Slabs.InitPage | kernel/mm/heap.c:109-133 | all objects of the page are on the free list once, behind the header |
| KernelHeap.Heap.CacheAlloc | kernel/mm/heap.c:135-177 | takes a free object of a slab of the class whenever there is one, and only then leaves the pages alone; otherwise one free page becomes a slab; fails exactly if neither is there |
| KernelHeap.PartialIff | kernel/mm/heap.c:135-177 | the partial list of a class is empty exactly if all its slabs are full |
| Slabs.Capacity | kernel/mm/heap.c:109-133 | as many objects as fit into a page behind the header |
| Slabs.SizesDouble | kernel/mm/heap.c:12-14 | object sizes are the powers of two from 16 to 2048 |
| KernelHeap.Heap.CacheFree | kernel/mm/heap.c:179-232 | makes one object free; an emptied slab, and no other, gives its page back; a full one becomes partial |
| KernelHeap.Heap.Kmalloc | kernel/mm/heap.c:275-296 | a block large enough where none was live, from the smallest class or a run of pages, no other block changed; a small size takes a free object of its class whenever there is one; null exactly for size 0, a small size with all slabs of its class full and no free page, or a large one without a run |
| KernelHeap.Heap.Kfree | kernel/mm/heap.c:298-318 | the block and no other stops being live; a large one gives back the pages its record counts |
| HeapTheory.LiveDisjoint | kernel/mm/heap.c:275-318 | live blocks never overlap |
| HeapTheory.SlabBlock | kernel/mm/heap.c:109-177 | live objects lie in their slab's page, clear of its header |
| HeapTheory.LargeBlock | kernel/mm/heap.c:71-92 | live large blocks are runs of pages of their own, clear of the metadata |
| KernelHeap.AllFreed | kernel/mm/heap.c:179-318 | with nothing live every page behind the metadata is free, apart from lost ones |
| Scheduler.Tasks.Enqueue | kernel/threading/sched.c:34-49 | the task is last in the queue of its priority; links, tail and priority bit agree |
| Scheduler.Tasks.Dequeue | kernel/threading/sched.c:51-74 | the task is in no queue, the others keep their order, and the bit is cleared with the last |
| Scheduler.Tasks.Create | kernel/threading/sched.c:167-207 | a ready task at the back of its queue |
| Scheduler.Tasks.SleepOn | kernel/threading/sched.c:209-224 | the current task is at the head of the wait list and in no queue |
| Scheduler.Tasks.WakeUp | kernel/threading/sched.c:226-243 | exactly the head of the wait list becomes ready at the back of its queue |
| Scheduler.Tasks.Exit | kernel/threading/sched.c:263-270 | the current task is nowhere any more |
| Scheduler.Tasks.Rotate | kernel/threading/sched.c:272-278 | the head of a queue goes to its back |
| Scheduler.Tasks.Schedule | kernel/threading/sched.c:280-329 | the next task is the head of the highest queue with a task, after the running task's queue was rotated |
| Scheduler.Tasks.Slices | kernel/threading/sched.c:272-329 | as many schedule calls as the top queue has tasks select each of them exactly once |
| Scheduler.Tasks.SleepTicks | kernel/threading/sched.c:428-443 | the current task is on the sleep queue with its wake time and in no queue |
| Scheduler.Tasks.CheckSleeping | kernel/threading/sched.c:410-426 | exactly the tasks whose time has come become ready, in order; the others stay, in order |
| Sync.SemKept | kernel/threading/sync.c:11-33 | every step keeps the count law and the no-lost-wakeup invariant |
| Sync.SemAlways | kernel/threading/sync.c:5-33 | the invariant holds after every interleaving of any number of tasks |
| Sync.SemProgress | kernel/threading/sync.c:11-33 | while a task waits and units are there, that many woken tasks in a row can complete |
| Sync.Semaphore.Test | kernel/threading/sync.c:11-23 | one pass of the loop by the current task: takes a unit exactly if there is one, else sleeps at the head of the scheduler's wait list; every task about to test stays on a run queue |
| Sync.Semaphore.Signal | kernel/threading/sync.c:25-33 | one unit more, and the head of the wait list is ready on its run queue |
| Sync.Semaphore.Switch | kernel/threading/sched.c:280-329 | a switch to another task keeps the composed invariant |
| Sync.Semaphore.OtherSleep | kernel/threading/sched.c:209-224 | sleeping on another list keeps it |
| Sync.Semaphore.OtherWake | kernel/threading/sched.c:226-243 | waking from another list keeps it |
| Sync.LockKept | kernel/threading/sync.c:41-63 | every step keeps mutual exclusion and, while the mutex is free and a task waits, a woken task about to test it |
| Sync.LockAlways | kernel/threading/sync.c:35-63 | mutual exclusion after every interleaving in which only a holder releases a held mutex |
| Sync.ForeignReleaseIff | kernel/threading/sync.c:55-63 | a release by a task that does not hold the mutex keeps the invariant exactly if the mutex is free |
| Sync.ForeignRelease | kernel/threading/sync.c:55-63 | a concrete run in which a release by another task leads to two holders |
| Sync.Mutex.Test | kernel/threading/sync.c:41-53 | one pass of the loop of the acquire by the current task, on the scheduler's wait list |
| Sync.Mutex.Release | kernel/threading/sync.c:55-63 | the mutex is free and the head of the list is woken; the invariant survives exactly if the caller held the mutex or nobody did |
| Sync.Mutex.Switch | kernel/threading/sched.c:280-329 | a switch to another task keeps the composed invariant |
| UserHeap.RequestCovers | user/src/stdlib.c:26-49 | a request is refused or large enough exactly up to 2^64 - 32 bytes |
| UserHeap.LargestRequests | user/src/stdlib.c:26-49 | a request of 2^64 - 16 bytes asks for one page |
| UserHeap.NoMemoryFaults | user/src/stdlib.c:26-49 | with -ENOMEM or -EINVAL as the answer the first malloc of a program faults |
| UserHeap.LiveDisjoint | user/src/stdlib.c:80-140 | payloads handed out are 16-byte aligned and disjoint |
| UserHeap.CutLinked | user/src/stdlib.c:61-78 | splitting keeps the links of the list |
| UserHeap.MergedAll | user/src/stdlib.c:111-140 | joining the last open pair leaves no two touching free neighbours |
| UserHeap.Allocator.FindFreeBlock | user/src/stdlib.c:51-59 | the first free block that is large enough, or none |
| UserHeap.Allocator.Malloc | user/src/stdlib.c:80-109 | a new live block at least as large as asked for, the first that fits or a new region, all other live blocks as they were, the list still tiles the mapped regions; null only if nothing fits and mmap answers -1; a fault exactly if nothing fits and it refuses with another word |
| UserHeap.Allocator.Free | user/src/stdlib.c:111-140 | exactly this block stops being live, and no two free neighbours touch |
| Terminal.Tty.Put | kernel/drivers/tty.c:326-332 | one byte more in the ring, unless it is full |
| Terminal.Tty.Get | kernel/drivers/tty.c:334-340 | the oldest byte of the ring |
| Terminal.Tty.FinishLine | kernel/drivers/tty.c:561-570 | as much of the line as there is room for goes to the ring |
| Terminal.Tty.Newline | kernel/drivers/tty.c:745-753 | the finished line reaches the ring whole exactly if it fits |
| Terminal.Tty.Receive | kernel/drivers/tty.c:572-775 | the terminal's state is the line editor's after one key more, exactly if the key does not end a line that does not fit |
| Terminal.OverfullLine | kernel/drivers/tty.c:745-753 | 254 letters and a newline at a fresh terminal, after which the line does not reach the reader as typed |
| Terminal.Tty.ReadLine | kernel/drivers/tty.c:802-829 | returns the ring's bytes up to the first newline or the count, and never meets an empty ring before |
| Signals.SentOk | kernel/syscalls/kill.c:90-108 | a sent signal is pending, and SIGCONT is never pending with a stop signal |
| Signals.SentSet | kernel/syscalls/kill.c:90-108 | sending adds the signal to the pending ones and takes away exactly those it cancels |
| Signals.NamedSets | kernel/syscalls/kill.c:90-134 | the masks of the stop signals, of SIGCONT and of SIGKILL and SIGSTOP hold just these |
| Signals.Process.Send | kernel/syscalls/kill.c:90-108 | the pending set after sending, and unknown signals refused |
| Signals.Process.Dequeue | kernel/syscalls/kill.c:117-134 | takes the lowest pending signal that is not blocked |
| Signals.Process.SigAction | kernel/syscalls/kill.c:304-338 | sets any action but those of SIGKILL and SIGSTOP, never masking these two |
| Signals.Process.SigProcMask | kernel/syscalls/kill.c:340-377 | adds, removes or sets exactly the signals asked for, apart from SIGKILL and SIGSTOP |
| Signals.Process.Deliver | kernel/syscalls/kill.c:137-213 | succeeds exactly if the frame's pages are there or can be made; the frame lies 16-byte aligned right below the old stack pointer, over one page or two, and holds the interrupted state; no byte outside it changes; the handler is entered with its mask |
| Signals.Trampoline | kernel/syscalls/kill.c:173-177 | a zero word stands between the two instructions of the trampoline |
| Signals.Process.SigReturn | kernel/syscalls/kill.c:392-435 | succeeds exactly if the pages at the stack pointer are there, and restores whatever frame it names |
| Signals.Process.Handled | kernel/syscalls/kill.c:137-435 | delivery followed by sigreturn with the frame intact restores x0-x30, sp, pc, pstate and the mask exactly |

## Left out

- Device I/O, boot code, TLB and cache maintenance, weak memory and the spinlocks themselves: a section under a lock is one step, translations are coherent and the block device is an array.
- copy_to_user and copy_from_user bypass page rights and copy-on-write; the isolation law is about user stores and loads.
- Device areas: the list operations of Vma have them; the machine's spaces do not, since destroying a space frees frames without testing for them.
- The bit layout of table words: entries are records of frame, rights and flags.
- Shared anonymous pages that are not present at fork time: parent and child get separate frames on first touch, as in the code; no law is claimed for their contents.
- File areas: a split carries neither file nor offset, as in the code; content claims are about anonymous memory, and file bytes are a parameter.
- elf, exec and signal delivery also map user frames; the machine's runs do not include them.
- VirtualMemory.Machine.Duplicate: needs a reference left on every frame of the parent, because the count saturates; pages whose tables cannot be allocated are missing in the child (they are listed), because the code skips them.
- Pmm.FrameAllocator.IncRef: an address in a last page that is only partly memory has no frame number of its own, and the code would write behind the counts.
- vfs permission checks, mounts, path lookup and the uncached access to files that are not regular.
- FileCache.Cache.Write: needs an offset inside or at the end of the file and a range of at most as many pages as the cache holds, because the code updates the size only at the end of the write.
- Backing-file errors, evicting an inode without flushing, and the reference count that decides when vfs_close flushes.
- The upper four bits of table entries, the second copy of the table and volumes of 4 GiB and more, whose byte addresses wrap.
- FatFiles.Fat.WriteFile: the number of clusters before the offset is below 2^32, because the code keeps it in 32 bits; a file's own entry lies in a chain other than the file's.
- Directory slots are the records of the chain's clusters; that a directory's chain is grown by allocate_cluster is modelled in FatFiles, its slots here.
- Directories.Directory.FindFree: takes the number of clusters the volume still gives; the bad link that a refused or overrun extension leaves in the table is stated by FatFiles.Fat.AllocateCluster.
- FatFiles.Fat.FreeClusterChain: a link past the end of the table, which the code would follow into other sectors.
- FileRemoval.UnlinkFile: the directory and the volume are two objects, so that a directory's own clusters are not among the chains it frees.
- Directories.Directory.Create: names have 1 to 254 bytes, and slots behind the first end mark are end marks.
- Long-name slots whose order or characters do not fit the 256-byte name buffer: the code would write outside it.
- rmdir, mkdir's dot entries and mounting; the buffers that the directory functions allocate without looking whether they got them.
- krealloc, kcalloc, realloc and calloc; freeing a pointer that is not live.
- UserHeap.Allocator.Malloc: requests up to 2^64 - 32 bytes, beyond which the size wraps; after a fault the process is gone.
- Stopping and continuing tasks, and sleep_on_timeout, which link tasks through other fields.
- Scheduler.Tasks.Schedule: the idle task is always in its queue.
- The end-of-file and literal-next keys, echo, raw reads, and the window between a reader's test and its sleep.
- The default actions of signals and process groups.

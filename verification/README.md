# FatFs and RT-Thread kernel: a verified model

This project models two bodies of C code in Dafny 4.11 and proves what they promise. To verify it:
`dafny verify dfyconfig.toml`.

## What is modelled

**FatFs R0.11.** A volume is an error-free drive (one sequence of bytes per sector) below a one-sector write-back
window. `FatVolume` is the window, `FatEntry` the FAT12/16/32 entry codec on top of it, `FatChain` allocation and
release of cluster chains, `FatLinkMap` the link-map table for fast seeks. `FatLayout` is the arithmetic of positions,
sectors and clusters. `FatFile` is an open file with its private sector buffer and `f_read`; `FatOverlay` and `FatWrite`
are `f_write`; `FatSeek` is `f_lseek` in all its modes. `PatternMatch` is the wildcard matcher, `LongName` the long-name
entries, `FatFormat` the geometry `f_mkfs` writes and `find_volume` reads. The configuration is: read and write, a
private sector buffer per file, fast seek, wildcard search, long names, a single-byte code page, sectors of 512 to 4096
bytes, one or two FAT copies.

**RT-Thread kernel.** `ListNode` holds the doubly linked list primitives. `SkipRows` and `Timers` are the timer skip
list with deadlines modulo 2^32. `MemBlocks` and `MemHeap` are the memheap allocator (a ring of blocks and a separate
free list, over `Rings`), `HeapItems` and `SystemHeap` the small-memory heap, `SlabPages`, `SlabZones` and `Slab` the slab
allocator. `Bits`, `ReadyMap` and `Scheduler` are the priority bitmap, the ready queues and the thread operations
on them. `Ipc` (with the semaphore), `Mutex`, `Event` and `Mailbox` are step machines: each method is one region with
interrupts disabled, from the call or from the return of a thread that had waited up to the next switch, and the
timeout of a waiting thread is a step of its own. Whatever order the steps of an object come in, its invariant `Valid`
holds between them. For steps on other objects that share the scheduler, and for steps of the scheduler itself, the lemmas
named `Undisturbed` say what they must leave alone: the state of the threads that wait for this object (and the priority
of a mutex's owner).

`Sequences` and `Arithmetic` hold facts about sequences and quotients that several modules use.

## How to read it

A C structure whose fields the code updates is a class with those fields. Ghost fields give the abstract state (the
chain of a file, the blocks of a heap, the history of a mailbox), `Valid` ties it to the fields, and each method says what
it makes of the abstract state. What these abstract operations mean is stated beside them as lemmas: an invariant kept, a
round trip, a reference definition met. Headers and list links are kept by address, and a header written to memory
removes every header it overlaps, so overlapping headers cannot be read by accident.

Numbers are unbounded unless the code depends on their width: the tick arithmetic of the timers, the comparisons of
sector numbers, the rounding of request sizes and the fields of the boot sector wrap around as they do in C.

## Where the code does not do what it or its documentation says

- `_MAX_LFN`: the bounds checks of `pick_lfn` (lines 1394 and 1402) refuse a name of the two longest lengths that
  `fit_lfn` stored. `LongName.LoadName` and `LongName.RoundTrip` state the exact condition.
- `f_mkfs`: aligning the data area may leave no cluster at all, and the volume just written is then refused.
  `FatFormat.FormattedMounts` states when, over the inputs; `FatFormat.RefusedVolume` is such a volume. For an erase block
  that is no power of two the mask does not align (`FatFormat.OtherBlocksMisaligned`).
- `find_volume` accepts FAT32 volumes with cluster numbers that are end-of-chain marks. `FatFormat.MountedGeometry` states
  when, over the boot sector; `FatFormat.BeyondMarks` is such a boot sector.
- `f_lseek` with `CREATE_LINKMAP`: an end mark that is the number behind the last cluster, which `get_fat` counts as the end
  of the chain, is taken for the next cluster, and the call is aborted (`FatLinkMap.CreateLinkmap`, `FatLinkMap.EndTaken`).
- `rt_malloc` in `mem.c`: the loop test refuses an exact fit that ends at `heap_end` (`HeapItems.OnlyExactFitRefused`,
  `HeapItems.WholeHeapRefused`).
- `rt_realloc` in `mem.c`: cutting a block does not lower `lfree`, although its comment calls it the lowest free block.
  `SystemHeap.Heap.Realloc` states exactly when this happens; `SystemHeap.HoleBelowLowest` is a heap in which memory is
  lost to `rt_malloc` by it.
- `rt_system_heap_init` of `mem.c` accepts regions in which `rt_malloc` then does not return (`SystemHeap.TooSmall`,
  `SystemHeap.SmallRegion`).
- `rt_memheap_alloc`: the strict comparison with `available_size` refuses a request that the only free block fits exactly
  (`MemBlocks.ExactFitRefused`, `MemBlocks.FortyRefused`).
- `rt_memheap_realloc`: for a request from 0xFFFFFFF1 to 0xFFFFFFFC bytes the sum in the test for growing in place wraps
  around. When the block behind is free the test succeeds, and the block's own header is overwritten
  (`MemHeap.Heap.Realloc`, `MemHeap.NearFourGigabytes`, `MemHeap.OverrunPossible`).
- Slab: power-of-two chunks of more than a page are aligned to their size only when the zone happens to be
  (`SlabZones.ChunkAlignment`, `SlabZones.ChunkMisaligned`), since zones are
  page aligned, although the comment guarantees the alignment.
- Mutexes with `RT_IPC_FLAG_FIFO`: after a hand-over a waiting thread may outrank the new owner, which inherits nothing.
  `Mutexes.Mutex.Release` states that this happens exactly when a waiting thread outranks the first in the list, as in
  `Mutexes.FifoInverts`.
- A 32-bit request within three bytes of 4 GB wraps to zero in `RT_ALIGN`: `rt_malloc` of `mem.c` then hands out the
  smallest block, and `rt_realloc` frees; memheap rounds it up to its smallest block as well. The model does the same
  (`SystemHeap.NeedCovers`, `MemHeap.NeedCovers` and the inputs in `SystemHeap.RequestWraps`, `MemHeap.NeedWraps`).

## Model

| member | source | states |
|---|---|---|
| FatVolume.WriteBackKeeps | stm32f103c8_nano/applications/FatFs/ff.c:782-795 | writing a sector back changes that sector only and, for a sector of the first FAT, makes its copy equal |
| FatVolume.Volume.SyncWindow | stm32f103c8_nano/applications/FatFs/ff.c:773-797 | after a sync the window is clean, no logical sector contents changed outside the mirror, and on a mirrored volume every FAT sector equals its copy |
| FatVolume.Volume.MoveWindow | stm32f103c8_nano/applications/FatFs/ff.c:802-822 | the window shows the sector asked for, and what a reader sees through the window is the same as before for every sector |
| FatEntry.StoredTable | stm32f103c8_nano/applications/FatFs/ff.c:947-1000 | storing a value changes the entry to the value cut to 12, 16 or 28 bits and no other entry, FAT12 nibbles included |
| FatEntry.Stored12 | stm32f103c8_nano/applications/FatFs/ff.c:963-975 | the two nibble updates of FAT12 give the entry and leave the neighbour that shares a byte |
| FatEntry.Pair12 | stm32f103c8_nano/applications/FatFs/ff.c:909-916 | two FAT12 entries are the low and the high 12 bits of three bytes, low byte first |
| FatEntry.WideEntries | stm32f103c8_nano/applications/FatFs/ff.c:918-928 | a FAT16 entry is two bytes, a FAT32 entry the low 28 bits of four, low byte first |
| FatEntry.TopBitsKept | stm32f103c8_nano/applications/FatFs/ff.c:985-992 | a 28-bit value leaves the four reserved bits of every FAT32 entry as they were |
| FatEntry.SetByte | stm32f103c8_nano/applications/FatFs/ff.c:947-1000 | one byte stored in the sector buffer is one byte of the table: no other byte of either FAT moves |
| FatEntry.EntryPlace4 | stm32f103c8_nano/applications/FatFs/ff.c:924-928 | a FAT32 entry never crosses a sector, so the sector and offset computed are those of all four bytes |
| FatEntry.EntryPlace2 | stm32f103c8_nano/applications/FatFs/ff.c:918-922 | the same for a FAT16 entry |
| FatEntry.GetFat | stm32f103c8_nano/applications/FatFs/ff.c:892-936 | the value of the entry in the table the volume holds, 1 for a cluster number out of range; the table, the mirror and all other sectors are as before |
| FatEntry.GetFat12 | stm32f103c8_nano/applications/FatFs/ff.c:909-916 | the FAT12 value across a byte and possibly a sector boundary, fetched through the window |
| FatEntry.PutFat | stm32f103c8_nano/applications/FatFs/ff.c:947-1000 | the table afterwards is the table with this one entry replaced, copies stay equal, all sectors outside the FAT keep their contents |
| FatEntry.PutFat12 | stm32f103c8_nano/applications/FatFs/ff.c:963-975 | both nibble updates together store the FAT12 entry |
| FatEntry.PutFat32 | stm32f103c8_nano/applications/FatFs/ff.c:985-992 | the stored FAT32 entry keeps the reserved bits that were there |
| FatChain.ChainAcyclic | stm32f103c8_nano/applications/FatFs/ff.c:1011-1053 | links that lead to an end mark never come back to a cluster |
| FatChain.ChainDistinct | stm32f103c8_nano/applications/FatFs/ff.c:1011-1053 | a chain has no cluster twice and is shorter than the table |
| FatChain.RemoveChain | stm32f103c8_nano/applications/FatFs/ff.c:1011-1053 | the table becomes what following the links from the first cluster and zeroing gives, the walk ends on every table, a known free count stays the number of zero entries and known, and FSINFO is marked exactly when the count has changed |
| FatChain.RemovedChain | stm32f103c8_nano/applications/FatFs/ff.c:1011-1053 | removing a chain zeroes exactly its clusters |
| FatChain.RemovedPath | stm32f103c8_nano/applications/FatFs/ff.c:1027-1049 | a walk that runs into its own start, into any of its clusters or into a free one halts there, with exactly the path freed |
| FatChain.ForestRemove | stm32f103c8_nano/applications/FatFs/ff.c:1011-1053 | disjoint chains stay disjoint chains, with one chain gone and all others untouched |
| FatChain.ChainUntouched | stm32f103c8_nano/applications/FatFs/ff.c:1011-1053 | a chain depends on the entries of its own clusters only |
| FatChain.FindFree | stm32f103c8_nano/applications/FatFs/ff.c:1085-1097 | the scan answers 0 exactly when it comes round to its start without a free or broken entry; otherwise its answer is the first such entry in wrap-around order |
| FatChain.CreateChain | stm32f103c8_nano/applications/FatFs/ff.c:1064-1114 | the answer and the table left are those of the scan specification, a known free count stays the number of zero entries and known, and the last cluster taken is noted |
| FatChain.GrowsNear | stm32f103c8_nano/applications/FatFs/ff.c:1073-1097 | a chain grows into the next free cluster behind its last one in wrap-around order, a new chain starts behind the cluster taken last, or at the first free one when that is not known |
| FatChain.ChainGrow | stm32f103c8_nano/applications/FatFs/ff.c:1099-1113 | linking at the end of a chain makes it the old chain and one formerly free cluster |
| FatChain.OthersKept | stm32f103c8_nano/applications/FatFs/ff.c:1099-1113 | every chain that does not hold the last cluster is still the same chain |
| FatChain.ForestGrow | stm32f103c8_nano/applications/FatFs/ff.c:1099-1113 | disjoint chains stay disjoint when one grows or a new one starts |
| FatChain.ForestCreate | stm32f103c8_nano/applications/FatFs/ff.c:1064-1114 | on disjoint chains the answer is 0 if and only if no cluster is free, and otherwise one formerly free cluster has been added to just this chain |
| FatChain.FreeCountSet | stm32f103c8_nano/applications/FatFs/ff.c:1105-1108 | changing one entry changes the number of zero entries by one exactly when the entry goes from or to zero |
| FatChain.NoneFreeCount | stm32f103c8_nano/applications/FatFs/ff.c:1085-1097 | a scan that passed everything means that the number of zero entries is 0 |
| Bits.MaskIsRemainder | stm32f103c8_nano/applications/FatFs/ff.c:2688 | masking with a power of two minus one takes the remainder, for every power and every number |
| FatLayout.Csect | stm32f103c8_nano/applications/FatFs/ff.c:2688 | the masked sector number is the place of the sector in its cluster |
| FatLayout.SectorInjective | stm32f103c8_nano/applications/FatFs/ff.c:874-882 | different sectors of a file lie in different sectors of the drive |
| FatLayout.SectorOwned | stm32f103c8_nano/applications/FatFs/ff.c:874-882 | every sector of a file lies in the data area, in a cluster of its chain |
| FatLayout.Contiguous | stm32f103c8_nano/applications/FatFs/ff.c:2704-2711 | inside a cluster consecutive sectors of the file are consecutive on the drive |
| FatLinkMap.ClmtClust | stm32f103c8_nano/applications/FatFs/ff.c:1126-1143 | on a table that maps the chain the answer is the chain element for the offset, 0 behind its end |
| FatLinkMap.ListsMaps | stm32f103c8_nano/applications/FatFs/ff.c:1126-1143 | a table that lists the fragments is one from which every chain index can be looked up |
| FatLinkMap.FewestItems | stm32f103c8_nano/applications/FatFs/ff.c:3123-3147 | no table that maps a chain has fewer items than one entry for every maximal fragment needs |
| FatLinkMap.CountFragment | stm32f103c8_nano/applications/FatFs/ff.c:3131-3137 | the inner loop counts a maximal run of consecutive clusters, unless it takes the end mark for the next cluster, which it does only when the mark is the number behind the last cluster |
| FatLinkMap.EndTaken | stm32f103c8_nano/applications/FatFs/ff.c:3131-3137 | a volume whose one cluster ends in the number of FAT entries |
| FatLinkMap.CreateLinkmap | stm32f103c8_nano/applications/FatFs/ff.c:3123-3147 | aborted with INT_ERR exactly when the end mark is the number behind the last cluster; otherwise the size reported is 2 plus 2 for every maximal contiguous fragment, NOT_ENOUGH_CORE exactly when that is more than the table has, and else the table maps the chain |
| FatFile.File.constructor | stm32f103c8_nano/applications/FatFs/ff.c:2636-2647 | a file that was just opened satisfies the file invariant and sees the drive as it is |
| FatFile.BytePlaced | stm32f103c8_nano/applications/FatFs/ff.c:2682-2720 | byte p of a file is byte p mod ss of sector database + (cluster - 2) * csize + p / ss mod csize, for the cluster at index p / (csize * ss) of its chain |
| FatFile.RunIsFile | stm32f103c8_nano/applications/FatFs/ff.c:2704-2722 | a run of sectors inside a cluster holds consecutive bytes of the file, and the pointer moved over it is on a sector boundary of the same or the next cluster |
| FatFile.PieceIsFile | stm32f103c8_nano/applications/FatFs/ff.c:2740-2747 | a piece of the buffered sector is a piece of the file |
| FatFile.OneSector | stm32f103c8_nano/applications/FatFs/ff.c:2728-2731 | a change of one sector of a file changes the bytes of that sector and no others |
| FatFile.UnderFile | stm32f103c8_nano/applications/FatFs/ff.c:2698 | a FAT access under an open file leaves buffer, cursor and all bytes of the file as they were |
| FatFile.File.FlushBuffer | stm32f103c8_nano/applications/FatFs/ff.c:2728-2732 | writing the dirty buffer back changes nothing of what the file sees |
| FatFile.File.LocateForRead | stm32f103c8_nano/applications/FatFs/ff.c:2687-2706 | on a sector boundary the cluster and the sector found are those of the byte under the pointer |
| FatFile.File.ReadDirect | stm32f103c8_nano/applications/FatFs/ff.c:2707-2724 | a direct transfer delivers the bytes of the file even where the dirty buffer hides a sector of the run |
| FatFile.File.ReadPartial | stm32f103c8_nano/applications/FatFs/ff.c:2740-2747 | the bytes delivered from the buffer are the bytes of the file under the pointer |
| FatFile.File.ReadStep | stm32f103c8_nano/applications/FatFs/ff.c:2685-2749 | one turn delivers some bytes, at least one, in order, whichever way it goes |
| FatFile.File.Read | stm32f103c8_nano/applications/FatFs/ff.c:2661-2752 | min(request, size - fptr) bytes are delivered, exactly the contents from fptr on; the contents, the FAT and all other sectors are as before, and the cursor invariant holds again |
| FatOverlay.OverlayOn | stm32f103c8_nano/applications/FatFs/ff.c:2762-2875 | two consecutive writes come to one write of both pieces |
| FatOverlay.ReplaceRun | stm32f103c8_nano/applications/FatFs/ff.c:2822-2842 | whole sectors overwritten inside a cluster replace those bytes of the file and no others |
| FatOverlay.ReplacePiece | stm32f103c8_nano/applications/FatFs/ff.c:2850-2867 | a piece of one sector replaces those bytes; what the rest of the sector holds behind the end of the file does not matter |
| FatWrite.StretchChain | stm32f103c8_nano/applications/FatFs/ff.c:2791-2802 | create_chain at cluster i of an open file gives the next cluster of its chain or adds one at the end |
| FatWrite.ForeignGrow | stm32f103c8_nano/applications/FatFs/ff.c:2791-2802 | sectors that are not of the longer chain were not of the shorter one |
| FatWrite.StretchKeeps | stm32f103c8_nano/applications/FatFs/ff.c:1064-1114 | what one call does to the chain, the sector buffer, the link map and the bytes of a file: nothing but one more cluster at the end |
| FatWrite.Stretch | stm32f103c8_nano/applications/FatFs/ff.c:2791-2805 | allocation under an open file changes its chain at the end only and no byte of it |
| FatWrite.AdvanceForWrite | stm32f103c8_nano/applications/FatFs/ff.c:2788-2818 | on a sector boundary the cluster under the pointer is current afterwards, or there is no room |
| FatWrite.TransferRun | stm32f103c8_nano/applications/FatFs/ff.c:2826-2838 | after a direct write over the buffered sector the buffer shows the new bytes |
| FatWrite.WriteDirect | stm32f103c8_nano/applications/FatFs/ff.c:2819-2843 | whole sectors written directly replace exactly these bytes |
| FatWrite.WritePartial | stm32f103c8_nano/applications/FatFs/ff.c:2850-2867 | bytes put in the buffer replace exactly these bytes, and the sector is loaded first when it holds file data |
| FatWrite.WriteStep | stm32f103c8_nano/applications/FatFs/ff.c:2786-2869 | one turn writes some bytes, at least one, or finds no room |
| FatWrite.Write | stm32f103c8_nano/applications/FatFs/ff.c:2762-2875 | the contents become the old contents with the first bw bytes laid over them from fptr on; fewer bytes than asked for only on a full volume, at the end of the link map, or past 4 GB; all other files and chains are untouched; a cluster is added only if a byte written lies in it, and none of the FSINFO values changes when none is |
| FatSeek.ClusterStart | stm32f103c8_nano/applications/FatFs/ff.c:3191 | the masked position is the start of its cluster |
| FatSeek.NextCluster | stm32f103c8_nano/applications/FatFs/ff.c:3207-3222 | one turn of the walk makes the next chain element current, allocating it only when the file may be written and the target lies behind its start |
| FatSeek.StartWalk | stm32f103c8_nano/applications/FatFs/ff.c:3187-3205 | the walk starts at the chain element of the byte before the pointer or at the first, never behind the target |
| FatSeek.Land | stm32f103c8_nano/applications/FatFs/ff.c:3223-3244 | the sector buffered at the end is the one under the pointer, with a dirty buffer written back first |
| FatSeek.Seek | stm32f103c8_nano/applications/FatFs/ff.c:3177-3251 | the pointer is where asked, clipped to the size unless writable, or at the end of the chain on a full volume; old contents stay a prefix; a target inside the chain allocates nothing, and a cluster is added only if it starts before the pointer reached |
| FatSeek.MapStep | stm32f103c8_nano/applications/FatFs/ff.c:3152-3157 | with a link map that maps the chain the cluster looked up is the chain element of the byte before the pointer |
| FatSeek.FastSeek | stm32f103c8_nano/applications/FatFs/ff.c:3149-3173 | a fast seek reaches min(offset, size), and fails exactly when the map does not cover the chain |
| FatSeek.MakeLinkmap | stm32f103c8_nano/applications/FatFs/ff.c:3123-3147 | a file keeps its contents and its pointer while its map is made, and seeks through the map afterwards if the table was large enough; the abort is recorded in the file |
| FatSeek.Lseek | stm32f103c8_nano/applications/FatFs/ff.c:3105-3254 | the offset CREATE_LINKMAP makes the table of the file into its map, any other offset seeks through the map, or along the chain without one; all keep the file invariant and the contents, and a target within the size is reached without any allocation; a cluster is added only if it starts before the pointer reached |
| PatternMatch.BlockMeans | stm32f103c8_nano/applications/FatFs/ff.c:1886-1891 | a block of wildcards means: as many characters as it has question marks, then any run if it has a star |
| PatternMatch.LiteralsNeed | stm32f103c8_nano/applications/FatFs/ff.c:1894-1897 | a name shorter than the leading literals of a pattern cannot match |
| PatternMatch.NoLater | stm32f103c8_nano/applications/FatFs/ff.c:1899-1900 | once an attempt has met the end of the name no later starting point can match, so giving up loses nothing |
| PatternMatch.PatternMatching | stm32f103c8_nano/applications/FatFs/ff.c:1866-1903 | true if and only if some split allowed by skip and inf matches the declarative rules; terminates |
| PatternMatch.TryAt | stm32f103c8_nano/applications/FatFs/ff.c:1884-1898 | one attempt succeeds exactly when the rest of the name matches |
| PatternMatch.Wildcards | stm32f103c8_nano/applications/FatFs/ff.c:1887-1890 | the walk over a block of wildcards counts its question marks and notes a star |
| PatternMatch.Find | stm32f103c8_nano/applications/FatFs/ff.c:3401-3408 | a name is found if and only if it matches the pattern |
| PatternMatch.OneCharacter | stm32f103c8_nano/applications/FatFs/ff.c:1843-1862 | a pattern of one character, for every character: a star matches all names, a question mark those of one character, a letter itself in either case, another character below 0x80 just itself, and from 0x80 on the table decides |
| PatternMatch.InTwoParts | stm32f103c8_nano/applications/FatFs/ff.c:1866-1903 | a pattern in two parts matches exactly the names in two parts that they match, and the empty pattern the empty name |
| PatternMatch.CaseIgnored | stm32f103c8_nano/applications/FatFs/ff.c:1850 | changing the case of letters in the pattern or the name changes nothing |
| LongName.FitLfn | stm32f103c8_nano/applications/FatFs/ff.c:1412-1437 | the entry holds its thirteen characters, then one terminator, then filler, and carries the last-entry flag exactly if the name ends in it |
| LongName.PartInNumbers | stm32f103c8_nano/applications/FatFs/ff.c:1344 | the bytes of a part: order and flag 64 in byte 0, characters low byte first at 1 to 10, 14 to 25 and 28 to 31, zero behind the name and 65535 after it |
| LongName.PickLfn | stm32f103c8_nano/applications/FatFs/ff.c:1379-1407 | a part of a name is taken exactly when the name goes on behind it or has at most _MAX_LFN - 2 characters, with its characters in place; an entry of order 0 is never taken |
| LongName.OnlyLast | stm32f103c8_nano/applications/FatFs/ff.c:1435-1436 | only the last part of a name carries the flag |
| LongName.PartOrder | stm32f103c8_nano/applications/FatFs/ff.c:1614-1620 | the order byte without the flag is the number of the part |
| LongName.StoreName | stm32f103c8_nano/applications/FatFs/ff.c:1686-1697 | the loop writes all parts of the name, last part first |
| LongName.PartsFollow | stm32f103c8_nano/applications/FatFs/ff.c:1686-1697 | the parts of a name are entries in sequence: flag on the first, orders down to 1, one check sum |
| LongName.LoadName | stm32f103c8_nano/applications/FatFs/ff.c:1597-1626 | of any entries, deleted ones included, a name is taken only if they end in such an unbroken sequence with the short name's check sum; of the parts of a name if and only if the check sum is theirs and the name has at most _MAX_LFN - 2 characters, and then that name |
| LongName.SkippedInNumbers | stm32f103c8_nano/applications/FatFs/ff.c:1610 | the entries that break a sequence are those that start with 0xE5 or a dot |
| LongName.RoundTrip | stm32f103c8_nano/applications/FatFs/ff.c:1379-1437 | store then load is the identity on names of 1.._MAX_LFN - 2 characters, and refuses the two longest |
| FatFormat.AllocationUnit | stm32f103c8_nano/applications/FatFs/ff.c:4195-4204 | the allocation unit in sectors for every request: the request, or the size from the table of volume sizes, in numbers, divided by the sector size from 512 on and held between 1 and 128 |
| Bits.MaskRoundsDown | stm32f103c8_nano/applications/FatFs/ff.c:4230 | masking with the complement of a power of two minus one takes the remainder off |
| FatFormat.PaddingBound | stm32f103c8_nano/applications/FatFs/ff.c:4228-4231 | the padding is less than a block for every block size |
| FatFormat.PaddingAligns | stm32f103c8_nano/applications/FatFs/ff.c:4228-4237 | for a power-of-two block the masked padding leads to a block boundary |
| FatFormat.SameBytes | stm32f103c8_nano/applications/FatFs/ff.c:4213-4219 | f_mkfs and find_volume count the same number of FAT bytes for a cluster count |
| FatFormat.FormatIs | stm32f103c8_nano/applications/FatFs/ff.c:4206-4330 | the boot sector fields, without wrap-around |
| FatFormat.MountIs | stm32f103c8_nano/applications/FatFs/ff.c:2349-2400 | what find_volume derives from these fields |
| FatFormat.AcceptedExactly | stm32f103c8_nano/applications/FatFs/ff.c:2349-2400 | as long as no sum overflows, find_volume accepts just the boot sectors that meet the conditions on the fields, in numbers, with the sub-type and areas that follow |
| FatFormat.MountedSubType | stm32f103c8_nano/applications/FatFs/ff.c:2379-2393 | what is accepted is FAT12 exactly with fewer than 4086 clusters, and FAT32 exactly with 65526 or more, which is when the boot sector has no root directory entries |
| FatFormat.FormattedExactly | stm32f103c8_nano/applications/FatFs/ff.c:4206-4244 | f_mkfs gives up exactly when the unaligned start leaves no room for a cluster or the padding takes too many clusters for the sub-type, in numbers |
| FatFormat.FormatInNumbers | stm32f103c8_nano/applications/FatFs/ff.c:4206-4330 | the fields f_mkfs writes, in numbers, with FAT12 below 4086 clusters before alignment and FAT32 from 65526 on |
| FatFormat.FatFits | stm32f103c8_nano/applications/FatFs/ff.c:4213-4219 | the FAT is large enough for every entry, computed without overflow |
| FatFormat.FormattedMounts | stm32f103c8_nano/applications/FatFs/ff.c:4206-4330 | a formatted volume mounts if and only if the unaligned data start, the padding and one cluster end inside the volume, for every erase block; then with the same sub-type, cluster count and area starts and a FAT that holds all entries; a power-of-two erase block is aligned to |
| FatFormat.RefusedVolume | stm32f103c8_nano/applications/FatFs/ff.c:4226-4243 | a volume of 200 sectors and an erase block of 1024: f_mkfs writes it and find_volume refuses it |
| FatFormat.OtherBlocksMisaligned | stm32f103c8_nano/applications/FatFs/ff.c:4230 | a drive that reports an erase block of five sectors: the data area starts at sector 49 |
| FatFormat.MountedGeometry | stm32f103c8_nano/applications/FatFs/ff.c:2349-2400 | an accepted boot sector gives the geometry the file operations rely on if and only if it is not one of FAT32 whose data sectors make 0x0FFFFFFD clusters or more, that is cluster numbers at the end-of-chain marks |
| FatFormat.BeyondMarks | stm32f103c8_nano/applications/FatFs/ff.c:2349-2400 | a FAT32 boot sector that is accepted although its last cluster numbers are end-of-chain marks |
| FatFormat.FormattedGeometry | stm32f103c8_nano/applications/FatFs/ff.c:4206-4330 | a formatted volume that mounts has that geometry |
| ListNodes.ListNode.constructor | stm32f103c8_nano/rt-thread/include/rtservice.h:47-50 | a node of its own |
| ListNodes.ListNode.InsertAfter | stm32f103c8_nano/rt-thread/include/rtservice.h:58-65 | the list is the old list with the node put in behind this one |
| ListNodes.ListNode.InsertBefore | stm32f103c8_nano/rt-thread/include/rtservice.h:73-80 | the list is the old list with the node put in before this one; before the head is behind the last |
| ListNodes.ListNode.Remove | stm32f103c8_nano/rt-thread/include/rtservice.h:86-92 | the other nodes keep their order and the removed node is a list of its own |
| ListNodes.ListNode.IsEmpty | stm32f103c8_nano/rt-thread/include/rtservice.h:98-101 | true if and only if the head has no nodes |
| ListNodes.ListNode.Len | stm32f103c8_nano/rt-thread/include/rtservice.h:107-118 | the number of nodes |
| ListNodes.ListNode.Append | stm32f103c8_nano/rt-thread/include/rtservice.h:73-80 | inserting before the head appends at the end |
| ListNodes.ListNode.InsertThenRemove | stm32f103c8_nano/rt-thread/include/rtservice.h:58-92 | a node put in and taken out again leaves the list as it was |
| Timers.Compare | stm32f103c8_nano/rt-thread/src/timer.c:359-366 | the two modulo-2^32 comparisons order deadlines by distance while they lie within half the range |
| Timers.TicksInNumbers | stm32f103c8_nano/rt-thread/src/timer.c:339-365 | sums and differences of ticks modulo 2^32, and half the range 2147483647 |
| Timers.DueInNumbers | stm32f103c8_nano/rt-thread/src/timer.c:516 | a timer is due from its deadline on for 2147483647 ticks, across the wrap of the counter |
| Timers.HeightInNumbers | stm32f103c8_nano/rt-thread/src/timer.c:376-391 | with the default mask a timer goes one row up for every two zero bits at the end of the counter |
| Timers.InsertAtCut | stm32f103c8_nano/rt-thread/src/timer.c:343-370 | stable linear insertion is insertion at the cut |
| Timers.CutAligned | stm32f103c8_nano/rt-thread/src/timer.c:343-370 | the cut of an upper row falls where the cut of the row below splits it |
| Timers.StepDown | stm32f103c8_nano/rt-thread/src/timer.c:368-369 | going down at the place found in a row does not overshoot in the next |
| Timers.OrderedFilter | stm32f103c8_nano/rt-thread/src/timer.c:343-370 | a sublist of a row in deadline order is in deadline order |
| SkipRows.RowsLinkedKeep | stm32f103c8_nano/rt-thread/src/timer.c:376-391 | linking into the lowest rows, however many, keeps every row a sublist of the row below |
| SkipRows.RowsWithoutKeep | stm32f103c8_nano/rt-thread/src/timer.c:121-129 | unlinking from all rows keeps every row a sublist of the row below |
| Timers.TimerList.FindPlaces | stm32f103c8_nano/rt-thread/src/timer.c:342-370 | the walk from row to row finds in each row the place behind all deadlines that are not later |
| Timers.TimerList.LinkRows | stm32f103c8_nano/rt-thread/src/timer.c:376-391 | the timer is in the lowest row and in as many rows above as the counter bits say |
| Timers.TimerList.Place | stm32f103c8_nano/rt-thread/src/timer.c:342-391 | the lowest row is the stable linear insertion for every height and counter value |
| Timers.TimerList.Start | stm32f103c8_nano/rt-thread/src/timer.c:296-412 | a started timer is active with deadline now + init_tick, and is where a stable linear insertion puts it, after equal deadlines; all other timers stay in the rows they were in |
| Timers.TimerList.Stop | stm32f103c8_nano/rt-thread/src/timer.c:422-447 | an active timer leaves all rows; for another one nothing changes |
| Timers.TimerList.NextTimeout | stm32f103c8_nano/rt-thread/src/timer.c:108-119 | the earliest deadline, or the maximal tick when there is no timer |
| Timers.TimerList.Fire | stm32f103c8_nano/rt-thread/src/timer.c:509-543 | the first timer leaves the list and comes back only if periodic and active |
| Timers.TimerList.FireNext | stm32f103c8_nano/rt-thread/src/timer.c:507-547 | one turn of the loop over what is still due |
| Timers.TimerList.Check | stm32f103c8_nano/rt-thread/src/timer.c:494-553 | exactly the due timers fire, in deadline then start order; active periodic ones are back at now + init_tick; the list is in order with nothing due; the loop ends |
| Timers.TimerList.StartAt | stm32f103c8_nano/rt-thread/src/timer.c:296-412 | starting a timer of a length below half the range at the current tick keeps all deadlines in the window from that tick on; one that is periodic with the greatest length is started only while no timer is due, and no timer of length 0 while there is one; the list is the old one with this timer inserted |
| Timers.TimerList.StopAt | stm32f103c8_nano/rt-thread/src/timer.c:422-447 | stopping an active timer takes just this timer out of the list and keeps the deadlines in the window |
| Timers.TimerList.Tick | stm32f103c8_nano/rt-thread/src/clock.c:67-89 | one tick later exactly the timers that have become due fire, in list order; every other timer is in the list with deadline and state unchanged, a fired one exactly if it is active again, and nothing else; nothing is due, and the window has moved on by one tick |
| Timers.MoveBase | stm32f103c8_nano/rt-thread/src/timer.c:516 | the window may move up to the first tick after one at which nothing is due |
| Rings.RingInsert | stm32f103c8_nano/rt-thread/src/memheap.c:209-213 | the four link updates put a node in behind another one of a circular list |
| Rings.RingRemove | stm32f103c8_nano/rt-thread/src/memheap.c:215-219 | the two link updates take a node out of a circular list |
| MemBlocks.Ordered | stm32f103c8_nano/rt-thread/src/memheap.c:138-281 | blocks do not overlap |
| MemBlocks.SplitSum | stm32f103c8_nano/rt-thread/src/memheap.c:187-236 | cutting a block changes the free bytes by the header only |
| MemBlocks.MergedSum | stm32f103c8_nano/rt-thread/src/memheap.c:540-578 | merging two free blocks adds one header to the free bytes |
| MemBlocks.AllocatedCoalesced | stm32f103c8_nano/rt-thread/src/memheap.c:138-281 | handing out a block leaves no two free neighbours |
| MemBlocks.FreedCoalesced | stm32f103c8_nano/rt-thread/src/memheap.c:495-595 | giving back a block with merging leaves no two free neighbours |
| MemBlocks.GrownCoalesced | stm32f103c8_nano/rt-thread/src/memheap.c:350-402 | growing into the block behind leaves no two free neighbours |
| MemBlocks.ShrunkCoalesced | stm32f103c8_nano/rt-thread/src/memheap.c:432-485 | shrinking with merging leaves no two free neighbours |
| MemBlocks.AllocatedThenFreed | stm32f103c8_nano/rt-thread/src/memheap.c:495-595 | allocating and freeing at once restores the identical blocks |
| MemBlocks.SumBound | stm32f103c8_nano/rt-thread/src/memheap.c:50-121 | the free bytes never exceed the pool |
| MemBlocks.ExactFitRefused | stm32f103c8_nano/rt-thread/src/memheap.c:155 | the test on available_size refuses a request some free block fits if and only if one block is all the free memory and fits exactly, so that no other free block has a byte |
| MemBlocks.FortyRefused | stm32f103c8_nano/rt-thread/src/memheap.c:155 | a new pool with 40 free bytes refuses 40 bytes |
| MemHeap.HeaderFits | stm32f103c8_nano/rt-thread/src/memheap.c:369-393 | a header written inside a block, even over the old header of the next one, leaves both lists and all flags intact |
| MemHeap.NeedCovers | stm32f103c8_nano/rt-thread/src/memheap.c:147-150 | the rounded size covers the request if and only if that is at most 0xFFFFFFFC |
| MemHeap.NeedWraps | stm32f103c8_nano/rt-thread/src/memheap.c:147-150 | a request for 0xFFFFFFFD bytes comes out as one for 12 |
| MemHeap.Heap.constructor | stm32f103c8_nano/rt-thread/src/memheap.c:50-121 | a new pool satisfies the heap invariant: one free block and the tailer |
| MemHeap.Heap.SplitBlock | stm32f103c8_nano/rt-thread/src/memheap.c:192-213 | splitting keeps the block ring and the free list intact |
| MemHeap.Heap.MergeBlock | stm32f103c8_nano/rt-thread/src/memheap.c:560-573 | merging keeps the block ring intact |
| MemHeap.Heap.FindFit | stm32f103c8_nano/rt-thread/src/memheap.c:169-183 | first fit on the free list: everything before the block found is too small |
| MemHeap.Heap.Alloc | stm32f103c8_nano/rt-thread/src/memheap.c:138-281 | null exactly when the request reaches available_size or no block fits; otherwise the first fit is handed out, and ring, free list and available_size agree with the blocks; the rest of the block is first on the free list |
| MemHeap.Heap.MergeFreeLeft | stm32f103c8_nano/rt-thread/src/memheap.c:540-557 | merging to the left keeps available_size the sum of free payloads |
| MemHeap.Heap.MergeFreeRight | stm32f103c8_nano/rt-thread/src/memheap.c:559-578 | merging to the right keeps available_size the sum of free payloads |
| MemHeap.Heap.Free | stm32f103c8_nano/rt-thread/src/memheap.c:495-595 | the block and its free neighbours become one free block, on the free list once; the invariant holds, first there unless it joined the free block before it |
| MemHeap.Heap.GrowBlock | stm32f103c8_nano/rt-thread/src/memheap.c:350-402 | growing in place keeps the invariant though the new header may overlap the old one |
| MemHeap.Heap.ShrinkBlock | stm32f103c8_nano/rt-thread/src/memheap.c:432-491 | the rest becomes one free block; the invariant holds |
| MemHeap.Heap.TryGrow | stm32f103c8_nano/rt-thread/src/memheap.c:333-403 | the test for growing in place as it comes out on 32-bit numbers |
| MemHeap.Heap.Overrun | stm32f103c8_nano/rt-thread/src/memheap.c:350-379 | when the test has wrapped around, the header of the block itself is overwritten and the heap is broken |
| MemHeap.NearFourGigabytes | stm32f103c8_nano/rt-thread/src/memheap.c:300-303 | the sum in the test wraps around for exactly the requests from 0xFFFFFFF1 to 0xFFFFFFFC |
| MemHeap.OverrunPossible | stm32f103c8_nano/rt-thread/src/memheap.c:350 | 0xFFFFFFF4 bytes for a block of 12 bytes with a free block behind: the test wraps around and succeeds |
| MemHeap.Heap.Realloc | stm32f103c8_nano/rt-thread/src/memheap.c:284-492 | the heap stays intact if and only if the test does not wrap around and succeed; then the block stays in place exactly when it shrinks, or when the block behind is free and leaves more than the smallest payload, and otherwise is replaced, or nothing changes; free list and peak use as the steps of the call leave them |
| HeapItems.SameItem | stm32f103c8_nano/rt-thread/src/mem.c:143-181 | an offset determines the block |
| HeapItems.CutLinked | stm32f103c8_nano/rt-thread/src/mem.c:316-335 | the writes that link in a new header leave next and prev inverse, the end sentinel's prev excepted |
| HeapItems.JoinedLinked | stm32f103c8_nano/rt-thread/src/mem.c:153-180 | the two writes of a merge leave next and prev inverse |
| HeapItems.JoinedMark | stm32f103c8_nano/rt-thread/src/mem.c:157-175 | a merge keeps lfree at a free header or the end, and lowest if it was |
| HeapItems.CutSum | stm32f103c8_nano/rt-thread/src/mem.c:458-485 | cutting a block frees exactly the bytes behind the cut |
| HeapItems.JoinedSum | stm32f103c8_nano/rt-thread/src/mem.c:143-181 | merging free blocks changes no used byte |
| HeapItems.AllocatedCoalesced | stm32f103c8_nano/rt-thread/src/mem.c:298-357 | allocation leaves no two free neighbours |
| HeapItems.FreedCoalesced | stm32f103c8_nano/rt-thread/src/mem.c:533-596 | freeing leaves no two free neighbours |
| HeapItems.ShrunkCoalesced | stm32f103c8_nano/rt-thread/src/mem.c:458-485 | shrinking leaves no two free neighbours |
| HeapItems.AllocatedThenFreed | stm32f103c8_nano/rt-thread/src/mem.c:259-397 | allocating and freeing at once restores the identical blocks |
| HeapItems.LowestIsOne | stm32f103c8_nano/rt-thread/src/mem.c:367-374 | the lowest free block is unique, so lfree is restored as well |
| HeapItems.OnlyExactFitRefused | stm32f103c8_nano/rt-thread/src/mem.c:292-298 | while lfree is lowest, a refusal means that no free block fits, but for an exact fit that ends at heap_end; and conversely |
| HeapItems.WholeHeapRefused | stm32f103c8_nano/rt-thread/src/mem.c:292-298 | a new heap of 100 bytes refuses a request for 100 bytes |
| HeapItems.ShrunkLowest | stm32f103c8_nano/rt-thread/src/mem.c:458-485 | after a shrink lfree is lowest if and only if not (the block behind is in use and lfree lies above the block) |
| HeapItems.PayloadsApart | stm32f103c8_nano/rt-thread/src/mem.c:259-397 | payloads of different blocks do not overlap, and no header lies in one |
| SystemHeap.HoleBelowLowest | stm32f103c8_nano/rt-thread/src/mem.c:458-485 | a concrete heap in which a shrink leaves a free block below lfree and rt_malloc then refuses a request it could serve |
| SystemHeap.Aligns | stm32f103c8_nano/rt-thread/src/mem.c:275-287 | rounding gives a multiple of four less than four above the request unless it wraps |
| SystemHeap.NeedCovers | stm32f103c8_nano/rt-thread/src/mem.c:275-287 | the size looked for covers the request if and only if that is at most 0xFFFFFFFC |
| SystemHeap.RequestWraps | stm32f103c8_nano/rt-thread/src/mem.c:275-287 | a request for 0xFFFFFFFD bytes comes out as one for 12 |
| SystemHeap.TooSmall | stm32f103c8_nano/rt-thread/src/mem.c:292-294 | in a heap smaller than the smallest block the search neither finds a block nor ends |
| SystemHeap.SmallRegion | stm32f103c8_nano/rt-thread/src/mem.c:194-245 | a region of 32 bytes is accepted and gives such a heap, of 8 bytes |
| SystemHeap.Heap.constructor | stm32f103c8_nano/rt-thread/src/mem.c:191-244 | a new heap is one free block and the end sentinel, for every region that is accepted |
| SystemHeap.Heap.PlugHoles | stm32f103c8_nano/rt-thread/src/mem.c:143-181 | the block is joined with its free neighbours; links, used bytes and lfree stay right |
| SystemHeap.Heap.RaiseLowest | stm32f103c8_nano/rt-thread/src/mem.c:367-374 | lfree goes to the next free block or the end |
| SystemHeap.Heap.FindFit | stm32f103c8_nano/rt-thread/src/mem.c:292-298 | the search finds the first block that passes the test, or there is none |
| SystemHeap.Heap.Take | stm32f103c8_nano/rt-thread/src/mem.c:303-357 | the block is split or handed out whole, and used_mem grows by the extent handed out |
| SystemHeap.Heap.Malloc | stm32f103c8_nano/rt-thread/src/mem.c:259-397 | null exactly for an empty request, one beyond the heap, or when no block from lfree on passes the test; otherwise the first such block, 4-byte aligned; the invariant and lowest lfree are kept; lfree goes on to the next free block just when it pointed at the block taken |
| SystemHeap.Heap.Free | stm32f103c8_nano/rt-thread/src/mem.c:533-596 | the block is free and joined; used_mem is again the sum of used extents; lfree is lowest if it was, and goes down to the freed block just when that lies lower |
| SystemHeap.Heap.Shrink | stm32f103c8_nano/rt-thread/src/mem.c:458-485 | the rest is free and joined; when lfree stays lowest |
| SystemHeap.Heap.Realloc | stm32f103c8_nano/rt-thread/src/mem.c:408-497 | each case of the call; lfree stops being lowest if and only if a rest is cut off that stays alone below lfree; lfree and max_mem as the steps of the call leave them |
| SystemHeap.Heap.UsedInRange | stm32f103c8_nano/rt-thread/src/mem.c:533-596 | used_mem stays between 0 and the heap size |
| SlabPages.Canonical | stm32f103c8_nano/rt-thread/src/slab.c:236-322 | the sorted, disjoint, coalesced list of free runs is determined by the set of free pages, whatever the history |
| SlabPages.FillGap | stm32f103c8_nano/rt-thread/src/slab.c:291-297 | pages that fill a gap make three runs one |
| SlabPages.PageList.constructor | stm32f103c8_nano/rt-thread/src/slab.c:327-334 | all pages are one run |
| SlabPages.PageList.Alloc | stm32f103c8_nano/rt-thread/src/slab.c:236-270 | null exactly when no run is long enough; otherwise the first long one gives exactly these pages, all of them free before; the list stays sorted and coalesced |
| SlabPages.PageList.Release | stm32f103c8_nano/rt-thread/src/slab.c:272-322 | exactly these pages become free, and the list stays sorted, disjoint and coalesced |
| SlabPages.PageList.AllocThenRelease | stm32f103c8_nano/rt-thread/src/slab.c:236-322 | giving back the run just handed out restores the identical list |
| SlabZones.ZoneIndex | stm32f103c8_nano/rt-thread/src/slab.c:401-459 | the index of the smallest chunk size that holds the request, and that size |
| SlabZones.IndexIsUnique | stm32f103c8_nano/rt-thread/src/slab.c:401-459 | a size has one index, and a chunk size has its own |
| SlabZones.RoundingLoss | stm32f103c8_nano/rt-thread/src/slab.c:401-459 | at most seven bytes or less than an eighth of the request are lost |
| SlabZones.ChunkSizesGrow | stm32f103c8_nano/rt-thread/src/slab.c:401-459 | chunk sizes grow strictly with the index |
| SlabZones.ChunksApart | stm32f103c8_nano/rt-thread/src/slab.c:556-560 | chunks of a zone do not overlap |
| SlabZones.TakenFacts | stm32f103c8_nano/rt-thread/src/slab.c:539-568 | a chunk is taken that nobody held, and nothing changes for those held |
| SlabZones.GivenFacts | stm32f103c8_nano/rt-thread/src/slab.c:830-842 | a chunk given back is nobody's, and nothing changes for the others |
| SlabZones.PowerBits | stm32f103c8_nano/rt-thread/src/slab.c:635 | the bit test of the source holds exactly for powers of two |
| SlabZones.ChunkAlignment | stm32f103c8_nano/rt-thread/src/slab.c:628-648 | chunks of a power-of-two size are aligned to it if and only if the zone is, which is certain up to a page only |
| SlabZones.ChunkMisaligned | stm32f103c8_nano/rt-thread/src/slab.c:628-648 | a zone on an odd page has its chunks of two pages on odd pages |
| SlabZones.NewZoneFacts | stm32f103c8_nano/rt-thread/src/slab.c:628-648 | a new zone has room for more than one chunk, all inside the zone, and a further one would not fit |
| SlabZones.ZoneInNumbers | stm32f103c8_nano/rt-thread/src/slab.c:628-645 | a zone of 32 KB has 4091 chunks of 8 bytes from offset 40 on, and 7 of 4096 bytes |
| Slab.Heap.PickZoneSize | stm32f103c8_nano/rt-thread/src/slab.c:374-381 | the zone size is the smallest that is not below a 2048th of the heap, within 32 to 128 KB |
| Slab.Heap.constructor | stm32f103c8_nano/rt-thread/src/slab.c:344-395 | a new heap satisfies the invariant, with the memusage pages taken off the front |
| Slab.Heap.TakeChunk | stm32f103c8_nano/rt-thread/src/slab.c:539-577 | the chunk comes from a listed zone, which leaves its list exactly when it is full |
| Slab.Heap.OpenZone | stm32f103c8_nano/rt-thread/src/slab.c:625-658 | a new zone is listed with all but one chunk free |
| Slab.Heap.FindZone | stm32f103c8_nano/rt-thread/src/slab.c:590-623 | a spare zone or fresh pages, none only when both lack |
| Slab.Heap.Malloc | stm32f103c8_nano/rt-thread/src/slab.c:478-667 | null exactly for a refused request; otherwise the best fitting chunk or covering pages, held by nobody before; z_nfree, zone_array, memusage, used_mem and page ownership stay right; every page of the heap is free or belongs to a zone, a spare zone or a large block held; the chunk is the next one of the first zone listed, or the first of a zone in the first spare zone or in the first long enough run |
| Slab.Heap.GiveChunk | stm32f103c8_nano/rt-thread/src/slab.c:825-846 | the chunk goes on its zone's free list, and the zone back on zone_array if it was full |
| Slab.Heap.Retire | stm32f103c8_nano/rt-thread/src/slab.c:854-874 | a zone none of whose chunks is held goes from its list to the spare zones |
| Slab.Heap.DropSpare | stm32f103c8_nano/rt-thread/src/slab.c:876-900 | exactly the pages of the zone become free |
| Slab.Heap.FreeLarge | stm32f103c8_nano/rt-thread/src/slab.c:795-820 | exactly the pages of the block become free |
| Slab.Heap.Free | stm32f103c8_nano/rt-thread/src/slab.c:771-904 | the block is nobody's any more; a zone left without a chunk in use, when there is another to allocate from, becomes the first spare zone, or its pages become free when there are two already; the invariant accounts for every page |
| Slab.Heap.Realloc | stm32f103c8_nano/rt-thread/src/slab.c:678-735 | a chunk stays exactly when the new size rounds to the same chunk size; otherwise a new block replaces the old one, or nothing changes, exactly when rt_malloc refuses the rounded size |
| Slab.Heap.NoOverlap | stm32f103c8_nano/rt-thread/src/slab.c:478-667 | no two blocks in callers' hands overlap |
| Slab.KindOf | stm32f103c8_nano/rt-thread/src/slab.c:795-828 | memusage leads from a pointer back to its zone or to its page count |
| Slab.GiveFacts | stm32f103c8_nano/rt-thread/src/slab.c:830-846 | counters, lists and ownership after a chunk is given back |
| Slab.RetiredHeld | stm32f103c8_nano/rt-thread/src/slab.c:854-874 | a zone may be taken away when z_nfree equals z_nmax because then nobody holds a chunk of it |
| Bits.TableRight | stm32f103c8_nano/rt-thread/src/kservice.c:1281-1299 | the table holds the lowest set bit of every byte |
| Bits.FfsRight | stm32f103c8_nano/rt-thread/src/kservice.c:1311-1325 | the number of the lowest set bit of any 32-bit word, and 0 exactly for no bit |
| ReadyMap.SetBit | stm32f103c8_nano/rt-thread/src/scheduler.c:316-319 | setting the masks of a priority adds just that priority to the bitmap, on one level and on two |
| ReadyMap.ClearBit | stm32f103c8_nano/rt-thread/src/scheduler.c:357-368 | clearing them takes just that priority off, on one level and on two |
| ReadyMap.HighestIsLowest | stm32f103c8_nano/rt-thread/src/scheduler.c:203-210 | the priority computed from the bitmap is the numerically lowest one with a ready thread |
| Scheduler.Scheduler.constructor | stm32f103c8_nano/rt-thread/src/scheduler.c:118-145 | no thread, no queue, no bit |
| Scheduler.Scheduler.Insert | stm32f103c8_nano/rt-thread/src/scheduler.c:286-323 | the thread is last in the queue of its priority, ready, and the bitmap agrees |
| Scheduler.Scheduler.Remove | stm32f103c8_nano/rt-thread/src/scheduler.c:332-372 | the thread is in no queue, and its bit goes exactly when the queue is empty |
| Scheduler.Scheduler.Schedule | stm32f103c8_nano/rt-thread/src/scheduler.c:189-277 | unlocked, the head of the numerically lowest non-empty queue runs; locked, nothing changes |
| Scheduler.Scheduler.EnterCritical | stm32f103c8_nano/rt-thread/src/scheduler.c:377-392 | the scheduler is locked one level deeper |
| Scheduler.Scheduler.ExitCritical | stm32f103c8_nano/rt-thread/src/scheduler.c:398-423 | leaving the outermost section makes up for the switch held back |
| Scheduler.Scheduler.Suspend | stm32f103c8_nano/rt-thread/src/thread.c:645-678 | a ready thread leaves its queue, another one is refused; ready if and only if queued at the current priority is kept |
| Scheduler.Scheduler.Resume | stm32f103c8_nano/rt-thread/src/thread.c:688-722 | a suspended thread is last in its queue, another one is refused; the invariant is kept |
| Scheduler.Scheduler.Timeout | stm32f103c8_nano/rt-thread/src/thread.c:731-754 | the thread is ready with a timeout error, and an unlocked scheduler runs the right thread; a locked one goes on with the current thread |
| Scheduler.Scheduler.ChangePriority | stm32f103c8_nano/rt-thread/src/thread.c:566-617 | a ready thread moves to the end of the queue of its new priority, with masks to match |
| Scheduler.Scheduler.Startup | stm32f103c8_nano/rt-thread/src/thread.c:265-297 | the thread is known, ready and last in the queue of its initial priority |
| Scheduler.Scheduler.Yield | stm32f103c8_nano/rt-thread/src/thread.c:449-483 | the thread goes behind the others of its priority if there are any, and the head of the lowest queue runs |
| Ipc.FindPlace | stm32f103c8_nano/rt-thread/src/ipc.c:96-108 | the walk stops behind the last thread of at least the same priority |
| Ipc.ListSuspend | stm32f103c8_nano/rt-thread/src/ipc.c:78-121 | the thread is suspended and put at the end or behind its equals; a list in priority order stays so |
| Ipc.ListResume | stm32f103c8_nano/rt-thread/src/ipc.c:132-145 | the first thread is ready and off the list |
| Ipc.ListExpire | stm32f103c8_nano/rt-thread/src/thread.c:731-754 | a thread whose timer fires leaves whatever list it waits on |
| Ipc.Semaphore.constructor | stm32f103c8_nano/rt-thread/src/ipc.c:197-216 | units and history start equal |
| Ipc.Semaphore.Take | stm32f103c8_nano/rt-thread/src/ipc.c:322-407 | granted exactly when the value is positive; initial + releases = value + grants and no thread waits while the value is positive; a thread that does not wait stays ready and no ready queue changes, one that waits leaves its queue |
| Ipc.Semaphore.Release | stm32f103c8_nano/rt-thread/src/ipc.c:431-469 | the first waiting thread gets the unit, or the value grows; same invariant; the thread resumed is last in its ready queue, and no other moves |
| Ipc.Semaphore.Expire | stm32f103c8_nano/rt-thread/src/ipc.c:397-400 | a timed-out thread leaves without a unit; same invariant |
| Ipc.Semaphore.Undisturbed | stm32f103c8_nano/rt-thread/src/ipc.c:322-470 | a step elsewhere that leaves the waiting threads alone keeps the invariant |
| Mutexes.Mutex.constructor | stm32f103c8_nano/rt-thread/src/ipc.c:528-545 | a free mutex |
| Mutexes.Mutex.Take | stm32f103c8_nano/rt-thread/src/ipc.c:652-777 | value is 1 exactly without an owner, hold counts nested takes, and no waiting thread outranks the owner afterwards; the ready queues change only by the inheritance and the wait |
| Mutexes.Mutex.Inherit | stm32f103c8_nano/rt-thread/src/ipc.c:719-726 | the owner gets the higher of the two priorities |
| Mutexes.Mutex.Release | stm32f103c8_nano/rt-thread/src/ipc.c:788-879 | on the last release the owner has the priority it had on taking, and the first waiter owns the mutex; no waiter outranks the new owner if and only if none outranked the first; the ready queues change only by the restored priority and the thread resumed |
| Mutexes.Mutex.HandOver | stm32f103c8_nano/rt-thread/src/ipc.c:839-868 | direct hand-off keeps value, owner and hold consistent |
| Mutexes.Mutex.Expire | stm32f103c8_nano/rt-thread/src/ipc.c:753-760 | a timed-out waiter leaves; the invariant is kept |
| Mutexes.Mutex.Undisturbed | stm32f103c8_nano/rt-thread/src/ipc.c:652-879 | a step elsewhere that leaves the waiting threads and the owner's priority alone keeps the invariant |
| Mutexes.FifoInverts | stm32f103c8_nano/rt-thread/src/ipc.c:87-89 | two threads of priorities 5 and 3 that wait first come first served: the first does not outrank the other |
| Events.OnePass | stm32f103c8_nano/rt-thread/src/ipc.c:1052-1099 | after one pass with AND, OR and CLEAR no request that was passed over is satisfied by what is left of the set |
| Events.SatisfiedMonotonic | stm32f103c8_nano/rt-thread/src/ipc.c:1062-1080 | fewer bits satisfy no more requests |
| Events.OptionsInNumbers | stm32f103c8_nano/rt-thread/src/ipc.c:1052-1085 | what the options 1, 2 and 4 mean for the bits 2 and 4 |
| Events.Event.constructor | stm32f103c8_nano/rt-thread/src/ipc.c:913-931 | an event without bits |
| Events.Event.Recv | stm32f103c8_nano/rt-thread/src/ipc.c:1125-1235 | done exactly when the condition holds, with the bits received and cleared as asked; otherwise the thread waits or fails; a thread that does not wait stays ready and no ready queue changes |
| Events.Event.Send | stm32f103c8_nano/rt-thread/src/ipc.c:1027-1109 | the waiting threads served, the bits each receives and the set left are those of one pass, and no remaining condition holds; the threads served are queued in order, and the other requests stay as they are |
| Events.Event.Expire | stm32f103c8_nano/rt-thread/src/ipc.c:1215-1219 | a timed-out thread leaves; still no waiting condition holds |
| Events.Event.Undisturbed | stm32f103c8_nano/rt-thread/src/ipc.c:1027-1235 | a step elsewhere that leaves the waiting threads and their requests alone keeps the invariant |
| Mailboxes.CellModulo | stm32f103c8_nano/rt-thread/src/ipc.c:1536-1538 | the wrap-around test computes (out_offset + k) mod size |
| Mailboxes.MailsPut | stm32f103c8_nano/rt-thread/src/ipc.c:1533-1540 | filling the cell at in_offset appends to the mails |
| Mailboxes.MailsGot | stm32f103c8_nano/rt-thread/src/ipc.c:1681-1689 | emptying the cell at out_offset takes the oldest mail |
| Mailboxes.Mailbox.constructor | stm32f103c8_nano/rt-thread/src/ipc.c:1292-1320 | an empty mailbox, of the size cut to 16 bits |
| Mailboxes.Mailbox.Deliver | stm32f103c8_nano/rt-thread/src/ipc.c:1533-1558 | the mail is stored and a receiver woken; no wake-up is lost |
| Mailboxes.Mailbox.Collect | stm32f103c8_nano/rt-thread/src/ipc.c:1681-1711 | the oldest mail is taken and a sender woken; no wake-up is lost |
| Mailboxes.Mailbox.Send | stm32f103c8_nano/rt-thread/src/ipc.c:1440-1559 | accepted exactly when there is room at this turn; received is a prefix of accepted; while a receiver waits the mails are at most the receivers woken and not yet run, and dually for senders; a thread that does not wait stays ready, and the ready queues change only by the thread resumed |
| Mailboxes.Mailbox.SendFromInterrupt | stm32f103c8_nano/rt-thread/src/ipc.c:1572-1575 | the same for a send from an interrupt, which says nothing of the thread it interrupts |
| Mailboxes.Mailbox.Recv | stm32f103c8_nano/rt-thread/src/ipc.c:1588-1712 | a mail exactly when there is one at this turn; the same invariant; a thread that does not wait stays ready, and the ready queues change only by the thread resumed |
| Mailboxes.Mailbox.RecvFromInterrupt | stm32f103c8_nano/rt-thread/src/ipc.c:1608-1616 | the same for a call from an interrupt, which cannot wait |
| Mailboxes.Mailbox.ExpireReceiver | stm32f103c8_nano/rt-thread/src/ipc.c:1661-1666 | a timed-out receiver leaves; the same invariant |
| Mailboxes.Mailbox.ExpireSender | stm32f103c8_nano/rt-thread/src/ipc.c:1513-1518 | a timed-out sender leaves; the same invariant |
| Mailboxes.Mailbox.Undisturbed | stm32f103c8_nano/rt-thread/src/ipc.c:1440-1713 | a step elsewhere that leaves the waiting threads alone keeps the invariant |
| Mailboxes.FirstInFirstOut | stm32f103c8_nano/rt-thread/src/ipc.c:1440-1713 | what was received is a prefix of what was accepted, and the rest is in the ring in order |

## Left out

- Disk errors, timeouts of the drive, the locks of the re-entrant configuration, TRIM, time stamps and FSINFO writing: a
  drive operation always succeeds here.
- Directories beyond the long-name entries: `create_name`, `gen_numname`, short-name checksums and name collisions,
  `f_rename`, `f_unlink`, labels, `f_truncate`, `f_forward`, string functions.
- Double-byte code pages; wildcard search is modelled although the configuration shipped with the board has `_USE_FIND` 0.
- Files on a broken FAT (an entry of value 1 inside a chain): a file is opened on a well-formed chain, and the aborts of
  `f_read`, `f_write` and normal seeks that need a broken one are not reached. The FAT functions themselves are modelled
  on every table.
- The boot sector as bytes: `FatFormat` keeps it as a record of its fields, each cut to its width.
- After an aborted fast seek the cursor of a file means nothing; the error it leaves blocks all later transfers, as in the
  code.
- FatFile.File.Read: the link map, when there is one, maps the chain, or is the empty map of a file that was empty when it
  was made; a table the application changes by itself is not modelled.
- MemHeap.Heap.Realloc: the copying of the payload is not modelled, only where the block goes; the same holds for
  SystemHeap.Heap.Realloc and Slab.Heap.Realloc.
- SystemHeap.Heap.Malloc: calls that do not return are excluded, those for which a block would be sought in a heap smaller
  than the smallest block; `SystemHeap.TooSmall` says that these do not return. The same holds for SystemHeap.Heap.Realloc.
- MemHeap.Heap.Overrun: the code is followed up to the write that destroys the header; what it does next depends on the
  bytes it has overwritten.
- FatSeek.MakeLinkmap: when the table is too small the code leaves the file's pointer at the unterminated table, which the
  application must replace before it uses the file again; in the model the file goes on with the map it had before.
- FatSeek.Lseek: a table that is sought through is the one the last successful `CREATE_LINKMAP` made, unchanged since.
- LongName.LoadName: the entries read are long-name, deleted and dot entries, and the end of the table; a volume label in
  between, which breaks a sequence as a deleted entry does, is not among them.
- Timers.TimerList.StartAt: a periodic timer of the greatest length, one tick below half the range, is not started while a
  timer is due.
- SystemHeap.Heap.Free: the magic number of a header is left out, since every header that is written carries it, and a
  pointer inside the heap must be one that was handed out, which the code asserts. The same holds for the other allocators.
- Heap semaphores: each call of an allocator is one step. The slab allocator drops its semaphore between taking pages and
  laying out a zone; what other threads could do there is not modelled.
- Slab: the chunk list of a zone, the lists of zones and the spare zones are sequences; the links they consist of are not.
  The page list below is modelled with its links. Mapping from pointers to zones is modelled through `memusage`.
- Thread lists of the kernel are sequences; that the list primitives implement them is `ListNodes`.
- Soft timers, timer callbacks that change the list or take longer than a tick, and periods of zero ticks.
- Context switch, stacks, start and end of threads other than `rt_thread_startup`, signals, hooks, object names and debug
  output; `rt_schedule` at the end of an IPC call is the next step of the scheduler.
- The timers that IPC calls start: a timeout can come at any moment after a thread has begun to wait, which covers them.
- Mutexes.Mutex.Take: one mutex is held at a time and priorities change through this code only; a waiting list is not
  sorted again when a waiter's priority changes. A mutex keeps the priority inherited from a waiter that gave up.
- Ipc.Semaphore.Release: the 16-bit value stays below its limit; the 8-bit hold count of a mutex likewise.
- Detach, delete and control operations of the IPC objects; `rt_mb_control` and its reset; message queues; memory pools,
  whose count of waiting threads is not corrected on a timeout.

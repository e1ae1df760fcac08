# XT kernel: verified models

XT is a small x86-64 kernel written in C. This project models its self-contained cores in Dafny 4.11 and proves
what they keep, undo and promise. `dafny verify dfyconfig.toml` checks everything.

| module | models | main results |
|---|---|---|
| `PageEntries`, `PageTree`, `PageMapping`, `PageTables` | the four-level page tables of section 4.5 of the Intel SDM, Volume 3A | mapping and unmapping refine a flat map for every mix of page sizes; the tables stay a disjoint, pruned tree; mapping then unmapping restores walks and tables, and costs exactly one page per table built |
| `VfatLayout`, `Vfat`, `FatSize`, `VfatFormat` | the FAT cluster store, and sizing and formatting it | a write followed by a read returns the bytes; all other bytes and files stay; every chain is acyclic, ended and disjoint from the others and grows only as far as needed, both FAT copies agree; exactly which entries have data behind them |
| `Heap` | the kernel heap | the blocks tile the region, live blocks are apart, the block list is the canonical form of the live blocks, freeing in any order restores the one free block |
| `PageRanges` | the list of free physical ranges | the list is the canonical form of the free set, and free plus handed-out bytes are conserved over every run; exact conditions for the cases in which the code loses this |
| `RwLock` | the reader/writer lock, all interleavings | exclusion; no stranded sleeper; first refused writer, first woken |
| `Scheduler` | sleeping and round-robin scheduling | sleepers wake on exactly their tick; a waiting thread runs within a numeric bound, and a running one for exactly its slice |
| `Handles` | the four-level handle table | it is a map on the low 36 bits; a handle that is offered is unbound, accepted and the lowest; exactly when none is offered |
| `Relocations`, `Arguments` | base relocation (Microsoft PE Format, .reloc section) and the argument block of a process | order of entries is immaterial, moves compose and can be undone; the process reads back its arguments |
| `Crc32` | the table-driven CRC-32 of GPT (section 5.3.2 of the UEFI Specification 2.10) | it is the bit-serial register; every error burst of up to 32 bits is detected |
| `Paths` | path normalization | it is a stack fold; results are normal and fixed points; no write leaves the buffer |
| `Calendar` | Unix time, calendar dates, DOS time stamps | round trips both ways, order, exact ranges |
| `Encodings` | UTF-8 (RFC 3629) and UTF-16 (RFC 2781) | both round trips on well-formed strings |
| `Pipe` | the pipe's ring buffer | it is a queue exactly as long as no chunk fills it |
| `Bits`, `Bytes`, `Results` | bitwise operators on naturals, byte strings, result codes | |

Objects the C code updates in place are classes with the same fields, and their methods follow the code branch by
branch; each is proved against a specification function or relation, about which the theorems are then proved.
C integers are unbounded naturals with every wrap-around, mask and truncation that matters written out; `&`, `|`,
`^` and `>>` are recursive functions in `Bits` (bit vectors in `Crc32`). Memory is a map from addresses to tables or
headers, or an array of bytes. Ghost fields (the directory of tables, the files of a volume, the block list) say
what the concrete fields stand for. A section under a spinlock is one atomic step.

Where the code does not do what its name or layout suggests, the model keeps the code as it is:

* A request for pages is rounded by clearing bit 12 of size + 4096, so one page costs two (`RoundSizeIs`), freeing it
  gives back one (`AllocateThenFree`), and every table built and pruned costs a page (`SetThenUnset`).
* Unmapping never gets past 512 GiB in which nothing is mapped (`RemovePage`), and a hole can make it skip a mapped page
  (`SkippedPage`).
* The list setter refuses NULL, so an emptied or absorbed last range stays linked (`TakenCanonical`, `GivenCanonical`).
* A heap request of almost 2^64 bytes wraps and is answered with a small block (`LargeEnough`).
* The handle test looks at bit 34 only, and bits from 36 up are never looked at (`AcceptedIs`, `AliasedHandle`).
* The search for a free handle gives up on a full first leaf, or second leaf if handle 0 is free (`FindFreeHandle`).
* Waking a thread that waits leaves it unable to run (`WakeUpThread`).
* A table entry made over a large leaf still reads as a leaf (`DemotionIsUnseen`).
* The VFAT read path adds in 32 bits (`ReadsWhereWritten`); creating a file on a full volume writes into the
  data of other files (`ReserveCluster`, `FullVolumeHarmed`); a freshly sized FAT may lack the entries of the last two
  clusters (`CalcFatSize`), or have entries without data behind them (`FormattedBacked`), which are handed out once no
  others are free (`HandedOut`, `HandedOutWithoutData`).
* A pipe whose ring is filled exactly counts as empty (`FifoUnlessFilled`).
* Calendar years wrap at 2^32 (`GetTimeFromUnix`), DOS years at 128 (`DosRoundTrip`).


## Model

| member | source | states |
|---|---|---|
| PageTables.AddressSpace.constructor | xtkernel/arch/x86_64/memory.c:118-204 | A zeroed root page is a valid, pruned tree in which every address walks to a hole. |
| PageTables.AddressSpace.GetPhysicalAddress | xtkernel/arch/x86_64/memory.c:70-105 | Succeeds exactly on mapped addresses and returns frame plus offset within the 4 KiB, 2 MiB or 1 GiB page; otherwise XT_NOT_FOUND. |
| PageTables.AddressSpace.GetOrMakePageTable | xtkernel/arch/x86_64/memory.c:51-68 | Leaves every walk as it was, keeps the tables a disjoint tree, and puts a table at the asked place, a new one for two free pages; fails only when no two neighbouring pages are free, changing nothing. |
| PageTables.AddressSpace.MapPage | xtkernel/arch/x86_64/memory.c:137-192 | One page of the chosen size: exactly the addresses of its block get the new leaf, all others walk as before, and no table below the root is left empty. |
| PageTables.AddressSpace.TakeFrame | xtkernel/memory.c:258-309 | A request for one page takes two neighbouring pages of the pool and returns the first; it fails exactly when no two neighbours are free. |
| PageTables.AddressSpace.SetPages | xtkernel/arch/x86_64/memory.c:118-204 | Every address of the range gets the leaf of the flat map, every other address keeps its walk; each leaf is the largest page that fits, is writable, user accessible and not executable exactly as bits 11, 9 and 12 of the attributes say; if pages run out, exactly a prefix of the range has been mapped. Over an unmapped range each new table costs two free pages. |
| PageTables.AddressSpace.SetThenWalk | xtkernel/arch/x86_64/memory.c:70-204 | After a successful mapping the walk of the i-th address of the range gives the i-th physical address. |
| PageTables.AddressSpace.IsTableEmpty | xtkernel/arch/x86_64/memory.c:207-215 | True exactly when no entry of the table is present. |
| PageTables.AddressSpace.RemovePage | xtkernel/arch/x86_64/memory.c:224-291 | One turn of unmapping: exactly the page the address lies in becomes a hole, the stride is that page's size, and emptied tables are freed, each for one page. Over a hole no walk changes and the stride is the span of the absent entry, except 0 over an absent root entry, where the loop stays for ever. In pruned tables what is mapped around decides: 0 exactly when the 512 GiB around are bare, else the largest bare region. |
| PageTables.AbsentBare | xtkernel/arch/x86_64/memory.c:231-253 | In pruned tables the first absent entry on the way to a hole lies at or above a level exactly when nothing is mapped in the region of that level. |
| PageTables.AddressSpace.PruneTable | xtkernel/arch/x86_64/memory.c:266-283 | A table that became empty is freed and unlinked without changing any walk, and only its parent can be the next empty one. |
| PageTables.AddressSpace.UnsetPages | xtkernel/arch/x86_64/memory.c:217-295 | On a range of whole pages and of holes in whose 2 MiB a small page outside the range is mapped, exactly the range becomes a hole, and no reachable table below the root is empty afterwards. |
| PageTables.AddressSpace.SkippedPage | xtkernel/arch/x86_64/memory.c:217-295 | The two turns of a call on a range with an unguarded hole: the stride is counted from an address inside the hole and a mapped page of the range survives. |
| PageTables.AddressSpace.SetThenUnset | xtkernel/arch/x86_64/memory.c:118-295 | Mapping an unmapped range and unmapping it restores every walk and the places of all tables; the free pages fall by one for each table the mapping had to build, so they are restored exactly if every table it needs was there. |
| PageTables.TablesBuilt | xtkernel/arch/x86_64/memory.c:118-204 | Mapping an unmapped range builds exactly the tables above the pages it uses that were not there. |
| PageTables.OnePageNeedsThree | xtkernel/arch/x86_64/memory.c:118-204 | A single 4 KiB page needs three tables below the root. |
| PageMapping.MappedTranslates | xtkernel/arch/x86_64/memory.c:137-192 | Whatever mix of page sizes the flat map uses, each byte of the range is translated to its own physical byte, with exactly the requested flags. |
| PageMapping.MappedGrants | xtkernel/arch/x86_64/memory.c:107-204 | The leaf of the flat map is the largest page that fits, and its entry carries the attributes in bits 1, 2 and 63. |
| PageMapping.TestIsPageLevel | xtkernel/arch/x86_64/memory.c:145-151 | The alignment and size tests on the running addresses choose the largest page that lies in the range and is aligned in both spaces. |
| PageMapping.NextBoundary | xtkernel/arch/x86_64/memory.c:195-197 | The loop never stops strictly inside a block for which a larger page fits. |
| PageMapping.StepMapped | xtkernel/arch/x86_64/memory.c:137-192 | The leaf stored at a loop position is what the flat map prescribes for every address of that block, and for no other. |
| PageTree.Reach | xtkernel/arch/x86_64/memory.c:70-105 | The walk from the root arrives at each table of the tree for the addresses it stands for. |
| PageTree.TablesAllowAll | xtkernel/arch/x86_64/memory.c:51-68 | Every entry for a table has present, writable and user set and no-execute clear, so the leaf alone decides what is allowed. |
| PageTree.Canonical | xtkernel/arch/x86_64/memory.c:118-295 | Two pruned trees with the same walks have tables at the same places: the tree is a canonical form of the map. |
| PageTree.PutLeaf | xtkernel/arch/x86_64/memory.c:162-187 | Storing a leaf changes exactly the walks through that entry and keeps the tables a disjoint tree. |
| PageTree.LinkTable | xtkernel/arch/x86_64/memory.c:57-63 | Linking a zeroed table into an empty slot changes no walk and keeps the tables disjoint. |
| PageTree.UnlinkTable | xtkernel/arch/x86_64/memory.c:266-283 | Unlinking an empty table changes no walk and keeps the tables disjoint. |
| PageTree.ClearEntry | xtkernel/arch/x86_64/memory.c:242-262 | Clearing a leaf entry makes exactly its addresses holes. |
| PageTree.NextPageStart | xtkernel/arch/x86_64/memory.c:287-291 | The address one page further on is the first of its page, so an unmapping loop stays on page boundaries. |
| PageTree.IndexFields | xtkernel/arch/x86_64/memory.c:78-81 | The four shifted and masked index fields are the mixed-radix digits of the address. |
| PageEntries.BuildFlagsBits | xtkernel/arch/x86_64/memory.c:107-113 | Bit 1 of the flags is bit 11 of the attributes, bit 2 their bit 9, bit 63 the inverse of their bit 12; bit 0 is set and nothing else. |
| PageEntries.LeafWordFields | xtkernel/arch/x86_64/memory.c:153-187 | A leaf word reads back as present, with the frame, size bit and flags it was built from. |
| PageEntries.DirWordFields | xtkernel/arch/x86_64/memory.c:57-63 | A table entry made from an empty slot reads back as a present table entry with the address of the new table. |
| PageEntries.DemotionIsUnseen | xtkernel/arch/x86_64/memory.c:57-63 | The mask keeps the size bit of the old entry and drops its no-execute bit: the new entry reads as a table exactly when the old one was no large leaf. |
| Vfat.Volume.GetNextCluster | drivers/vfat/main.c:139-148 | The entry of the first FAT copy, or EOC below cluster 2. |
| Vfat.Volume.SetNextCluster | drivers/vfat/main.c:149-157 | Both FAT copies get the entry and no data byte changes; refused exactly for sources below 2 and targets 0 and 1. |
| Vfat.WithNextEffect | drivers/vfat/main.c:149-157 | The two device writes update one entry in both FAT copies and keep all file data. |
| Vfat.Volume.FindFreeCluster | drivers/vfat/main.c:159-172 | The lowest free entry, or EOC exactly when there is none. |
| Vfat.Volume.NextCluster | drivers/vfat/main.c:184-192 | The next cluster of the file, grown at its end by one cluster, the lowest free one; no data byte, no other FAT entry and no other file changes, and the volume stays sound. |
| Vfat.Volume.WriteFile | drivers/vfat/main.c:174-243 | On success the data is in place, and the chain is as long as it was or just long enough for the byte after the data; on failure all bytes up to the end of the last available cluster are stored, and the chain has them all. Appended clusters were each the lowest free one; every other FAT entry, every other byte of these clusters and of all others, and every other file is unchanged. It succeeds exactly if the clusters of the file and the free ones with data suffice. |
| Vfat.Volume.SeekForWrite | drivers/vfat/main.c:182-193 | The walk grows the file just to the wanted cluster, or until no cluster is free, and changes no data byte. |
| Vfat.Volume.WriteChunk | drivers/vfat/main.c:194-217 | One turn of the transfer loop: one more block is in place, nothing else in the data area has changed, and the chain has grown only if the block filled its cluster. |
| Vfat.Volume.ReadFile | drivers/vfat/main.c:246-285 | Delivers the bytes from the offset on as far as there are any, each from where the 32-bit sum looks for it, and these are the bytes of the file if its data starts below 4 GiB; succeeds exactly when all were there. |
| Vfat.Volume.SeenIsContent | drivers/vfat/main.c:263-271 | Of a file below 4 GiB the read path sees exactly its bytes. |
| Vfat.Volume.WriteThenRead | drivers/vfat/main.c:174-285 | Reading the range just written returns the written bytes if the file lies below 4 GiB then, and the bytes at the wrapped positions in any case; the write succeeds exactly if the clusters with data suffice. |
| Vfat.Volume.ReserveCluster | drivers/vfat/main.c:766-768 | A new file gets the lowest free entry, the FAT stays sound and no other file changes; the volume stays sound exactly if some free entry has data. On a full volume, which is not tested for, two end marks are written at 32-bit offsets about 1 GiB on: past the device they change nothing, in the data of files they leave the volume sound. |
| Vfat.StrayInFile | drivers/vfat/main.c:766-768 | A stray end mark in a cluster of a file overwrites four bytes of that file with FF FF FF 0F and changes no other file. |
| Vfat.FullVolumeHarmed | drivers/vfat/main.c:766-768 | A concrete full volume of 1.06 GiB on which creating a file overwrites four bytes of an existing one. |
| Vfat.ReadsWhereWritten | drivers/vfat/main.c:202-268 | The 32-bit sum of the read path addresses the block that the 64-bit sum of the write path wrote exactly for data below 4 GiB. |
| Vfat.ReadsElsewhere | drivers/vfat/main.c:268 | A concrete cluster that is read from the place of another one. |
| Vfat.BlockKeepsVolume | drivers/vfat/main.c:194-206 | A block written inside one cluster of one file changes this file like a byte string and nothing else. |
| Vfat.LinkKeepsVolume | drivers/vfat/main.c:187-191 | Linking a free cluster behind a file keeps the FAT and the contents of all files; the volume stays sound exactly if the cluster has data, and then its bytes are appended to the file. |
| Vfat.BeginKeepsVolume | drivers/vfat/main.c:766-768 | A file begun with the lowest free entry keeps the FAT and the contents of all files; the volume stays sound exactly if some free entry has data. |
| Vfat.WroteMore | drivers/vfat/main.c:194-206 | Blocks written one after the other into the clusters of a file come to one byte string written into what the clusters held before. |
| Vfat.WroteLonger | drivers/vfat/main.c:209-216 | A cluster that is linked brings the bytes it had on the device. |
| VfatLayout.WriteInChain | drivers/vfat/main.c:194-206 | Bytes written into the q-th cluster of a chain are the bytes of the file from q times the cluster size on. |
| VfatLayout.ReadInChain | drivers/vfat/main.c:263-271 | A slice of one cluster is the matching slice of the file. |
| VfatLayout.Extend | drivers/vfat/main.c:187-191 | Linking a free cluster behind the last one of a file keeps all chains acyclic, ended and disjoint. |
| VfatLayout.Begin | drivers/vfat/main.c:766-768 | Starting a file with a free cluster keeps all chains acyclic, ended and disjoint. |
| VfatLayout.ChainUnique | drivers/vfat/main.c:184-192 | The FAT alone decides the chain of a first cluster, so walking it ends. |
| VfatLayout.NoSharedSuccessor | drivers/vfat/main.c:184-217 | No two clusters of any files share a successor. |
| VfatLayout.FreeIsUnused | drivers/vfat/main.c:159-172 | A free cluster is on no chain. |
| VfatLayout.HandedOut | drivers/vfat/main.c:159-172 | The entry that is handed out has data behind it exactly if some free entry has. |
| FatSize.CalcFatSize | drivers/vfat/main.c:127-137 | Finds the smallest FAT size with as many entries as there are data clusters left, in closed form. Every data cluster has its entry exactly if no sectors are left for one, or the remainder of the sectors past one cluster by one step of the FAT size, and two clusters, stay below that step: a test of the parameters. |
| FatSize.CoversAllIs | drivers/vfat/main.c:127-137 | For any FAT size, every data cluster has an entry exactly when there is none or two entries are to spare, because entries 0 and 1 are not counted. |
| FatSize.LeastSpare | drivers/vfat/main.c:127-137 | The smallest enough size has k entries more than clusters exactly if the remainder and k clusters stay below one step. |
| FatSize.SomeEnough | drivers/vfat/main.c:127-137 | Some size is enough exactly if the FAT copies of the closed-form size fit the volume. |
| FatSize.LastClustersUncovered | drivers/vfat/main.c:127-137 | A concrete volume whose last two clusters have no entry. |
| VfatFormat.FormattedOk | drivers/vfat/main.c:579-595 | Formatting a device with blank FATs makes a sound volume with the root directory as its only file, and entry 3 is handed out next. |
| VfatFormat.DataOfCounted | drivers/vfat/main.c:952-963 | Of a mounted volume exactly the clusters that the sizing counted have data. |
| VfatFormat.FormattedBacked | drivers/vfat/main.c:530-601 | On a freshly formatted volume every free entry has data exactly if the remainder of the sectors past one cluster by one step, and three clusters, reach a step. |
| VfatFormat.SixtyFourMiB | drivers/vfat/main.c:111-114 | For 64 MiB and the parameters of vfatMakeFS they do not: 255 sectors of FAT have 32640 entries for 32632 clusters. |
| VfatFormat.HandedOutWithoutData | drivers/vfat/main.c:159-172 | On a freshly formatted device of 40 sectors the entry handed out has no data. |
| Heap.HeapRegion.constructor | xtkernel/memory.c:63-69 | The region becomes one free block of its size. |
| Heap.HeapRegion.Alloc | xtkernel/memory.c:72-128 | Takes the first free block that fits: exactly the bytes needed if 48 or more are left, which become a free block behind it, else the whole block; all other blocks stay. The payload is 16-aligned, large enough and was not live. Fails only when no free block fits, changing nothing. |
| Heap.NeededSizeIs | xtkernel/memory.c:80-87 | A block for up to 2^64 - 48 bytes has the size rounded up to a multiple of 16 and 32 more, at least 48; for any larger request the additions wrap and it has 48. |
| Heap.HeapRegion.Free | xtkernel/memory.c:159-196 | Frees exactly the block of the pointer and joins free neighbours; a free block or NULL is refused without a change. |
| Heap.LiveApart | xtkernel/memory.c:72-128 | Live blocks lie in the region, are 16-aligned and never overlap. |
| Heap.EmptyHeapIsWhole | xtkernel/memory.c:159-196 | When nothing is live the heap is one free block of the original size. |
| Heap.BlocksUnique | xtkernel/memory.c:72-196 | The live blocks decide the block list: a coalesced tiling is their canonical form. |
| Heap.FreeAllInAnyOrder | xtkernel/memory.c:159-196 | Freeing all live blocks in any order whatever restores the one free block. |
| Heap.SizesConserved | xtkernel/memory.c:72-196 | The sizes of all blocks always add up to the region. |
| Heap.ReleasedOk | xtkernel/memory.c:159-196 | Freeing keeps the tiling, leaves no two free neighbours and takes exactly one block from the live ones. |
| Heap.SplitMirrors | xtkernel/memory.c:97-113 | The pointer stores of a split leave headers whose sizes, flags and next and prev links say what the block list says. |
| Heap.MergeMirrors | xtkernel/memory.c:176-193 | So do the pointer stores of a merge. |
| Heap.NeededSizeOk | xtkernel/memory.c:80-87 | The size asked of a block is a multiple of 16 and at least the minimum. |
| Heap.LargeEnough | xtkernel/memory.c:80-87 | The block is large enough for the request exactly when the 64-bit additions do not wrap. |
| Heap.WrappedRequest | xtkernel/memory.c:80-87 | A concrete request that is answered with a smallest block. |
| PageRanges.FreeList.AllocatePages | xtkernel/memory.c:258-309 | The entry at the wanted address if it is long enough, else the first long enough one, gives up exactly the range handed out, on every list in which no byte is listed twice, and none comes to be; fails only when no entry is long enough. |
| PageRanges.FreeList.FreePages | xtkernel/memory.c:311-377 | The list becomes the one with the range given back at its place, and the free set grows by exactly that range, on every list. |
| PageRanges.FreeList.AllocateThenFree | xtkernel/memory.c:258-377 | Allocating and freeing restores the identical list exactly if the size is positive and was not rounded up; if it was, exactly one page is missing from the free set. |
| PageRanges.TakeMoreThanGive | xtkernel/memory.c:258-377 | Giving back less than was taken leaves exactly the rest missing. |
| PageRanges.TakenFree | xtkernel/memory.c:267-304 | Taking removes exactly the range from the free set of a list in which no byte is listed twice. |
| PageRanges.TakenListedOnce | xtkernel/memory.c:267-304 | Taking lists no byte twice, also when an emptied entry stays. |
| PageRanges.TakenCanonical | xtkernel/memory.c:272-282 | The list stays canonical exactly unless the last of several entries is emptied, which the list setter does not unlink. |
| PageRanges.EmptiedTailStays | xtkernel/memory.c:295-304 | A concrete list in which the emptied last entry stays. |
| PageRanges.GivenFree | xtkernel/memory.c:311-377 | Giving back adds exactly the range to the free set, whatever the list. |
| PageRanges.GivenListedOnce | xtkernel/memory.c:311-377 | Giving back a range in use lists no byte twice exactly unless a last entry with bytes is absorbed. |
| PageRanges.GivenCanonical | xtkernel/memory.c:336-351 | The list stays canonical exactly unless the last entry is absorbed from both sides, which the list setter does not unlink. |
| PageRanges.AbsorbedTailStays | xtkernel/memory.c:341-350 | A concrete list in which the absorbed last entry stays and its page is listed twice. |
| PageRanges.TakeThenGive | xtkernel/memory.c:258-377 | Giving back what was just taken restores the identical list, whichever entry served. |
| PageRanges.CanonicalUnique | xtkernel/memory.c:258-377 | A set of free bytes has only one canonical list. |
| PageRanges.TakenTotal | xtkernel/memory.c:267-304 | Free bytes plus bytes taken stay the same. |
| PageRanges.GivenTotal | xtkernel/memory.c:311-377 | Listed bytes grow by the size given back; those of an absorbed tail that stays are counted twice. |
| PageRanges.RunConserves | xtkernel/memory.c:258-377 | Over every run of both operations, listed plus handed-out bytes grow exactly by the absorbed tails, so they are conserved exactly if no tail with bytes is absorbed, and then no byte comes to be listed twice. |
| PageRanges.TotalCounts | xtkernel/memory.c:249-256 | Where no byte is listed twice, the lengths add up to the number of free bytes. |
| PageRanges.FreeBytesConserved | xtkernel/memory.c:258-377 | The number of free bytes plus the bytes handed out is the same before and after every run that absorbs no tail with bytes. |
| PageRanges.RunCanonical | xtkernel/memory.c:258-377 | Over every run that neither empties nor absorbs a tail that stays linked, the list stays canonical. |
| PageRanges.RoundSizeIs | xtkernel/memory.c:260 | The rounded size is the size itself exactly when bit 12 is clear, else a page more. |
| PageRanges.RoundSizeWraps | xtkernel/memory.c:260 | For every size: a page is added in 64 bits and bit 12 is cleared. |
| PageRanges.OnePageBecomesTwo | xtkernel/memory.c:260 | A request for one page is served with two. |
| RwLock.StepKeeps | xtkernel/rwlock.c:49-100 | Every atomic step of every thread keeps the counter, the queues and the promise that each sleeper will be woken. |
| RwLock.SafeAlways | xtkernel/rwlock.c:5-100 | In every interleaving of any threads the counter is -1 exactly for one writer alone and else counts the readers, and while anyone sleeps some other thread has a step to take. |
| RwLock.NoStrandedSleeper | xtkernel/rwlock.c:14-100 | In every reachable state each sleeping thread still has a continuation in which it holds the lock. |
| RwLock.ServeWriter | xtkernel/rwlock.c:75-100 | A writer that waits or was woken can come to hold the lock. |
| RwLock.ServeReader | xtkernel/rwlock.c:49-100 | A reader that waits or was woken can come to hold the lock. |
| RwLock.FirstRefusedFirstWoken | xtkernel/rwlock.c:14-100 | Over every run, writers are woken in the order in which they were refused. |
| RwLock.WithStateIs | xtkernel/rwlock.c:24 | The user bit of a state byte survives every state change. |
| RwLock.XTRWLock.constructor | xtkernel/rwlock.c:5-11 | The initialized lock is free with empty queues. |
| RwLock.XTRWLock.AcquireRead | xtkernel/rwlock.c:49-62 | Takes the lock for reading exactly when no writer holds or waits; else the thread goes to the end of the readers' queue and its state becomes 4, and nothing else changes. |
| RwLock.XTRWLock.ReleaseRead | xtkernel/rwlock.c:64-73 | One reader less; the last one wakes the first waiting writer, which leaves the queue with state 1, and no other state changes. |
| RwLock.XTRWLock.AcquireWrite | xtkernel/rwlock.c:75-87 | Takes the lock for writing exactly when nobody holds it; else the thread goes to the end of the writers' queue and its state becomes 4, and nothing else changes. |
| RwLock.XTRWLock.ReleaseWrite | xtkernel/rwlock.c:89-100 | Frees the lock and wakes the first waiting writer, or all waiting readers when no writer waits; exactly these get state 1. |
| Scheduler.Processor.SleepThread | xtkernel/scheduler.c:18-33 | The thread sleeps with the given number of ticks; its slice length and all other threads stay. |
| Scheduler.Processor.WakeUpThread | xtkernel/scheduler.c:35-42 | The thread gets a fresh slice, loses its user bit, and can run afterwards exactly if its state was sleeping or running; all other threads stay. |
| Scheduler.WokenStateIs | xtkernel/scheduler.c:38 | The new state is the old one without the user bit and with the lowest bit set. |
| Scheduler.WaitingIsNotWoken | xtkernel/scheduler.c:38 | A waiting thread gets another state in which it cannot run. |
| Scheduler.Processor.WakeUpThreads | xtkernel/scheduler.c:44-56 | Every sleeper loses a tick, from 0 to 2^64 - 1, and those that reach zero wake with a fresh slice; all others stay. |
| Scheduler.Processor.FindNext | xtkernel/scheduler.c:72-98 | The search ends within one lap at the first runnable successor, and never needs the fallback. |
| Scheduler.Processor.Schedule | xtkernel/scheduler.c:62-103 | A running thread with more than its last tick left loses one and goes on; else the first runnable thread after it, going round, gets as many ticks as its privilege says. No privilege changes, and all other threads only sleep or wake. |
| Scheduler.SleepsUntilDue | xtkernel/scheduler.c:44-56 | A thread put to sleep for k ticks is still asleep after every call before the k-th (2^64-th for k = 0), whatever the other threads do. |
| Scheduler.WakesWhenDue | xtkernel/scheduler.c:44-56 | It is runnable after exactly that call. |
| Scheduler.CallBringsNearer | xtkernel/scheduler.c:62-103 | Every call lowers the bound on the calls a waiting thread has still to wait. |
| Scheduler.BoundedWaiting | xtkernel/scheduler.c:62-103 | A thread that stays runnable at circular distance d runs within ticks + (d - 1) * Q calls while no running thread puts itself to sleep. |
| Scheduler.RunsItsSlice | xtkernel/scheduler.c:62-103 | A thread that was just chosen and stays runnable is current for as many calls as its privilege says, 2^64 for 0 ... |
| Scheduler.EndsItsSlice | xtkernel/scheduler.c:62-103 | ... and no longer: the next call chooses the first runnable thread after it and gives out a fresh slice. |
| Handles.AcceptedIs | xtkernel/process.c:30-36 | The sign-extension test accepts exactly the handles whose bit 34 is clear. |
| Handles.AliasedHandle | xtkernel/process.c:118-122 | So handle 2^36 is accepted and names the same entry as handle 0. |
| Handles.IndexIs | xtkernel/process.c:40-44 | The shifted and masked index fields are the mixed-radix digits of the handle modulo 2^36. |
| Handles.StoreLeaf | xtkernel/process.c:137-145 | Storing a descriptor binds exactly the handles with these 36 low bits and keeps the tables a disjoint tree. |
| Handles.LinkTable | xtkernel/process.c:48-56 | Linking an empty table binds nothing and keeps the tables disjoint. |
| Handles.HandleTable.constructor | xtkernel/process.c:37-70 | An empty table binds no handle. |
| Handles.HandleTable.ResolveHandle | xtkernel/process.c:37-70 | Finds or builds the leaf on the path of a handle without changing any lookup; it builds tables on this path only, each for one block of the heap; without create it builds nothing, and with it fails only when the heap is empty. |
| Handles.HandleTable.GetHandle | xtkernel/process.c:118-128 | Returns the stored descriptor exactly for accepted, bound handles, creates no table and changes no lookup. |
| Handles.HandleTable.DuplicateHandle | xtkernel/process.c:130-147 | A map update: the handle and its aliases modulo 2^36 lead to the new descriptor, every other handle to what it led to; it costs one block for the descriptor and one for each table built on the path; failures change no lookup. |
| Handles.HandleTable.FindFreeRecursive | xtkernel/process.c:72-108 | The loops compute the recursive search. |
| Handles.FreeIsUnbound | xtkernel/process.c:72-108 | Whatever handle the search returns lies under its prefix and is unbound. |
| Handles.HandleTable.FindFreeHandle | xtkernel/process.c:110-116 | A handle that is offered is unbound, below 2^28 and accepted by the handle test; with handle 0 bound it is the lowest unbound handle, and in general the lowest from where the search starts. None is offered exactly when entry 0 leads down to a full leaf or, where handle 0 itself is free, entry 1 does; with handle 0 bound, exactly when the first 512 handles are bound. |
| Handles.FailsIff | xtkernel/process.c:72-108 | The recursive search fails exactly in these two cases, and answers 0 exactly where the first entry is empty. |
| Handles.LowestOffered | xtkernel/process.c:72-108 | From where the search starts, 0 or behind the range of the entry that leads to a free handle 0, every handle below the one offered is bound. |
| Handles.FailsWhenFirstLeafFull | xtkernel/process.c:72-108 | With handle 0 bound, the search fails exactly when handles 0 to 511 are all bound. |
| Handles.OfferedIsAccepted | xtkernel/process.c:72-116 | An offered handle lies below 2^28 and passes the handle test. |
| Handles.FreeBehindFullLeaf | xtkernel/process.c:99-106 | Handle tables with a full first leaf: the search fails although a handle of the second leaf is free and accepted. |
| Handles.ZeroNotOffered | xtkernel/process.c:99-106 | Handle tables with a full second leaf: the search fails although handle 0 is free and accepted. |
| Relocations.ApplyRelocations | xtkernel/linker.c:11-36 | The image becomes the relocated image; where slots do not overlap, every listed slot holds its old word plus virtual base minus preferred base, modulo 2^64, and every other byte is the same. |
| Relocations.ApplyBlock | xtkernel/linker.c:22-32 | The entries of one block patch exactly its slots of type 10, in order, and leave the table alone. |
| Relocations.ApplyShifts | xtkernel/linker.c:22-32 | Patching disjoint slots one after the other adds the distance modulo 2^64 to each of them and changes no other byte. |
| Relocations.RelocatedImage | xtkernel/linker.c:11-36 | A relocated well-formed image is shifted at exactly the listed slots, stays well formed and lists the same slots. |
| Relocations.ShiftedUnique | xtkernel/linker.c:22-32 | There is only one image shifted at a given set of slots. |
| Relocations.OrderIsImmaterial | xtkernel/linker.c:22-32 | Lists with the same disjoint slots in any order give the same image. |
| Relocations.MoveComposes | xtkernel/linker.c:19-31 | Moving from base P to A and then from A to B is moving from P to B. |
| Relocations.MoveBack | xtkernel/linker.c:19-31 | Moving back restores the image byte for byte. |
| Relocations.ListedTwice | xtkernel/linker.c:25-31 | A slot listed twice is shifted twice, so disjointness is needed. |
| Relocations.SampleMoved | xtkernel/linker.c:11-36 | A concrete image with two blocks, made for 0x140000000: loaded at 0x7ff000000000 its address 0x140001000 becomes 0x7ff000001000. |
| Relocations.DirectoryOffset | include/xt/pe.h:87-222 | The header offsets are the sums of the field widths. |
| Arguments.PassArgs | xtkernel/linker.c:448-541 | The block holds header, pointer arrays and strings as laid out, in just enough whole pages, at a page of the lower half other than page zero. |
| Arguments.Fill | xtkernel/linker.c:498-536 | Fills the block as laid out and writes nothing past the last string. |
| Arguments.StoreVector | xtkernel/linker.c:510-536 | Copies the strings end to end and stores a pointer to each, touching nothing else. |
| Arguments.RoundTrip | xtkernel/linker.c:498-536 | Following the stored pointers reads back exactly the arguments and the environment; the environment pointer is NULL exactly when there are no strings. |
| Arguments.Apart | xtkernel/linker.c:474-483 | Header, arrays and strings follow each other and no two strings overlap. |
| Arguments.RoundUpIs | xtkernel/linker.c:481 | The total is rounded up to the next whole page. |
| Arguments.VaBaseIs | xtkernel/linker.c:484-489 | The random base is page aligned, in the lower half and not page zero. |
| Crc32.Calculator.CreateTable | xtkernel/gpt.c:162-175 | Entry n is n put through eight steps of the shift register. |
| Crc32.Calculator.Calculate | xtkernel/gpt.c:180-196 | For every buffer the table-driven loop computes the CRC of the bit-serial register; a negative length counts as an empty buffer. |
| Crc32.NextIsSerial | xtkernel/gpt.c:191-192 | One table-driven turn is the bit-serial register fed with the eight bits of the byte, lowest first. |
| Crc32.TableStep | xtkernel/gpt.c:191-192 | Looking up the low byte and shifting the rest is eight steps at once. |
| Crc32.SerialInjective | xtkernel/gpt.c:191-192 | The same bits lead different registers to different registers. |
| Crc32.BitsMatch | xtkernel/gpt.c:191-192 | From one register, different streams of up to 32 bits lead to different registers. |
| Crc32.BurstsAreDetected | xtkernel/gpt.c:180-196 | Messages of one length that differ only within 32 consecutive bits never share a CRC. |
| Crc32.OneByteIsDetected | xtkernel/gpt.c:180-196 | Messages that differ in exactly one byte never share a CRC. |
| Crc32.CheckValue | xtkernel/gpt.c:162-196 | The CRC of the digits 1 to 9 is the published check value 0xcbf43926. |
| Paths.NormalizePath | xtkernel/fs.c:121-201 | The buffer receives the path of the component stack or the documented error, and no write falls past the buffer size, except that size 1 has its NUL written at index 1. |
| Paths.ResultIsNormal | xtkernel/fs.c:121-201 | A result starts at the root and has no backslash, no empty, "." or ".." component and no slash at its end. |
| Paths.FixedPoint | xtkernel/fs.c:121-201 | Normalizing a result again with the same buffer size changes nothing. |
| Paths.NormalizeAppend | xtkernel/fs.c:137-190 | One more component: "." changes nothing, ".." takes the last name away, or nothing at the root, and any other name is added, if it fits. |
| Paths.DownAndUp | xtkernel/fs.c:137-190 | A name followed by ".." leads back to where the path was, if there was room for the name. |
| Paths.PartsOfRender | xtkernel/fs.c:137-148 | The components of a rendered stack are the stack. |
| Paths.WalkFits | xtkernel/fs.c:179-186 | A result that is not the root fits into the buffer with its NUL. |
| Paths.Up | xtkernel/fs.c:158-176 | ".." cuts the buffer back to the path without its last component. |
| Paths.Append | xtkernel/fs.c:178-190 | A component is appended exactly when it fits with its NUL. |
| Calendar.MakeTime | xtkernel/time.c:24-57 | Succeeds exactly on calendar dates from 1970 on, with their Unix time, without overflow. |
| Calendar.GetTimeFromUnix | xtkernel/time.c:60-100 | Fields in their ranges with the right time of day, week day and day of the year; they are the moment itself exactly when its year fits 32 bits. |
| Calendar.FindYear | xtkernel/time.c:73-78 | The year loop, with the wrap-around of its 32-bit counter, finds the year and the days left in it. |
| Calendar.FindMonth | xtkernel/time.c:81-90 | The month loop splits the day of the year into month and day, within twelve months. |
| Calendar.ThereAndBack | xtkernel/time.c:24-100 | xtMakeTime undoes xtGetTimeFromUnix exactly for the times whose year fits 32 bits. |
| Calendar.EndOfTimeFits | xtkernel/time.c:60-100 | The first time whose year does not fit 32 bits fits 63 bits, so there are such times. |
| Calendar.BackAndThere | xtkernel/time.c:24-100 | xtGetTimeFromUnix undoes xtMakeTime on every calendar date. |
| Calendar.UnixOrder | xtkernel/time.c:24-57 | Unix times are ordered as the dates are, and equal only for the same moment. |
| Calendar.GregorianCount | xtkernel/time.c:39-42 | The year loop adds up to the Gregorian day count. |
| Calendar.MonthsMakeYear | xtkernel/time.c:8-20 | The twelve months make a year of 365 or 366 days. |
| Calendar.MonthStart | xtkernel/time.c:8-20 | The days before a month in closed form. |
| Calendar.UnixIs | xtkernel/time.c:24-57 | Unix time in closed form, from the Gregorian rule. |
| Calendar.TimeFields | drivers/vfat/main.c:88-96 | A DOS time is hours * 2048 + minutes * 32 + seconds / 2. |
| Calendar.DateFields | drivers/vfat/main.c:88-96 | A DOS date is year modulo 128 * 512 + month * 32 + day. |
| Calendar.FieldsComeBack | drivers/vfat/main.c:88-96 | Packing keeps every field but the odd second and all but seven bits of the year. |
| Calendar.DosRoundTrip | drivers/vfat/main.c:294-334 | A time written to a directory entry is read back rounded down to an even second exactly for the years 1980 to 2107. |
| Encodings.Utf8ToUtf16 | xtkernel/encodings.c:4-37 | For strings in which no character is cut off, the buffer receives the decoded characters as UTF-16 and a NUL, and nothing past it. |
| Encodings.Utf16ToUtf8 | xtkernel/encodings.c:39-68 | For strings in which no surrogate is cut off, the buffer receives the encoded characters as UTF-8 and a NUL, and nothing past it. |
| Encodings.DecodeAt | xtkernel/encodings.c:7-24 | The bit tests and masks on the bytes compute the width and the character they stand for. |
| Encodings.RoundTrip8 | xtkernel/encodings.c:4-68 | UTF-8 to UTF-16 and back is the identity on every well-formed string, and the string in between is well formed. |
| Encodings.RoundTrip16 | xtkernel/encodings.c:4-68 | UTF-16 to UTF-8 and back is the identity on every well-formed string, and the string in between is well formed. |
| Encodings.NoNul8 | xtkernel/encodings.c:4-37 | A NUL-free well-formed string converts to a NUL-free one. |
| Encodings.NoNul16 | xtkernel/encodings.c:39-68 | A NUL-free well-formed string converts to a NUL-free one. |
| Encodings.DecodeThenEncode | xtkernel/encodings.c:10-24 | A well-formed character is the encoding of the scalar value it decodes to. |
| Encodings.EncodeThenDecode | xtkernel/encodings.c:50-65 | An encoded value decodes to itself, whatever follows it. |
| Encodings.OrderKept | xtkernel/encodings.c:50-65 | Encoded characters sort byte by byte as their values do. |
| Encodings.PairOfUnits | xtkernel/encodings.c:44-46 | A surrogate pair stands for the value whose pair it is; the addition and the or-operator do not interfere. |
| Pipe.XTPipe.constructor | xtkernel/pipe.c:214-244 | A new pipe is open and empty; a size of 0 means 4096. |
| Pipe.XTPipe.Used | xtkernel/pipe.c:26-29 | The number of buffered bytes, across wrap-around. |
| Pipe.XTPipe.Free | xtkernel/pipe.c:31-33 | Used and free bytes make the buffer size, and some byte is always free. |
| Pipe.XTPipe.WriteToBuffer | xtkernel/pipe.c:35-49 | Appends the bytes that fit, across wrap-around; a chunk that fills the ring leaves it empty. |
| Pipe.XTPipe.ReadFromBuffer | xtkernel/pipe.c:51-65 | Delivers and removes the oldest bytes, across wrap-around. |
| Pipe.XTPipe.WriteTurn | xtkernel/pipe.c:79-109 | One chunk of a writer: broken pipe exactly when an end is closed, else the bytes that fit are appended. |
| Pipe.XTPipe.ReadTurn | xtkernel/pipe.c:126-163 | One turn of a reader: the oldest bytes, end of stream, broken pipe, would-block or wait. |
| Pipe.XTPipe.WriteFile | xtkernel/pipe.c:69-113 | A write without a reader leaves the last bytes of old contents and data, as many as their total modulo the size. |
| Pipe.FifoUnlessFilled | xtkernel/pipe.c:26-163 | Over every interleaving of chunks, the bytes written are the bytes read followed by the bytes buffered exactly when no chunk filled the ring. |
| Pipe.FilledOnce | xtkernel/pipe.c:35-49 | A single chunk as long as the ring is lost as a whole. |
| Pipe.RunConserves | xtkernel/pipe.c:26-163 | Each filling of the ring loses exactly its size in bytes. |
| Pipe.FloodedIs | xtkernel/pipe.c:79-109 | Chunk by chunk writing without a reader leaves the last bytes modulo the size. |
| Bits.AndLow | xtkernel/arch/x86_64/memory.c:78-81 | Masking with 2^k - 1 keeps the low k bits. |
| Bits.OrJoin | xtkernel/arch/x86_64/memory.c:85-101 | Joining high bits with low bits that do not meet them is addition. |

## Left out

- TakeFrame: which two neighbouring pages are taken is left open, and the pool is a set of pages, not the list of ranges. New pages are taken to be zeroed, as is every entry that is not present.
- SetPages: requires page-aligned arguments, physical addresses below 2^52, and that no large leaf is split by a smaller page; replacing a large leaf by a table does not work in the code (`DemotionIsUnseen`), and the mode with physical address -1 is not modelled. `invlpg` is not part of this model.
- UnsetPages: requires the range to be made of whole pages and of holes that a small page outside the range guards; over other holes each turn is described (`RemovePage`), and a mapped page may survive the call (`SkippedPage`).
- RemovePage: the 32-bit product of the stride over an absent root entry is taken to wrap, as signed overflow is undefined in C.
- GetOrMakePageTable: requires that the slot holds no large leaf.
- WriteFile: requires that the write stays within the clusters with data, or that every free entry has data; what a device does with a cluster past its end is not part of this model. The directory entry's size and time are not updated by the model, and the device is taken to transfer every block completely.
- WriteThenRead: the same, as do WriteChunk and NextCluster for the step they take.
- ReserveCluster: covers only the reservation of the first cluster in vfatCreateFile; directory entries, long names, scanning and deletion are left out. A stray end mark that lands in the second FAT copy or across two clusters is described only by the bytes it writes.
- CalcFatSize: requires that some FAT size is enough and that four times the cluster count stays below 2^32; otherwise the C loop runs into wrapped arithmetic.
- Alloc: the search of one heap only; the refill from pages never links the new heap in and is left out.
- Free: takes only NULL and pointers the heap handed out; any other pointer is undefined in C.
- AllocateThenFree: requires that rounding the size up does not wrap around.
- FreePages: the node for a new entry is taken to be available; attributes of ranges are not looked at by the code and are left out; the freed node of an emptied or absorbed last range is modelled as still readable.
- AcquireRead: one pass of the loop is one step; a failing allocation of the queue node, which leaves the spinlock held, and overflow of the 32-bit reader count are left out.
- AcquireWrite: the same.
- BoundedWaiting: assumes, as its fair run says, that no running thread puts itself to sleep and that the waiting thread stays runnable.
- SleepThread: up to the switch of threads; interrupts and context switches are not part of this model.
- ResolveHandle: allocation hands out any unused address and fails only when none is left.
- ApplyRelocations: requires the relocation table and the slots to lie in the image and the slots outside the table, which the code takes for granted; blocks have at least the size of their header.
- PassArgs: allocating and mapping the pages is a parameter, and so is the random word; whether the block crosses the end of the lower half or other mappings is left open, as in the code. Without an environment the one slot kept for its array is not written.
- NormalizePath: NULL arguments are left out here and elsewhere.
- MakeTime: reading and setting the clock are left out.
- Utf8ToUtf16: requires that no character is cut off by the end of the string, since the code steps over the NUL otherwise.
- Utf16ToUtf8: requires the same of surrogates.
- WriteTurn: waiting for a free byte is left out, since some byte is always free (`Free`).
- ReadTurn: waiting and waking through events is left out; each turn is atomic, and any interleaving of turns is a run.
- Termination of threads and processes, mutexes and events, module loading, the boot loader, devices, the tar and device file systems, system calls and the printf formatter: hardware access and plumbing.

# A model of the FAT driver, the path layer and the control channel of WiiUFtpServer

The server keeps its files on FAT volumes, through a driver derived from libfat (`src/fat`), and gives its
clients one tree of paths over several volumes (`src/vrt.c`). This project models the driver bottom up, each
layer on top of what the one below promises, and then the path normaliser, the partition look-up, and the two
functions of `src/ftp.c` that cut the control channel into commands and words.

- **Cache** (`CacheModel`, `Cache`). The write-back, least-recently-used sector cache has one ghost value,
  `view`, a flat sequence of bytes. Pages, evictions and the lagging disc are tied to it by one invariant;
  every operation is specified by what it does to `view` alone. Disc writes may fail here.
- **Volume and table** (`Volume`, `BootLaws`, `FatCodec`, `FatLaws`, `Chains`, `Fat`). The layout computed at mount,
  the 12, 16 and 32-bit entry codec, and the chain operations on a table that is a function of `view`.
- **Files** (`FileData`, `FileRead`, `FileWrite`, `FileExtend`, `Growth`, `FatFile`, `BoundaryReads`). A file
  is the concatenation of its clusters cut to its size; a cursor is cluster, sector and byte in either of the
  two forms it may take at a cluster boundary. Reads, seeks, writes, truncations, opening, syncing and closing
  are methods of a class with the source's fields.
- **Whole runs** (`FileRuns`, `SmallRun`). A reference machine, a sequence of bytes with a cursor, and the theorem
  that every run agrees with it, spares all other files, and survives closing and a fresh mount; and two runs on a
  volume of three clusters, from its bytes to the results.
- **Failures** (`SmallVolume`, `Failures`, `DirFailures`). A volume of three clusters, byte by byte, and calls on
  it for which the code does less than it promises.
- **Directories** (`DirEntry`, `LongNames`, `ShortNames`, `DirItems`, `DirLaws`, `DirEdits`, `DirArea`,
  `DirSteps`, `DirGap`, `Directory`). The slots of a directory as a sequence, the scan that lists entries, long names in
  slots of thirteen units, and finding a gap, adding and removing as edits of that list.
- **Paths** (`Paths`, `VirtualPath`). Resolution on a stack of components, and the four-state machine that
  computes it by editing a buffer.
- **Control channel** (`FtpLines`, `FtpControl`, `FtpSplit`). Lines of a stream, and the framer that finds
  them in pieces of any size.

`BootLaws`, `FatLaws` and `DirLaws` say what the specification functions mean in plain bytes and numbers: where
each field is, which values end a chain, which slots are listed. `Bytes` and `Arith` hold byte splices and the
address arithmetic; products and quotients are defined by counting there and proved equal to the ordinary ones.
Sectors of a volume are addressed as bytes of one flat sequence: sector `s` is the bytes from `s` times the sector
size on.

## Where the code does less than it promises

These are modelled as the code has them, with the exact condition.

- A read of less than a sector at a position behind the last sector of a cluster reads the sector that follows
  on the volume (`src/fat/fatfile.c:474-477`). A write that ends on a cluster boundary leaves such a position
  (`FatFile.File.Write`); so does a seek or a read to the end of a full last cluster, once the file is grown
  from there. Any other seek or read does not. `FatFile.File.Read` gives the bytes for both cases,
  `BoundaryReads.RightIffContiguous` says when they are right after all, and `Failures.MisreadAfterWrite` is a
  write and a read for which they are not.
- A failed search leaves the hint behind the table (`src/fat/file_allocation_table.c:238`). If the slot behind
  the last entry reads as free, the next link returns a cluster that does not exist: `Fat.Partition.Overrun`
  is the condition, `Fat.Partition.LinkFreeCluster` and `FatCodec.LinkBehindTable` the effect,
  `Failures.LinkTwice` a volume on which it happens.
- On a cycle clearLinks counts one cluster too many: `Chains.CounterAfterClear`, `Chains.CycleIsMiscounted`.
- Cutting a file exactly at the cursor on a cluster boundary, when the position is at the start of the dropped
  cluster, leaves the position in a free cluster: `FatFile.File.Truncate` gives this as an equivalence,
  `Failures.CutAtCursor` a file for which it happens.
- A truncation that cannot grow the file sets the size all the same, unless the file is empty and there is no
  cluster to start it with: `FatFile.File.Truncate`, `Failures.GrowBeyondRoom`.
- Growing a file over a cursor behind its end leaves the position where it was. The cursor is right exactly if
  the position denotes it in the chain the file has then, which is a function of the table and the hint before:
  `FatFile.File.Truncate`, `FatFile.DenotesGrown`. It is not after a seek behind the end
  (`Failures.GrowOverCursor`); after a cut before the cursor it may be (`Failures.CursorRegained`) or not
  (`Failures.CursorLost`).
- removeEntry reports failure for an entry in the last slot of a directory although it has removed it:
  `Directory.RemoveSlots`, `DirFailures.RemoveLast`.
- Lines that are complete when a transfer starts stay in the buffer when it ends, until more bytes arrive:
  `FtpControl.Connection.ProcessControlEvents` dispatches nothing without new bytes.
- The working directory is not compared with the size of its buffer when the slash is put behind it:
  `VirtualPath.ChangeDir`, `VirtualPath.OneTooLong`.
- `src/fat/cache.h:118-121` says that invalidating writes no dirty sectors first; the code flushes them, and
  that is what `SectorCache.Cache.Invalidate` states.

## Model

| member | source | states |
|---|---|---|
| CacheModel.ViewIsPageElseDisc | src/fat/cache.c:115-155 | what clients see of a byte is the byte of the page that holds it, and the disc's byte if no page does |
| CacheModel.PagesApart | src/fat/cache.c:144-151 | no two pages hold the same sector: loaded runs are aligned, so different ones lie apart |
| CacheModel.CleanPageIsDisc | src/fat/cache.c:139-142 | a clean page equals the disc, so it may be dropped without a write |
| CacheModel.UncachedRunIsDisc | src/fat/cache.c:144-148 | when no page holds a sector, none overlaps the run that is loaded for it either, so the disc has the run as clients see it |
| CacheModel.LoadKeepsInv | src/fat/cache.c:144-152 | replacing a clean page by a run read from the disc keeps the cache invariant for the same view |
| CacheModel.StoreKeepsInv | src/fat/cache.c:227-231 | storing in a page and marking it dirty keeps the invariant, for the view with exactly these bytes replaced |
| CacheModel.WriteBackKeepsInv | src/fat/cache.c:139-142 | writing a dirty page back and clearing its mark keeps the invariant for the same view |
| CacheModel.FailedWriteBackKeepsInv | src/fat/cache.c:140-140 | a write-back that fails and leaves anything in those sectors of the disc keeps it too, because the page stays dirty |
| CacheModel.CleanMeansEqual | src/fat/cache.c:299-312 | once every page is clean the disc is the view, byte for byte |
| CacheModel.PageIs | src/fat/cache.c:144-151 | the page that holds a sector holds the aligned run of sectors around it, up to the end of the partition |
| SectorCache.Cache.GetPage | src/fat/cache.c:115-155 | some page holds the sector afterwards and clients see nothing of it; on a miss the victim is the first free page, else one used least recently, and no other page changes; it fails exactly if a write to the disc does |
| SectorCache.Cache.Scan | src/fat/cache.c:126-137 | the scan finds the page that holds the sector, or there is none and it has found the page to give up |
| SectorCache.Cache.ReadSectors | src/fat/cache.c:157-180 | whole sectors are read as the view has them, across pages; nothing changes; fails only if a write to the disc does |
| SectorCache.Cache.WriteSectors | src/fat/cache.c:269-294 | exactly these sectors of the view are replaced; after a failing disc a prefix of them has been |
| SectorCache.Cache.ReadPartialSector | src/fat/cache.c:185-199 | part of a sector is read as the view has it; refused exactly if it leaves the sector or a write to the disc fails |
| SectorCache.Cache.WritePartialSector | src/fat/cache.c:217-232 | exactly this part of the view is replaced; refused exactly if it leaves the sector or a write to the disc fails |
| SectorCache.Cache.EraseWritePartialSector | src/fat/cache.c:250-266 | the sector becomes zeros with the bytes in them, and nothing else changes |
| SectorCache.Cache.ReadLittleEndianValue | src/fat/cache.c:201-212 | the little-endian value of 1, 2 or 4 bytes of the view; other widths are refused |
| SectorCache.Cache.WriteLittleEndianValue | src/fat/cache.c:234-245 | the little-endian bytes of the value replace exactly these bytes of the view |
| SectorCache.Cache.Flush | src/fat/cache.c:299-312 | on success the disc is the view up to the end of the partition, and every page is clean; it fails exactly if a write does; the view never changes, nor does the disc behind the partition |
| SectorCache.Cache.Invalidate | src/fat/cache.c:314-323 | every page is free and the view is the disc, which is the old view unless a write of the flush fails |
| SectorCache.Cache.constructor | src/fat/cache.c:49-91 | a new cache has empty pages and shows the disc as it is, up to the end of the partition |
| Bytes.LeRoundTrip | src/fat/cache.c:201-245 | a value written in 1, 2 or 4 bytes is read back cut to that width |
| Volume.BootSector.LayoutIsOk | src/fat/partition.c:237-297 | from a consistent boot sector the computed layout has the table before the root directory, that before the clusters, all clusters before the end, and as many clusters as sectors allow at most |
| BootLaws.FieldBytes | src/fat/partition.c:46-89 | the fields of the boot sector, byte by byte |
| BootLaws.MountedAre | src/fat/partition.c:107-198 | the bytes by which a sector is known as a boot sector |
| BootLaws.TablesFill | src/fat/partition.c:258-293 | every copy of the table ends at or before the root directory and the last one exactly there; the one in use is the first, or on a FAT32 volume the one named |
| BootLaws.ClustersFill | src/fat/partition.c:244-274 | the root directory has the sectors its entries fill, and the clusters up to the last fit before the end with less than one cluster left over |
| BootLaws.KindOf | src/fat/partition.c:278-288 | below 4085 clusters 12 bits, below 65525 clusters 16, else 32; the root directory is a cluster only then |
| BootLaws.Floppy | src/fat/partition.c:237-297 | a 1.44 MB floppy disk: root directory at sector 19, first cluster at 33, last cluster 2848 |
| BootLaws.Disk32 | src/fat/partition.c:288-293 | an 8 GB partition that uses the second copy of its table |
| Volume.ClusterSectors | src/fat/file_allocation_table.h:60-68 | different clusters have disjoint sector ranges in the data area, inside the partition |
| BootLaws.ClusterIsAt | src/fat/file_allocation_table.h:60-68 | cluster 2 is the first behind the root directory, and the others follow in order |
| Fat.Partition.constructor | src/fat/partition.c:237-297 | mounting fills in the layout the boot sector describes (in numbers: `BootLaws`), with an empty cache over the disc |
| Fat.Mount | src/fat/partition.c:182-312 | refuses a sector that is not signed as a boot sector or has an unsupported sector size; else mounts what its fields describe, tables, root directory and clusters one behind the other (in bytes and numbers: `BootLaws`) |
| Volume.DescribesFrame | src/fat/partition.c:182-297 | an image that keeps what is before the tables mounts to the same layout |
| FatCodec.RawOfWritten | src/fat/file_allocation_table.c:122-199 | an entry reads back as the value written, cut to 12, 16 or 32 bits |
| FatCodec.RawElsewhere | src/fat/file_allocation_table.c:122-199 | every other entry reads as before, also the 12-bit neighbour that shares a byte and entries across a sector boundary |
| FatCodec.NextOfWritten | src/fat/file_allocation_table.c:39-199 | after a cluster number or EOF has been written to an entry nextCluster gives it back, and gives the old value for every other cluster |
| FatCodec.WriteIsUpdate | src/fat/file_allocation_table.c:122-199 | for the whole table, one write is the update of one entry |
| FatCodec.WriteStaysInTable | src/fat/file_allocation_table.c:122-199 | no byte behind the tables or before them changes |
| FatCodec.LinkBehindTable | src/fat/file_allocation_table.c:254-256 | linking to the number behind the last cluster leads the chain out of the table |
| FatLaws.NextInBytes12 | src/fat/file_allocation_table.c:55-87 | what nextCluster returns in terms of the one and a half bytes of the entry: from 0xFF7 on EOF, else the value |
| FatLaws.NextInBytes16 | src/fat/file_allocation_table.c:88-98 | the same for the two bytes of a 16-bit entry: from 0xFFF7 on EOF |
| FatLaws.NextInBytes32 | src/fat/file_allocation_table.c:99-108 | the same for the four bytes of a 32-bit entry: from 0x0FFFFFF7 on EOF |
| FatLaws.WrittenBytes12 | src/fat/file_allocation_table.c:138-176 | the two bytes a 12-bit entry is written to, of which one keeps the half that belongs to the neighbour |
| FatLaws.WrittenBytes | src/fat/file_allocation_table.c:177-193 | the bytes a 16 or 32-bit entry is written to; no other byte changes |
| FatLaws.FreeCountIs | src/fat/file_allocation_table.c:381-392 | the count is the number of clusters of the table whose entry is zero |
| FatLaws.SearchFinds | src/fat/file_allocation_table.c:226-246 | the search from a hint finds the lowest free cluster from the hint on, else the lowest of all, and none exactly if there is none |
| Fat.Partition.NextCluster | src/fat/file_allocation_table.c:39-116 | the entry of the cluster as the table has it, for all three widths, with end marks mapped to EOF; in bytes and numbers: `FatLaws.NextInBytes12`, `FatLaws.NextInBytes16`, `FatLaws.NextInBytes32` |
| Fat.Partition.WriteFatEntry | src/fat/file_allocation_table.c:122-199 | exactly one entry is updated; clusters outside the table are refused and nothing changes |
| Chains.NoReturn | src/fat/file_allocation_table.c:370-375 | a chain that ends in EOF does not pass through a cluster twice, so walks along it end |
| Chains.SameStartSameChain | src/fat/file_allocation_table.c:370-375 | the start cluster decides the whole chain |
| Chains.LinkAtTail | src/fat/file_allocation_table.c:254-259 | linking a free cluster at the tail appends exactly it to the chain |
| Chains.ClearOnlyFrees | src/fat/file_allocation_table.c:302-327 | on any table whose entries stay in it, cyclic ones too, clearing leaves an entry alone or frees it |
| Chains.ClearChain | src/fat/file_allocation_table.c:302-327 | on a chain, clearing frees exactly the chain, in one round a cluster |
| Chains.ClearCount | src/fat/file_allocation_table.c:302-327 | free clusters afterwards are those before and one for each round, except for a last round on a cluster that was free already |
| Chains.ClearFreesReached | src/fat/file_allocation_table.c:302-327 | on every closed table clearing frees exactly the clusters the links lead to from the start, cycles included |
| Chains.EndsIffChain | src/fat/file_allocation_table.c:302-327 | the walk ends without meeting a freed cluster exactly if an EOF-ended chain starts there |
| Chains.CounterAfterClear | src/fat/file_allocation_table.c:320-321 | a right counter stays right exactly if a chain starts at the cluster, or if the links lead to every used cluster and the cap is the number of clusters; else it is one too high |
| Chains.CycleIsMiscounted | src/fat/file_allocation_table.c:302-327 | a cycle of two clusters for which the counter ends one too high |
| Chains.TrimEffect | src/fat/file_allocation_table.c:337-363 | trimming keeps the first clusters as a chain, frees the others and raises the count by them |
| Chains.TrimmedElsewhere | src/fat/file_allocation_table.c:337-363 | trimming writes no entry outside the chain |
| Chains.OthersKept | src/fat/file_allocation_table.c:302-363 | chains apart from the one that is changed stay chains |
| Chains.LinkCount | src/fat/file_allocation_table.c:249-259 | a link takes exactly one free cluster |
| Chains.AllocatedMore | src/fat/file_allocation_table.c:225-261 | clusters taken by one operation and then by the next are those the searches find in turn from the first hint on, and no others |
| Chains.DrawnIsDraw | src/fat/file_allocation_table.c:226-246 | which clusters n searches take is a function of the table and the hint before them |
| Fat.Partition.FindFree | src/fat/file_allocation_table.c:226-246 | the search ends, and finds the first free cluster from the hint on, round the end of the table, or reports that there is none; all outcomes from a stale hint included |
| Fat.Partition.LinkFreeCluster | src/fat/file_allocation_table.c:207-262 | tells all outcomes apart: refused, linked already, none free, a new cluster linked and ended by EOF, and the stale hint behind the table |
| Failures.LinkTwice | src/fat/file_allocation_table.c:226-261 | on a full volume a first link fails and a second one returns the cluster behind the last and links the file to it |
| Fat.Partition.ClearLinks | src/fat/file_allocation_table.c:302-327 | ends on every closed table, frees as `ClearFrom` says, lowers the hint and raises the counter up to its cap |
| Fat.Partition.ClearChainLinks | src/fat/file_allocation_table.c:302-327 | on a chain: exactly the chain is free, and the counter stays right |
| Fat.Partition.TrimChain | src/fat/file_allocation_table.c:337-364 | keeps exactly the first min(n, length) clusters, ended by EOF, and returns the last of them; the counter stays right |
| Fat.Partition.LastCluster | src/fat/file_allocation_table.c:370-375 | the last cluster of the chain |
| Fat.Partition.FreeClusterCount | src/fat/file_allocation_table.c:381-392 | the number of free entries of the table |
| FileData.ReadInCluster | src/fat/fatfile.c:468-508 | the bytes of a cluster at an offset are the bytes of the file at the offset of its place in the chain |
| FileData.WriteInCluster | src/fat/fatfile.c:800-842 | storing inside one cluster of a chain replaces exactly these bytes of the file |
| FileData.ReadRunOfClusters | src/fat/fatfile.c:525-549 | a run of consecutive clusters read at once is that stretch of the file |
| FileData.WriteRunOfClusters | src/fat/fatfile.c:855-882 | a run of consecutive clusters written at once replaces exactly that stretch of the file |
| FileData.FileByteIs | src/fat/file_allocation_table.h:60-68 | every byte of a file in terms of sectors and clusters: where the volume has it |
| FileData.FileBytesPrefix | src/fat/fatfile.c:1169-1173 | the first clusters of a file have its first bytes |
| Growth.GrownByLink | src/fat/file_allocation_table.c:207-262 | linking takes a cluster that was free, appends it, and leaves the bytes of the file and every other cluster alone |
| Growth.OtherFileKept | src/fat/fatfile.c:721-946 | non-interference: a file with other clusters keeps its links and its bytes, and stays apart |
| Growth.GrownSpares | src/fat/fatfile.c:721-946 | the same for all other files and the fixed root directory at once |
| Growth.ConfinedSpares | src/fat/fatfile.c:1154-1186 | the same when a file drops clusters |
| FileRead.ReadHead | src/fat/fatfile.c:468-487 | the step to the end of the sector delivers the file's bytes, or, at a position behind a cluster, the sector that follows on the volume |
| FileRead.ReadClusters | src/fat/fatfile.c:525-562 | whole clusters in consecutive groups deliver the file's bytes, and the position stays behind a cluster only at the end of the chain |
| FileRead.ReadOn | src/fat/fatfile.c:510-586 | from the end of the first cluster on everything wanted is delivered, whatever the chain looks like |
| BoundaryReads.RightIffContiguous | src/fat/fatfile.c:474-477 | a short read at a position behind a cluster is right on every volume with this table exactly if the file's next cluster is also the next on the volume |
| Failures.FragmentedIsMisread | src/fat/fatfile.c:474-477 | a volume and a file in clusters 2 and 4 for which the byte behind cluster 2 is not the file's |
| Failures.MisreadAfterWrite | src/fat/fatfile.c:889-891 | on that volume, mounted from its bytes: a write of the first cluster, then a read of one byte that returns a byte of cluster 3 and not the file's |
| FatFile.File.Read | src/fat/fatfile.c:427-597 | the result, the bytes and the new cursor: exactly the slice of the content, except for the short read at a position behind a cluster, whose bytes are given too; sums are those of 32 bits |
| FatFile.File.Seek | src/fat/fatfile.c:949-1047 | goes to the offset named from the start, the cursor or the end whenever that is from 0 to 0xFFFFFFFF, or refuses with the reason and moves nothing; the position denotes the offset afterwards, also from a position a truncation has lost unless the walk starts there; a seek behind the end leaves the position |
| FatFile.File.Walk | src/fat/fatfile.c:998-1040 | the position for an offset, from the current cluster or the first, at the end of a full last cluster in the form behind it |
| FileData.PositionParts | src/fat/fatfile.c:1001-1019 | both forms of a position give the cluster the walk has to start counting from |
| FileWrite.CheckNext | src/fat/fatfile.c:603-634 | a position behind a cluster moves to the next one, linked if need be; fails exactly if one is needed and none is free |
| FileWrite.WriteClusters | src/fat/fatfile.c:845-893 | whole clusters are written and linked as needed, exactly these bytes change, and what stops it is a full volume |
| FileWrite.WriteSteps | src/fat/fatfile.c:797-927 | all steps together: the bytes are written at the position, nothing else below the size changes, and everything fits that there is room for |
| FileExtend.Extend | src/fat/fatfile.c:639-719 | growing adds zeros only, takes the clusters the searches find in turn and none too many, and fails exactly if the free ones do not suffice; then too everything behind the old end is zero |
| FatFile.PatchContent | src/fat/fatfile.c:926-943 | writing into the clusters is patching the content, so bytes outside the range stay |
| FatFile.PatchedAt | src/fat/fatfile.c:926-943 | byte by byte: what was written, else what was there, else zero |
| FatFile.File.CapacityIs | src/fat/fatfile.c:797-927 | the room is that of the clusters of the file and of all clusters whose entry is zero |
| FatFile.File.Write | src/fat/fatfile.c:721-946 | the exact result (everything that fits) and the exact content: the old one patched at the cursor, or at the end in append mode, with zeros in a gap; cursor, append position and chain length stay in step; the position is behind a cluster exactly if the cursor is on a boundary; a write refused for want of space has every free cluster in its chain, zeros behind the end, and size, bytes and cursor as before |
| FatFile.File.Truncate | src/fat/fatfile.c:1086-1196 | shrinking keeps exactly the first bytes and as many clusters as they need and frees the others; growing adds zeros and the first free clusters from the hint on, and succeeds exactly if there is room, else the size is set all the same over zeros, unless no cluster at all was found; the cursor keeps its position exactly if it is not at a dropped cluster, or, grown over, if the position denotes it in the chain the table and the hint give |
| FatFile.DenotesGrown | src/fat/fatfile.c:1119-1157 | a position denotes an offset in a grown chain exactly if it did before or if its cluster is one of the new ones at that place |
| Failures.GrowBeyondRoom | src/fat/fatfile.c:1144-1191 | a truncation for which there is no room fails and sets the size |
| Failures.GrowOverCursor | src/fat/fatfile.c:1119-1157 | a seek behind the end and a truncation beyond it: the position still denotes the start |
| Failures.CursorRegained | src/fat/fatfile.c:1119-1192 | a cut before the cursor and growth over it that links the same cluster again: the cursor is right |
| Failures.CursorLost | src/fat/fatfile.c:1119-1192 | the same calls where another cluster is free before it: the position stays in a free cluster |
| FatFile.OtherStays | src/fat/fatfile.c:1119-1157 | a position that stands for another offset than the cursor does not come to stand for it by growing |
| Failures.CutAtCursor | src/fat/fatfile.c:1164-1171 | a file of two clusters, a seek to the second and a cut there: the position is in a free cluster |
| FatFile.CutCursor | src/fat/fatfile.c:1154-1186 | a cursor not behind the new end keeps its position exactly if it is not at that end at the start of a dropped cluster |
| FatFile.File.DropTail | src/fat/fatfile.c:1164-1186 | the last cluster kept and the append position for a shorter size |
| FatFile.File.Open | src/fat/fatfile.c:256-318 | refusals in order; a cut file is empty and its clusters are free again; the append position denotes the end of the file |
| FatFile.File.Sync | src/fat/fatfile.c:342-387 | writes size and start cluster into the entry and flushes; then the disc alone shows size, chain and content |
| FatFile.File.Close | src/fat/fatfile.c:390-425 | the same on closing a modified file |
| DirEntry.SyncedFields | src/fat/fatfile.c:356-371 | size and start cluster can be read back from the updated entry; name and other attributes stay |
| DirLaws.SyncedBytes | src/fat/fatfile.c:356-371 | every byte of the updated entry: archive bit, access date, start cluster, time, date and size; all others stay |
| DirLaws.FieldsAre | src/fat/directory.h:79-106 | size, start cluster and attributes, byte by byte |
| DirEntry.SlotStore | src/fat/fatfile.c:373-376 | storing an entry changes neither the table nor a file without its cluster |
| FileRuns.Run | src/fat/fatfile.c:427-1196 | every run of seeks, reads, writes and truncations of a handle not in append mode returns what a byte sequence with a cursor returns (its steps: `FileRuns.SeekGoes` and the three after it), ends with its bytes, and spares every other file; growing over a cursor behind the end is part of a run if the cluster of the position has not been cut off |
| FileRuns.SeekGoes | src/fat/fatfile.c:965-993 | a step that seeks goes to the offset named from the start, the cursor or the end, or is refused if that is no offset of a file |
| FileRuns.ReadGets | src/fat/fatfile.c:436-461 | a step that reads gets the bytes from the cursor on, as many as there are |
| FileRuns.WriteStores | src/fat/fatfile.c:926-943 | a step that writes stores its bytes at the cursor, zeros in a gap, and changes no other byte |
| FileRuns.TruncateSets | src/fat/fatfile.c:1119-1192 | a step that truncates sets the size, drops what is behind it or adds zeros, and leaves the cursor |
| FileRuns.NothingComesBack | src/fat/fatfile.c:639-719 | however a run goes on after a cut, a byte behind the cut is zero unless the run has written it |
| FileRuns.CutAndRun | src/fat/fatfile.c:1119-1192 | the same for the bytes of an open file |
| FileRuns.CutThenGrow | src/fat/fatfile.c:639-719 | growing right after a cut, by a truncation or by a write behind the end, gives zeros and keeps what is before the cut |
| FileRuns.RunAndClose | src/fat/fatfile.c:390-425 | after a run and a close the disc alone shows the file with the bytes of the abstract run |
| FileRuns.Remount | src/fat/partition.c:182-312 | a fresh mount of a disc, from its own boot sector, opens a file with the size, chain and content the disc shows |
| FileRuns.RunCloseAndRemount | src/fat/fatfile.c:342-425 | durability: run, close, mount afresh from the boot sector on the disc, open; the file opened has the bytes of the abstract run |
| SmallRun.WriteCutAndRead | src/fat/fatfile.c:427-1196 | a run from the bytes of a small volume on: seeks, a write, a read of what was written, a cut before the cursor, growth over it, and the zeros read there |
| SmallRun.WriteAndRemount | src/fat/fatfile.c:342-425 | on the same volume: a byte that was written is in the file that is opened after a close and a fresh mount |
| LongNames.BuildSlot | src/fat/directory.c:1087-1109 | the slot built for a part of a name has its units, then one zero, then padding, with number, mark and checksum |
| LongNames.PaddingIsRight | src/fat/directory.c:1090-1100 | the test on the unit before gives a zero behind the name and padding after it, at every place of the last slot |
| DirLaws.LongSlotBytes | src/fat/directory.c:52-75 | every byte of a long-name slot: number and mark, flag, checksum, reserved bytes and the thirteen units at their places; a name has as many slots as it needs |
| DirLaws.ChecksumIs | src/fat/directory.c:1067-1071 | the checksum rotates to the right and adds the next byte, over eleven bytes |
| DirLaws.ChecksumOfReadme | src/fat/directory.c:1067-1071 | README.TXT has the checksum 0x73 |
| LongNames.FeedMore | src/fat/directory.c:324-349 | reading one more slot of a name leaves its part in the buffer and the parts read before where they are |
| DirLaws.FeedIs | src/fat/directory.c:324-349 | what reading a long-name slot, also an orphan, does to every place of the buffer of 256 units and to what is remembered |
| DirItems.LongNameRoundTrip | src/fat/directory.c:314-391 | every name of 1 to 247 units without a zero is read back from its slots as it was written |
| DirItems.ListsItems | src/fat/directory.c:287-401 | enumerating a directory without orphan slots lists exactly its entries in order, whatever the name buffer held before |
| DirItems.NextIs | src/fat/directory.c:287-391 | the next entry the scan finds is the first of those that are left, for any buffer, and the others come behind it |
| DirLaws.ScanBytes | src/fat/directory.c:323-391 | in bytes, also with orphan slots: the scan passes over long-name slots, volume names, deleted slots and those that start with a control character or a space, finds the first other one, and ends at a zero |
| DirLaws.ListedBytes | src/fat/directory.c:323-401 | in bytes, also with orphan slots: a slot before the end marker is listed exactly if its attribute byte is not 0x0F and has bit 3 clear and its first byte is above 0x20 and not 0xE5, and the list keeps their order |
| DirLaws.FirstBytes | src/fat/directory.c:46-47 | the first byte of deleted slots and of the end marker, and what deleting writes |
| DirEdits.FreeRun | src/fat/directory.c:701-718 | a run of free slots is a run of deleted slots, never part of an entry |
| DirEdits.InsertInGap | src/fat/directory.c:1074-1115 | writing an entry over free slots lists it among the others, which keep their order |
| DirEdits.InsertAtEnd | src/fat/directory.c:733-749 | writing it over the end, with an end marker behind, lists it last |
| DirEdits.RemoveEntry | src/fat/directory.c:656-681 | marking the slots of an entry takes it, and nothing else, out of the list |
| DirArea.SlotRead | src/fat/directory.c:320-322 | a slot read by cluster, sector and offset is the slot of the directory with that number |
| DirArea.SlotWritten | src/fat/directory.c:1110-1112 | storing a slot changes that slot of the directory and nothing else on the volume |
| DirLaws.SlotIsAt | src/fat/directory.c:320-322 | the byte address of a slot from cluster, sector and offset |
| DirLaws.SlotIsNumber | src/fat/directory.c:253-285 | the slots of a directory are numbered sector by sector and cluster by cluster, and each is the 32 bytes at its address |
| DirArea.OthersSpared | src/fat/directory.c:928-1118 | files and other directories keep links and bytes when a directory changes |
| DirSteps.LinkFreeClusterCleared | src/fat/file_allocation_table.c:270-295 | the linked cluster is zero throughout, and no other byte changes |
| DirSteps.Increment | src/fat/directory.c:253-285 | goes to the next slot; at the end it fails, or appends a cluster of empty slots, and fails then only in the fixed root directory or on a full disc |
| DirGap.ScanForGap | src/fat/directory.c:701-728 | finds the first run of free slots, or the end marker with the free slots before it, or that there is neither |
| DirGap.BlankTail | src/fat/directory.c:733-749 | empties the slots behind the end marker, and one more as the new marker; if it fails every slot is as before or empty |
| DirGap.FindEntryGap | src/fat/directory.c:683-755 | the slots found are exactly `size` ones that were free or at or behind the end marker; no slot before it changes; failure only without room, and then every slot is as before or, from the end marker on, empty |
| DirGap.SpaceFound | src/fat/directory.c:725-754 | in the fixed root directory it succeeds only if there is room, so it fails exactly if there is none |
| Directory.Added | src/fat/directory.c:1074-1115 | what the directory lists after an entry has been written into the gap |
| Directory.AddEntry | src/fat/directory.c:1068-1118 | on success the old entries are listed in their order with the new one among them, a long name as it was given; without success the list is what it was |
| Directory.GetNextEntry | src/fat/directory.c:287-391 | returns positions, name and data of the entry the scan finds (in bytes: `DirLaws.ScanBytes`), or that there is no more |
| Directory.ReadDirectory | src/fat/fatdir.c:547-623 | reading a directory to its end, with a fresh name buffer for every call, gets its entries in their order; in bytes: the slots before the end marker with attribute byte not 0x0F, bit 3 of it clear, and a first byte above 0x20 that is not 0xE5, and no others |
| Directory.RemoveSlots | src/fat/directory.c:656-681 | marks exactly the slots from start to end as deleted; the result is false exactly if the last of them ends the directory |
| Directory.RemoveEntry | src/fat/directory.c:656-681 | the entry, and no other, is gone from the list |
| DirFailures.RemoveLast | src/fat/directory.c:664-678 | removing the entry in the last slot of a root directory reports failure, and the entry is gone |
| ShortNames.EntryGetAlias | src/fat/directory.c:205-242 | the short name of an entry, with its case bits, dot entries and the end at a zero |
| ShortNames.PackAlias | src/fat/directory.c:1045-1065 | both parts of a short name stand in their fields, padded with spaces |
| ShortNames.ShortNameRoundTrip | src/fat/directory.c:205-242 | a short name is read back as it was packed, with small letters in the part for which bit 3 or bit 4 of byte 12 asks for them |
| ShortNames.SpecialNames | src/fat/directory.c:211-219 | the entries of the directory itself and of the one above are named by dots, and a deleted entry has no name |
| VirtualPath.Switch | src/vrt.c:69-98 | one turn of the state machine: a slash leaves the directory of all components so far in the buffer, any other character is left for copying |
| VirtualPath.Leave | src/vrt.c:88-96 | ".." drops the last directory from the buffer, and the root stays the root |
| VirtualPath.TrimSlashes | src/vrt.c:104-107 | the slashes cut off the end make the canonical path, and the root keeps its slash |
| VirtualPath.Normalise | src/vrt.c:63-102 | the loop leaves the directory the path means, inside a buffer of the length of the path |
| VirtualPath.VirtualAbspath | src/vrt.c:49-113 | the result is the canonical form of the path, never longer than it; refused exactly if a relative path is too long |
| VirtualPath.ChangeDir | src/vrt.c:262-287 | the working directory is the canonical path with a slash behind it; when that fits in the buffer |
| VirtualPath.OneTooLong | src/vrt.c:282-283 | the longest relative path that is accepted below the root makes the directory one character too long |
| Paths.RelativeMeans | src/vrt.c:51-58 | a relative path appended to such a working directory is followed from there, component by component |
| Paths.CanonicalMeans | src/vrt.c:49-113 | the canonical path of a stack of components means that stack |
| Paths.Idempotent | src/vrt.c:49-113 | normalising twice is normalising once |
| Paths.NoTrailingSlash | src/vrt.c:104-107 | a canonical path ends in a slash only if it is the root |
| Paths.OneMore | src/vrt.c:69-98 | what one more component does: nothing for an empty one and a dot, up for two dots but not above the root, else down |
| Paths.CanonicalMore | src/vrt.c:49-113 | the canonical path spelled out, and two dots behind it lead back |
| VirtualPath.AliasMatches | src/vrt.c:145-155 | an alias matches exactly if it is the first component, whatever the case of letters, also when one alias is the beginning of another |
| VirtualPath.FoldedAre | src/vrt.c:149-149 | the letters the comparison takes for the same are A to Z and those 32 above them |
| VirtualPath.OneMatch | src/vrt.c:145-155 | with aliases that differ in more than case a path is on one device at most |
| VirtualPath.ToRealPath | src/vrt.c:124-176 | all outcomes: "" for the root, the prefix of the first matching device and the rest, and the errors for a colon, no device and a path too long |
| VirtualPath.RestMeans | src/vrt.c:149-170 | what follows the prefix means the remaining components, so it has no "." or ".." |
| FtpLines.LinesMakeText | src/ftp.c:2088-2107 | lines and rest make up the text, and neither has a line end inside |
| FtpLines.MoreText | src/ftp.c:2070-2081 | more bytes change no line that is complete already and only lengthen the rest |
| FtpLines.OneLine | src/ftp.c:2090-2091 | text up to the first carriage return and line feed is the first line; without them there is none |
| FtpLines.NonEmptyParts | src/ftp.c:2097-2098 | empty lines are left out and the others keep their order |
| FtpControl.Connection.DispatchLine | src/ftp.c:2090-2105 | one line is dispatched if it is not empty; a line feed inside closes the connection instead, and a command that fails does so too |
| FtpControl.Connection.DispatchLines | src/ftp.c:2090-2107 | lines are dispatched in order until none is complete or a transfer starts, and the rest of the buffer is what has not been used |
| FtpControl.Connection.ProcessControlEvents | src/ftp.c:2064-2120 | for any sizes of reads and any pauses: everything that has arrived is read, up to the first pause, end of file or error, unless a command starts a transfer or the connection closes; the commands are the first non-empty lines received, and no complete line is left exactly if bytes have been read or none was waiting; a failed command closes, end of file and read error close, and the buffer holds exactly the rest |
| FtpControl.NoOtherReason | src/ftp.c:2084-2115 | a stream without null bytes, bare line feeds and lines of more than 1021 bytes gives no reason to close but a failed command or the end |
| FtpControl.Session | src/ftp.c:2064-2120 | over any number of calls the commands are a prefix of the non-empty lines of the whole stream; after a call that ends open without a transfer nothing more was there to read and, if it has read something or no line was waiting, all complete lines are dispatched; when every transfer ends before the next call, more calls than reads are possible have read everything; a clean stream is closed at its end or for a failed command only |
| FtpSplit.WordsAreWords | src/ftp.c:468-502 | the words found are not empty and have no separator at either end, and only the last may have one inside |
| FtpSplit.WordsMakeText | src/ftp.c:468-502 | words and separators make up the line, with at least one separator between two words, so nothing is lost or cut |
| FtpSplit.Split | src/ftp.c:468-502 | the results are the words of the line, at most one more than asked for, and the others are empty |

## Left out

- Devices, sockets, threads, screen and controllers: the disc is a sequence of bytes, the socket the arrivals still to come, a command an action that may fail or start a transfer.
- SectorCache.Cache.GetPage: disc reads that fail, and with them the page tag that stays after a failed load, are not modelled; above the cache, disc writes that fail are not either (the layers from the table up assume a reliable disc).
- Locks, the list of open files, two handles on one file, and deleting an open file.
- The access counter is one per cache here and global in the source; both wrap at 32 bits.
- FSInfo sectors, mirroring to a second table, volume labels and the read-only flag of a partition.
- Fat.Mount: the search for a partition on a disc whose first sector is not a boot sector, and sector buffers that cannot be read, are not modelled; the fields are assumed consistent, as a format leaves them.
- Fat.Partition.constructor: takes the fields of the boot sector, which Fat.Mount reads; the counters the FSInfo sector may give at the end of the mount are left at zero.
- Clocks: times and dates are parameters of syncing; creation times are part of the entry given to open.
- Offsets whose sum with a length leaves the 32-bit range of a file; off_t has 64 bits.
- Looking up a path in directories, stat, attributes, and following directories by name.
- Character sets: names are UCS-2 units in long-name slots and bytes in short entries; the conversion to and from multibyte strings, the checks for illegal characters and the search for an entry of the same name are not modelled.
- Directory.AddEntry: starts where name and short entry are settled; how the short name is made from the long one (checksum, numeric tail) is not modelled.
- Directory.GetNextEntry: takes directories whose long-name slots are numbered from 1; for a slot numbered 0 the source writes in front of its buffer.
- Directory.RemoveEntry: models directories without orphan long-name slots; Directory.RemoveSlots has no such condition.
- FatFile.File.Open: the look-up, the creation of the entry and the refusals before it are the caller's; the entry's chain is just long enough for its size.
- FatFile.File.Read: a length that wraps round 32 bits, added to the offset, to no more than the size is excluded (the source then does not cut it); so is a short read at a position behind the last cluster of the volume, which would leave the partition.
- FatFile.File.Seek: a seek forwards inside the file from a position that a truncation has lost is excluded; it walks on from a cluster that may be free or another file's.
- FatFile.File.Write: as Truncate and AddEntry, starts from a hint inside the table (what a hint behind it does is stated for linking), and takes no bytes that would move the cursor past the largest offset.
- FileRuns.Run: handles not in append mode; a client keeps to `Allowed` (room, offsets in range, after a write that ends on a cluster boundary a seek or a longer read first, no cut exactly at the cursor, no growing over a cursor behind the end whose position is elsewhere or was in a cluster cut off since).
- VirtualPath.ToRealPath: MAXPATHLEN is a parameter; running out of memory is not modelled. Mounting devices and the calls made with a real path are left out.
- FTP replies, data connections, transfers and the commands themselves.

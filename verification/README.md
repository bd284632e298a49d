# Verified model of the ARC boot firmware's FAT engine, memory and loader

A Dafny model of the parts of the firmware in which state and arithmetic meet: the
FAT12/FAT16 engine, the boot page allocator and heap, and the import binder, with
four smaller pieces beside them. `dafny verify dfyconfig.toml` checks everything.

**The FAT engine** is a stack of layers, each proved equal to something simpler.

- `FatFormat`, `FatStore`, `FatTrace`: the on-disk layout (as in the Microsoft FAT
  specification, version 1.03, but with the code's own 12/16-bit threshold), and the
  one-window write-back cache over packed, mirrored entries, which is a plain map for
  every sequence of operations.
- `FatChains`, `FatAllocation`, `FileAllocation`, `FileGrowth`, `ChainFamilies`: chains of
  clusters, the allocator's circular scan, growing and truncating a file, when a growth
  gives the file what it needs, and what any number of such changes keeps.
- `FileRuns`, `TruncatedRuns`: the bounded run list, which agrees with walking the chain.
- `FileData`, `FileTransfer`, `VolumeFiles`, `FatVolume`, `VolumeRuns`: the bytes of a
  file, reading and writing them, and a mounted volume whose open files behave as byte
  strings over whole runs.
- `VolumeSessions`, `VolumeCreate`, `CreationRuns`: files that are opened in any mode,
  closed and made anew; all of them, open or not, behave as byte strings over whole
  sessions.
- `DirectorySlots`, `FatDirectory`, `DirectoryCreate`, `DirectoryRoom`, `DirectoryListing`,
  `FileNames`: looking a name up, adding an entry, how many can be added, listing a
  directory, and the names that paths give and listings show.

**Memory**: `MemoryDescriptors` says what page descriptors cover and what allocations and
heap refills do to them, `BootMemory` is the allocator itself, and `MemoryInitialize`
takes the firmware's list over.

**Imports**: `ExportBinding` resolves one entry point, `ImportGraph` says what a module
needs, `ImportBinder` is the recursive loader, and `ImportClosure` the result.

**Smaller pieces**: `ConfigTree` and `ConfigCopy` (the configuration tree), `ArcNames` and
`DeviceNames` (ARC path tokens and device names), `Terminal` and `TerminalSequences` (the
console state machine, and what whole control sequences do) and `ImageChecksum`. `Arith` holds products and remainders by symbolic sizes.

## Form

State that the program updates in place is a class (`FatStore`, `RunMap`, `Volume`,
`BootMemory`, `Loader`, `Copier`, `Screen`), with its methods proved against functions of
the old state; the file table, the cache window and the run list are arrays. The device is
a sequence of bytes held by `FatStore`. The engine's context structure is split: the BIOS
parameter block and cache are `FatStore`, the run list is `RunMap`. Methods take the chain
they work on, and what they need to know about it, as ghost parameters.

A ghost map (`Fat`) and ghost chains give the meaning; they are never read by executable
code.

## Where the code departs from its comments, or from what one would expect

- A volume of 4079 to 4086 clusters, or of more than 65518, is accepted, but its highest
  cluster numbers read back as reserved or bad: `FatFormat.LinksReadable` gives the exact
  bound, `FatFormat.UnreadableLink` a volume past it, and such geometries are not `Valid`.
- The allocator notices that it has enough clusters only at the top of its loop, so it
  reports a full volume when it needs every free cluster and the last one it examines is
  among them: `FatAllocation.AllocationSucceedsIff`, and `FatAllocation.FreeClusterMissed`
  for a volume on which that happens. What it took, which is all there was, is then left
  as a chain that belongs to no file: `FileAllocation.AllocationFailed`,
  `FatAllocation.NoneLeft`, `ChainFamilies.Leaks`.
- Growing a file can be reported as done without giving it the clusters it needs. If its
  first cluster is a bad or last mark, they go after cluster 2, whosever that is
  (`FileAllocation.GrowthOfBadEntry`, `FileGrowth.BadMarkGrowth`); if its chain ends in a
  free entry, that entry is the first one taken and is left pointing at itself
  (`FileGrowth.SelfLoopGrowth`); and a chain that is a loop already is left one.
  `FileGrowth.GrowthHoldsIff` gives exactly the other cases.
- Truncation does not refill the run list: `TruncatedRuns.RunsAfterTruncation` says when
  the old one is still right, and `TruncatedRuns.RunsGoStale` shows one that is not.
  Superseding a file truncates it before a run list for it exists; deleting an open file
  does not.
- A heap refill while a free descriptor is being split may take pages from that
  descriptor, and a second descriptor may be unavailable after the first went on the
  list: `MemoryDescriptors.GenerateKeepsPagesIff` gives exactly the harmless cases, and
  `MemoryDescriptors.RefillTakesRegion` one that is not. Giving pages back is always
  harmless: `MemoryDescriptors.ReleaseGivesPages`.
- The console's erase-line mode 2 is described as erasing the whole line; the code starts
  at the cursor (`arcfw/arm/fbcon.c:142-144`). `Terminal.EraseLineIff` says when the whole
  line is blank afterwards all the same, and `Terminal.EraseLineFails` gives bytes after
  which it is not.
- Units from 2^31 on print with a sign and read back as something else, with one
  exception, 2179869184: `ArcNames.UnitReadsBack`.
- A new entry put over the end mark of a directory uncovers what lies behind the mark:
  `DirectorySlots.FindOther` says which names turn up, and `DirectorySlots.HiddenNameFound`
  gives a directory where one does. Only a directory that was not cleared has any there.
- A listing can show a name that does not lead back to its entry: `FileNames.ShownNameOpens`
  says exactly when, and `FileNames.DotLeadsElsewhere` that the first entry of every
  subdirectory has such a name.
- Superseding, for writing only, a file that exists allows reading it as well; one that
  does not exist is made without that: `FatVolume.OpenModes`, `VolumeCreate.OpenMissing`.
- In the copy of a list of siblings the code clears the first child's link instead of the
  new sibling's (`arcfw/ported/blconfig.c:242`); leaf siblings are right because heap
  memory is zero, which `BootMemory.BootMemory.AllocateHeap` proves of every block.

## Model

| member | source | states |
|---|---|---|
| `FatFormat.FormattedGeometry` | arcfw/inc/fat.h:276-353 | A BIOS parameter block that mounting accepts and that is formatted sensibly yields a geometry in which reserved area, FAT copies, root directory and clusters follow one another inside the device; every other FAT result rests on that geometry |
| `FatFormat.SectorLayout` | arcfw/inc/fat.h:276-353 | The same geometry counted in sectors, for every such block: the FAT copies lie one after the other behind the reserved sectors, the root directory behind them, cluster i at its number of clusters further on, and there are as many clusters as fit |
| `FatFormat.EntryMeaning` | arcfw/ported/fatboot.c:2160-2222 | For either width by one rule: zero is free, the highest eight values end a chain, the one below them is a bad mark, the seven below that are reserved, and all others are links |
| `FatFormat.LinksReadable` | arcfw/inc/fat.h:353 | Every cluster number of a volume, once stored in an entry, reads back as a link to that cluster if and only if the highest number lies below the reserved values; the 12/16-bit threshold of 4087 does not ensure that by itself |
| `FatFormat.UnreadableLink` | arcfw/inc/fat.h:353 | A volume that goes past the bound and is accepted: 4080 clusters, whose highest number, 4081, does not read back as a link |
| `FatFormat.UnpackPacked` | arcfw/ported/fatboot.c:2329-2350 | The word stored for an entry reads back as the value stored, in the 12-bit packing for odd and even entries and in the 16-bit packing |
| `FatFormat.UnpackOther` | arcfw/ported/fatboot.c:2455-2484 | Storing one entry leaves what every other entry reads as unchanged, although 12-bit neighbours share a byte |
| `FatFormat.NoStraddle` | arcfw/ported/fatboot.c:2277-2295 | The cache window is a multiple of six bytes, so an entry that starts in the window also ends in it: the one-byte window test is enough |
| `FatStore.SetEntry` | arcfw/ported/fatboot.c:2455-2484 | On the raw bytes of a FAT, storing an entry sets that entry of the map the bytes encode and no other |
| `FatStore.EncodingIsLayout` | arcfw/ported/fatboot.c:2329-2350 | A map is encoded by the bytes exactly if, entry by entry, two bytes make a 16-bit entry, the lower one first, and three bytes make two 12-bit entries, as one number with the even entry in its lower half |
| `FatStore.FatStore.constructor` | arcfw/ported/fatboot.c:378-391 | A freshly mounted store has a clean, empty window and stands for what the first copy on the device encodes |
| `FatStore.FatStore.LookupFatEntry` | arcfw/ported/fatboot.c:2266-2350 | Looking an entry up returns the map's entry, whatever window was cached, and writes nothing outside the FAT copies; the map is the one whose entries the bytes of the FAT spell, byte by byte |
| `FatStore.FatStore.SetFatEntry` | arcfw/ported/fatboot.c:2391-2484 | Setting an entry changes that entry of the map, to the value or, on a 12-bit FAT, its lower twelve bits, and no other; the bytes of the FAT then spell the new map, and nothing outside the FAT copies is written |
| `FatStore.FatStore.FlushFatEntries` | arcfw/ported/fatboot.c:2516-2563 | A write-back puts the window, cut off at the end of the FAT, into every copy, leaves every copy as it was elsewhere, and writes nothing outside the copies |
| `FatStore.FatStore.MapWindow` | arcfw/ported/fatboot.c:2282-2328 | Afterwards the byte wanted is in the window; a dirty window was written back first; the map has not changed |
| `FatStore.FatStore.DiskWrite` | arcfw/ported/fatboot.c:2103-2152 | A write to the data area changes exactly the bytes written and leaves the map alone |
| `FatTrace.Execute` | arcfw/ported/fatboot.c:2230-2563 | For any sequence of lookups, stores and write-backs, every lookup answers as a plain map that underwent the same stores, the final map is that map, and nothing outside the FAT copies was written |
| `FatTrace.MapHoldsLastSet` | arcfw/ported/fatboot.c:2242-2245 | In that plain map, entry i is the last value stored at i, else the initial one |
| `FatTrace.CopiesEncodeMap` | arcfw/ported/fatboot.c:2516-2563 | Once nothing is dirty, the bytes on the device where the first copy lies spell the map, two bytes or three to an entry or two, and so do those of every other copy if the copies agreed at mount time |
| `FatChains.ChainDistinct` | arcfw/ported/fatboot.c:3121-3212 | A chain that ends at a last mark passes through no cluster twice |
| `FatChains.SameTail` | arcfw/ported/fatboot.c:3395-3462 | Two chains that share a cluster agree from there to their ends |
| `FatChains.WalkChain` | arcfw/ported/fatboot.c:2594-2603 | Walking a chain cluster by cluster finds byte v in cluster number v / size, at offset v mod size |
| `FatAllocation.ScanOrderIsPermutation` | arcfw/ported/fatboot.c:3700-3730 | The circular scan from the hint examines every cluster of the volume and none twice |
| `FatAllocation.AllocateClusters` | arcfw/ported/fatboot.c:3674-3771 | Takes the first free clusters in scan order, links them into one proper chain ended by a last mark, zeroes them, changes no other FAT entry and no other data byte; reports ENOSPC exactly when the scan, its last step excepted, finds too few |
| `FatAllocation.AllocationSucceedsIff` | arcfw/ported/fatboot.c:3700-3770 | When that is, in terms seen before the call: the free clusters must suffice without the one just before the hint, if that one is free |
| `FatAllocation.FitsByCount` | arcfw/ported/fatboot.c:3700-3770 | By counting: a request for fewer clusters than are free succeeds, one for more fails |
| `FatAllocation.FreeClusterMissed` | arcfw/ported/fatboot.c:3700-3770 | A volume on which it fails with a free cluster to spare: the one before the hint |
| `FatAllocation.ZeroCluster` | arcfw/ported/fatboot.c:3747-3758 | Zeroes exactly the bytes of one cluster, 512 at a time |
| `FileAllocation.ClustersNeededFit` | arcfw/ported/fatboot.c:3391-3395 | The number of clusters computed is the least that holds the bytes |
| `FileAllocation.FindEnd` | arcfw/ported/fatboot.c:3400-3428 | On any FAT with links in range, cyclic chains and bad marks included: how far the walk of at most the given number of clusters gets, and the last entry it passed |
| `FileAllocation.IncreaseFileAllocation` | arcfw/ported/fatboot.c:3352-3462 | For any file, whatever its chain: the clusters missing from the walk are the first free ones of the scan from the last entry passed, put after that entry or into the directory entry; with too few found the directory entry is left as it was and every free cluster is taken; root directory growth succeeds up to its fixed size |
| `FileAllocation.IncreasedChain` | arcfw/ported/fatboot.c:3352-3462 | On a proper chain: either it already suffices and nothing changes, or the old chain is kept as a prefix and continued by the clusters taken, or, with too few found, it is left as it was |
| `FileAllocation.GrowthOfBadEntry` | arcfw/ported/fatboot.c:3400-3462 | A file whose first cluster is neither a link nor zero gains nothing although growing it succeeds: the clusters go after cluster 2, whatever file that belongs to |
| `FileGrowth.GrowthHoldsIff` | arcfw/ported/fatboot.c:3352-3462 | A growth reported as done lets the file reach as many clusters as its new size needs if and only if it had none before, or a walk of that many links passes different clusters, or its chain ends early in an entry that is not free; all of which is seen before |
| `FileGrowth.HoldsIffReachable` | arcfw/ported/fatboot.c:3395-3428 | To reach n clusters from the first one is to have n different clusters one after the other |
| `FileGrowth.EndingIsDistinct` | arcfw/ported/fatboot.c:3400-3428 | A walk down a chain that ends, in whatever entry, passes no cluster twice |
| `FileGrowth.BadMarkGrowth` | arcfw/ported/fatboot.c:3352-3462 | A volume and a file on which it goes wrong: the first cluster is a bad mark, growing succeeds, and the cluster taken continues another file |
| `FileGrowth.SelfLoopGrowth` | arcfw/ported/fatboot.c:3352-3462 | Another: the one cluster of the file holds a free entry, growing to two succeeds, and the cluster is left pointing at itself |
| `FileAllocation.FreeChain` | arcfw/ported/fatboot.c:3607-3632 | Frees the clusters reached from an entry one after the other; ends on every FAT whose links are in range, cyclic chains included, as each step turns a link into a free entry |
| `FileAllocation.TruncatedChain` | arcfw/ported/fatboot.c:3520-3632 | On a proper chain, truncation keeps the first clusters as a proper chain, frees exactly the others, and changes nothing else |
| `FileAllocation.TruncateFileAllocation` | arcfw/ported/fatboot.c:3495-3632 | The FAT becomes the truncated FAT, cyclic chains included; exactly when an allocated file is cut to nothing, its entry keeps the name, gets the archive flag and the time, and no cluster and no size, which then stand on the device field by field |
| `ChainFamilies.RunKeeps` | arcfw/ported/fatboot.c:3327-3771 | Over any run of growing, cutting and failing to grow chains: all chains stay proper, acyclic and pairwise disjoint, and the clusters free and in use, never both, are the same clusters as at the start |
| `FileRuns.LoadMcb` | arcfw/ported/fatboot.c:3060-3215 | Refills the run list from the offset wanted on so that it agrees with walking the chain and covers that offset if the file does; ends on cyclic chains, as the runs left and then the distance to the top of the device decrease |
| `FileRuns.VboToLbo` | arcfw/ported/fatboot.c:3256-3319 | For every offset, however fragmented the file and whatever the run list held: the place that walking the chain finds, a positive count over which the file stays contiguous, and EINVAL exactly past the end of the chain |
| `TruncatedRuns.RunsAfterTruncation` | arcfw/ported/fatboot.c:3495-3632 | A run list cached before a truncation, which is not refilled, stays right if and only if its last run ends within what is left |
| `TruncatedRuns.RunsGoStale` | arcfw/ported/fatboot.c:3495-3632 | A volume and a run list on which it goes wrong: one run of two clusters, cut to one |
| `FileData.LboAtIsChainWalk` | arcfw/ported/fatboot.c:3256-3319 | The reference for a file's offsets is the concatenation of its clusters |
| `FileData.ChainWalkInjective` | arcfw/ported/fatboot.c:2594-2603 | Different bytes of a file lie at different places |
| `FileData.PourPiece` | arcfw/ported/fatboot.c:1895-1935 | Writing a contiguous piece through the chain writes the same slice of the file and no byte of another cluster |
| `FileTransfer.WriteRun` | arcfw/ported/fatboot.c:1893-1940 | Writes run by run in pieces of at most 32 KiB: after each piece the file holds the buffer so far |
| `FileTransfer.WriteRuns` | arcfw/ported/fatboot.c:1868-1943 | The whole buffer is poured into the chain at the position and the position moves past it |
| `FileTransfer.NextReadSize` | arcfw/ported/fatboot.c:1375-1410 | The size of the next physical read, cut at 32 KiB, the run and the end of the file, never changes how much is read in all |
| `FileTransfer.ReadRun` | arcfw/ported/fatboot.c:1362-1444 | What one run delivers is the slice of the file from the position on |
| `FileTransfer.ReadRuns` | arcfw/ported/fatboot.c:1350-1447 | A read delivers exactly min(n, size - position) bytes, equal to that slice of the file, whatever the run boundaries and 32 KiB splits |
| `FileTransfer.ReadsCompose` | arcfw/ported/fatboot.c:1350-1447 | Reading n and then m bytes is reading n + m |
| `VolumeFiles.GrowKeepsFiles` | arcfw/ported/fatboot.c:1850-1866 | Growing, or failing to grow, one open file keeps the volume in order and every other open file's chain, entry and bytes |
| `VolumeFiles.PourKeepsFiles` | arcfw/ported/fatboot.c:1868-1943 | Writing within one file's size patches its contents and keeps those of every other open file |
| `VolumeFiles.OnlyFileKeepsChains` | arcfw/ported/fatboot.c:1850-1943 | What changes only one file leaves every chain disjoint from that file's chain as it is, and its bytes unless it holds the file's directory entry |
| `VolumeFiles.OnlyFileKeepsFiles` | arcfw/ported/fatboot.c:1850-1943 | It also leaves every other file, open or not, in order, apart from that file and with its bytes |
| `FatVolume.Volume.Read` | arcfw/ported/fatboot.c:1325-1448 | Delivers the slice of the file's bytes at the position, moves the position past it, changes no other entry of the file table and no file's bytes |
| `FatVolume.Volume.Grow` | arcfw/ported/fatboot.c:1850-1866 | A file is made to hold a larger size, by distinct clusters that were free, keeping its bytes as a prefix, or nothing changes for any file and ENOSPC is returned; which of the two is decided by the free clusters before the call; the clusters added are no longer free, and after ENOSPC none is; every other chain and file, open or not, stays as it was either way |
| `FatVolume.Volume.Write` | arcfw/ported/fatboot.c:1827-1951 | After a write of b at p the contents are the old ones with p .. p + length replaced and the size is max(old, p + length); every other chain and file, open or closed, stays in order with its bytes, also on ENOSPC, whose exact condition is given; the entry with the new size stands on the device field by field, and the FAT is written back |
| `FatVolume.Volume.Seek` | arcfw/ported/fatboot.c:1551-1593 | The position moves to the target, in 32-bit arithmetic, exactly if it is not past the size; EINVAL otherwise |
| `FatVolume.Volume.OpenFound` | arcfw/ported/fatboot.c:1008-1163 | For a file or directory that a search found: the status and access flags of each open mode; superseding empties the file and changes no other; otherwise its bytes are what its chain holds and nothing changes; its entry stands on the device field by field |
| `FatVolume.OpenModes` | arcfw/ported/fatboot.c:1008-1163 | Mode by mode: reading an existing file always succeeds, creating one is EACCES, a directory mode ENOTDIR, and writing is EROFS exactly for read-only files; a directory opens as a directory only, for reading |
| `FatVolume.Volume.Close` | arcfw/ported/fatboot.c:511-554 | Closing writes the FAT back to every copy, gives up a run list of that file, and changes no other file |
| `VolumeRuns.Execute` | arcfw/ported/fatboot.c:1293-1951 | For any sequence of reads, writes and seeks on open files, the replies, contents, positions and free clusters are those of plain byte strings under the same operations: a write that needs fewer clusters than are free is accepted and takes them, one that needs more is refused, and a refused one leaves none free |
| `VolumeSessions.KnownChanges` | arcfw/ported/fatboot.c:1827-1951 | When one of any number of files, open or not, changes as a write or an emptying does, all stay in order and the others keep their bytes |
| `VolumeSessions.OpenFile` | arcfw/ported/fatboot.c:1008-1163 | A known file, whose entry is read from its place, is opened in any mode: refused, opened as it is, or emptied, its clusters being free again, and every other file keeps its bytes |
| `VolumeSessions.Execute` | arcfw/ported/fatboot.c:511-1951 | For any sequence of opens in every mode, closes, reads, writes and seeks on any number of files, the replies, the bytes and attributes of all files, open or closed, and the free clusters are those of plain byte strings under the same operations; writes are accepted and refused as in a run, and superseding gives clusters back |
| `FileTable.DecodeEncode` | arcfw/inc/fat.h:196-213 | An entry written to the directory and read back is the same entry |
| `FileTable.EncodeDecode` | arcfw/inc/fat.h:196-213 | A raw entry read and written back is the same 32 bytes |
| `FileTable.DecodedAt` | arcfw/inc/fat.h:196-213 | What is read from a place is the entry there, each field at its offset, the numbers with their lower bytes first |
| `FileTable.EncodedAt` | arcfw/inc/fat.h:196-213 | What is written to a place is the entry there, in the same sense |
| `FatDirectory.SearchBlock` | arcfw/ported/fatboot.c:2691-2722 | The entries of one 512-byte read, examined in order: a match, the end mark, or neither |
| `FatDirectory.SearchForDirent` | arcfw/ported/fatboot.c:2654-2807 | Finds exactly the first entry with the name that precedes the end mark, in the root directory, where volume labels are passed over, and in cluster directories; its place and its fields as the bytes there spell them, or ENOENT |
| `DirectorySlots.FindIsFirst` | arcfw/ported/fatboot.c:2673-2807 | What a search passes over and where it stops, on the bytes: used entries of other names or, in the root directory, volume labels; then the entry sought, a never-used one, or the end |
| `DirectorySlots.FirstFreeIsFirst` | arcfw/ported/fatboot.c:2880-2940 | The place of a new entry is the first whose first byte is 0x00 or 0xe5 |
| `DirectorySlots.FindNew` | arcfw/ported/fatboot.c:2673-2965 | An entry put in the first free place, under a name not found before, is found there |
| `DirectorySlots.FindOld` | arcfw/ported/fatboot.c:2673-2965 | Every name found before is found where it was |
| `DirectorySlots.FindOther` | arcfw/ported/fatboot.c:2673-2965 | Any other name is found where it was if it was found, and else exactly where the places behind the end mark, which the new entry uncovers, show it |
| `DirectorySlots.HiddenNameFound` | arcfw/ported/fatboot.c:2673-2965 | A directory in which that happens: an entry takes the place of the end mark, and a name left behind it, not found before, is found |
| `DirectoryCreate.CreateDirent` | arcfw/ported/fatboot.c:2850-2968 | The entry goes to the first deleted or never-used place; a full root directory is left alone with ENOSPC; another full directory gains one zeroed cluster linked at its end, whose first place is taken, or is left alone when none is found; the entry then stands on the device field by field |
| `DirectoryCreate.AddedIsFound` | arcfw/ported/fatboot.c:2673-2965 | After an entry is added under a name not in use, a search finds it where it was put and every earlier name where it was, also when the directory gained a cluster; a name not found before turns up exactly where the places behind the end mark show it, which in a directory with nothing there is nowhere |
| `DirectoryCreate.AddingKeepsOthers` | arcfw/ported/fatboot.c:2850-2968 | Adding an entry, whatever comes of it, leaves every other chain and its bytes alone |
| `VolumeCreate.CreateKeepsFile` | arcfw/ported/fatboot.c:2850-2968 | Adding an entry leaves every file outside the directory, open or not, in order with its chain and bytes, and apart from a file newly entered |
| `VolumeCreate.MadeIsFound` | arcfw/ported/fatboot.c:2673-2965 | A search finds a file just made at its place, and, in a directory with nothing behind its end mark, every other name as before |
| `VolumeCreate.OpenMissing` | arcfw/ported/fatboot.c:1166-1228 | Opening a name that was not found, in each mode but directory creation: refused, or an entry is added and the file is open and empty; the volume stays in order, every other file outside the directory, open or not, keeps its bytes, and the call can be repeated on the directory as it then is |
| `DirectoryRoom.GainableNext` | arcfw/ported/fatboot.c:2900-2965 | A directory that gains one free cluster can still gain all the others, one after the other |
| `DirectoryRoom.CreateRoom` | arcfw/ported/fatboot.c:2850-2968 | The number of entries a directory can still take, from its free places and the free clusters: each entry added takes one off, and an addition is refused exactly when it is zero |
| `CreationRuns.MakeAll` | arcfw/ported/fatboot.c:1166-1228 | Making files of any number of different names not in use, in a directory with nothing behind its end mark: as many are made as the directory can take entries, told before; those made are open and empty, a search of the directory, however often it has grown, finds each where it was put and every other name as before, and every other file, open or not, keeps its bytes |
| `CreationRuns.ExpectedNames` | arcfw/ported/fatboot.c:2673-2965 | What such a search is said to find: for each name made its own place, for any other name what was found before |
| `DirectoryListing.DirectorySpells` | arcfw/ported/fatboot.c:638-690 | The extent map finds a directory's entries at the places the searches use, in the root directory and in cluster directories |
| `DirectoryListing.GetDirectoryEntry` | arcfw/ported/fatboot.c:590-753 | A call returns, in ARC form, the next n entries before the end mark that are neither deleted nor volume labels, from where the last call stopped, and moves the position past what it looked at; EBADF for a file, ENOTDIR when there was nothing to return |
| `FileNames.FirstComponent` | arcfw/ported/fatboot.c:3779-3880 | The loop over a path gives the directory name of its first component and the rest of the path |
| `FileNames.ComponentParts` | arcfw/ported/fatboot.c:3779-3880 | Both spelled out: where the component and its extension end, and each of the eleven characters of the name, in capitals, filled up with spaces, a leading 0xe5 kept as 0x05 |
| `FileNames.ListedName` | arcfw/ported/fatboot.c:3953-3978 | The name a listing shows: the first part up to a space, then, if there is a second, a dot and the second part up to a space |
| `FileNames.DirToArc` | arcfw/ported/fatboot.c:3929-3987 | An entry as listings give it: read-only and directory are the bits 0x01 and 0x10 of byte 11 |
| `FileNames.ShownNameOpens` | arcfw/ported/fatboot.c:3779-3985 | The name a listing shows for an entry leads a path back to that entry if and only if the entry's name is regular: capitals, no separators, spaces only at the ends of its two parts |
| `FileNames.DotLeadsElsewhere` | arcfw/ported/fatboot.c:3779-3985 | The first entry of every subdirectory has a name that is not: it is listed as a dot, which leads elsewhere |
| `FileNames.PathsAreSearched` | arcfw/ported/fatboot.c:3779-3880 | No path without a zero byte makes a search look for the name of an unused or deleted entry |
| `DirectorySlots.BatchesShowAll` | arcfw/ported/fatboot.c:642-752 | Listings of any sizes, one after the other, show what the directory holds, in order and once each |
| `DirectorySlots.VisibleExactly` | arcfw/ported/fatboot.c:642-752 | What it holds: exactly the entries before the first end mark whose first byte is not 0xe5 and which are not volume labels, in order and once each |
| `VolumeRuns.Browse` | arcfw/ported/fatboot.c:590-753 | Listing in batches with reads of other files in between shows what the batches show of the directory as it was |
| `VolumeRuns.BrowseAll` | arcfw/ported/fatboot.c:642-752 | From the start of the directory: exactly its visible entries, in order and once each, as far as asked for |
| `MemoryDescriptors.CarvedRetypes` | arcfw/ported/blmemory.c:468-485 | A heap refill turns the last pages of a free descriptor into heap: no page is lost and none described twice |
| `MemoryDescriptors.RefillSuffices` | arcfw/ported/blmemory.c:439-505 | A refilled heap has room for what it was refilled for: the branch marked as never reached is unreachable |
| `MemoryDescriptors.GenerateKeepsPagesIff` | arcfw/ported/blmemory.c:543-634 | For any descriptor, free or used, and any type: the pages stay described as often as before if and only if there is heap room, or no room and no pages for a first refill, or the refill takes no page of the region; the condition is visible before the call |
| `MemoryDescriptors.RefillTakesRegion` | arcfw/ported/blmemory.c:543-634 | A heap and a list on which it goes wrong: the only free descriptor is being split and the refill takes its last pages |
| `MemoryDescriptors.GenerateGivesRegion` | arcfw/ported/blmemory.c:543-634 | When it is sound: the region, be it all, the start, the end or the middle of the descriptor, goes from the descriptor's type to the given one, refilled pages go from free to heap, no other page changes; failure changes nothing, and its condition is given |
| `MemoryDescriptors.ReleaseGivesPages` | arcfw/ported/peldr.c:431-446 | Giving back the pages of a used descriptor from some page to its end never loses or doubles a page, with or without heap room; each type gains and loses just those pages and those of a refill; failure changes nothing, and its condition is given |
| `MemoryDescriptors.ChooseIsBest` | arcfw/ported/blmemory.c:289-343 | An allocation lands at the base asked for if one free descriptor holds the region, else at the start of a smallest sufficient free descriptor, the first of them; it fails exactly when no free descriptor has enough pages |
| `MemoryDescriptors.RunKeepsPages` | arcfw/ported/blmemory.c:245-634 | Over any run of sound heap and page allocations and releases, refills included, the descriptors describe the same pages as often as at the start; a tiling stays a tiling |
| `BootMemory.BootMemory.AllocateHeap` | arcfw/ported/blmemory.c:407-506 | Every block is 8-byte aligned, zero, apart from all earlier blocks and from the descriptor in reserve, and in heap pages; earlier blocks keep their bytes; a refill uses the reserved descriptor; without pages nothing changes |
| `BootMemory.BootMemory.RefillAndAllocate` | arcfw/ported/blmemory.c:428-505 | The same for the refill case, in which the pages wiped hold nothing that was handed out and the last branch is shown unreachable |
| `BootMemory.BootMemory.Store` | arcfw/ported/blmemory.c:386-405 | Writing to memory that was handed out leaves unused heap memory zero |
| `BootMemory.BootMemory.GenerateDescriptor` | arcfw/ported/blmemory.c:543-634 | For any descriptor and type, does to the heap and the descriptors what the step-by-step definition says, refills between its steps included; when the change is sound and not one of the heap's own pages, everything that holds of the heap is kept, and blocks keep their bytes in any case |
| `BootMemory.BootMemory.ReleasePages` | arcfw/ported/peldr.c:431-450 | The relocation pages of a loaded image, to the end of the descriptor that holds them, become free, and no other page changes type but those of a refill; otherwise nothing changes |
| `BootMemory.BootMemory.AllocateDescriptor` | arcfw/ported/blmemory.c:281-344 | Chooses as ChooseIsBest says and gives the pages the type; blocks handed out keep their bytes; without a sufficient free descriptor nothing changes |
| `BootMemory.BootMemory.FindMemoryDescriptor` | arcfw/ported/blmemory.c:658-685 | Finds a descriptor that holds the page exactly when there is one, and the only one if no page is described twice |
| `MemoryInitialize.FindSource` | arcfw/ported/blmemory.c:93-127 | The stretch of free memory used: the first that ends where the program starts, if large enough, else the first that is; none only if none is large enough |
| `MemoryInitialize.TakenOverPages` | arcfw/ported/blmemory.c:130-239 | The loader's list, with heap and stack carved out and refills while it is made, describes exactly the pages of the firmware's list |
| `MemoryInitialize.TakenOverFits` | arcfw/ported/blmemory.c:130-239 | A list that fits the first heap is taken over without a refill, heap and stack at its end |
| `MemoryInitialize.InitialConverts` | arcfw/ported/blmemory.c:160-239 | Without a refill, page by page and type by type: contiguous memory is free, special memory has the loader's number, the last 8 pages of the stretch are stack, the 16 before them heap, and every other page keeps its type |
| `MemoryInitialize.TakenOverConverts` | arcfw/ported/blmemory.c:160-239 | Whatever refills there were: the same, except that some pages that were free are heap too |
| `MemoryInitialize.FreeWasFree` | arcfw/ported/blmemory.c:160-239 | A page of a free descriptor was free or contiguous for the firmware: no page of the firmware or the loaded program is ever handed out |
| `MemoryInitialize.MemoryInitialize` | arcfw/ported/blmemory.c:62-242 | Fails exactly when no loaded program or large enough free stretch is listed, or the heap runs out and no refill is possible; else the list covers the firmware's pages, each with its type or as heap and stack, and the heap is in order |
| `ExportBinding.SearchNames` | arcfw/ported/blbind.c:489-528 | The binary search of a strictly sorted name table finds a name exactly where a linear search does |
| `ExportBinding.CompareAtDifference` | arcfw/arm/clib.c:73-77 | Names are in the order of the first place where they differ, the end of a name coming first |
| `ExportBinding.BindImportName` | arcfw/ported/blbind.c:441-546 | Binding by ordinal, hint or search gives the one entry point that the import stands for, whatever the hint: the function at the ordinal listed for the name, or at the place that is the ordinal counted from the base with 32-bit wrap-around; it fails if there is none |
| `ExportBinding.ResolveFailsIff` | arcfw/ported/blbind.c:436-446 | It fails exactly when the name is not listed or the ordinal, counted from the base with 32-bit wrap-around, is out of range |
| `ExportBinding.CompareDllName` | arcfw/ported/blbind.c:575-607 | Module names match exactly when they are of one length and agree character by character, or in two cases of one letter |
| `ImportBinder.Loader.constructor` | arcfw/ported/blbind.c:99-180 | Modules loaded by themselves start with a load count of one and nothing bound |
| `ImportBinder.Loader.CheckForLoadedDll` | arcfw/ported/blbind.c:210-236 | Finds the loaded module of that name and counts the request, or finds none |
| `ImportBinder.Loader.ScanImportAddressTable` | arcfw/ported/blbind.c:640-680 | Binds every thunk of the table once, or shows one that cannot be bound |
| `ImportBinder.Loader.ScanImportDescriptorTable` | arcfw/ported/blbind.c:274-376 | Ends on every finite library, cycles and self-imports included; on success the invariant holds, every new module is finished and needed by the module scanned, and no other module is touched; on failure something it needs cannot be bound |
| `ImportClosure.BindAll` | arcfw/ported/blbind.c:299-375 | Scanning every given module leaves nothing to do, or shows a given module that cannot be bound |
| `ImportClosure.LoadedAreTheNeeded` | arcfw/ported/blbind.c:299-375 | In the end the loaded modules are exactly those reachable from the given ones, each once up to case |
| `ImportClosure.AllBound` | arcfw/ported/blbind.c:358-370 | Every thunk of every non-self import is bound to the entry point of the module it names that its name or ordinal stands for |
| `ImportClosure.LoadCounts` | arcfw/ported/blbind.c:222-228 | A load count is what the module came with plus the number of non-self import descriptors that name it |
| `ImportClosure.SuccessMeansSound` | arcfw/ported/blbind.c:299-375 | Success excludes a missing module, a missing export table and an unresolved import anywhere in what is needed; with the failure case of BindAll this is an equivalence |
| `ConfigCopy.Copier.Initialize` | arcfw/ported/blconfig.c:127-314 | Copying a list of children, with all that is under them, appends the entries, links, identifiers and data of the whole list and sets the parent's child link, or the root; it stops exactly when the heap refuses memory for one of them |
| `ConfigCopy.FirstMirrors` | arcfw/ported/blconfig.c:127-314 | Entries laid out so mirror the tree: the same components, identifiers and data, with right parent, child and sibling links |
| `ConfigCopy.Copier.CopyTree` | arcfw/ported/blconfig.c:127-314 | The copy of a firmware tree mirrors it, with one entry for each component, unless the heap refuses memory for one |
| `ConfigTree.SearchConfigTree` | arcfw/ported/blconfig.c:352-380 | Calls back for every matching node, children before their parent, until the callback says to stop |
| `ConfigTree.SelectedExactly` | arcfw/ported/blconfig.c:352-380 | Matching are exactly the components that agree with every part that the search gives, in order and once each |
| `ConfigTree.EveryNode` | arcfw/ported/blconfig.c:352-380 | The order of the search has every node of the tree, named by the way to it ... |
| `ConfigTree.EachNode` | arcfw/ported/blconfig.c:352-380 | ... and nothing else, each with its own component ... |
| `ConfigTree.NodeOrder` | arcfw/ported/blconfig.c:352-380 | ... once, after everything below it and before its later siblings and all below them |
| `ConfigTree.FindConfigurationEntry` | arcfw/ported/keconfig.c:90-193 | Returns a node that matches, and none exactly when no node of the tree matches |
| `ArcNames.EmitUint` | arcfw/arm/clib.c:132-140 | Appends the decimal digits of the number |
| `ArcNames.DigitsAreDecimal` | arcfw/arm/clib.c:132-140 | The i-th character stands for the digit at its power of ten, and only zero starts with a zero |
| `ArcNames.GetNextToken` | arcfw/ported/blconfig.c:730-766 | Splits off the name up to a parenthesis and the unit, every character of which counts as a digit in 32-bit arithmetic |
| `ArcNames.TokenRead` | arcfw/ported/blconfig.c:730-766 | A name, a 32-bit number in parentheses, in decimal, and anything after them give that token and what follows |
| `ArcNames.PrintedTokens` | arcfw/ported/blconfig.c:730-766 | Printing a list of tokens and reading it back gives the list if and only if no name holds a parenthesis and every unit reads back |
| `ArcNames.UnitReadsBack` | arcfw/arm/clib.c:198-203 | Of the 32-bit units, those below 2^31 and 2179869184 read back after printing, and no others: the rest print with a sign, which counts as a digit |
| `DeviceNames.MatchToken` | arcfw/ported/blconfig.c:796-828 | The place of the token among the match strings up to case, or their number |
| `DeviceNames.DeviceForms` | arcfw/ported/blconfig.c:476-694 | Which lists of tokens are devices, and their NT prefix: adapters, then a hard disk with its unit and a partition, the first by default, or a floppy or CD-ROM with its unit; exactly these |
| `DeviceNames.GenerateDeviceNames` | arcfw/ported/blconfig.c:476-694 | Accepts exactly the names made of adapters and a CD-ROM, floppy or hard disk with its partition, and gives their canonical form and NT prefix |
| `DeviceNames.CanonicalIsFixed` | arcfw/ported/blconfig.c:476-694 | A canonical name, the default partition included, is its own canonical name if and only if every unit in the name reads back |
| `Terminal.FeedKeepsBounds` | arcfw/arm/fbcon.c:216-281 | Every byte keeps row, column and parameter index in range, draws on the grid only, and leaves lines out of sight alone |
| `Terminal.Screen.Putc` | arcfw/arm/fbcon.c:216-281 | Every byte does to the screen what it does to a roll of paper on which nothing moves |
| `Terminal.Screen.CsiDispatch` | arcfw/arm/fbcon.c:157-207 | The final byte of a control sequence does what the paper version does |
| `TerminalSequences.SequenceActs` | arcfw/arm/fbcon.c:157-258 | From the bytes: an introducer, up to eight decimal numbers and a final byte move the cursor, erase or set reverse video as that byte says with those numbers, within the screen, and leave it in plain text |
| `TerminalSequences.ControlByte` | arcfw/arm/fbcon.c:250-274 | What carriage return, backspace and tab do in plain text, and that the other control bytes do nothing |
| `TerminalSequences.NewLineByte` | arcfw/arm/fbcon.c:123-131 | A new line moves down, and on the last row takes a blank line of paper |
| `TerminalSequences.PrintedByte` | arcfw/arm/fbcon.c:272-279 | A printed byte sets the cell at the cursor, on a new line first when the row is full |
| `Terminal.Screen.EraseInLine` | arcfw/arm/fbcon.c:139-149 | Blanks the cells from cursor or line start to cursor or line end, as far as there are cells |
| `Terminal.EraseLineIff` | arcfw/arm/fbcon.c:134-149 | Erase-line mode 2, described as erasing the whole line, does so if and only if the cells left of the cursor are such blanks already |
| `Terminal.EraseLineFails` | arcfw/arm/fbcon.c:134-149 | Bytes after which it does not: a letter, then the control sequence |
| `Terminal.Screen.NextLine` | arcfw/arm/fbcon.c:123-131 | Goes to the next line, which scrolls the screen or takes a new line of paper |
| `Terminal.Screen.PutAll` | arcfw/arm/fbcon.c:216-281 | For every stream of bytes the screen is the last rows of the paper |
| `Terminal.RunKeepsGone` | arcfw/arm/fbcon.c:64-76 | What has scrolled out of sight never changes again |
| `ImageChecksum.ChkSum` | arcfw/ported/peldr.c:481-499 | The folded sum is the word sum brought to 16 bits: congruent modulo 65535 and zero only for zero |
| `ImageChecksum.ChecksumsChain` | arcfw/ported/peldr.c:357-376 | The checksum of a file read in pieces is that of the whole |
| `ImageChecksum.ChecksumMeaning` | arcfw/ported/peldr.c:481-499 | It does not depend on the order of the words, is their sum modulo 65535, and is zero from a zero start for all-zero words only |
| `ImageChecksum.RemoveCheckSum` | arcfw/ported/peldr.c:379-383 | Whatever the other words add up to, what is left is congruent to their checksum modulo 65535, and equal to it exactly when they do not add up to a positive multiple of 65535 or the stored words are both zero |
| `ImageChecksum.RemovalCongruent` | arcfw/ported/peldr.c:379-383 | The result is congruent to the checksum with those words zeroed |
| `ImageChecksum.RemovalExact` | arcfw/ported/peldr.c:379-383 | It equals that checksum if and only if the other words do not sum to a positive multiple of 65535 or the stored words are both zero |

## Left out

- Mounting and path lookup: `FatOpen`'s walk along a path and the remount that clears the
  context; a run starts from a mounted volume, `FatVolume.Volume.OpenFound` enters a file
  that a search found, and `VolumeCreate.OpenMissing` one that it did not.
- Device errors and the firmware calls below the engine: transfers succeed.
- DoubleSpace volumes, which are compiled out.
- Deleting and renaming files, creating directories, changing file attributes, and the
  clock; the time stamp written on truncation and creation is a parameter.
- Formatting that mounting does not check is assumed once, in `FatFormat.Bpb.Formatted`:
  links in range, a FAT long enough for its clusters, at least 512 bytes to a cluster, a
  root directory of whole sectors, a volume below 4 GiB, and a last cache window that ends
  inside the device.
- Each file is open at most once, and open files share no cluster or directory entry;
  this is what `FatVolume.Volume.OpenFound` asks of a file.
- FatVolume.Volume.Write: asks that position plus length stay below 2^32, where the code's
  sum would wrap. That the file is not a directory is an assumption: closing a file clears
  its open flag only (`arcfw/ported/fatboot.c:530`), opening a directory sets open and read
  (1051-1052), and `BlWrite` looks at the open and write flags (`arcfw/ported/blio.c:665-666`),
  so a directory opened where a writable file was can reach this code.
- VolumeSessions.Execute: the files are known at the start and none is a directory, each is
  open at most once, none reaches 4 GiB, and their entries are where a search finds them;
  creation and listing are proved beside it, in `CreationRuns.MakeAll` and
  `VolumeRuns.BrowseAll`.
- VolumeCreate.OpenMissing: the directory is not open as a file itself, and the entries of
  open files have names that a search can find; the mode that creates a directory is left out.
- FileRuns.VboToLbo: device and file offsets are unbounded numbers; on volumes below 4 GiB
  they never reach 2^32.
- BootMemory.BootMemory.AllocateHeap: memory below 1 GiB and requests below 1 GiB, so that
  address arithmetic does not wrap; list nodes are values on a sequence, their bytes in heap
  memory are not written out.
- BootMemory.BootMemory.GenerateDescriptor: of a change that gives pages to the loader heap
  or takes them from it, or makes free pages free again, it is said what becomes of the
  heap and the descriptors, but not that blocks and heap pages still go together.
- BootMemory.BootMemory.ReleasePages: the page given is one of an image, neither free nor
  heap.
- MemoryInitialize.MemoryInitialize: the parameter block must fit the first heap, and no
  page may be on the firmware's list twice.
- ImportBinder.Loader.ScanImportDescriptorTable: loading a file is looking its name up in a
  library; heap exhaustion, load messages and image relocation are not modelled, and an
  entry point is a pair of module and offset instead of an address.
- ConfigCopy.Copier.Initialize: entries are numbered in the order of allocation instead of
  being reached by address, and the heap's refusals are a parameter.
- ConfigTree.FindConfigurationEntry: the search from the start; resuming from an earlier
  match, where the sibling loop compares the wrong node, is left out.
- ArcNames.GetNextToken: fixed-size token buffers are unbounded strings.
- Terminal.Screen.Putc: cells instead of pixels, a console of at least one cell, and
  control sequence parameters as unbounded numbers.
- ImageChecksum.ChkSum: starts from a 16-bit partial sum, as both callers do.
- Relocation and section loading, the registry hive, the shell and line editor, boot menu,
  USB, serial, mailbox, framebuffer and timer code.

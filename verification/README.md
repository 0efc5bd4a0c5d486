# Proofs about FatFs, the HTTP request parser and the RNDIS transmitter

A Dafny model of three parts of the firmware, with proofs about whole runs:

- **FatFs** (`FatFs/ff.c`): the one-sector window and its write-back, the FAT as a map from cluster numbers
  to entries, the allocation of cluster chains, open files, directory tables with long names, the link map of
  fast seek, the wildcard matcher, the table of open files, mounting and formatting.
- **The HTTP request parser** (`WEB/http-server/http_req.c` over `WEB/http-server/cparser.c`), which may be
  given a request in pieces.
- **The RNDIS transmit side** (`LRNDIS/src/usbd_rndis.c`), against the completions of the USB hardware and a
  host that puts packets together again by section 5.8.3 of the USB 2.0 specification.

Objects whose fields the source updates are classes (`Volume`, `File`, `Dir`, `Locks`, `Parser`, `ReqBuffer`,
`Adapter`); their methods follow the loops and branches of the source and are tied by their contracts to
functions and predicates on values, about which the lemmas are. `dafny verify dfyconfig.toml` checks everything.

The files, from the drive upwards: `Bits`, `Layout` (sectors, geometry, FAT entries), `Chains`, `FreeSpace`,
`Volume`, `ChainHeap`; `FileImage`, `FileUpdate`, `FileSeek`, `FileCut`, `Clmt`, `File`, `FileRun`, `FastRun`;
`Lfn`, `NumName`, `DirScan`, `DirNames`, `DirTable`, `DirWhole`, `Dir`, `DirRun`, `Mkdir`; `Pattern`, `LockTable`; `Mount`,
`SyncInfo`, `MkfsPlan`, `Mkfs`; `HttpSpec`, `HttpChunks`, `HttpCuts`, `HttpPieces`, `HttpText`, `HttpRound`,
`HttpReq`; `RndisSpec`, `Rndis`.

The configuration of FatFs that is modelled: read and write (`_FS_READONLY` 0), a sector buffer per file
(`_FS_TINY` 0), long names (`_USE_LFN`, a name buffer of 255 characters) with a single-byte code page, sectors
of 512 bytes, no relative paths (`_FS_RPATH` 0), one FAT written by formatting and one or two accepted by a
mount, fast seek, wildcards, formatting and open-file locks on. The drive is a sequence of sectors whose reads
and writes succeed inside it. The bounds between the FAT sub-types are those of the source
(`FatFs/ff.c:427-429`), which differ from the FAT32 File System Specification on purpose. Case folding is any
function that maps only 0 to 0. Plain `char` in the HTTP parser is unsigned, as on the ARM core of the firmware.

## Model

| member | source | states |
|---|---|---|
| VolumeModel.Volume.constructor | FatFs/ff.c:2346-2425 | a mount starts with an empty window and the counters of the FSINFO sector; the image it shows is the drive, every sector of the second FAT copy standing for its original |
| VolumeModel.Volume.SyncWindow | FatFs/ff.c:773-797 | writing the dirty window back, to both FAT copies for a FAT sector, changes nothing of the logical image and leaves the window clean; the copies agree but for a sector waiting in the window |
| VolumeModel.Volume.MoveWindow | FatFs/ff.c:802-823 | the window shows exactly the logical content of the sector asked for, the logical image and the FAT stay, also when a window used as scratch is left for another sector |
| VolumeModel.Volume.SyncFs | FatFs/ff.c:833-862 | afterwards the drive itself holds the logical image, with the FSINFO sector rewritten if it was due; then, where a cluster of 2 to 120 is in use, the FAT is what it was if and only if the FSINFO sector does not lie in the FAT, and else its first 128 entries are lost while the second copy keeps them |
| SyncInfo.CountThenSync | FatFs/ff.c:833-862 | `f_getfree` and then `sync_fs` on a mounted volume keep the clusters in use if and only if the FSINFO sector has a place of its own |
| SyncInfo.InfoInFatIff | FatFs/ff.c:2346-2397 | which is so exactly with two reserved sectors or more |
| SyncInfo.OneReserved | FatFs/ff.c:2346-2425 | a mount accepts a FAT32 volume with an FSINFO sector and one reserved sector |
| FreeSpace.FirstSectorLost | FatFs/ff.c:838-850 | an FSINFO sector written over the first FAT sector replaces 128 entries by what its double words read as, and leaves all others |
| FreeSpace.ClustersLost | FatFs/ff.c:838-850 | entries 2 to 120 become free; the FAT stays only if it read as an FSINFO sector before |
| VolumeModel.Volume.ZeroCluster | FatFs/ff.c:1237-1245 | the clean-up in `dir_next` zeros exactly the new cluster, through the window, and leaves a valid window at its first sector |
| Mkdir.NewTable | FatFs/ff.c:3693-3716 | `f_mkdir` writes the dot entries and zeros to exactly the new cluster; the window it leaves shows its sector if and only if a cluster has more than one sector |
| Mkdir.NewTableThenMove | FatFs/ff.c:3693-3722 | the next move of the window, to any sector but the one it is at with one-sector clusters, makes it valid again with the right content |
| Mkdir.BuildDots | FatFs/ff.c:3695-3708 | the two entries carry the names `.` and `..`, the directory attribute, the time, their clusters, and zeros |
| VolumeModel.Volume.GetFat | FatFs/ff.c:891-935 | reads entry `clst` of the FAT seen as a map, and 1 for a number out of range, for all three widths and for entries across two sectors |
| VolumeModel.Volume.PutFat | FatFs/ff.c:946-999 | exactly entry `clst` of the map takes the value cut to the entry's width, no sector outside the FAT changes, and a FAT32 entry keeps its reserved top four bits |
| Layout.Put12 | FatFs/ff.c:955-976 | setting the three nibbles of a FAT12 entry makes it the truncated value and changes no other entry, shared bytes and sector borders included |
| Layout.Put16 | FatFs/ff.c:977-982 | storing a FAT16 word changes that entry of the map only |
| Layout.Put32 | FatFs/ff.c:983-991 | storing the merged double word makes the entry the low 28 bits of the value, keeps all other entries and fixes the raw double word |
| Layout.MergeKeepsLow | FatFs/ff.c:985-988 | merging keeps the 28 low bits of the value and or-s the old top four bits in; they stay for every value below 2^28 |
| Layout.EntryBytes | FatFs/ff.c:891-935 | an entry by the bytes of the FAT: a byte and a half, two bytes, or 28 bits of four |
| Layout.Clust2Sect | FatFs/ff.c:873-881 | the first sector of a valid cluster and 0 for 0, 1 and numbers past the end, by one wrapping comparison |
| Chains.Acyclic | FatFs/ff.c:1026-1048 | a terminated chain visits no cluster twice |
| Chains.SharedTail | FatFs/ff.c:1026-1048 | chains that share a cluster share everything after it |
| Chains.FreeChain | FatFs/ff.c:1010-1052 | freeing from the first cluster of a chain frees exactly the clusters of the chain |
| Chains.FreedIsReached | FatFs/ff.c:1026-1048 | on any FAT content, cyclic ones included, freeing link by link ends, frees exactly the clusters that are reached along entries above 1, and fails if and only if it meets an entry that is 1 |
| Chains.AppendChain | FatFs/ff.c:1087-1102 | linking a free cluster behind the tail gives the chain with exactly that cluster appended |
| Chains.CutChain | FatFs/ff.c:3561-3576 | marking a cluster as the last leaves its prefix as a chain and the rest as a chain of its own |
| Chains.StretchChain | FatFs/ff.c:1063-1113 | `create_chain` on an interior cluster returns its successor and changes nothing, on the tail it appends one free cluster or reports that none is free |
| Chains.ScannedUpTo | FatFs/ff.c:1078-1096 | the cyclic scan stops at the first free cluster after its start |
| Chains.ScannedAll | FatFs/ff.c:1078-1096 | a scan that comes back to its start has seen that no cluster is free |
| Chains.NewClusterIs | FatFs/ff.c:1063-1096 | a new cluster is the first free one, cyclically, behind the cluster to stretch, or behind the hint for a new chain, or behind cluster 1 if the hint is no cluster number |
| Chains.FreeCountIs | FatFs/ff.c:3494-3531 | the count of free clusters is the number of clusters whose entry is 0 |
| VolumeModel.Volume.FindFree | FatFs/ff.c:1072-1096 | the scan ends from every hint; 0 means that no cluster is free, a cluster number is the next fit |
| VolumeModel.Volume.RemoveChain | FatFs/ff.c:1010-1052 | ends on every FAT content, frees exactly the clusters that are reached, fails exactly where an entry that is 1 is met, writes to no sector outside the FAT, and keeps an accurate free counter accurate |
| VolumeModel.Volume.CreateChain | FatFs/ff.c:1063-1113 | successor, next-fit cluster, no free cluster or internal error, each with the map it leaves; a new cluster is the first free one behind the cluster given or the hint; keeps an accurate free counter accurate |
| VolumeModel.Volume.CutAfter | FatFs/ff.c:3561-3576 | cuts a chain after cluster `k` and frees the rest, nothing else |
| ChainHeap.AddChain | FatFs/ff.c:1087-1102 | a new chain in a sound heap leaves all chains disjoint and the heap complete |
| ChainHeap.StretchOne | FatFs/ff.c:1087-1102 | stretching one chain of the heap keeps all chains acyclic and disjoint and loses no cluster |
| ChainHeap.CutOne | FatFs/ff.c:3561-3576 | cutting or removing one chain keeps the others as they are and returns the rest to the free clusters |
| ChainHeap.Run | FatFs/ff.c:1010-1113 | for every client that chooses each call of `create_chain`, `remove_chain` and the cut of `f_truncate` by the results so far, chains it made itself included, and removes chains by their first clusters: the chains stay acyclic and pairwise disjoint, no cluster is lost, an accurate counter stays accurate and no sector outside the FAT is touched |
| ChainHeap.ScriptIsLegal | FatFs/ff.c:1010-1113 | a client that stretches, cuts and deletes chains only while they are there is such a client, on full volumes, too |
| ChainHeap.RunScript | FatFs/ff.c:1010-1113 | every such script, of chains started, stretched, cut after their first clusters and deleted in any order, keeps the heap sound |
| FreeSpace.ZerosAreFree | FatFs/ff.c:3494-3531 | a scan over all entries counts the free clusters plus the reserved entries 0 and 1 that are zero |
| FreeSpace.ZeroEntryCounted | FatFs/ff.c:3509-3527 | with a zero entry 0 the scan finds two free clusters where there is one |
| FreeSpace.FsInfoRoundTrip | FatFs/ff.c:838-850 | a mount reads from the FSINFO sector the two numbers the last synchronisation wrote |
| FreeSpace.InfoBytes | FatFs/ff.c:838-850 | the sector has the three signatures, the free count at byte 488, the last cluster allocated at byte 492, and zeros |
| FreeSpace.LoadBytes | FatFs/ff.c:2403-2420 | a mount takes the two numbers from these bytes if the signatures are there |
| VolumeModel.Volume.GetFree | FatFs/ff.c:3476-3534 | a plausible counter is returned as it is; the FAT12 scan counts the free clusters, the raw scan of FAT16 and FAT32 is accurate if and only if entries 0 and 1 are not zero |
| FileModel.File.constructor | FatFs/ff.c:2628-2645 | an open file starts at byte 0 with the content its chain and size describe |
| FileModel.File.Read | FatFs/ff.c:2657-2748 | returns exactly the bytes from the pointer on, as many as wanted or left, through the private sector buffer and by direct transfers alike, by the FAT or by a link map, and changes no byte |
| FileModel.File.Write | FatFs/ff.c:2758-2871 | replaces exactly the bytes from the pointer on, stretching the file if needed; fewer than given only at 4 GB or at the end of the chain and at or past the old end of the file, with no cluster free where there is no link map; with one the chain and all of the FAT stay as they are; no sector outside the file and the FAT changes |
| FileModel.File.Seek | FatFs/ff.c:3173-3246 | goes to the offset, or to the end when the file cannot grow, keeps every byte below the old size, and leaves cluster and sector of the new position in place |
| FileModel.File.Truncate | FatFs/ff.c:3543-3590 | cuts the content at the pointer and frees exactly the clusters that are no longer needed; a link map stays the map of the chain if and only if no cluster is freed |
| FileModel.File.SeekFast | FatFs/ff.c:3145-3170 | a seek with a link map arrives where walking the chain arrives, and changes no byte; it fails if and only if the map was made when there was no cluster and the goal is not byte 0 |
| FileModel.File.MakeLinkMap | FatFs/ff.c:3118-3143 | the table becomes the link map of the chain if it has as many items as the encoding needs, else it is refused and is no map; the sticky error is set exactly for an unlucky chain; the file is as it was |
| FastRun.Run | FatFs/ff.c:2657-2871 | every run of reads, writes and seeks on a file with its link map is, result by result, the run of a byte array of fixed capacity with a cursor; the FAT stays as it is and another file keeps its sectors |
| FastRun.FastIsStep | FatFs/ff.c:3145-3170 | a call with a link map does what it does without one if and only if it would not stretch the file |
| FastRun.FastIsFullStep | FatFs/ff.c:2790-2801 | a write that stops at the end of the chain is one on a volume that is full |
| FastRun.TruncateThenFollow | FatFs/ff.c:3543-3590 | after a truncation the link map leads, past the new end of the chain, into clusters that are free |
| FileCut.ClustersForIsCeiling | FatFs/ff.c:3561-3576 | the clusters a truncated file keeps are its size divided by the cluster size, rounded up |
| FileRun.Run | FatFs/ff.c:2657-2871 | every run of reads, writes, seeks and truncations on an open file is a run of a growable byte array with a cursor, whose writes are short only at 4 GB or at its end on a full volume, and another file keeps its clusters and its sectors |
| FileRun.InsideIsWhole | FatFs/ff.c:2785-2801 | data that lies inside the file is written whole, on a full volume, too |
| FileImage.ByteIs | FatFs/ff.c:2785-2815 | byte `p` of a file is that of the sector that the cluster of the chain and the offset name, or of the dirty sector buffer |
| FileRun.ReadBack | FatFs/ff.c:2758-2871 | writing, seeking back and reading gives the bytes that were written |
| FileRun.Untouched | FatFs/ff.c:2657-2871 | over a whole run a byte changes only when a write covers it or a truncation cuts it off |
| FileRun.ForeignGrown | FatFs/ff.c:1087-1102 | stretching a file leaves every chain that shares no cluster with it as it was |
| Lfn.FitLfn | FatFs/ff.c:1411-1436 | the entry becomes the order, with 0x40 for the last fragment, five characters of the name low byte first, 0x0F, 0, the checksum, six characters, 0, 0 and two characters: one 0 after the name, fillers after that; no other byte of the window changes |
| Lfn.FragmentBytes | FatFs/ff.c:1411-1436 | an entry is fragment `ord` of a name exactly if its 32 bytes are these |
| Lfn.CmpLfn | FatFs/ff.c:1347-1373 | accepts an entry exactly if the 13 characters at bytes 1 to 10, 14 to 25 and 28 to 31, up to the first 0, are those of the buffer from their place on, up to case, the others are fillers, and a full last fragment ends the name |
| Lfn.CmpIff | FatFs/ff.c:1347-1373 | all fragments of a name of up to 254 characters are accepted if and only if the names are equal up to case |
| Lfn.LongestNotFound | FatFs/ff.c:1347-1373 | the last fragment of a name of 255 characters does not even agree with its own name |
| Lfn.PickLfn | FatFs/ff.c:1378-1406 | accepts exactly the entries whose characters at these bytes end in fillers and fit in the buffer, and leaves them there from their place on, with a 0 after a full last fragment |
| Lfn.PickRoundTrip | FatFs/ff.c:1378-1436 | a name of 1 to 253 characters cut into fragments and picked back is the same name |
| Lfn.LongNamesRefused | FatFs/ff.c:1391-1400 | the last fragment of a name of 254 or 255 characters cannot be picked |
| Lfn.OneByteChangesSum | FatFs/ff.c:1508-1517 | short names that differ in exactly one byte have different checksums |
| Lfn.SumPrefix | FatFs/ff.c:1508-1517 | each byte is added to the sum so far, rotated to the right by one bit |
| NumName.GenNumName | FatFs/ff.c:1449-1497 | the `seqno`-th candidate: the body cut to make room, `~`, and the number or the hash in hexadecimal, blanks |
| NumName.NumberedIs | FatFs/ff.c:1475-1496 | the body up to its first blank, or as much of it as leaves room, `~`, the digits, blanks; the extension stays |
| NumName.HexIs | FatFs/ff.c:1475-1481 | the digits are upper-case hexadecimal with the value of the number, and none too many |
| NumName.NumberedInjective | FatFs/ff.c:1475-1496 | different numbers give different short names |
| NumName.HashInjective | FatFs/ff.c:1459-1474 | for one long name different sequence numbers have different hashes |
| NumName.HashBitIs | FatFs/ff.c:1459-1474 | one step of the hash shifts a bit in and reduces by 0x11021 where one comes out |
| NumName.CandidatesDiffer | FatFs/ff.c:1449-1497 | the first five candidates are pairwise different, and so are all those with a hash |
| DirScan.RegisterFind | FatFs/ff.c:1528-1579 | a name that was not found, registered in the first free run of a table with its end marks last, is found exactly at the new entry, with its first fragment reported |
| DirNames.FindIff | FatFs/ff.c:1528-1579 | on every table the search ends at the first entry that carries the name: its 11 bytes are those of a short name that is compared, or right before it stand fragments of one long name, tied by order and checksum, whose characters are those of the name up to case; at none exactly if there is none before the end mark |
| DirNames.LongNamedIff | FatFs/ff.c:1528-1579 | an entry with a whole long name of up to 254 characters carries exactly the long names that are equal to it up to case |
| DirNames.NoLongName | FatFs/ff.c:1528-1579 | an entry with no fragment right before it carries no long name |
| DirScan.EntryKinds | FatFs/ff.c:1546-1567 | free entries begin with 0 or 0xE5; of the others those with the attributes 0x0F are fragments, those without the volume bit short names |
| DirScan.ShortEntryBytes | FatFs/ff.c:1697-1712 | a new short entry is the 11 bytes of the name, the case flags at byte 12, and zeros |
| DirScan.DistinctAfter | FatFs/ff.c:1648-1715 | registering a short name that a search did not find keeps the short names pairwise distinct |
| DirScan.TidyAfter | FatFs/ff.c:1272-1297 | registering in the first free run keeps all end marks behind all other entries |
| DirScan.RemoveRestores | FatFs/ff.c:1726-1762 | wiping exactly the registered entries leaves the entries in use that were in use before |
| DirScan.RemoveForgets | FatFs/ff.c:1726-1762 | and the name is not found any more |
| DirWhole.Found | FatFs/ff.c:1528-1579 | a search ends at an entry with a short name in use, and reports the latest last fragment among the fragments right before it, or none |
| DirWhole.RemoveUndoes | FatFs/ff.c:1726-1762 | deleting what was just registered restores the set of live entries if and only if it has a long name, or long names are not compared, or no unfinished long name ends right before its place |
| DirWhole.LeftOverIsLost | FatFs/ff.c:1726-1762 | a left-over last fragment right before a new short entry is reported as its start, so that deletion takes it away as well |
| DirWhole.CompleteAfterCreate | FatFs/ff.c:1648-1715 | registering keeps every fragment part of a complete object tied by order and checksum |
| DirWhole.CompleteAfterRemove | FatFs/ff.c:1726-1762 | deleting keeps every fragment that is left part of a complete object |
| DirWhole.ObjectStays | FatFs/ff.c:1726-1762 | deleting one object changes no entry of another |
| DirWhole.NoneUnfinished | FatFs/ff.c:1528-1579 | where all long names are complete none is unfinished before a free entry |
| DirWhole.LongestIsNotNamed | FatFs/ff.c:1528-1579 | a name of 255 characters whose short name is not compared is not found after it was registered |
| DirTable.EntriesApart | FatFs/ff.c:1153-1191 | different indices of a table are different places on the drive, in chained tables and in static roots |
| DirTable.EntryBytes | FatFs/ff.c:1153-1191 | entry `k` is the 32 bytes at place `k % 16` of the sector that the static root or the chain names |
| DirTable.EntriesStretched | FatFs/ff.c:1237-1245 | a table stretched by a zeroed cluster has its old entries and blank ones behind them |
| DirTable.FindExtended | FatFs/ff.c:1528-1579 | a name that is not in a table is not in the stretched table |
| DirTable.CreateDone | FatFs/ff.c:1648-1715 | after a successful registration the table is tidy, short names are distinct, every entry in use is unchanged, and the search ends at the new entry |
| DirModel.Dir.Sdi | FatFs/ff.c:1153-1191 | succeeds exactly for the indices of the table, and then cluster, sector and offset are those of the entry |
| DirModel.Dir.Next | FatFs/ff.c:1201-1261 | one step leaves cluster, sector and offset where random access to the next index puts them; at the end it reports the end, stretches by a blank cluster, or reports that none is free |
| DirModel.Dir.Find | FatFs/ff.c:1528-1579 | ends at the first entry that carries the name, by its bytes and those of the fragments right before it, and leaves the object there, or at none exactly if no entry before the end mark does; nothing on the volume changes |
| DirModel.Dir.Alloc | FatFs/ff.c:1272-1297 | ends at the first run of the free entries asked for, or there is none and the table cannot be stretched |
| DirModel.Dir.NumberName | FatFs/ff.c:1666-1676 | picks the first of the 99 candidates that no short name in use has, or all 99 are taken |
| DirModel.Dir.Register | FatFs/ff.c:1648-1715 | stores fragments and short entry in the first free run and nothing else, or is denied because 99 numbered names are taken or there is no room |
| DirModel.Dir.Remove | FatFs/ff.c:1726-1762 | wipes exactly the entries from the start of the long name to the short name |
| DirModel.Dir.Create | FatFs/ff.c:2548-2570 | an object whose name no entry carries is registered and then found at its entry, every entry in use stays, short names stay distinct and long names complete; denied only for the two reasons |
| DirModel.Dir.Unlink | FatFs/ff.c:3599-3659 | deletes exactly the object whose entry is the first to carry the name, fragments and short name, and keeps the table tidy, distinct and complete; or no entry carries the name and nothing changes |
| DirRun.Run | FatFs/ff.c:1648-1762 | every run of creating and deleting in a directory keeps it tidy, its short names distinct and its long names complete, and each call does what it says to the object that carries the name |
| DirRun.CreateThenUnlink | FatFs/ff.c:1648-1762 | creating and deleting by the same name restores the live entries if and only if the object has a long name or none stands unfinished before its place; then the name is gone |
| DirRun.CreateThenUnlinkRestores | FatFs/ff.c:1648-1762 | in a directory with complete long names it always does |
| DirRun.ObjectLives | FatFs/ff.c:1648-1762 | over a whole run an object keeps every one of its entries until it is deleted itself |
| DirRun.LongestIsNotThere | FatFs/ff.c:1528-1579 | after creating a name of 255 characters a search does not find it, so that it is created again |
| Clmt.CreateLinkMap | FatFs/ff.c:3119-3143 | the table is the run-length encoding of the chain and its first item the number of items needed, also when the given table is too small; it fails if and only if the chain is unlucky |
| Clmt.EncodingUnique | FatFs/ff.c:3119-3143 | a chain has exactly one run-length encoding |
| Clmt.ClmtClust | FatFs/ff.c:1125-1142 | the cluster of the byte for every offset in the chain, 0 past its end |
| Clmt.OwnMarksAreLucky | FatFs/ff.c:3127-3135 | every chain that `create_chain` terminated has a link map |
| Clmt.UnluckyChain | FatFs/ff.c:3127-3135 | a chain whose last entry, that of the last cluster, holds just the number of FAT entries has none |
| Pattern.PatternMatching | FatFs/ff.c:1865-1902 | 1 exactly if the name is in the language of the pattern, letters compared without case; the early stop at the end of the name loses no match, loop and recursion end |
| Pattern.Language | FatFs/ff.c:1865-1902 | the language: `?` is one character, `*` any run of characters, any other character itself up to case |
| Pattern.NoLater | FatFs/ff.c:1893-1899 | once a literal prefix took the whole name no later start can match |
| LockTable.WriterIsAlone | FatFs/ff.c:698-726 | a writer is the only handle on its object |
| LockTable.ReadersCounted | FatFs/ff.c:698-726 | the entry of an object open for reading counts its handles |
| LockTable.Opened | FatFs/ff.c:698-726 | one more handle keeps the table sound if and only if it is a writer, or the object has fewer than 255 readers and no writer |
| LockTable.ReaderTooMany | FatFs/ff.c:698-726 | at the 256th reader the table is not sound any more, and closing one reader frees the entry of 255 |
| LockTable.BlankLeft | FatFs/ff.c:688-694 | a blank entry is left exactly if fewer objects are open than there are entries |
| LockTable.Locks.ChkLock | FatFs/ff.c:662-684 | locked, no entry left or free, each with its exact condition |
| LockTable.Locks.IncLock | FatFs/ff.c:698-726 | one more handle on the entry of the object, 0 exactly if it is to be written and open or no entry is left; the table stays sound if and only if it is for writing, or the object has no writer and not 255 readers |
| LockTable.Locks.DecLock | FatFs/ff.c:730-749 | exactly that handle goes, the entry with the last one |
| LockTable.OpenGuarded | FatFs/ff.c:2556-2616 | an open succeeds exactly if no handle forbids it and the object is open already or there is an entry left; a writer comes alone; the table stays sound unless it is the 256th reader |
| LockTable.Run | FatFs/ff.c:662-750 | over every run of opens and closes each call does what the handles held allow, each object has one entry that counts them, and writers are alone |
| Mount.FindVolume | FatFs/ff.c:2325-2425 | takes the volume at sector 0 if that is a FAT boot sector, else, if it is a boot sector, at the first of the four partition entries, read at bytes 446 + 16 i, that is not empty and whose sector is a FAT boot sector, whatever stands before it; accepts exactly the acceptable parameter blocks; else no file system, or a disk error exactly if the last sector tried is not on the drive; free count and hint come from bytes 488 and 492 of a signed FSINFO sector |
| Mount.ParseBpb | FatFs/ff.c:2350-2397 | accepts a parameter block exactly if it meets the listed conditions, and computes the geometry on 32-bit numbers |
| Mount.BpbBytes | FatFs/ff.c:2346-2411 | each number of the parameter block is read at its place |
| Mount.SubTypeBounds | FatFs/ff.c:2377-2379 | FAT12 up to 4085 clusters, FAT32 from 65526 on |
| Mount.OneBitSet | FatFs/ff.c:2362-2364 | the cluster size test accepts powers of two only |
| Mount.MountedFits | FatFs/ff.c:2346-2397 | where no sector number wraps around, reserved area, FATs, root and data area of an accepted volume follow one another inside it, with as many clusters as fit in the data area, and the root directory of FAT32 starts at the cluster named; every FAT entry lies in the first FAT if its size does not wrap around; cluster numbers fit the entries if and only if there are at most 2^28 - 3 clusters |
| Mount.MountedOnDrive | FatFs/ff.c:2346-2397 | the geometry fits every drive the volume ends on, as the operations on a volume require, if and only if there are at most 2^28 - 3 clusters |
| Mount.ClustersApart | FatFs/ff.c:873-881 | on an accepted volume different clusters have no sector in common, and all lie in the data area |
| MkfsPlan.AuIsSound | FatFs/ff.c:4192-4201 | whatever cluster size is asked for, the one used is a power of two up to 128 sectors |
| MkfsPlan.DefaultAu | FatFs/ff.c:4192-4201 | the cluster size that is picked by default, for each range of volume sizes |
| MkfsPlan.AskedAu | FatFs/ff.c:4192-4201 | a power of two that is asked for is taken in bytes, or in sectors if it is below 512, up to 128 sectors |
| MkfsPlan.PlanMounts | FatFs/ff.c:4203-4239 | a mount accepts the planned volume if and only if the aligned data area has room for one cluster and the 32-bit size of the FAT wraps around as often for the clusters left as for those planned first; it then finds the planned sub-type and number of clusters |
| MkfsPlan.PlanGeometry | FatFs/ff.c:4203-4239 | the geometry a mount computes is the planned one; every entry lies in the FAT if and only if its size does not wrap around, and it fits the drive for a volume if and only if there are at most 2^28 - 3 clusters |
| MkfsPlan.FatIsWhole | FatFs/ff.c:4211-4213 | the planned FAT has room for every entry if and only if its size in bytes does not wrap around |
| MkfsPlan.FatForIs | FatFs/ff.c:4203-4219 | a FAT whose size does not wrap around has as many sectors as its entries need, and no more |
| MkfsPlan.RoomWithoutBlocks | FatFs/ff.c:4225-4234 | without flash blocks there is always room |
| MkfsPlan.DataIsAligned | FatFs/ff.c:4225-4234 | the data area starts at a block boundary for every block size that is a power of two |
| MkfsPlan.NoRoomLeft | FatFs/ff.c:4225-4239 | a drive of 128 sectors in blocks of 128 gets a plan that no mount accepts |
| MkfsPlan.WrappedFat | FatFs/ff.c:4211-4213 | with 2^30 - 129 clusters the FAT size wraps around to 0, and no mount accepts the volume |
| MkfsPlan.UndersizedFat | FatFs/ff.c:4211-4213 | with 2^30 - 10 clusters of four sectors a mount accepts the volume with a FAT of one sector |
| MkfsPlan.TooManyClusters | FatFs/ff.c:4203-4239 | a mount accepts a formatted volume of more than 2^28 clusters, on which the end mark of a chain is a cluster number |
| Mkfs.Mkfs | FatFs/ff.c:4137-4374 | which drives are refused, when a write fails, and otherwise every sector that is written: partition table, boot record and copy, empty FAT, blank root, FSINFO, and nothing else |
| Mkfs.MakePlan | FatFs/ff.c:4192-4239 | the sizes of all regions as planned, or refused |
| Mkfs.BuildVbr | FatFs/ff.c:4284-4327 | the boot record read back field by field is the plan |
| Mkfs.FormatThenMount | FatFs/ff.c:4282-4371 | for every drive: what formatting reports as done a mount accepts, with the planned geometry and the free clusters in FSINFO, if and only if there is room for one cluster and the FAT size wraps around equally often; every entry then lies in the FAT if and only if it does not wrap around at all |
| Mkfs.Unmountable | FatFs/ff.c:4203-4239 | a formatted volume that no mount accepts is exactly a FAT12 volume whose aligned data area is smaller than a cluster, or a FAT32 volume whose FAT size wraps around more often than in the mount |
| Mkfs.FreshVolume | FatFs/ff.c:4329-4371 | if and only if the FAT size does not wrap around, every cluster of a fresh volume has its entry in the FAT and is free, but for the root directory of FAT32, the root directory is blank, and the count of free clusters is the one FSINFO gives |
| HttpReq.Parser.constructor | WEB/http-server/cparser.c:31-42 | the cursor starts at the first of the bytes |
| HttpReq.Parser.SkipLine | WEB/http-server/cparser.c:492-506 | goes past the next line feed, or to the end if there is none |
| HttpReq.Parser.SkipBeforeSpace | WEB/http-server/cparser.c:508-518 | stops at the next blank or at the end |
| HttpReq.Parser.SkipWsInLine | WEB/http-server/cparser.c:477-490 | passes over blanks and control characters but not over the end of the line |
| HttpReq.ReqBuffer.Push | WEB/http-server/http_req.c:142-278 | the cursor loop over the buffer, which it overwrites with terminators, leaves the state of the specified step-by-step parse; the text of a request in a fresh buffer, with anything behind it, ends as finished and as that request; too many bytes and bytes after the end included |
| HttpReq.ReqBuffer.PushAll | WEB/http-server/http_req.c:142-278 | any cutting of the bytes into pushes has the outcome of one push but for the two numbers; for those, too, if every number has a value, or if no number is open at a cut |
| HttpRound.RoundTrip | WEB/http-server/http_req.c:93-278 | a request written down from its parts and pushed is that request: the method of that name or none, the strings at path, version and the first 32 parameters with their values, each known header field with the string, the number or the connection type of its last line, all numbers in decimal and saturated to 32 bits; blanks between the parts are passed over |
| HttpRound.OffendingIsError | WEB/http-server/http_req.c:176-276 | a character in the path, in a parameter, in its value or in a field name that belongs to none of them and separates none is a syntax error, whatever follows |
| HttpRound.OffendingEnds | WEB/http-server/http_req.c:176-276 | the parse of these elements ends with an error exactly at the first such character |
| HttpRound.WholeLineIff | WEB/http-server/http_req.c:232-240 | the version is kept as it is written if and only if its line ends in a carriage return and a line feed |
| HttpRound.LineFeedAlone | WEB/http-server/http_req.c:232-240 | `GET / HTTP/1.1` with a line feed alone is a request of version `HTTP/1.` |
| HttpSpec.Parse | WEB/http-server/http_req.c:155-277 | a parse leaves the size of the buffer, and a well-formed state while the request is unfinished |
| HttpChunks.ParseSplit | WEB/http-server/http_req.c:142-278 | parsing what is there and then the rest is parsing it all at once, commit point, overwritten delimiters and partial elements included |
| HttpChunks.FedIsOnePush | WEB/http-server/http_req.c:142-278 | successive pushes have verdict, position, element, request and buffer of one push, if every numeric header line has a value |
| HttpChunks.AnyCutting | WEB/http-server/http_req.c:142-278 | for every input and every cutting, all of the outcome but the two numbers is that of one push |
| HttpCuts.SafeCuts | WEB/http-server/http_req.c:109-140 | a cut after the bytes `x` is harmless for every continuation if and only if no number in `x` is still open at its end |
| HttpPieces.SafePieces | WEB/http-server/http_req.c:109-140 | for any list of pieces: at every stage whatever comes next has the outcome of one push if and only if no cut so far was made where a number was open |
| HttpPieces.PiecesSoFar | WEB/http-server/http_req.c:142-278 | pieces cut where no number is open have the outcome of one push, all of the state while the request is unfinished |
| HttpCuts.CuttingMatters | WEB/http-server/http_req.c:109-140 | one whole request reads keep-alive 7 in one push and 0 in two |
| RndisSpec.StepIsSafe | LRNDIS/src/usbd_rndis.c:298-348 | whatever calls and completions come, no transfer starts while another is under way, and the idle adapter has nothing left to send |
| RndisSpec.CallsAreCounted | LRNDIS/src/usbd_rndis.c:298-348 | good and bad transmissions add up to the calls, nested ones from the completion interrupt included, a frame under way counted as bad, the good ones to the accepted frames sent, on 32-bit counters |
| RndisSpec.FramesArrive | LRNDIS/src/usbd_rndis.c:705-739 | over every run the host, which ends a message at a short packet, has exactly what the accepted frames make, in order, a frame of fewer than 20 bytes held back before the next; while one is sent it has all before it and no part of it for a message |
| RndisSpec.ArrivedWhole | LRNDIS/src/usbd_rndis.c:298-348 | those are the accepted frames, each as header and payload, if and only if each has at least 20 bytes |
| RndisSpec.FrameArrives | LRNDIS/src/usbd_rndis.c:705-739 | the transfers of one frame, with an empty packet exactly if its length is a multiple of 64, end one message, whatever the host held before |
| RndisSpec.FirstHolds | LRNDIS/src/usbd_rndis.c:298-342 | an accepted call sends one packet of 64 bytes that begins with the message, a refused one nothing |
| RndisSpec.ArrivesIffFull | LRNDIS/src/usbd_rndis.c:298-348 | an accepted frame arrives as a message of its own if and only if it has at least 20 bytes |
| RndisSpec.ShortFrameIsHeld | LRNDIS/src/usbd_rndis.c:298-348 | after a frame of 19 bytes the host has no message, and 64 bytes of the next |
| Rndis.Adapter.TxBegin | LRNDIS/src/usbd_rndis.c:298-342 | the first packet, the rest of the frame and the flag for the empty packet, as the run specification has them |
| Rndis.Adapter.DataIn | LRNDIS/src/usbd_rndis.c:705-739 | each completion sends the rest, the empty packet, or ends the frame, as the run specification has it |
| Rndis.Adapter.HandlePacket | LRNDIS/src/usbd_rndis.c:741-771 | exactly the packets that pass the length checks while a buffer is waiting are accepted, and counted |
| Rndis.Adapter.RxStart | LRNDIS/src/usbd_rndis.c:263-276 | grants one packet, and refuses while one is granted |
| Rndis.PacketsAreCounted | LRNDIS/src/usbd_rndis.c:741-771 | good and bad packets add up to those that came, and the good ones to the calls that were granted, on 32-bit counters |
| Rndis.Run | LRNDIS/src/usbd_rndis.c:263-771 | the adapter driven by any calls, completions and packets goes through a run of the specification, with its state, its transfers and its counters |
| Rndis.FramingIsAccepted | LRNDIS/src/usbd_rndis.c:741-771 | the length checks accept what the transmit side frames, with one byte more counted as well, and the data found is the frame |
| Rndis.HeaderBytes | LRNDIS/src/usbd_rndis.c:311-317 | message type 1, the length of the message, data offset 36, the length of the data, zeros |
| Rndis.AcceptedIs | LRNDIS/src/usbd_rndis.c:741-771 | what is accepted, by the numbers in the header: a data packet of at least a header whose length is counted exactly or with one byte more and which ends with its data |
| Rndis.OtherSizesAreNot | LRNDIS/src/usbd_rndis.c:741-771 | and no other size |

## Findings

Places where the source does not do what its callers may expect; each has a lemma with a concrete input or an
exact condition.

- Formatting with flash blocks can leave no room for a cluster behind the aligned data area of a FAT12 volume;
  it reports success and no mount accepts the volume (`FatFs/ff.c:4225-4239`; `MkfsPlan.NoRoomLeft`,
  `Mkfs.Unmountable`).
- The FAT size in bytes is computed on 32 bits. Where it wraps around, for 2^30 - 129 clusters or more, the FAT is
  too small for its entries, always; a mount refuses the volume or accepts it all the same, as it wraps around
  less often there or as often (`FatFs/ff.c:4211-4213`; `MkfsPlan.FatIsWhole`, `MkfsPlan.PlanMounts`,
  `MkfsPlan.WrappedFat`, `MkfsPlan.UndersizedFat`).
- Formatting and mounting accept volumes of more than 2^28 - 3 clusters. Cluster numbers have 28 bits in a FAT32
  entry, so that the end mark of a chain is a cluster number there, and numbers from 2^28 on are cut
  (`FatFs/ff.c:4203-4239`, `FatFs/ff.c:2370-2377`; `Mount.MountedFits`, `MkfsPlan.TooManyClusters`, `Layout.Put32`).
- The FSINFO sector is written right behind the boot sector. A mount accepts a FAT32 volume with one reserved
  sector, where that is the first sector of the FAT, and the next synchronisation that is due frees clusters 2 to
  120 (`FatFs/ff.c:838-852`, `FatFs/ff.c:2404-2411`; `SyncInfo.OneReserved`, `SyncInfo.CountThenSync`,
  `VolumeModel.Volume.SyncFs`).
- A link map is not updated. After `f_truncate` has freed clusters it leads writes into free clusters, and a map
  made for an empty file makes seeks fail once the file has a cluster (`FatFs/ff.c:3555-3576`,
  `FatFs/ff.c:3145-3152`; `FastRun.TruncateThenFollow`, `FileModel.File.SeekFast`).
- The link map of a chain fails if the last entry belongs to the last cluster and holds just the number of
  entries, which `get_fat` and the allocator take for an end mark (`FatFs/ff.c:3127-3135`; `Clmt.UnluckyChain`).
- A name of 255 characters can be created, and is never found again; one of 254 characters is found, and cannot
  be listed (`FatFs/ff.c:1347-1406`; `DirRun.LongestIsNotThere`, `Lfn.LongNamesRefused`).
- Deleting an object with a short name only also deletes a left-over last fragment right before it
  (`FatFs/ff.c:1528-1579`, `FatFs/ff.c:1726-1762`; `DirWhole.LeftOverIsLost`).
- The raw scan of `f_getfree` counts the reserved entries 0 and 1 (`FatFs/ff.c:3509-3527`;
  `VolumeModel.Volume.GetFree`, `FreeSpace.ZeroEntryCounted`).
- With clusters of one sector the window that `f_mkdir` leaves does not show its sector until it is moved
  (`FatFs/ff.c:3709-3715`; `Mkdir.NewTable`).
- The 256th reader of an object makes it look like one that is written (`FatFs/ff.c:719-723`; `LockTable.Opened`,
  `LockTable.ReaderTooMany`).
- `Content-Length` and `Keep-Alive` without a value are read from the bytes after their line, so that the number
  depends on how the request was cut (`WEB/http-server/http_req.c:109-140`; `HttpCuts.SafeCuts`,
  `HttpPieces.SafePieces`, `HttpCuts.CuttingMatters`).
- In a line that ends in a line feed alone the terminator of the string goes over its last character, in the
  version and in header values alike (`WEB/http-server/http_req.c:232-267`; `HttpRound.WholeLineIff`,
  `HttpRound.LineFeedAlone`).
- A frame of fewer than 20 bytes is padded to a full packet and not ended, so that the host takes the next frame
  for its continuation (`LRNDIS/src/usbd_rndis.c:320-339`; `RndisSpec.ArrivesIffFull`,
  `RndisSpec.ShortFrameIsHeld`).

## Left out

- VolumeModel.Volume.MoveWindow: does not show sectors of the second FAT copy, which no caller asks for; they are only written, by `sync_window`.
- VolumeModel.Volume.constructor: volumes of up to 2^28 - 3 clusters, where an end mark is not a cluster number; `Mount.MountedFits` says exactly which these are.
- VolumeModel.Volume.GetFat: FAT32 entries are values below 2^28, and disk errors do not occur.
- FileModel.File.Write: the caller's buffer and the sector buffer are values; aliasing between them is not modelled.
- FileModel.File.SeekFast: a link map whose chain was cut by `f_truncate` is not used for seeks any more; `FastRun.TruncateThenFollow` says where it leads.
- FastRun.Run: the file has a cluster when its link map is made; `FileModel.File.SeekFast` says what becomes of a map without one.
- FileModel.File.Seek: bytes in a gap that a seek past the end opens are left unspecified, as the source leaves them.
- FileRun.Run: one open file at a time on the volume beside files that are not open; several handles on one file, with a stale buffer each, are not modelled.
- ChainHeap.Run: `remove_chain` is called on the first cluster of a chain or on a cluster of none, as its callers do; `Chains.FreedIsReached` says what it does from any cluster.
- DirModel.Dir.Create: the part of `f_open` that looks a name up and registers it; path parsing, attributes, overwriting and timestamps are not modelled.
- DirModel.Dir.Unlink: the part of `f_unlink` that looks a name up and removes its entries; the checks of attributes and of an empty directory and freeing the clusters are not modelled.
- Mkdir.NewTable: the middle of `f_mkdir`; allocation and registration are the operations modelled elsewhere.
- LockTable.Run: nobody asks for a 256th handle for reading on one object; `LockTable.OpenGuarded` says what it does.
- Lfn.FitLfn: names without the character 0xFFFF, which no byte of a code page stands for and which the source uses as a mark.
- Mount.FindVolume: partitions chosen by number and the check of an already mounted volume are left out.
- Mkfs.Mkfs: formatting into an existing partition and the trim command are left out; the volume serial number is a parameter.
- HttpRound.RoundTrip: a version that is not empty, strings without a 0 byte, and header values that do not begin with a carriage return, which `strtol` passes over.
- HttpReq.Parser.SkipLine: line and column counters and the refill of the cursor from a read function, which the request parser does not use, are left out.
- HttpReq.Parser.SkipBeforeSpace: the same.
- HttpReq.Parser.SkipWsInLine: the same.
- HttpReq.Parser.constructor: the same.
- HttpPieces.SafePieces: safe at every stage; that a number cut badly at one stage may be set again by a later header line is not counted in its favour.
- HttpSpec.Strtol: digits are read up to the end of the buffer; what lies behind it in memory is not modelled.
- Rndis.Adapter.TxBegin: the frame stays unchanged in the caller's buffer until it is sent; single counter updates are atomic.
- Disk errors and power loss: reads and writes inside the drive succeed, so that branches for disk errors do not occur.
- `f_rename`, `f_readdir`, `f_stat`, `f_chmod`, volume labels, `f_forward`, `f_printf` and `f_gets`: they would add easy members over the operations that are modelled.
- Tiny mode, relative paths, re-entrancy, multi-byte code pages and the code-page tables: variants of the same code by configuration.
- `WEB/http-server/htserv.c`, the DHCP and DNS servers, USB descriptors and control requests, drivers and interrupt set-up: hardware access, library plumbing or short scans.

# Comix storage, naming, locking and IPC: a verified model

This project models the parts of the comix kernel whose meaning is simple and whose code is not: caches in front of
files and disks, sparse files, a directory tree with link counts, an on-disk image format, path resolution, interrupt-safe
locks, a sleeping mutex, stream sockets, the log ring, the shared-memory registry and the file-lock table. Each component
is stated against an independent reference (a flat byte sequence, a flat table of paths, a multiset of guards, the history
of a ring), and the main results hold for every input, every reachable state or every run.

Components, from the bottom up:

- `BlockDevice`, `BlockAdapter`: a memory disk, partitions stacked to any depth, and the ext4 block adapter with
  512-byte sectors, read-modify-write and an LRU read cache.
- `PageCache`, `Lru`, `Ext4File`, `Ext4Run`, `LookupCache`, `Ext4Cycle`: the clean page cache, ext4 file operations through
  it over an abstract library, the ext4 name cache, and what renames do to the way up.
- `TmpfsData`, `TmpfsTree`, `TmpfsMoves`, `TmpfsRename`, `TmpfsFs`, `TmpfsEffects`, `TmpfsDeep`, `TmpfsRemoved`, `TmpfsRun`:
  sparse pages, the directory tree, link and page counts, what each operation answers and does, runs in which this goes
  wrong, and all other runs.
- `SimpleFsImage`, `SimpleFsTree`, `SimpleFs`: the packing script, the block-wise parser and the mounted tree.
- `Pieces`, `Path`, `PathWalk`, `DentryCache`: parsing, normalization, splitting, the symlink walk and the cache in front
  of it.
- `Locks`, `Mutex`: reader-writer and spin locks with interrupt guards, and the sleeping mutex, as interleaved steps.
- `UnixStream`, `UnixStreamRun`, `LogFormat`, `LogRing`, `Shm`, `FileLock`: state machines whose whole runs are compared
  with a function of the operations.

Devices, libraries, frame allocation and permission checks are parameters or arbitrary choices; a `reliable` or
`framesPlenty` constant rules failures out where a claim needs that. File contents are bytes, offsets are unbounded.

Where the code does not do what one would expect, the code is kept and the exact condition is proved:

- An ext4 extension that fails half-way leaves the cache stale exactly when something was written and the page with the
  old end is cached (`HalfExtendedCoherence`, `HalfExtendedMismatch`).
- An ext4 extension whose last library write is short reports success at a smaller size; a successful extension is the
  flat one exactly when the last library write was not short (`Ext4Inode.Truncate`), because a short one before it is
  filled up (`ShortWriteIsFilled`).
- An ext4 rename refuses to move a directory into itself but not below itself: afterwards every directory reaches the root
  by ".." exactly unless the new parent lies inside the moved directory (`RenameReaches`, `CycleIsMade`).
- A tmpfs shrink stops the kernel exactly when the kept page count exceeds the page vector (`TruncateData`,
  `GrowThenShrink`), and an empty write past the end moves the size (`WriteData`). A write that runs out of frames can leave
  pages past the end, and a shrink loses pages exactly when there are any (`LostIsSpare`, `LosesPage`).
- A tmpfs directory at depth 1023 or more is always taken to lie inside the directory being moved, so a harmless move is
  refused there (`SeemsInsideExactly`, `DeepMoveRefused`).
- A tmpfs name made in, or moved into, a removed directory spoils the tree, and any other free name keeps it
  (`AddNewExactly`, `AddLinkExactly`, `MoveIntoRemoved`); both happen (`MakeInRemoved`, `RenameIntoRemoved`).
- The tmpfs page counter goes wrong exactly when a file without a name gains pages or, unless the counter is zero, loses
  some (`Tmpfs.WriteAt`, `Tmpfs.Truncate`), when it gets a name again with pages (`Tmpfs.Link`), or when a shrink loses
  pages past the end. The first three happen in `WriteAfterUnlink`, `TruncateAfterUnlink` and `LinkAfterUnlink`.
- The dentry cache answers by the normal form, so it and the walk agree on a cached path exactly when the walk ends at the
  entry the normal form names (`HitAgreesExactly`). They agree for every path without ".." (`CacheAgreesWithoutParents`).
  When the walk meets no link they agree exactly when every part resolves (`HitAgreesWhenResolvable`); the cache answers
  where a name before ".." is missing (`MissingNameDisagrees`) or where ".." follows a link (`LinkAndParentDisagree`).
- An ext4 rename of a name onto itself loses the name exactly for a file or an empty directory, and is refused for a
  directory with entries (`Directories.RenameOntoItself`).
- In a SimpleFS image a directory record after a record below it erases that one (`ParentAfterChildLosesIt`), and the bare
  header written when there is nothing to pack is refused (`BareHeaderRefused`).
- The log's unread byte count includes lost entries (`UnreadIsExactUntilLoss`), and the kept length of an entry is its
  written length only for timestamps of at most twelve digits (`LengthIsExact`).
- A new shared-memory segment keeps the registry exact exactly when no segment has the next id (`CreationExactly`); once ids
  reach their maximum, two keys share one (`IdsRunOut`).

## Model

| member | source | states |
|---|---|---|
| BlockDevice.RamDisk.ReadBlock | os/src/device/block/ram_disk.rs:73-87 | a whole-block read gives exactly that block; wrong length or a block past the end fails |
| BlockDevice.RamDisk.WriteBlock | os/src/device/block/ram_disk.rs:89-103 | a whole-block write replaces exactly that block, a failed one changes nothing |
| BlockDevice.NewPartition | os/src/device/block/partition.rs:48-66 | a partition is made exactly when its range is not empty and lies inside the inner device |
| BlockDevice.RangeOnDisk | os/src/device/block/partition.rs:48-66 | however deep partitions are stacked, their range lies on the disk |
| BlockDevice.PartitionsAreSeparate | os/src/device/block/partition.rs:48-66 | partitions of one device with separate block ranges have separate bytes, inside the device's |
| BlockDevice.BlockUnderneath | os/src/device/block/partition.rs:91-100 | a block of a partition is the block of the device under it that lies that much further on |
| BlockDevice.ReadBlock | os/src/device/block/partition.rs:91-100 | through any stack of partitions a block read gives the bytes of the window and never reads past it |
| BlockDevice.WriteBlock | os/src/device/block/partition.rs:122-131 | through any stack a block write replaces that block of the disk and no other byte |
| BlockDevice.ReadBlocks | os/src/device/block/mod.rs:24-42 | the block loop and its forwarding give the window's bytes; lengths that are not whole blocks fail |
| BlockDevice.WriteEach | os/src/device/block/mod.rs:49-64 | the default write loop splices the whole buffer on success and leaves only old or new bytes when it stops early |
| BlockDevice.WriteBlocks | os/src/device/block/partition.rs:133-151 | a multi-block write through a partition never changes a byte outside the partition, even when it fails |
| BlockDevice.ReadGptEntryPrefix | os/src/device/block/partition.rs:296-332 | the first 56 bytes of a GPT entry, wherever it lies across blocks |
| BlockAdapter.BlockReadCache.Get | os/src/fs/ext4/adpaters.rs:36-41 | a hit is the cached block, restamped; misses change no entry |
| BlockAdapter.BlockReadCache.Insert | os/src/fs/ext4/adpaters.rs:43-53 | never more than 1024 blocks, and what is dropped is the least recently used block of the access history |
| BlockAdapter.BlockReadCache.InvalidateRange | os/src/fs/ext4/adpaters.rs:55-73 | exactly the blocks that share a byte with the range leave the cache |
| BlockAdapter.BlockDeviceAdapter.ReadOffset | os/src/fs/ext4/adpaters.rs:111-149 | the current bytes of the device whatever is cached, zeros only when the device could not be read |
| BlockAdapter.BlockDeviceAdapter.WriteOffset | os/src/fs/ext4/adpaters.rs:151-232 | splices the data at any offset and length, changes no other byte, and keeps every cached block equal to the disk even when requests fail |
| BlockAdapter.ReadSectors | os/src/fs/ext4/adpaters.rs:119-140 | the sectors under a block are read in one request and the block is cut out at its offset |
| BlockAdapter.WriteThrough | os/src/fs/ext4/adpaters.rs:175-231 | the write path under the cache: spliced on success, torn only inside the range on failure |
| BlockAdapter.WriteSector | os/src/fs/ext4/adpaters.rs:187-231 | one turn of the sector loop puts exactly the data of its sector on the disk |
| BlockAdapter.RewriteBlock | os/src/fs/ext4/adpaters.rs:205-231 | read, patch and write back replaces exactly the patch |
| BlockAdapter.RunReliable | os/src/fs/ext4/adpaters.rs:111-232 | in any run every read answers the flat disk and the disk ends as the flat disk |
| BlockAdapter.Run | os/src/fs/ext4/adpaters.rs:111-232 | in any run, failures included, every read answers the device's bytes at that moment or zeros, each write changes only bytes of its range, the cache stays coherent and no byte outside the device's range changes |
| Lru.StampsAreDistinct | os/src/vfs/page_cache.rs:212-215 | while the clock has not wrapped no two entries have the same age |
| Lru.OldestIsLeastRecent | os/src/vfs/page_cache.rs:217-230 | the smallest age belongs to the least recently used entry of the history |
| Lru.Oldest | os/src/vfs/page_cache.rs:217-230 | the scan finds an entry of smallest age |
| PageCache.PageCache.Lookup | os/src/vfs/page_cache.rs:265-284 | a hit answers the page and restamps it, a miss answers none; data and counters otherwise stay |
| PageCache.PageCache.ReadHit | os/src/vfs/page_cache.rs:286-304 | the cached bytes from the offset on, cut at the page's length |
| PageCache.PageCache.EvictUntilSpace | os/src/vfs/page_cache.rs:217-230 | one page fits afterwards, and every page kept was used after every page dropped |
| PageCache.PageCache.GetOrInsertCleanPage | os/src/vfs/page_cache.rs:327-384 | the cached page or what the fill produced; other pages never change, those that leave are the least recently used ones, and fill errors are answered as they are |
| PageCache.PageCache.InvalidateRange | os/src/vfs/page_cache.rs:386-407 | exactly the file's pages that share a byte with the range leave |
| PageCache.PageCache.RefreshCleanRange | os/src/vfs/page_cache.rs:409-432 | the page walk drops exactly the pages under the range and answers how many were cached |
| PageCache.PageCache.RemoveCachedPage | os/src/vfs/page_cache.rs:434-447 | one page leaves and is counted |
| PageCache.PageCache.InvalidateInode | os/src/vfs/page_cache.rs:449-455 | all pages of one file leave and no other |
| Ext4File.WriteKeepsCoherence | os/src/fs/ext4/inode.rs:414-438 | dropping the pages under the write and under the gap it fills leaves only current pages |
| Ext4File.ShrinkKeepsCoherence | os/src/fs/ext4/inode.rs:951-994 | dropping the pages from the page of the cut on leaves only current pages |
| Ext4File.ExtendKeepsCoherence | os/src/fs/ext4/inode.rs:951-994 | dropping the pages under the new zeros leaves only current pages, wherever the extension stopped |
| Ext4File.HalfExtendedCoherence | os/src/fs/ext4/inode.rs:972-990 | after a half-way failure the cache matches the file exactly when nothing was written or the tail page is not cached |
| Ext4File.HalfExtendedMismatch | os/src/fs/ext4/inode.rs:972-990 | a concrete file and page for which it does not |
| Ext4File.Ext4Inode.ReadAt | os/src/fs/ext4/inode.rs:353-412 | the answer is the flat file's slice cut at its end, whatever is cached or evicted on the way |
| Ext4File.Ext4Inode.ReadChunk | os/src/fs/ext4/inode.rs:374-408 | one turn of the read loop answers the file's bytes from the cache or through it |
| Ext4File.Ext4Inode.RefreshZeroCacheRange | os/src/fs/ext4/inode.rs:152-168 | exactly the pages under the zeroed range leave the cache |
| Ext4File.Ext4Inode.WriteAt | os/src/fs/ext4/inode.rs:414-438 | the flat write of what the library accepted, with no stale page left |
| Ext4File.Ext4Inode.Truncate | os/src/fs/ext4/inode.rs:951-994 | a successful shrink is the flat one, a successful extension exactly when the last library write was not short; a failed shrink changes nothing, a failed extension stops in between |
| Ext4File.ShortWriteIsFilled | os/src/fs/ext4/inode.rs:980-990 | a short write before the last one leaves no trace in the extended file |
| Ext4File.Create | os/src/fs/ext4/inode.rs:479-548 | a new file or directory, under a number that may have been in use, leaves only current pages cached |
| Ext4File.Unlink | os/src/fs/ext4/inode.rs:623-668 | so does a removal, whether or not the inode can still be read |
| Ext4File.ReuseNeedsDrop | os/src/fs/ext4/inode.rs:501-501 | without dropping them the cache would match exactly when no page of the old file is cached |
| Ext4Run.Step | os/src/fs/ext4/inode.rs:353-438 | one operation through the cache, creation and removal included, gives the flat answer and restores coherence |
| Ext4Run.Run | os/src/fs/ext4/inode.rs:353-668 | any sequence of reads, writes, truncations, creations, removals and evictions, with inode numbers used again, is answered as by a flat store, within the page limit |
| LookupCache.LookupCache.Insert | os/src/fs/ext4/inode.rs:43-53 | length equals the number of names, no empty inner map, at most 4096 entries; entries only disappear, never change |
| LookupCache.LookupCache.Remove | os/src/fs/ext4/inode.rs:55-65 | exactly one name goes and with it an inner map that became empty |
| LookupCache.LookupCache.EvictIfNeeded | os/src/fs/ext4/inode.rs:67-85 | names are dropped until the bound just holds, none if it held, and what goes comes before all that stays, by directory and then by name |
| LookupCache.Directories.Lookup | os/src/fs/ext4/inode.rs:440-477 | for names other than the dots the answer is the directory's own, cached or not |
| LookupCache.Directories.Add | os/src/fs/ext4/inode.rs:479-509 | a free name is added, a taken one, the dots among them, refused, and the cache still agrees with the directory |
| LookupCache.Directories.Mkdir | os/src/fs/ext4/inode.rs:511-548 | the same for a directory and its dots |
| LookupCache.Directories.Unlink | os/src/fs/ext4/inode.rs:623-668 | the name goes from the directory and the cache and every other name stays, with every error case; a directory goes with its name, and one with entries is refused |
| LookupCache.Directories.Rmdir | os/src/fs/ext4/inode.rs:670-686 | an empty directory and its name go and every other name stays; one with entries is refused, and a file trips over an assertion |
| LookupCache.Directories.Rename | os/src/fs/ext4/inode.rs:705-914 | refused for a missing name, a mismatch of kinds, a directory in the way that has entries, and a directory moved into itself; otherwise both names change on disk and leave the cache, so it agrees |
| LookupCache.Directories.RenameOntoItself | os/src/fs/ext4/inode.rs:755-840 | the name is lost exactly for a file or an empty directory; otherwise nothing changes |
| LookupCache.RenameAnswersExactly | os/src/fs/ext4/inode.rs:753-795 | each refusal exactly in its case: into itself, a directory over a file, a file over a directory, a directory over one with entries |
| LookupCache.StepNames | os/src/fs/ext4/inode.rs:479-914 | what each operation of a run does to every name: the one added, gone or moved, and all others as before |
| LookupCache.MakeThenRemove | os/src/fs/ext4/inode.rs:479-686 | what is created or made can be removed again, and then the directories are as before |
| LookupCache.RenameAndBack | os/src/fs/ext4/inode.rs:705-914 | a rename to a free name can be undone |
| LookupCache.MovedDirectoryKeepsOldParent | os/src/fs/ext4/inode.rs:843-910 | a cached ".." outlives the move of its directory, so the dots are rightly excluded |
| Ext4Cycle.RenameReaches | os/src/fs/ext4/inode.rs:753-761 | after an accepted rename every directory still reaches the root by "..", exactly unless the new parent lies inside the moved directory |
| Ext4Cycle.CycleIsMade | os/src/fs/ext4/inode.rs:753-761 | for any names a tree and an accepted rename after which that fails |
| LookupCache.Run | os/src/fs/ext4/inode.rs:26-86 | over any run the directories change as without the cache and every lookup other than of a dot is answered as they stood, within the bound |
| TmpfsData.ReadData | os/src/fs/tmpfs/inode.rs:304-341 | the page loop reads the flat file's slice, holes as zeros |
| TmpfsData.FillHoles | os/src/fs/tmpfs/inode.rs:359-379 | zeroed pages appear in the holes of the range, in all of them unless frames run out, and no byte changes |
| TmpfsData.CopyIn | os/src/fs/tmpfs/inode.rs:381-398 | the copy loop changes exactly the bytes under the write |
| TmpfsData.WriteData | os/src/fs/tmpfs/inode.rs:343-409 | succeeds exactly when the new pages fit the quota and frames can be had, and is then the flat write exactly unless it is an empty one past the end; otherwise no byte changes, and frames already got are kept |
| TmpfsData.TruncateData | os/src/fs/tmpfs/inode.rs:637-680 | panics exactly when the kept pages exceed the vector; otherwise the flat truncation with the tail zeroed, and every page kept, given back or lost |
| TmpfsData.LostIsSpare | os/src/fs/tmpfs/inode.rs:650-672 | a shrink loses pages exactly when some are present past the end |
| TmpfsData.LosesPage | os/src/fs/tmpfs/inode.rs:362-379 | a write that runs out of frames, and a shrink after it that gives back too few pages |
| TmpfsData.GrowThenShrink | os/src/fs/tmpfs/inode.rs:646-656 | an empty file grown by truncation panics when shrunk again, to anything but nothing |
| TmpfsData.CutIsFlat | os/src/fs/tmpfs/inode.rs:656-675 | cutting pages and zeroing the tail is the flat truncation and leaves no byte past the end |
| TmpfsTree.LiveIffLinked | os/src/fs/tmpfs/inode.rs:231-257 | exactly the linked inodes have a positive link count |
| TmpfsMoves.AddNewKeepsTree | os/src/fs/tmpfs/inode.rs:448-529 | making a file or directory keeps the tree and all link counts |
| TmpfsMoves.AddNewExactly | os/src/fs/tmpfs/inode.rs:448-529 | a free name keeps the tree exactly when its directory was not removed |
| TmpfsMoves.AddLinkKeepsTree | os/src/fs/tmpfs/inode.rs:736-772 | a further name keeps the tree and all link counts, also of a file that had none left |
| TmpfsMoves.AddLinkExactly | os/src/fs/tmpfs/inode.rs:736-772 | it does so exactly when the directory was not removed |
| TmpfsMoves.RemoveKeepsTree | os/src/fs/tmpfs/inode.rs:531-590 | removing a file's name or an empty directory keeps the tree and all link counts |
| TmpfsMoves.MoveKeepsTree | os/src/fs/tmpfs/inode.rs:830-888 | moving outside of itself keeps parent pointers, acyclicity and all link counts |
| TmpfsMoves.ClimbAfterMove | os/src/fs/tmpfs/inode.rs:830-888 | after the move every directory still reaches the root |
| TmpfsMoves.MoveIntoRemoved | os/src/fs/tmpfs/inode.rs:849-880 | a move into a removed directory leaves no tree |
| TmpfsRename.IsDescendantOrSelf | os/src/fs/tmpfs/inode.rs:259-271 | yes only where the bounded climb says so; from a directory that still has its name exactly there, and when it says no, that directory really lies outside |
| TmpfsRename.SeemsInsideExactly | os/src/fs/tmpfs/inode.rs:259-271 | it says yes exactly for a directory inside, or one 1023 levels or more down |
| TmpfsDeep.DeepMoveRefused | os/src/fs/tmpfs/inode.rs:826-830 | for every depth a tree in which a harmless move to that depth is refused exactly from 1023 levels on |
| TmpfsRename.RenameKeepsTree | os/src/fs/tmpfs/inode.rs:774-888 | renaming with replacement keeps the tree and all link counts |
| TmpfsRename.RemoveTotal | os/src/fs/tmpfs/inode.rs:231-257 | the page total drops by the pages of a file that lost its last name |
| TmpfsRename.MoveTotal | os/src/fs/tmpfs/inode.rs:830-888 | a move leaves the page total |
| TmpfsFs.Tmpfs.Make | os/src/fs/tmpfs/inode.rs:448-529 | the new inode, or the error for a non-directory or a taken name; tree and counts stay right exactly unless a name was made in a removed directory |
| TmpfsFs.Tmpfs.Link | os/src/fs/tmpfs/inode.rs:736-772 | one more name for a file, refused for directories and taken names; tree and counts stay right exactly when the directory was not removed and the file had a name or no page |
| TmpfsFs.Tmpfs.RemoveLinkFromChild | os/src/fs/tmpfs/inode.rs:231-257 | one link less; the last one gives the file's pages back |
| TmpfsFs.Tmpfs.Unlink | os/src/fs/tmpfs/inode.rs:531-556 | the name goes, with every error case |
| TmpfsFs.Tmpfs.Rmdir | os/src/fs/tmpfs/inode.rs:558-590 | an empty directory goes, with every error case |
| TmpfsFs.Tmpfs.Rename | os/src/fs/tmpfs/inode.rs:774-888 | the answer of every case, where from a removed new parent the climb may end early and miss the moved directory; tree, link counts and page count stay right exactly unless a name was moved into a removed directory |
| TmpfsEffects.RenameOverExactly | os/src/fs/tmpfs/inode.rs:273-295 | over another inode a rename succeeds exactly when both are directories or neither is and a directory in the way is empty; each refusal exactly in its case |
| TmpfsEffects.RenameOtherwise | os/src/fs/tmpfs/inode.rs:774-830 | all other answers: bad names, parents that are no directories, the same place, a missing name, the climb |
| TmpfsEffects.RenamedNames | os/src/fs/tmpfs/inode.rs:832-880 | the new name refers to what had the old one, which is gone; all other names, kinds and contents stay |
| TmpfsEffects.RenameDoes | os/src/fs/tmpfs/inode.rs:817-880 | an accepted rename does nothing for one name or one inode, and else gives the new name to what had the old one |
| TmpfsEffects.AddedNames | os/src/fs/tmpfs/inode.rs:448-772 | after making or linking, the new name refers to the new inode or the target, and all else stays |
| TmpfsEffects.MakeThenRemove | os/src/fs/tmpfs/inode.rs:448-590 | what is made or linked can be removed again, and then names and links are as before |
| TmpfsEffects.MoveAndBack | os/src/fs/tmpfs/inode.rs:830-888 | a move to a free name can be undone |
| TmpfsFs.Tmpfs.ReadAt | os/src/fs/tmpfs/inode.rs:304-341 | the flat file's slice of a regular file |
| TmpfsFs.Tmpfs.WriteAt | os/src/fs/tmpfs/inode.rs:343-409 | the flat write; refused when it would exceed the quota, and otherwise only if frames run out; no other inode changes, and the page count stays right exactly unless a file without a name got new pages |
| TmpfsFs.Tmpfs.Truncate | os/src/fs/tmpfs/inode.rs:637-680 | the flat truncation, or a panic exactly in the slicing case; the page count goes wrong exactly when a file with a name loses pages, or when pages are cut from one without and so given back twice while any is counted |
| TmpfsRemoved.MakeInRemoved | os/src/fs/tmpfs/inode.rs:448-484 | a file is made in a directory that was removed, and the names are no tree |
| TmpfsRemoved.RenameIntoRemoved | os/src/fs/tmpfs/inode.rs:774-888 | a file is renamed into a directory that was removed, and the names are no tree |
| TmpfsRemoved.WriteAfterUnlink | os/src/fs/tmpfs/inode.rs:343-366 | a page written after the last unlink is counted although no file has a page |
| TmpfsRemoved.LinkAfterUnlink | os/src/fs/tmpfs/inode.rs:736-772 | a file that gets a name again has a page that is not counted |
| TmpfsRemoved.TruncateAfterUnlink | os/src/fs/tmpfs/inode.rs:646-672 | a file cut after its last unlink gives its page back twice: none is counted although another file has one |
| TmpfsRun.Run | os/src/fs/tmpfs/inode.rs:214-257 | over any run each operation answers and does exactly what it should, and at the end: tree, link counts, every linked directory under the root, page counter equal to the pages in use and within the quota |
| SimpleFsImage.Pack | scripts/make_init_simple_fs.py:126-185 | an image of whole blocks exactly when every field fits 32 bits |
| SimpleFsImage.ParsePackedEntry | os/src/fs/simple_fs.rs:151-204 | where a packed record stands it is read back, with the offset behind it |
| SimpleFsImage.ParsePackedEntries | os/src/fs/simple_fs.rs:134-145 | where packed records stand one behind the other they are all read, in order |
| SimpleFsImage.PackParseRoundTrip | scripts/make_init_simple_fs.py:35-90 | the kernel reads back exactly the packed records, in order |
| SimpleFsImage.BareHeaderRefused | scripts/make_init_simple_fs.py:138-144 | the 16-byte image of a missing directory is refused, the padded empty one is not |
| SimpleFsImage.ReadAtOffset | os/src/fs/simple_fs.rs:207-236 | any range read through 512-byte blocks is that range, up to the last whole block |
| SimpleFs.ParseFileEntry | os/src/fs/simple_fs.rs:151-204 | one record from the device, or failure exactly when it cannot be read |
| SimpleFs.FromRamdisk | os/src/fs/simple_fs.rs:112-148 | the mounted tree is the tree of the image's records; fails exactly on a bad image or an unnamed record |
| SimpleFsTree.FindInsert | os/src/fs/simple_fs.rs:239-289 | one insertion sets its path, clears all below it, fills in directories above it and touches nothing else |
| SimpleFsTree.TreeIsTable | os/src/fs/simple_fs.rs:239-289 | the tree holds under every path what a flat table of insertions says |
| SimpleFsTree.LookupIsFind | os/src/fs/simple_fs.rs:382-392 | name-by-name lookup finds a node exactly when everything above it is a directory |
| SimpleFsTree.LookupInOrder | os/src/fs/simple_fs.rs:239-289 | with records in order, lookup succeeds exactly for the root, the records and the directories above them |
| SimpleFsTree.LookupListed | os/src/fs/simple_fs.rs:239-289 | and gives each record's type, mode and data |
| SimpleFsTree.LaterAncestorErases | os/src/fs/simple_fs.rs:281-288 | a later record above a path erases it |
| SimpleFsTree.CollectedInOrder | scripts/make_init_simple_fs.py:93-123 | sorted directories before sorted files is such an order |
| SimpleFsTree.PathsAreOrdered | scripts/make_init_simple_fs.py:93-123 | of two different paths exactly one sorts first |
| SimpleFs.MountPacked | os/src/fs/simple_fs.rs:112-148 | mounting a packed directory builds the tree of exactly its items |
| SimpleFs.PackedItemsAreFound | scripts/make_init_simple_fs.py:93-185 | every collected item is found in the mounted image with its type, mode and data |
| SimpleFs.OnlyPackedItemsAreFound | scripts/make_init_simple_fs.py:93-185 | and nothing else is found |
| SimpleFs.ParentAfterChildLosesIt | os/src/fs/simple_fs.rs:281-288 | packed child first, the child is lost |
| Pieces.SplitJoin | os/src/vfs/path.rs:201-201 | splitting undoes joining |
| Path.ParsePath | os/src/vfs/path.rs:192-212 | the loop yields the root marker and the non-empty parts in order |
| Path.NormalizePath | os/src/vfs/path.rs:219-272 | the stack loop computes the normal form |
| Path.RelativeReduce | os/src/vfs/path.rs:236-256 | behind any beginning, relative parts and what normalization leaves of them come to the same names |
| Path.ReduceIsCanonical | os/src/vfs/path.rs:219-262 | the stack holds no ".", no empty part, and ".." only as a leading run of a relative path |
| Path.NormalizeIdempotent | os/src/vfs/path.rs:219-272 | normalizing twice is normalizing once, and the result is canonical |
| Path.SplitRejoins | os/src/vfs/path.rs:280-306 | rejoining the two parts and normalizing gives the normalized original |
| Path.SplitSucceeds | os/src/vfs/path.rs:280-306 | splitting fails exactly on a trailing slash or the root, and the file part is one part |
| DentryCache.Dentries.VfsWalk | os/src/vfs/path.rs:403-449 | the walk ends on every namespace, follows at most eight links, reports too many only after eight, and what it remembers is sound |
| DentryCache.FullPath | os/src/vfs/dentry.rs:200-244 | the names collected up to the root, rendered as an absolute path |
| DentryCache.Dentries.ResolveNext | os/src/vfs/path.rs:357-401 | a component from the known children or the directory, remembered under its own full path |
| DentryCache.Dentries.Lookup | os/src/vfs/path.rs:314-337 | a lookup through the cache keeps it sound |
| DentryCache.Dentries.RemoveTree | os/src/vfs/dentry.rs:300-316 | exactly the entries whose names begin with those of the path are forgotten |
| DentryCache.BelowIsPrefix | os/src/vfs/dentry.rs:307-315 | of full paths one is at or below another exactly when its names begin with the other's |
| DentryCache.LookupWalks | os/src/vfs/path.rs:314-337 | whatever a sound cache holds, a lookup answers the walk of the path, or, where it has "..", of its normal form |
| DentryCache.Run | os/src/vfs/path.rs:314-449 | in any run of lookups and changes of the current directory from an empty cache, the cache stays sound and every answer is such a walk without a cache |
| PathWalk.LimitOnlyCuts | os/src/vfs/path.rs:419-424 | the limit only cuts walks off; any other answer is the same with a larger limit |
| PathWalk.LastIsNotFollowed | os/src/vfs/path.rs:416-419 | without following the last part, all links before it are followed and the last part is answered as it is |
| PathWalk.LinkStandsForTarget | os/src/vfs/path.rs:425-444 | a link stands for its target, from its own directory or from the top for an absolute one |
| PathWalk.WhereWalksFail | os/src/vfs/path.rs:357-401 | behind a file nothing is found, and behind a directory only what it holds |
| PathWalk.SelfLinkIsReported | os/src/vfs/path.rs:419-424 | a link to itself is reported as too many links, whatever the limit |
| PathWalk.WalkReduces | os/src/vfs/path.rs:357-449 | without links a successful raw walk ends at the entry named by the reduced parts |
| PathWalk.NormalFormFindsTheSame | os/src/vfs/path.rs:357-449 | without links the walk of the normal form finds the same entry |
| PathWalk.RelativeNormalFindsTheSame | os/src/vfs/path.rs:219-449 | from any directory a relative path that meets no link and its normal form lead to the same entry |
| PathWalk.RelativeStartsAtCwd | os/src/vfs/path.rs:325-336 | a relative path is the path behind the full path of the current directory, links or not |
| PathWalk.CacheAgreesWithoutParents | os/src/vfs/path.rs:314-337 | a sound cache changes no answer for a path without "..", links or not |
| PathWalk.CacheAgreesWithoutLinks | os/src/vfs/path.rs:314-337 | without links it changes an answer exactly when it answers by itself where the walk fails |
| PathWalk.WalkConfirms | os/src/vfs/path.rs:403-449 | whatever a walk finds, links or not, is an entry of the namespace |
| PathWalk.HitAgreesExactly | os/src/vfs/path.rs:314-337 | on a cached absolute path, in any namespace, cache and walk agree exactly when the walk ends at the entry whose names are the parts of the normal form |
| PathWalk.HitAgreesWhenResolvable | os/src/vfs/path.rs:314-337 | when the raw path meets no link, they agree exactly when each of its parts resolves |
| PathWalk.MissingNameDisagrees | os/src/vfs/path.rs:314-337 | for any names, a namespace without links where /a/../x is answered by the cache and not found by the walk |
| PathWalk.LinkAndParent | os/src/vfs/path.rs:314-337 | for /l/../x with x cached and l a link, cache and walk agree exactly when the link's target lies at the top |
| PathWalk.LinkAndParentDisagree | os/src/vfs/path.rs:314-337 | a namespace, for any names, where they disagree |
| Locks.AcquireKeepsInv | os/src/sync/rwlock.rs:51-140 | a successful exchange keeps one writer or exactly as many readers as the state says |
| Locks.DropKeepsInv | os/src/sync/rwlock.rs:161-185 | so does releasing the lock |
| Locks.InterruptKeepsInv | os/src/sync/intr_guard.rs:55-72 | an interrupt keeps all of it right, also one that comes between reading the depth and switching interrupts off |
| Locks.StepKeepsInv | os/src/sync/intr_guard.rs:55-95 | every step of every CPU and interrupt keeps lock states, depths and saved flags right |
| Locks.GuardsExclude | os/src/sync/rwlock.rs:51-140 | in every reachable state a write guard excludes every other guard of its lock and no guard lives with interrupts on |
| Locks.ReaderSucceedsExactly | os/src/sync/rwlock.rs:51-116 | an undisturbed reader gets its guard exactly when there is no writer and room for one more, so readers share; refused it spins, gives up or panics |
| Locks.WriterSucceedsExactly | os/src/sync/rwlock.rs:78-140 | an undisturbed writer or spin lock gets its guard exactly when the lock has none; refused it spins or gives up |
| Locks.BlockingNeverGivesUp | os/src/sync/rwlock.rs:51-140 | whatever others do, a blocking call goes on until its guard or a panic, and a try never spins |
| Locks.EnteredIsPrepared | os/src/sync/intr_guard.rs:55-72 | the way to the interrupt guard: the first one switches interrupts off and saves the flag |
| Locks.AttemptTakes | os/src/sync/rwlock.rs:51-140 | where the lock is free for the call, its two steps add one guard and change that lock alone |
| Locks.ReleasedIsDropped | os/src/sync/rwlock.rs:161-185 | the steps of a drop take that guard away, give its share of the lock back and restore the flag at depth one |
| Locks.SectionLeavesNoTrace | os/src/sync/rwlock.rs:51-185 | after the steps of taking a guard that can be had it is there with interrupts off; after those of dropping it, locks, guards, depths and interrupts are as before |
| Locks.InterruptLeavesNoTrace | os/src/sync/intr_guard.rs:55-72 | an interrupt can always return, and then all is as before |
| Locks.LastDropRestores | os/src/sync/intr_guard.rs:86-95 | the last drop restores the interrupt flag from before the first guard, whatever happened between |
| Locks.WasEnabledIsEntry | os/src/sync/intr_guard.rs:75-82 | an outer guard tells the flag from before the section, a nested one says no |
| Locks.RunKeepsInv | os/src/sync/raw_spin_lock.rs:43-112 | the invariant holds along every run of lock, try-lock and drop steps, spin locks included |
| Mutex.StepKeepsInv | os/src/sync/mutex.rs:41-57 | every step and signal keeps the flag, the owner, the spin lock and the queue consistent |
| Mutex.MutexSafe | os/src/sync/mutex.rs:41-85 | in every reachable state the flag is set exactly when one guard exists, and once its spin lock is free nobody is queued or asleep on a free mutex |
| Mutex.NoDeadlock | os/src/sync/mutex.rs:41-85 | some task inside can always go on |
| Mutex.CanGetMutex | os/src/sync/mutex.rs:41-85 | from every state that can be reached, every task can still get the mutex |
| Mutex.LockTakesOrSleeps | os/src/sync/mutex.rs:41-57 | undisturbed, a lock takes a free mutex, and queues and sleeps on a taken one |
| Mutex.DropWakesAll | os/src/sync/mutex.rs:78-85 | undisturbed, a drop frees the mutex and wakes everybody who waits |
| UnixStream.Connection.CloseRead | os/src/net/unix_socket.rs:139-144 | closes reading of one end and nothing else |
| UnixStream.Connection.CloseWrite | os/src/net/unix_socket.rs:146-151 | closes writing of one end and nothing else |
| UnixStream.Socket.Readable | os/src/net/unix_socket.rs:524-540 | for a connected socket exactly that a non-empty read would not block |
| UnixStream.Socket.Writable | os/src/net/unix_socket.rs:542-561 | exactly that a non-empty write would take at least one byte |
| UnixStream.Socket.Read | os/src/net/unix_socket.rs:563-607 | takes from the front; end of file for an open reader only when the peer closed writing and all was delivered; every error case |
| UnixStream.Socket.Write | os/src/net/unix_socket.rs:609-640 | appends as much as fits in 65536 bytes; every error exactly when it should come |
| UnixStream.Socket.Shutdown | os/src/net/unix_socket.rs:463-486 | closes the asked directions of its own end only |
| UnixStream.Socket.Close | os/src/net/unix_socket.rs:695-713 | dropping closes both directions of its own end only |
| UnixStream.Socket.Listen | os/src/net/unix_socket.rs:375-395 | backlog between 1 and 128; listening again keeps the queue |
| UnixStream.Socket.Accept | os/src/net/unix_socket.rs:397-405 | first come, first accepted; one answer for an empty queue and another for a socket that does not listen |
| UnixStream.Socket.ConnectStream | os/src/net/unix_socket.rs:417-461 | a fresh pair with its server end at the back of the queue, never beyond the backlog; every error case leaves both sockets |
| UnixStreamRun.Conserved | os/src/net/unix_socket.rs:68-152 | over any run, in each direction, bytes queued at first and accepted are bytes delivered followed by bytes queued |
| UnixStreamRun.WithinCapacity | os/src/net/unix_socket.rs:68-152 | no queue ever exceeds its capacity |
| UnixStreamRun.AcceptedStops | os/src/net/unix_socket.rs:146-151 | once an end closed writing nothing more is accepted from it |
| UnixStreamRun.EndOfFileIsTheEnd | os/src/net/unix_socket.rs:563-607 | a non-empty read of an open end answers end of file only when the peer closed writing and everything accepted in the whole run, before or after, was delivered already |
| UnixStreamRun.Run | os/src/net/unix_socket.rs:563-713 | the answers of any run of reads, writes, shutdowns and closes on two real sockets are those of the model of the pair, so these laws hold of the bytes answered |
| LogFormat.CountDigits | os/src/log/buffer.rs:52-64 | the dividing loop counts the decimal digits |
| LogFormat.CalculateFormattedLength | os/src/log/buffer.rs:41-102 | the computed length, with padding of the task id |
| LogFormat.LengthIsExact | os/src/log/log_core.rs:303-316 | it is the length of the written line with its newline exactly for timestamps of at most twelve digits |
| LogRing.GlobalLogBuffer.HandleOverwrite | os/src/log/buffer.rs:250-279 | a full ring gives up exactly its oldest unread entry |
| LogRing.GlobalLogBuffer.Write | os/src/log/buffer.rs:216-241 | the next number goes into its slot and every unread entry stays in its own |
| LogRing.GlobalLogBuffer.Read | os/src/log/buffer.rs:286-311 | delivers the oldest unread entry exactly when there is one |
| LogRing.GlobalLogBuffer.Peek | os/src/log/buffer.rs:344-378 | succeeds exactly inside the unread window, with the entry of that number |
| LogRing.GlobalLogBuffer.Len | os/src/log/buffer.rs:314-318 | written is delivered plus dropped plus length |
| LogRing.GlobalLogBuffer.UnreadIsWrittenMinusRead | os/src/log/buffer.rs:321-323 | unread bytes are the total written minus the total read |
| LogRing.GlobalLogBuffer.UnreadIsExactUntilLoss | os/src/log/buffer.rs:321-323 | they are the size of what can still be read exactly as long as nothing was dropped |
| LogRing.TraceDelivers | os/src/log/buffer.rs:216-311 | a run delivers an increasing subsequence of exactly the entries its writes wrote, and loses only by overwriting |
| LogRing.Run | os/src/log/buffer.rs:216-311 | any run of a real ring is that run: what was written is what the operations wrote, each entry delivered, dropped or still to be read |
| LogRing.RunKernel | os/src/log/buffer.rs:236-241 | the same with formatted lengths as sizes, where the byte count is exact until the first loss |
| Shm.CreationExactly | os/src/ipc/shared_memory.rs:166-205 | a creation keeps the registry exact exactly when no segment has the next id |
| Shm.ShmRegistry.GetOrCreate | os/src/ipc/shared_memory.rs:166-205 | below the last id: the live segment with the key or a new one, with every error case |
| Shm.FoundAnswers | os/src/ipc/shared_memory.rs:171-187 | a request for the key of a live segment gets it, or each refusal exactly in its case, and nothing changes |
| Shm.NewAnswers | os/src/ipc/shared_memory.rs:189-205 | any other request makes a segment under the next id and its key, or each refusal exactly in its case |
| Shm.ShmRegistry.MarkRemoved | os/src/ipc/shared_memory.rs:211-221 | the key is free at once, the segment goes at once or with its last attachment |
| Shm.ShmRegistry.MarkDetached | os/src/ipc/shared_memory.rs:95-101 | the first detach step says whether the segment should go |
| Shm.AttachedIsBalance | os/src/ipc/shared_memory.rs:88-101 | over any run that detaches only what is attached, the attach count is attaches minus detaches |
| Shm.ShmRegistry.RemoveAfterDetach | os/src/ipc/shared_memory.rs:223-230 | the second step removes it unless it was attached again |
| Shm.ShmRegistry.RemoveSegment | os/src/ipc/shared_memory.rs:232-239 | forgets the segment, and its key only if still its own |
| Shm.SettledIsExact | os/src/ipc/shared_memory.rs:223-239 | the second detach step keeps the registry exact |
| Shm.InverseIndex | os/src/ipc/shared_memory.rs:166-239 | the key index names exactly the live non-private segments, one for each key |
| Shm.KeyStays | os/src/ipc/shared_memory.rs:166-239 | through any step a key stays bound to its segment exactly unless the removal of that segment is asked and allowed |
| Shm.SegmentStays | os/src/ipc/shared_memory.rs:211-239 | through any step a segment stays registered exactly unless it is removed unattached or its last detach settles after removal |
| Shm.StepMarks | os/src/ipc/shared_memory.rs:211-221 | only an allowed removal by its id marks a segment, and its id, key and size never change |
| Shm.StepPending | os/src/ipc/shared_memory.rs:95-101 | a last detach is pending exactly from leaving a removed segment unattached until it settles |
| Shm.Run | os/src/ipc/shared_memory.rs:246-263 | any interleaving of requests and detach steps gives the registry the operations decide, exact below the last id |
| Shm.IdsRunOut | os/src/ipc/shared_memory.rs:160-164 | at the last id two keys get the same id and the first segment is no longer found |
| FileLock.OverlapIsTouch | os/src/vfs/file_lock.rs:30-34 | ranges overlap exactly when they lock a common byte, or one locks none and lies strictly inside the other |
| FileLock.BlockedIsOpposed | os/src/vfs/file_lock.rs:36-52 | a request is blocked exactly when a lock of another process touches it and one of the two is for writing |
| FileLock.ReadersShare | os/src/vfs/file_lock.rs:48-50 | a read request is never blocked by read locks |
| FileLock.GrantOk | os/src/vfs/file_lock.rs:194-208 | a granted lock in place of its process's overlapping ones keeps the list free of conflicts |
| FileLock.GrantLocks | os/src/vfs/file_lock.rs:194-208 | a grant adds its lock and takes away exactly the locks of its process that touch the range |
| FileLock.KeptInOrder | os/src/vfs/file_lock.rs:194-208 | the locks that stay keep their order |
| FileLock.FileLockManager.TestLock | os/src/vfs/file_lock.rs:81-126 | free exactly when no lock of another process touches the request with one of the two for writing; otherwise the first lock that does |
| FileLock.FileLockManager.SetLock | os/src/vfs/file_lock.rs:161-212 | refused exactly when a lock of another process touches the request and one of the two is for writing; then nothing changes |
| FileLock.FileLockManager.ReleaseAllLocks | os/src/vfs/file_lock.rs:216-222 | at exit exactly the locks of that process go, and lists that became empty |
| FileLock.FileLockManager.TestThenSet | os/src/vfs/file_lock.rs:81-212 | asking says free exactly when setting is granted |
| FileLock.ListAfterOk | os/src/vfs/file_lock.rs:161-222 | after any run locks of two processes overlap only if both read, and one process's locks never overlap |
| FileLock.Run | os/src/vfs/file_lock.rs:161-222 | every list and every answer of a run is what the operations before it decide, and no stored list is empty |

## Left out

- Block sizes other than 512 below the adapter, GPT and MBR table discovery apart from the entry prefix, and `flush`.
- The ext4 library, virtio and the frame allocator appear only as contracts: a file is a byte sequence and a failed call changes nothing.
- PageCache: `insert_clean`, `invalidate_fs` and frame-backed pages; offsets that saturate at the top of the address range.
- Ext4File.Ext4Inode.Truncate: regular files only; a directory's bytes are the library's own.
- Ext4Run.Run: skips operations on inode numbers that stand for nothing.
- Ext4 rename: crash consistency, rollback of failed renames and link counts.
- LookupCache.Directories.Unlink: names other than the dots; asked for "." of an empty directory, the library takes that directory apart.
- LookupCache.Directories.Rmdir: names other than the dots, for the same reason.
- LookupCache.Directories.Rename: names other than the dots, for the same reason.
- LookupCache.Directories.RenameOntoItself: names other than the dots, for the same reason.
- LookupCache.Run: names other than the dots in removals and renames, for the same reason.
- Ext4 and tmpfs symlinks, times, owners and modes, `readdir`, `mknod` device numbers.
- TmpfsRun.Run: skips operations that are not `Harmless`, the ones that can spoil the tree or the page count.
- SimpleFsTree.TreeIsTable: the inodes are tree values, so sharing of one inode object and inode numbers are not modelled.
- SimpleFS name decoding: names are byte sequences, which is exact for the valid UTF-8 the packer writes; skipped host files never reach the packed list.
- DentryCache.Run: the namespace does not change during the run, remembered entries go only when asked to, and mounts are not modelled.
- PathWalk.LinkAndParent: one path shape; `HitAgreesExactly` is the condition for all of them.
- `RawSpinLock` behind the `lock_api` interface, which keeps its own saved flags; memory orderings weaker than sequential consistency.
- Locks.LastDropRestores: a guard is taken and dropped on the same CPU, and only guards and interrupts change the flag.
- Mutex.MutexSafe: the queue's own spin locks are held only inside the mutex's spin lock, so queue operations are single steps.
- UnixStream.Socket.ConnectStream: the listener is another socket; a socket that connects to itself while listening never returns.
- Datagram sockets, socket addresses, bindings and polling wake-ups.
- LogRing.Run: whole operations only; concurrent writers and torn reads are not modelled, nor counters that wrap at 64 bits.
- Shm.ShmRegistry.GetOrCreate: access checks over credentials are a parameter; segment contents, times and modes are not modelled.
- FileLock.FileLockManager.SetLock: waiting for a lock and splitting of ranges do not exist in the source.
- Device-number encoders, descriptor tables, timers, message queues, schedulers and drivers.

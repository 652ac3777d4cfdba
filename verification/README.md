# A verified model of the MyOS kernel core

MyOS is a 32-bit x86 kernel written in C. This project models its stateful core in Dafny and proves
what that core is there to guarantee:

- **the disk file system** (`kernel/fs/diskfs/diskfs.c`): a write-back sector cache, an inode table, an
  allocation bitmap, paths, a journal marker, mount-time validation and a consistency checker;
- **the memory stack** (`kernel/mm`): the first-fit page allocator, the splitting and coalescing heap kept
  as headers in raw memory, and two-level page tables with private copies on mapping;
- **the program loader** (`kernel/core/usermode.c`): ELF32 and flat images into a fresh address space;
- **the scheduler** (`kernel/sched/scheduler.c`) and **the drawing code** (`kernel/graphics/graphics.c`).

`dafny verify dfyconfig.toml` checks everything.

## How the model is built

Code that updates fields becomes a class whose methods have `modifies` clauses and loops with invariants.
Byte buffers and bitmaps are arrays; tables of records are sequences in fields. Each class has a ghost
snapshot, a value of a plain datatype (`State`, `Heap`, `Paged`), and each operation is proved by small
lemmas about how one step changes that value.

- *Integers* are unbounded; where the source wraps at 32 or 64 bits the model says so with `%`. Bit
  operations are recursive functions on naturals (module `Bits`).
- *The disk* is a sequence of 512-byte sectors. Every raw read or write may fail, chosen
  nondeterministically; a failed write may or may not have reached the disk. A ghost counter `faults`
  counts failures, so "without failures" reads "`faults` is unchanged". A ghost `log` records every raw
  write in order; a crash is a prefix of that log.
- *Files* are the map from (directory, name) to bytes that the cached disk and the inode table represent.
  A volume is *settled* when nothing is pending in the cache, the disk holds what memory holds and the
  journal marker is down.
- *Heap memory* is a map from word addresses, multiples of 4, to words. The linked list of headers lives in it; the ghost
  sequence of blocks is tied to it by `Rep`. Live pointers are a ghost map kept by every operation.
- *Standing assumptions.* Operations on a volume assume its invariant `MetaOk`: the bitmap and an inode table for
  64 inodes lie in different sectors between sector 2 and the data area (`LayoutOk`); the root is a directory
  with an empty name, every other live inode has a name of 1 to 31 bytes and a directory for parent, and
  uncounted inodes are free (`TreeOk`); no two files share a key; sizes match sector counts; extents and bitmap
  agree. Every operation keeps it. Mounting checks part of it; `GoodOrder` says exactly what mounting,
  `diskfs_fsck` and neither of them look at. Runs also assume that no file shares its name with a directory
  (`UniqueNames`), which they keep. Surfaces have rows whose length does not wrap at 32 bits and that fit in
  their buffer (`Fits`); `graphics` itself accepts more (see below).
- *User code* is an arbitrary change to the bytes of its own pages with an arbitrary exit code.

The main results, module by module:

| result | where |
|---|---|
| Any requests with any failures are answered as an uncached disk would answer them, reads with the latest store that was answered, and none fails unless the device does | `CacheRuns` |
| From a settled volume, whatever fails and wherever a crash falls, a disk whose marker is down holds the old volume or the new, metadata and files, never a mixture | `Transactions`, `DiskFs` |
| Any sequence of reads, writes, deletes, renames and truncations refines a map of files, keeps the volume consistent and comes back from a reboot; with failures too, files that no operation names keep their bytes | `Runs` |
| A crash anywhere in a run, then a mount, dirty or not, and crashes during that mount too: a disk with the marker down mounts with the files of one moment of the run | `Mounting`, `Runs` |
| Every field of superblock, journal and inodes is at its own offset of its sector, in both directions | `DiskFormat`, `Mounting` |
| A lookup opens what its path names, in every volume, exactly for the paths whose second try looks for nothing new | `Lookups` |
| What mounting accepts, and exactly what it misses | `Mounting` |
| The checker's number is that of files out of bounds and sectors seen again, plus one if the bitmap differs; it is zero exactly when extents and bitmap agree | `Fsck` |
| Any run of the heap keeps its list and its accounting; live payloads never overlap each other, a header or a free page | `HeapState`, `Heap` |
| To its callers any run of the heap is a store of their own words: what they fetch is what they last put | `HeapRuns` |
| A request takes the first block that holds it, of the fewest bytes and pages that do, and freeing it undoes it | `Heap`, `HeapRuns` |
| Mapping a page changes that page of that space and no other translation of any space, and the page has the rights its flags ask for | `PageTables`, `Paging` |
| A launch leaves every page and every space as it was, on every path, and user code sees exactly the file | `Loader`, `Programs` |
| A file laid out from the fields of the C structures runs exactly when the fields allow it, and user code finds every segment at its address | `Executables` |
| A waiting task runs within n - 1 switches and 20(n - 1) timer interrupts; in every run each task resumes with the frame it was last stopped with, and the counters count | `Scheduler` |
| Filling equals the pixel loop; blits show the source in the clip and nothing else | `Surfaces`, `Graphics` |

Where the code does less than one might expect, the model follows the code, and lemmas give the failing input and
the exact condition:

- path components over 30 bytes end a path (`PathsParse`);
- a relative path over 62 bytes may open another file (`LongPathOpensAnother`, `LookupExact`);
- a file written beside a directory of the same name opens exactly when its inode number is lower
  (`WriteBesideDirectory`);
- mounting accepts extents and sizes whose 32-bit sums wrap (`AcceptedIsExact`, `AcceptedAllTheSame`);
- an inode that a failed operation left unwritten stays lost when another file is written, with the marker down
  (`LostInodeStays`); a successful operation ends settled exactly when disk and memory agreed on every inode but
  its own, and a rename also on the bitmap (`WriteFile`, `DeleteFile`, `RenameFile`);
- heap sizes that wrap (`RoundedHolds`, `PagesHold`, `AlignedGranted`) and page counts that `split_block` never sets
  (`ReleaseTest`, `ReleaseTestFooled`);
- a mapping without the user flag in a slot that has no table of its own shuts user code out of the whole slot
  (`MapAccess`);
- flags above the page offset (`PageEntryFrame`), file offsets that wrap (`RangeTest`, `RangeTestFooled`),
  rectangles that wrap (`ClipExact`, `ClipFooled`);
- an exited task that is marked running again when nobody else is ready (`ExitedKeepsOn`).

The stack mapping failure of a launch (code -24) is proved never to happen: the stack shares the table of the
image window.

## Model

| member | source | states |
|---|---|---|
| `Bits.SetBitIsOr` | kernel/mm/pmm.c:24-27 | setting a bit changes that bit and no other |
| `Bits.ClearBitIsAndNot` | kernel/mm/pmm.c:29-32 | clearing a bit changes that bit and no other |
| `Bits.PutGet` | kernel/fs/diskfs/diskfs.c:168-180 | a store into a packed bitmap is read back at its own index only, for any word width |
| `Bits.OrBits` | kernel/mm/paging.c:175-229 | a bit of an or is set exactly when it is set on either side |
| `Bits.BitIsShift` | kernel/mm/pmm.c:34-37 | bit k of a word is what a shift by k leaves in its lowest place |
| `SectorCache.StoreSlot` | kernel/fs/diskfs/diskfs.c:112-155 | filling a slot changes what the cached disk reads at that sector only, and keeps the slots coherent |
| `SectorCache.WritebackKeepsView` | kernel/fs/diskfs/diskfs.c:100-110 | writing a dirty slot back changes no sector as read through the cache |
| `SectorCache.ReplayConcat` | kernel/fs/diskfs/diskfs.c:92-98 | replaying raw writes composes, so every crash point has a well-defined disk |
| `SectorCache.Cache.constructor` | kernel/fs/diskfs/diskfs.c:48-60 | an empty cache reads as the disk |
| `SectorCache.Cache.Reset` | kernel/fs/diskfs/diskfs.c:452 | forgetting every slot makes the cache read as the disk |
| `SectorCache.Cache.RawRead` | kernel/fs/diskfs/diskfs.c:84-90 | a raw read returns the sector or fails |
| `SectorCache.Cache.RawWrite` | kernel/fs/diskfs/diskfs.c:92-98 | a raw write is logged and stored, or fails with or without effect |
| `SectorCache.Cache.Writeback` | kernel/fs/diskfs/diskfs.c:100-110 | a slot is clean afterwards or the call failed; reads through the cache do not change |
| `SectorCache.Cache.Get` | kernel/fs/diskfs/diskfs.c:112-135 | the sector is in the returned slot, with the contents that reads through the cache see |
| `SectorCache.Cache.ReadSector` | kernel/fs/diskfs/diskfs.c:137-145 | a read returns the latest contents and changes nothing that can be read |
| `SectorCache.Cache.WriteSector` | kernel/fs/diskfs/diskfs.c:147-155 | a write changes exactly one sector as read through the cache, or fails and changes none |
| `SectorCache.Cache.Flush` | kernel/fs/diskfs/diskfs.c:157-166 | success means the disk equals the cached view and nothing is dirty; failure changes no reads |
| `CacheRuns.Serve` | kernel/fs/diskfs/diskfs.c:137-166 | one request is answered as an uncached disk would answer it, and fails only if the device does or the sector does not exist |
| `CacheRuns.ViewIsLatest` | kernel/fs/diskfs/diskfs.c:137-166 | in every run of an uncached disk the sectors are those of the latest stores that were answered |
| `CacheRuns.Answered` | kernel/fs/diskfs/diskfs.c:137-166 | a read returns the latest store that was answered, and an answered flush has put all of them on the disk |
| `CacheRuns.ServeAll` | kernel/fs/diskfs/diskfs.c:100-166 | any sequence of reads, writes and flushes, with any failures, is such a run; without device failures no request to an existing sector fails |
| `DiskFormat.SuperblockRoundTrip` | kernel/fs/diskfs/diskfs.c:200-206 | decoding an encoded superblock gives it back |
| `DiskFormat.SuperblockLayout` | kernel/fs/diskfs/diskfs.c:23-34 | of any sector 0, each field read is the little-endian word at its own offset |
| `DiskFormat.SuperblockWritten` | kernel/fs/diskfs/diskfs.c:200-206 | an encoded superblock has each field at its own offset and zeros behind |
| `DiskFormat.JournalWritten` | kernel/fs/diskfs/diskfs.c:208-216 | the journal sector is its magic number, the state and zeros |
| `DiskFormat.InodeRoundTrip` | kernel/fs/diskfs/diskfs.c:187-198 | decoding an encoded inode gives it back |
| `DiskFormat.InodeLayout` | kernel/fs/diskfs/diskfs.c:36-46 | of any 64 bytes, each field read is the number or the bytes at its own offset |
| `DiskFormat.InodeWritten` | kernel/fs/diskfs/diskfs.c:36-46 | an encoded inode has each field at its own offset |
| `DiskFormat.InodeInLayout` | kernel/fs/diskfs/diskfs.c:465-473 | so has inode i of a sector, 64 i bytes into it |
| `DiskFormat.PutInodeBytes` | kernel/fs/diskfs/diskfs.c:187-198 | so has inode i once it is written into the table on disk |
| `DiskFormat.SpliceInode` | kernel/fs/diskfs/diskfs.c:187-198 | writing one inode into a sector leaves its neighbours in the sector readable |
| `DiskFormat.PutInodeTable` | kernel/fs/diskfs/diskfs.c:187-198 | writing inode i into its sector changes entry i of the table on disk and no other |
| `Extents.SectorsFor` | kernel/fs/diskfs/diskfs.c:361-365 | the fewest sectors that hold the size, and one at least |
| `Extents.MarkedIsShift` | kernel/fs/diskfs/diskfs.c:168-180 | sector s is marked exactly when bit s % 8 of byte s / 8 is set |
| `Extents.ReplaceInode` | kernel/fs/diskfs/diskfs.c:579-651 | exchanging one inode and its bits keeps extents disjoint, in bounds and exactly marked |
| `Extents.DataFrame` | kernel/fs/diskfs/diskfs.c:367-387 | a file's bytes depend on its own sectors only |
| `Paths.NameRoundTrip` | kernel/fs/diskfs/diskfs.c:228-239 | a padded name reads back as the name |
| `Paths.PadName` | kernel/fs/diskfs/diskfs.c:228-239 | the field begins with the name and is zero behind it |
| `Paths.JoinParsesFrom` | kernel/fs/diskfs/diskfs.c:241-261 | parsing joined components gives them up to the first one over 30 bytes, wherever the cursor stands |
| `Paths.PathsParse` | kernel/fs/diskfs/diskfs.c:241-261 | a path is read as written exactly when no component exceeds 30 bytes |
| `Paths.LeadingSlash` | kernel/fs/diskfs/diskfs.c:519-539 | a leading slash does not change the components |
| `Paths.FindChild` | kernel/fs/diskfs/diskfs.c:263-273 | the lowest live inode with that parent, name and kind, and -1 exactly when there is none |
| `Paths.FindChildUnique` | kernel/fs/diskfs/diskfs.c:263-273 | with unique names every live inode is the child its own name finds |
| `Paths.SharedName` | kernel/fs/diskfs/diskfs.c:263-273 | of a file and a directory that share a name a lookup of any kind finds the one with the lower inode number |
| `Paths.WalkIsTarget` | kernel/fs/diskfs/diskfs.c:275-314 | walking any children to a file is walking directories and then one file name |
| `Paths.SecondTry` | kernel/fs/diskfs/diskfs.c:519-539 | the retry with a slash changes nothing when the path is absolute, has at most 62 bytes, or has the same components or none when cut to 62 bytes |
| `Lookups.NestedWalk` | kernel/fs/diskfs/diskfs.c:275-293 | in a table of nested directories a walk ends at the one file exactly when it follows all the names |
| `Lookups.OpensAnother` | kernel/fs/diskfs/diskfs.c:519-539 | every other path opens, in some well-named volume, a file that it does not name |
| `Lookups.LongPathOpensAnother` | kernel/fs/diskfs/diskfs.c:519-539 | one such path: it leads nowhere, and the lookup finds a file all the same |
| `Lookups.LookupExact` | kernel/fs/diskfs/diskfs.c:519-539 | the lookup is the plain walk in every well-named volume if and only if the retry looks for nothing new |
| `Lookups.NoRevisit` | kernel/fs/diskfs/diskfs.c:295-314 | a walk from the root never comes to a directory twice, even if parent links run in circles |
| `Lookups.BesideDirectory` | kernel/fs/diskfs/diskfs.c:579-636 | after a file is created under the name of a directory, the path leads to the file exactly when its inode number is lower |
| `Paths.WalkDirsIsDir` | kernel/fs/diskfs/diskfs.c:295-314 | the parent that a path leads to is a directory |
| `Paths.PathPart` | kernel/fs/diskfs/diskfs.c:241-261 | the component loop computes the next component and cursor, or the end of the path |
| `Listing.FileIndices` | kernel/fs/diskfs/diskfs.c:389-414 | the indices listed are those of files, in increasing order |
| `Listing.ListedOnce` | kernel/fs/diskfs/diskfs.c:389-414 | every file is listed, and listed once |
| `Listing.ShownInFull` | kernel/fs/diskfs/diskfs.c:389-414 | a printed path of at most one directory and readable names is not cut |
| `Listing.ListedNameOpens` | kernel/fs/diskfs/diskfs.c:389-414 | a listed path of at most one directory with readable components opens the file it was listed for |
| `Listing.AppendName` | kernel/fs/diskfs/diskfs.c:396-410 | the copy loop appends a name, cut at the buffer |
| `Volume.MetaReplace` | kernel/fs/diskfs/diskfs.c:579-651 | replacing an inode within the rules keeps the whole metadata invariant |
| `Volume.MetaCreate` | kernel/fs/diskfs/diskfs.c:579-636 | a free inode on a free run becomes a file and the invariant holds |
| `Volume.MetaRename` | kernel/fs/diskfs/diskfs.c:653-672 | a new parent and name that nobody has keeps the invariant |
| `Volume.CountedIsConsistent` | kernel/fs/diskfs/diskfs.c:741-786 | the invariant implies consistency of the counted inodes |
| `Volume.StoreFile` | kernel/fs/diskfs/diskfs.c:579-636 | storing a file's sectors and inode updates one key of the file map |
| `Volume.DropFile` | kernel/fs/diskfs/diskfs.c:638-651 | freeing an inode removes one key of the file map |
| `Volume.MoveFile` | kernel/fs/diskfs/diskfs.c:653-672 | renaming an inode moves one key of the file map with its bytes |
| `Volume.MetadataWrites` | kernel/fs/diskfs/diskfs.c:182-216 | metadata writes change no file's bytes |
| `Volume.BeginPhase` | kernel/fs/diskfs/diskfs.c:218-221 | raising the marker leaves every crash point with the old metadata or the marker up |
| `Volume.MiddlePhase` | kernel/fs/diskfs/diskfs.c:579-672 | with the marker up every crash point is sound |
| `Volume.CommitPhase` | kernel/fs/diskfs/diskfs.c:223-226 | lowering the marker leaves every crash point with the marker up or the new metadata |
| `Transactions.SafeBegin` | kernel/fs/diskfs/diskfs.c:218-221 | begin is crash sound from a settled volume, whatever fails |
| `Transactions.SafeBody` | kernel/fs/diskfs/diskfs.c:579-672 | the writes between begin and commit are crash sound |
| `Transactions.SafeCommit` | kernel/fs/diskfs/diskfs.c:223-226 | commit is crash sound |
| `Transactions.SafeTrans` | kernel/fs/diskfs/diskfs.c:208-226 | crash soundness composes along the log |
| `Transactions.NotBegun` | kernel/fs/diskfs/diskfs.c:593-595 | a transaction whose begin fails is crash sound |
| `Transactions.Stopped` | kernel/fs/diskfs/diskfs.c:596-633 | a transaction that fails in the middle is crash sound |
| `Transactions.Completed` | kernel/fs/diskfs/diskfs.c:208-226 | a whole transaction is crash sound; if its commit succeeds it ends settled exactly when disk and memory were in step before the commit |
| `Transactions.CommittedSettles` | kernel/fs/diskfs/diskfs.c:223-226 | a committed volume is settled exactly when its disk carries the volume in memory |
| `Transactions.CrashedFiles` | kernel/fs/diskfs/diskfs.c:208-226 | a disk that carries the volume of some moment has the files of that moment |
| `Reading.CopyBytes` | kernel/fs/diskfs/diskfs.c:75-82 | the copy loop replaces exactly the given range |
| `Reading.Clipped` | kernel/fs/diskfs/diskfs.c:541-577 | a read is cut to the file, and no further |
| `Reading.MoreBytes` | kernel/fs/diskfs/diskfs.c:541-577 | reading sector by sector accumulates the slice of the file |
| `Operations.ChunksAreData` | kernel/fs/diskfs/diskfs.c:367-387 | the zero-padded chunks written to an extent read back as the data |
| `Operations.ChunksWritten` | kernel/fs/diskfs/diskfs.c:367-387 | byte k of sector s is byte 512 s + k of the data, or zero past its end |
| `Operations.WrittenFiles` | kernel/fs/diskfs/diskfs.c:579-636 | writes into one file's extent and below the data area change the file map at that file's key only, however far they got |
| `Operations.StoredTable` | kernel/fs/diskfs/diskfs.c:579-636 | once a store is complete the inode table on disk has the new inode and is otherwise unchanged, and the bitmap is the new one |
| `Operations.TableAgrees` | kernel/fs/diskfs/diskfs.c:187-198 | a table with one entry rewritten is the one in memory exactly when all other entries were |
| `Operations.StoreDone` | kernel/fs/diskfs/diskfs.c:596-633 | a store, complete or interrupted, is a transaction body that changes one key of the file map; complete, it leaves disk and memory in step exactly when they agreed on every other inode |
| `Operations.InodeDone` | kernel/fs/diskfs/diskfs.c:638-672 | writing one inode, complete or interrupted, is a transaction body that drops or moves one key; complete, it leaves disk and memory in step exactly when they agreed on every other inode and the bitmap on disk is the new one |
| `Operations.StoreCompleted` | kernel/fs/diskfs/diskfs.c:579-636 | a completed write changes one key, is crash sound, and if it succeeds ends settled exactly when disk and memory agreed on every inode but the one written |
| `Operations.LostInodeStays` | kernel/fs/diskfs/diskfs.c:579-636 | if memory has an inode that the disk lacks, a successful write of another file ends with the marker down on a disk that is not the volume in memory |
| `Operations.ResultAfterReading` | kernel/fs/diskfs/diskfs.c:674-697 | what a write guarantees survives reading the file first |
| `Mounting.GoodVolumesAccepted` | kernel/fs/diskfs/diskfs.c:416-441 | every consistent volume passes the mount checks |
| `Mounting.AcceptedInode` | kernel/fs/diskfs/diskfs.c:432-437 | an accepted file lies inside the volume exactly when its end does not wrap, and has the sectors its size asks for exactly when that sum does not wrap |
| `Mounting.AcceptedIsExact` | kernel/fs/diskfs/diskfs.c:416-441 | so for all counted inodes of an accepted volume |
| `Mounting.AcceptedAllTheSame` | kernel/fs/diskfs/diskfs.c:432-437 | any accepted volume with two inodes stays accepted with a file whose end wraps, which is out of bounds, and with one whose size wraps |
| `Mounting.GoodOrder` | kernel/fs/diskfs/diskfs.c:416-441 | the invariant of all operations holds exactly when the mount checks pass, the checker's conditions hold, and what neither looks at holds |
| `Mounting.Remount` | kernel/fs/diskfs/diskfs.c:443-486 | the disk of a settled volume is mountable and decodes to the metadata that memory held |
| `Mounting.GoodDiskMounts` | kernel/fs/diskfs/diskfs.c:443-486 | a disk with metadata in good order is mountable, whether its marker is up or down, and the mount reads the inode table that is on it |
| `Mounting.MountPointGood` | kernel/fs/diskfs/diskfs.c:443-486 | at every crash point of a mount of such a disk, the disk is still in good order and has the same files |
| `Mounting.MountWrites` | kernel/fs/diskfs/diskfs.c:480-483 | at every crash point while the marker is cleared, sector 0 is the old one or the one with the marker down, and no sector from 2 on has changed |
| `Mounting.LoadedTableBytes` | kernel/fs/diskfs/diskfs.c:465-473 | every inode that was loaded has each field from its own place on the disk |
| `Mounting.LoadSector` | kernel/fs/diskfs/diskfs.c:465-473 | the copy loop takes over the inodes of one sector |
| `DiskFs.FileSystem.WriteBitmap` | kernel/fs/diskfs/diskfs.c:182-185 | the bitmap sector is written through to the disk or the call failed |
| `DiskFs.FileSystem.WriteInode` | kernel/fs/diskfs/diskfs.c:187-198 | inode i on disk becomes inode i in memory, through read, change and write, each field at its own offset |
| `DiskFs.FileSystem.WriteJournal` | kernel/fs/diskfs/diskfs.c:208-216 | on success the journal sector and the superblock on disk carry the marker, each field at its own offset, and nothing is pending; on failure no write but those two and what was already pending can have reached the disk |
| `DiskFs.FileSystem.SetMarker` | kernel/fs/diskfs/diskfs.c:218-226 | one marker step of the protocol, with every failure point |
| `DiskFs.FileSystem.ClearMarker` | kernel/fs/diskfs/diskfs.c:480-483 | a clean volume is not written to; without failures the marker of a dirty one is down on disk and no sector from 2 on has changed; whatever fails, every crash point has the old sector 0 or the one with the marker down |
| `DiskFs.FileSystem.WriteFileData` | kernel/fs/diskfs/diskfs.c:367-387 | byte by byte, the extent holds the data padded with zeros |
| `DiskFs.FileSystem.AllocContiguous` | kernel/fs/diskfs/diskfs.c:330-352 | the lowest free run of that length is marked, and failure means there is none |
| `DiskFs.FileSystem.FreeExtent` | kernel/fs/diskfs/diskfs.c:354-359 | exactly the run is unmarked |
| `DiskFs.FileSystem.AllocInode` | kernel/fs/diskfs/diskfs.c:316-328 | the lowest free inode is returned, and none exactly when there is none; the count grows to cover it |
| `DiskFs.FileSystem.Create` | kernel/fs/diskfs/diskfs.c:614-628 | a new file takes the lowest free inode, cleared but for its fields, and a free run; it fails exactly when one is missing |
| `DiskFs.FileSystem.Resize` | kernel/fs/diskfs/diskfs.c:596-610 | a rewritten file keeps its extent or moves to a free run, and the old sectors are given up |
| `DiskFs.FileSystem.FindPath` | kernel/fs/diskfs/diskfs.c:275-293 | the walk loop finds the inode that the components lead to |
| `DiskFs.FileSystem.EnsureParentDir` | kernel/fs/diskfs/diskfs.c:295-314 | the parent and the leaf that a path targets, or an error when it has none |
| `DiskFs.FileSystem.LookupFile` | kernel/fs/diskfs/diskfs.c:519-539 | both tries of the lookup |
| `DiskFs.FileSystem.RebuildFileList` | kernel/fs/diskfs/diskfs.c:389-414 | the list is every file in index order with its printed path |
| `DiskFs.FileSystem.WriteFile` | kernel/fs/diskfs/diskfs.c:579-636 | whatever fails, the invariant holds, no key but the target changes and every crash point is sound; without failures the target has the data exactly when there is room and nothing changes otherwise; success ends settled exactly when disk and memory agreed on every inode but the one written |
| `DiskFs.FileSystem.DeleteFile` | kernel/fs/diskfs/diskfs.c:638-651 | whatever fails, the map is the old one or the old one without the named file, and every crash point is sound; without failures the file goes exactly when it is there; success ends settled under the same condition |
| `DiskFs.FileSystem.RenameFile` | kernel/fs/diskfs/diskfs.c:653-672 | whatever fails, the map is the old one or has the bytes under the new key, and every crash point is sound; without failures they move exactly when the new name is untaken; success ends settled exactly when disk and memory also agreed on the bitmap |
| `DiskFs.FileSystem.TruncateFile` | kernel/fs/diskfs/diskfs.c:674-697 | the file is cut or zero-extended by rewriting it, with the guarantees of a write, so that a failed read or write changes no other key; equal sizes and refusals change nothing |
| `DiskFs.FileSystem.ReadIndex` | kernel/fs/diskfs/diskfs.c:541-577 | the buffer holds the requested slice clipped to the file, and reading changes nothing |
| `DiskFs.FileSystem.Validate` | kernel/fs/diskfs/diskfs.c:416-441 | the loop accepts exactly the volumes that the checks describe, and then extents are in bounds and sizes match exactly when no sum wraps |
| `DiskFs.FileSystem.LoadMetadata` | kernel/fs/diskfs/diskfs.c:454-473 | superblock, bitmap and inodes are those of the disk: each field is the number at its own offset; it fails only if the device does or the header is not acceptable |
| `DiskFs.FileSystem.Initialize` | kernel/fs/diskfs/diskfs.c:443-486 | without failures a volume is available exactly when it is mountable, its marker is then down on disk and no sector from 2 on has changed; whatever fails, every crash point keeps those sectors and the superblock but for its marker; extents of an available volume are in bounds and sizes match exactly when no sum wraps |
| `DiskFs.FileSystem.FsckVolume` | kernel/fs/diskfs/diskfs.c:741-786 | the number reported is that of the errors in the volume, and 1 if it is not mounted; none exactly when mounted and consistent, and always after operations that keep the invariant |
| `Fsck.MarkMetadata` | kernel/fs/diskfs/diskfs.c:753-755 | the first sectors are marked seen |
| `Fsck.ScanFiles` | kernel/fs/diskfs/diskfs.c:756-773 | the count is the number of files out of bounds and of sectors seen again; no error exactly when extents are in bounds and disjoint, and the seen bits are then their union |
| `Fsck.MarkFile` | kernel/fs/diskfs/diskfs.c:764-771 | the inner loop counts the sectors of one file that were seen before and marks them all |
| `Fsck.NoFileErrors` | kernel/fs/diskfs/diskfs.c:756-773 | that number is zero exactly when extents are in bounds and disjoint |
| `Fsck.NoErrors` | kernel/fs/diskfs/diskfs.c:741-786 | the whole number is zero exactly when the bitmap also agrees |
| `Fsck.Check` | kernel/fs/diskfs/diskfs.c:741-786 | the number of errors is that of files out of bounds and sectors seen again, plus one if the bitmap differs; zero if and only if extents are in bounds, disjoint and exactly the bitmap |
| `Runs.TargetFixed` | kernel/fs/diskfs/diskfs.c:295-314 | where a path points depends on directories only, which no operation changes |
| `Runs.OpensWhatItNames` | kernel/fs/diskfs/diskfs.c:519-539 | opening and writing name the same file whenever the retry looks for nothing new |
| `Runs.FindFileIsTarget` | kernel/fs/diskfs/diskfs.c:519-539 | lookup in the inode table agrees with lookup in the file map |
| `Runs.ReadIsStep` | kernel/core/usermode.c:506-533 | opening and reading is a step of the abstract file map: it answers the clipped slice and changes nothing |
| `Runs.WriteIsStep` | kernel/fs/diskfs/diskfs.c:579-636 | a write changes no name but its target, keeps names unique, and without failures is a step of the abstract file map |
| `Runs.WriteBesideDirectory` | kernel/fs/diskfs/diskfs.c:579-636 | after a successful write to the name of a directory the path opens the new file exactly when its inode number is lower |
| `Runs.DeleteIsStep` | kernel/fs/diskfs/diskfs.c:638-651 | the same for a delete |
| `Runs.RenameKeeps` | kernel/fs/diskfs/diskfs.c:653-672 | a rename, whatever fails, keeps the tree and touches no name but the two it is given |
| `Runs.RenameIsStep` | kernel/fs/diskfs/diskfs.c:653-672 | without failures it is a step of the abstract file map |
| `Runs.TruncateIsStep` | kernel/fs/diskfs/diskfs.c:674-697 | the same for a truncation |
| `Runs.ReadPath` | kernel/core/usermode.c:506-533 | the bytes of the file that the path opens, clipped, and nothing written that was not pending |
| `Runs.Apply` | kernel/fs/diskfs/diskfs.c:541-697 | any one operation keeps the volume mounted and the names it does not touch, and refines its abstract step |
| `Runs.TraceKeeps` | kernel/fs/diskfs/diskfs.c:541-697 | in any run, with any failures, the tree stays and every file that no operation names keeps its bytes |
| `Runs.TraceRefines` | kernel/fs/diskfs/diskfs.c:541-697 | a run without failures is a run of the abstract file map, replies included |
| `Runs.RunSafeStep` | kernel/fs/diskfs/diskfs.c:208-226 | crash soundness of runs extends by one operation |
| `Runs.TraceCrashSafe` | kernel/fs/diskfs/diskfs.c:541-697 | from a settled moment, up to and including the first operation during which the device fails, every crash point with the marker down holds the metadata and the files of some moment between operations |
| `Runs.StretchCrashSafe` | kernel/fs/diskfs/diskfs.c:541-697 | the same between any two moments of a run, if the first is settled |
| `Runs.CrashPointMounts` | kernel/fs/diskfs/diskfs.c:443-486 | every such crash point is a disk that mounts, with the metadata and the files of one of those moments |
| `Runs.RunAll` | kernel/fs/diskfs/diskfs.c:541-697 | any sequence of operations with any failures passes through states that each operation's guarantees connect, and the three results on runs hold of them |
| `Runs.Reboot` | kernel/fs/diskfs/diskfs.c:443-486 | mounting again brings a settled volume back with the same metadata and files |
| `Runs.Mount` | kernel/fs/diskfs/diskfs.c:443-486 | without failures any disk in good order, dirty or not, comes back settled with its files; whatever fails, every crash point of the mount still is that disk but for the marker |
| `Pmm.RegionPage` | kernel/mm/pmm.c:39-67 | the rounded bounds of a region enclose exactly its whole managed pages |
| `Pmm.UnionUsable` | kernel/mm/pmm.c:69-97 | the pages marked are the union of the usable firmware entries, cut to whole managed pages |
| `Pmm.Allocator.UsedIsTaken` | kernel/mm/pmm.c:172-175 | the used count is the number of usable pages whose bit is set |
| `Pmm.Allocator.SetTaken` | kernel/mm/pmm.c:24-32 | one page leaves or joins the free pages |
| `Pmm.Allocator.AllocPages` | kernel/mm/pmm.c:109-138 | the lowest long enough run of free pages is taken, and 0 means there is none |
| `Pmm.Allocator.AllocPage` | kernel/mm/pmm.c:104-107 | one free page is taken, and 0 means none is free |
| `Pmm.Allocator.FreePages` | kernel/mm/pmm.c:145-165 | exactly the named pages become free, each counted once; pointers outside the managed area are ignored |
| `Pmm.Allocator.FreePage` | kernel/mm/pmm.c:140-143 | one page becomes free and is counted once; a pointer outside the managed area or inside a page is ignored |
| `Pmm.Allocator.MarkUsable` | kernel/mm/pmm.c:39-67 | the region's pages become usable and free, each counted once even when regions overlap |
| `Pmm.Allocator.Initialize` | kernel/mm/pmm.c:69-97 | afterwards the free pages are exactly the usable firmware pages, or the fallback area if there are none |
| `HeapBlocks.SplitApart` | kernel/mm/heap.c:75-95 | splitting keeps extents disjoint and sizes and addresses multiples of 8 |
| `HeapBlocks.MergeApart` | kernel/mm/heap.c:97-115 | so does merging neighbours |
| `HeapBlocks.RegionApart` | kernel/mm/heap.c:37-61 | a block on fresh pages is disjoint from every other |
| `HeapBlocks.ReleaseBacked` | kernel/mm/heap.c:130-144 | a page-aligned block that fills its pages shares none of them with another block |
| `HeapMemory.RepSplit` | kernel/mm/heap.c:75-95 | the stores of a split leave a correctly linked list of headers |
| `HeapMemory.RepMerge` | kernel/mm/heap.c:97-115 | so do the stores of a merge |
| `HeapMemory.RepAppend` | kernel/mm/heap.c:37-61 | so do the stores that append a region |
| `HeapMemory.RepUnlink` | kernel/mm/heap.c:117-128 | so do the stores that unlink a block |
| `HeapState.LivePayloads` | kernel/mm/heap.c:160-236 | no byte of a live payload belongs to another live payload, to any header, or to a free page |
| `HeapState.GoodSplit` | kernel/mm/heap.c:75-95 | a split keeps list, accounting, backing pages and every caller's bytes |
| `HeapState.GoodMerge` | kernel/mm/heap.c:97-115 | so does a merge |
| `HeapState.GoodUnlink` | kernel/mm/heap.c:117-144 | so does releasing a block, whether its pages go back or not |
| `HeapState.GoodRegion` | kernel/mm/heap.c:37-61 | so does adding a region |
| `HeapState.GoodTake` | kernel/mm/heap.c:180-182 | so does handing a block out, at a pointer nobody holds |
| `HeapState.GoodGive` | kernel/mm/heap.c:227-228 | so does taking a block back |
| `HeapState.GoodRegrant` | kernel/mm/heap.c:197-201 | so does any write inside one allocated payload, with the pointer moved inside it |
| `Heap.RoundedHolds` | kernel/mm/heap.c:32-35 | the rounded size is the least multiple of 8 that holds the request exactly when the rounding does not wrap |
| `Heap.PagesHold` | kernel/mm/heap.c:170-171 | the computed pages are the fewest that hold the request and a header exactly when the sum does not wrap |
| `Heap.RoundedPages` | kernel/mm/heap.c:165-171 | rounding the size first does not change the number of pages |
| `Heap.RoundedFits` | kernel/mm/heap.c:63-73 | in every heap the first block that holds the rounded size is the first that holds the request |
| `Heap.AlignedFits` | kernel/mm/heap.c:185-202 | the hidden header and the bytes fit in the requested total exactly when the total does not wrap, and the pointer is the lowest aligned address behind the header |
| `Heap.AlignedGranted` | kernel/mm/heap.c:185-202 | they fit in what kmalloc grants exactly when the total stays at or below 2^32 - 8 |
| `Heap.ReleaseTest` | kernel/mm/heap.c:136-139 | a block that passes the release test has the length its count says exactly when the count is below 2^20 |
| `Heap.ReleaseTestFooled` | kernel/mm/heap.c:136-139 | a count above 2^20 that passes the test for a one-page block |
| `Heap.NextIsNoTag` | kernel/mm/heap.c:204-215 | the word that kfree reads below a plain pointer is never the alignment tag |
| `Heap.LiveMarks` | kernel/mm/heap.c:204-225 | what kfree reads below a live pointer tells plain from aligned and names the block |
| `Heap.JoinsNeighbours` | kernel/mm/heap.c:97-115 | a freed block and the free neighbours it touches become one block, and no byte is lost |
| `Heap.FreeUndoes` | kernel/mm/heap.c:160-236 | freeing a block that has just served a request restores the list, unless a free neighbour joins in |
| `Heap.GrowthUndone` | kernel/mm/heap.c:160-236 | a request that had to grow the heap, freed again, leaves neither a block nor a page behind unless the last block is free |
| `Heap.KernelHeap.FindFreeBlock` | kernel/mm/heap.c:63-73 | the first block that fits, and null exactly when none does |
| `Heap.KernelHeap.BlockFromPages` | kernel/mm/heap.c:37-61 | one free block covering the pages is appended |
| `Heap.KernelHeap.SplitBlock` | kernel/mm/heap.c:75-95 | the block keeps its front and a free rest follows it, or nothing changes when the rest is too small |
| `Heap.KernelHeap.CoalesceNext` | kernel/mm/heap.c:97-115 | a free adjacent successor is merged, and nothing changes otherwise |
| `Heap.KernelHeap.UnlinkBlock` | kernel/mm/heap.c:117-128 | the list without the block |
| `Heap.KernelHeap.ReleaseWholeRegion` | kernel/mm/heap.c:130-144 | a free block as long as its page count leaves the list; its exact extent goes back if it starts on a page, and no page otherwise |
| `Heap.KernelHeap.Initialize` | kernel/mm/heap.c:146-158 | one page under one free block, or an empty heap when no page is free |
| `Heap.KernelHeap.Obtain` | kernel/mm/heap.c:160-183 | the loop serves a rounded size from the first block that fits; unless the page sum wraps at most one region is added, and null changes nothing |
| `Heap.KernelHeap.Kmalloc` | kernel/mm/heap.c:160-183 | unless a sum wraps, in terms of the size asked for: a fresh pointer into the first block that holds it, with at most 7 bytes more granted and the block cut to exceed the grant by less than 56; at most one region is added, of the fewest pages that hold size and header; null means that no block holds it and no run of that many pages is free, and changes nothing |
| `Heap.KernelHeap.KmallocAligned` | kernel/mm/heap.c:185-202 | an aligned pointer, the lowest possible behind the hidden header, which lies with the bytes inside one block; that block exceeds size, alignment and header by less than 64; null means the same as for kmalloc |
| `Heap.KernelHeap.Kfree` | kernel/mm/heap.c:204-236 | exactly the pointer's block is freed, whatever pointer it was allocated through; the list is the one with free neighbours joined and a whole region released, and the pages that go back are that one block's extent or none; stray pointers are only counted |
| `Heap.KernelHeap.Store` | kernel/mm/heap.c:160-202 | a caller's word inside its own memory disturbs nothing |
| `HeapRuns.ReadsWhatItStored` | kernel/mm/heap.c:160-236 | in a run as callers see it, a fetch answers the word last put there, whatever is allocated, freed, split or merged in between |
| `HeapRuns.Granted` | kernel/mm/heap.c:160-202 | a new grant meets nobody's bytes and leaves every stored word in place |
| `HeapRuns.GivenBack` | kernel/mm/heap.c:204-236 | giving one grant back leaves the words in all others |
| `HeapRuns.Perform` | kernel/mm/heap.c:160-236 | one call on the heap is one step as callers see it |
| `HeapRuns.RunAll` | kernel/mm/heap.c:160-236 | any run of calls is a run as callers see it: every stored word is in memory, and held pieces are disjoint and on pages that are taken |
| `HeapRuns.AllocateAndFree` | kernel/mm/heap.c:160-236 | allocating and freeing at once leaves what callers hold; where the heap had to grow behind a taken block, it also leaves the block list and the free pages |
| `PageTables.SamePage` | kernel/mm/paging.c:217-218 | two addresses share slot and index exactly when they share a page |
| `PageTables.AddressParts` | kernel/mm/paging.c:217-218 | slot, index and offset make up the address |
| `PageTables.FrameOr` | kernel/mm/paging.c:175-229 | the frame of an or is the or of the frames |
| `PageTables.PageEntryFrame` | kernel/mm/paging.c:224 | a stored entry names its frame exactly when the flags add no bit above the offset |
| `PageTables.PageEntryBits` | kernel/mm/paging.c:224 | an entry has the bits of the frame, present and the flags, and no other |
| `PageTables.TableEntryBits` | kernel/mm/paging.c:194-203 | a directory entry has the bits of the table, present, writable and user as the flags have it, and no other |
| `PageTables.StoreSound` | kernel/mm/paging.c:208-254 | a store into an owned table keeps every page in one role |
| `PageTables.StoreView` | kernel/mm/paging.c:208-254 | such a store shows at its own page of its own space and nowhere else |
| `PageTables.StoreKernel` | kernel/mm/paging.c:208-254 | such a store changes no translation of the kernel |
| `PageTables.StoreAccess` | kernel/mm/paging.c:208-254 | such a store sets the rights of its own page, within those of its slot, and of no other |
| `PageTables.AdoptSound` | kernel/mm/paging.c:175-206 | a private copy, or a new empty table, changes no translation of any space |
| `PageTables.FlagsSound` | kernel/mm/paging.c:201-203 | wider access bits in a directory change no translation |
| `PageTables.CreateSound` | kernel/mm/paging.c:120-140 | a new space translates as the kernel and disturbs nobody |
| `PageTables.DestroySound` | kernel/mm/paging.c:142-163 | removing a space disturbs nobody |
| `Paging.HeldTaken` | kernel/mm/paging.c:120-163 | the pages of a space are taken and shared with no other space |
| `Paging.MapExact` | kernel/mm/paging.c:208-229 | a mapped page translates to its frame plus offset exactly when the flags add no frame bits |
| `Paging.StoreMapAccess` | kernel/mm/paging.c:208-229 | once the slot has the rights of the flags, the mapped page has exactly them; no other page loses any, unless the slot gets its table from flags without the user bit, and then none of it is left to user code |
| `Paging.AddressSpaces.ZeroTable` | kernel/mm/paging.c:22-27 | every entry of the table is zero and no other table changes |
| `Paging.AddressSpaces.CopyTable` | kernel/mm/paging.c:29-34 | the destination equals the source and no other table changes |
| `Paging.AddressSpaces.CreateSpace` | kernel/mm/paging.c:120-140 | a space that translates as the kernel, from two fresh pages; failure returns what was taken |
| `Paging.AddressSpaces.DestroySpace` | kernel/mm/paging.c:142-163 | every page the space holds goes back and no other; no other translation changes |
| `Paging.AddressSpaces.SwitchSpace` | kernel/mm/paging.c:165-173 | the current space changes unless the argument is null |
| `Paging.AddressSpaces.EnsureTable` | kernel/mm/paging.c:175-206 | the slot has a table of its own, from at most one fresh page, and nothing translates differently |
| `Paging.AddressSpaces.MapPage` | kernel/mm/paging.c:208-229 | one page of one space translates to the entry and has the rights of the flags, and every other translation of every space is unchanged; no other page loses a right, exactly unless the slot gets a table of its own from flags without the user bit; pages are conserved |
| `Paging.AddressSpaces.UnmapPage` | kernel/mm/paging.c:236-254 | one page of one space no longer translates and nothing else changes |
| `Paging.AddressSpaces.GetPhysical` | kernel/mm/paging.c:261-280 | the translation of the address, or 0 |
| `UserImage.WindowStep` | kernel/core/usermode.c:185-197 | mapping the next page extends the mapped window by one and touches nothing else |
| `UserImage.FilledStep` | kernel/core/usermode.c:218-220 | copying the next byte keeps the pages equal to the image so far and zero after it |
| `UserImage.WindowStarted` | kernel/core/usermode.c:185-220 | a mapped window over filled pages is the program and a zero stack, all of it open to user code for writing |
| `Loader.ProgramLoader.AllocImages` | kernel/core/usermode.c:173-183 | sixteen pages, or everything is given back |
| `Loader.ProgramLoader.MapWindow` | kernel/core/usermode.c:185-207 | all seventeen pages are mapped, or code -23 with everything given back; code -24 never occurs |
| `Loader.ProgramLoader.Fill` | kernel/core/usermode.c:209-220 | the pages hold the image followed by zeros, and the stack is zero |
| `Loader.ProgramLoader.AllocateProcess` | kernel/core/usermode.c:108-147 | the first unused entry, else the first exited one, else none; only that entry changes |
| `Loader.ProgramLoader.Assemble` | kernel/core/usermode.c:156-207 | the code is decided by the number of free pages, and failure leaves everything as it was |
| `Loader.ProgramLoader.Dismantle` | kernel/core/usermode.c:242-250 | after a run every page and the space go back |
| `Loader.ProgramLoader.RunLoadedImage` | kernel/core/usermode.c:149-254 | on every path the free pages, the used count, the spaces and all translations are as before; the program runs exactly when entry and size lie in the window, twenty pages are free and a process entry is; user code then sees and may write the image, zeros and a zero stack |
| `Programs.ScanAccepts` | kernel/core/usermode.c:301-325 | the segment loop accepts exactly when every load segment fits file and window and there is one |
| `Programs.LastWins` | kernel/core/usermode.c:316-319 | the last load segment that covers a byte gives it |
| `Programs.NoneIsZero` | kernel/core/usermode.c:297-299 | a byte that no segment covers is zero |
| `Programs.RangeTest` | kernel/core/usermode.c:312-314 | a range that passes the 32-bit test lies in the file exactly when its end does not wrap |
| `Programs.RangeTestFooled` | kernel/core/usermode.c:312-314 | a range that wraps passes the test and lies outside the file |
| `Programs.WindowTest` | kernel/core/usermode.c:308-311 | the window test is exact, wrapping included |
| `Programs.Runner.CopySegment` | kernel/core/usermode.c:316-319 | exactly the covered bytes of the image change, to the bytes of the file |
| `Programs.Runner.LoadSegments` | kernel/core/usermode.c:297-325 | the code of the first bad segment, or the image that the segments build in order |
| `Programs.Runner.RunElf` | kernel/core/usermode.c:275-328 | each refusal has its code, and so has each lack of room; an accepted file runs exactly when there is room, and user memory, which user code may write, reads the last covering segment, zero elsewhere and a zero stack; nothing is lost |
| `Programs.Runner.RunMexe` | kernel/core/usermode.c:256-273 | the same for the flat format |
| `Executables.HeaderRead` | kernel/core/usermode.c:31-46 | of a header built from its fields the loader finds each one, and knows exactly 32-bit little-endian i386 executables of version 1 |
| `Executables.ElfRead` | kernel/core/usermode.c:31-57 | so for every program header, wherever the header says they are |
| `Executables.ElfAccepted` | kernel/core/usermode.c:275-328 | a file built from its fields is accepted exactly when magic number, kind, entry and every load segment fit and there is one |
| `Executables.ElfRefused` | kernel/core/usermode.c:275-328 | and which code every other one is refused with |
| `Executables.RunBuilt` | kernel/core/usermode.c:149-328 | such a file runs exactly when its fields fit and there is room; user memory then shows each segment at its address, the last one where they overlap, and zero elsewhere |
| `Executables.PayloadRuns` | tools/build/mkfs.py:119-144 | the ELF file that the image builder makes is accepted exactly when its payload fits in the window, and its segment is the payload |
| `Executables.MexeRead` | kernel/core/usermode.c:256-273 | the code for a flat file built from its fields, and the image it carries |
| `Executables.PayloadMexe` | tools/build/mkfs.py:115-116 | the flat file that the image builder makes is accepted unless its payload is empty or too large |
| `Scheduler.NextUnique` | kernel/sched/scheduler.c:102-112 | there is one next task |
| `Scheduler.NextInOrder` | kernel/sched/scheduler.c:102-112 | the choice goes upwards through the table: no ready task is skipped |
| `Scheduler.RunInv` | kernel/sched/scheduler.c:127-172 | in every state of every run each other task has a saved frame and only the current task is running |
| `Scheduler.Stopped` | kernel/sched/scheduler.c:145-172 | a task that is switched away from keeps the frame of that interrupt, and waits unless it has exited |
| `Scheduler.SavedFrame` | kernel/sched/scheduler.c:145-172 | in every run the saved frame of a task off the processor is that of the interrupt that last took the processor from it |
| `Scheduler.Accounting` | kernel/sched/scheduler.c:127-172 | in every run ticks, runs and switches are the numbers of interrupts on the processor, of dispatches and of changes, at 32 bits |
| `Scheduler.FullQuantum` | kernel/sched/scheduler.c:127-172 | nobody is switched away before the twentieth tick of its quantum unless that is asked for |
| `Scheduler.RequestObeyed` | kernel/sched/scheduler.c:140-143 | a request or an exit is obeyed at the next timer interrupt if anybody waits |
| `Scheduler.Decision` | kernel/sched/scheduler.c:145-172 | a decision while a task waits switches to it or to one before it in the ring |
| `Scheduler.TimerProgress` | kernel/sched/scheduler.c:127-172 | each timer interrupt brings a waiting task closer or runs it |
| `Scheduler.BoundedWaiting` | kernel/sched/scheduler.c:127-172 | in every run a waiting task is dispatched within n - 1 switches and 20(n - 1) timer interrupts, from the frame it was stopped with |
| `Scheduler.SwitchToRunnable` | kernel/sched/scheduler.c:145-172 | a switch goes to a task that was waiting |
| `Scheduler.ExitedKeepsOn` | kernel/sched/scheduler.c:145-163 | at a decision an exited task keeps the processor exactly when nobody waits |
| `Scheduler.ExitedForGood` | kernel/sched/scheduler.c:102-172 | once off the processor an exited task never comes back |
| `Scheduler.TaskScheduler.constructor` | kernel/sched/scheduler.c:114-125 | the shell runs and two tasks wait, with all counters zero |
| `Scheduler.TaskScheduler.PickNext` | kernel/sched/scheduler.c:102-112 | the loop finds the first ready task round the ring, and the current one if there is none |
| `Scheduler.TaskScheduler.OnTick` | kernel/sched/scheduler.c:127-138 | tick and quantum grow and the flag is raised at the twentieth tick |
| `Scheduler.TaskScheduler.ExitTrap` | kernel/sched/scheduler.c:39-46 | the current task is exited and a reschedule is pending |
| `Scheduler.TaskScheduler.ScheduleFromInterrupt` | kernel/sched/scheduler.c:145-172 | the interrupted frame is saved with the task it belongs to and the frame returned is that of the task that now runs |
| `Scheduler.TaskScheduler.TimerInterrupt` | arch/x86/interrupts/idt.c:250-254 | one timer step, which keeps the invariant and never returns a null frame |
| `Scheduler.TaskScheduler.Drive` | kernel/sched/scheduler.c:127-172 | any run of events through the code is the run that the lemmas speak of, and each interrupt returns to the frame that the task which then runs was last stopped with |
| `Surfaces.AtApart` | kernel/graphics/graphics.c:101-120 | different pixels use different bytes |
| `Surfaces.ValidExact` | kernel/graphics/graphics.c:60-75 | unless a row wraps, a surface is valid exactly when its rows hold its pixels at a known depth |
| `Surfaces.PaletteRule` | kernel/graphics/graphics.c:17-27 | the sixteen colours follow the bits of their numbers, but for brown |
| `Surfaces.Rgb565Channels` | kernel/graphics/graphics.c:29-37 | a 16-bit pixel has the high bits of red, green and blue, in that order |
| `Surfaces.PixelFits` | kernel/graphics/graphics.c:101-139 | reading the bytes of a colour gives its value at every depth |
| `Surfaces.PutGet` | kernel/graphics/graphics.c:101-139 | a pixel reads back what was put and every other pixel reads as before |
| `Surfaces.RectPixels` | kernel/graphics/graphics.c:150-190 | after the pixel loop the rectangle has the colour and other pixels are as before |
| `Surfaces.RectPadding` | kernel/graphics/graphics.c:150-190 | row padding and bytes past the last row are untouched |
| `Surfaces.CopyPixels` | kernel/graphics/graphics.c:204-263 | after row copies the rectangle reads as the source and other pixels as before |
| `Surfaces.CopyPadding` | kernel/graphics/graphics.c:204-263 | row copies touch no padding |
| `Graphics.ClipExact` | kernel/graphics/graphics.c:156-161 | the clipped count is the part inside the surface exactly when the sum does not wrap to something that fits |
| `Graphics.ClipFooled` | kernel/graphics/graphics.c:156-161 | a width that wraps is not clipped |
| `Graphics.DrawPixel` | kernel/graphics/graphics.c:101-120 | the bytes of one pixel, at row times pitch plus column times size, become those of the colour at all four depths, and invalid calls change nothing |
| `Graphics.ReadPixel` | kernel/graphics/graphics.c:122-139 | the value of the pixel's bytes, or 0 |
| `Graphics.FillRect` | kernel/graphics/graphics.c:150-190 | the same bytes as the pixel loop over the clipped rectangle, at all four depths |
| `Graphics.Clear` | kernel/graphics/graphics.c:141-148 | every pixel has the colour and padding is untouched |
| `Graphics.CopyBytes` | kernel/graphics/graphics.c:6-15 | words and then bytes copy exactly the range |
| `Graphics.Blit` | kernel/graphics/graphics.c:204-228 | the common area shows the source, converted when formats differ; other pixels and padding are unchanged |
| `Graphics.BlitRect` | kernel/graphics/graphics.c:230-263 | the same for the clipped rectangle |

## Left out

- Port I/O, PCI, RTC, PIT, serial, PIC, GDT, boot code and assembly: hardware plumbing. The disk is a sequence of sectors with a success flag.
- Shell, window system, keyboard, mouse, system call dispatch and text drawing: they only add easy members.
- `diskfs_read_file`, `diskfs_file_name`, `diskfs_file_size` and the text of the checker's report: wrappers over the operations modelled.
- Mount-time repair: the source only clears the marker of a dirty volume, and so does the model. A dirty volume whose metadata is in good order comes back (`Runs.Mount`); of one whose metadata is not, nothing is claimed beyond the mount checks.
- Runs.RunAll: crash points are covered from every settled moment up to and including the next operation during which the device fails. From a moment that is not settled nothing is claimed, since it would be false: the marker goes down over a disk that is not the volume in memory as soon as an operation on another inode succeeds (`LostInodeStays`).
- Runs.RunAll: writes and truncations whose target is the name of a directory are excluded; the source creates a file beside the directory (`WriteBesideDirectory` says when it can be opened).
- DiskFs.FileSystem.DeleteFile: like the source it does not look at the availability flag, so a mounted volume is required; the same holds for RenameFile and TruncateFile.
- Fsck.Check: extents whose end wraps at 32 bits are excluded, because the source then marks bits outside its array. Mounting does not refuse them (`AcceptedAllTheSame`); in an accepted volume they are exactly the extents out of bounds (`AcceptedIsExact`).
- Heap.KernelHeap.SplitBlock: the page count that `split_block` leaves unset is any value below 2^20; `ReleaseTest` and `ReleaseTestFooled` say what larger values would do.
- Heap.KernelHeap.KmallocAligned: alignments are powers of two and the total is at most 2^32 - 8; `AlignedGranted` says that beyond it the bytes lie outside the grant.
- Heap.KernelHeap.Kfree: a pointer that is neither null nor live must carry no heap marks or name a block that is already free.
- Completeness of region release: regions that merged across their boundary stay in the heap, as in the source. That a region comes back is claimed where no free neighbour joins in (`FreeUndoes`, `GrowthUndone`).
- Paging.AddressSpaces.MapPage: mapping in the kernel space itself goes through shared tables and is not modelled; neither is `paging_initialize`, whose tables are the `shared` set of the model.
- Paging.AddressSpaces.UnmapPage: the slot must have a table of the space's own, since the source makes no private copy when it unmaps.
- Byte layout of `struct address_space`: its pointer and 1024 slots are a typed record here. In the source they are four bytes longer than the page they are given; where the last slot lies is outside the model.
- The translation cache and the processor's protection checks are not modelled; translation is the two-level walk, and rights are the access bits on it.
- Loader.ProgramLoader.RunLoadedImage: file descriptors of a process are not modelled, and user code allocates no pages.
- Loader.ProgramLoader.MapWindow: the clean-up of code -24 is not written out, because that branch is proved dead.
- Programs.Runner.RunElf: files whose header offsets wrap are excluded; `RangeTest` and `RangeTestFooled` say why.
- `usermode_run_test` and `usermode_run_program`: a self test, and a dispatch on the first four bytes.
- Graphics.DrawPixel: surfaces whose width times pixel size wraps at 32 bits are excluded (`Fits`), although the source accepts them if the wrapped product is at most the pitch; so are surfaces that do not fit in their buffer. The same holds for ReadPixel, FillRect, Clear, Blit and BlitRect.
- Pmm.Allocator.FreePages: blocks inside the managed area whose end wraps at 32 bits, and pages of that area that were never usable, are excluded.
- Graphics.FillRect: rectangles whose right or lower edge wraps at 32 bits are excluded; `ClipExact` says when that matters. The same holds for BlitRect.
- Graphics.Blit: source and destination are different buffers.

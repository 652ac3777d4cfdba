/** What a mount accepts, and that remounting a settled volume finds it again. */
module Mounting {
  import opened SectorCache
  import opened DiskFormat
  import opened Extents
  import opened Paths
  import opened Volume
  import opened Transactions
  import Fsck

  function Wrap32(x: nat): (r: U32)
  {
    x % 0x1_0000_0000
  }

  /** `sectors_for_size` in 32 bits. */
  function Sectors32(size: nat): (r: nat)
  {
    var n := Wrap32(size + SECTOR_SIZE - 1) / SECTOR_SIZE;
    if n == 0 then 1 else n
  }

  /** The checks of `diskfs_validate` on one inode, with the source's 32-bit sums. */
  predicate AcceptsInode(sb: Superblock, n: Inode, isRoot: bool)
  {
    n.kind != TYPE_FREE ==>
      && (!isRoot ==> 0 < |CName(n.name)| < NAME_BYTES && n.parent < sb.inodeCount)
      && (IsFile(n) ==> sb.dataStart <= n.first && Wrap32(n.first + n.count) <= sb.totalSectors
                        && n.count == Sectors32(n.size))
  }

  predicate Accepts(sb: Superblock, inodes: seq<Inode>)
    requires |inodes| == MAX_INODES
  {
    && sb.magic == MAGIC && sb.totalSectors == TOTAL_SECTORS && sb.inodeCount <= MAX_INODES
    && inodes[0].kind == TYPE_DIR
    && forall i :: 0 <= i < sb.inodeCount ==> AcceptsInode(sb, inodes[i], i == 0)
  }

  /** The superblock checks of `diskfs_initialize`, and that every sector it asks for exists. */
  predicate HeaderOk(sb: Superblock)
  {
    && sb.magic == MAGIC && sb.maxInodes <= MAX_INODES && sb.bitmapSectors == 1 && sb.totalSectors == TOTAL_SECTORS
    && sb.bitmapStart < TOTAL_SECTORS
    && (sb.inodeSectors > 0 ==> sb.inodeStart + sb.inodeSectors <= TOTAL_SECTORS)
  }

  function LoadedInode(disk: seq<Sector>, sb: Superblock, sectors: nat, i: nat): (n: Inode)
    requires |disk| == TOTAL_SECTORS && (sectors > 0 ==> sb.inodeStart + sectors <= TOTAL_SECTORS) && i < MAX_INODES
  {
    if i / PER_SECTOR < sectors then InodeIn(disk[sb.inodeStart + i / PER_SECTOR], i % PER_SECTOR) else FREE_INODE
  }

  /** The inode array after the first `sectors` sectors of the table are read. */
  function LoadedInodes(disk: seq<Sector>, sb: Superblock, sectors: nat): (t: seq<Inode>)
    requires |disk| == TOTAL_SECTORS && (sectors > 0 ==> sb.inodeStart + sectors <= TOTAL_SECTORS)
    ensures |t| == MAX_INODES && forall i :: 0 <= i < MAX_INODES ==> t[i] == LoadedInode(disk, sb, sectors, i)
  {
    seq(MAX_INODES, i requires 0 <= i < MAX_INODES => LoadedInode(disk, sb, sectors, i))
  }

  /** The inode table on the disk, byte by byte: 64 bytes for each inode, eight inodes to a sector. */
  predicate TableBytes(disk: seq<Sector>, sb: Superblock, sectors: nat, inodes: seq<Inode>)
    requires |disk| == TOTAL_SECTORS && (sectors > 0 ==> sb.inodeStart + sectors <= TOTAL_SECTORS)
  {
    && |inodes| == MAX_INODES
    && forall i :: 0 <= i < MAX_INODES ==>
         if i / PER_SECTOR < sectors
         then InodeBytes(disk[sb.inodeStart + i / PER_SECTOR], i % PER_SECTOR * INODE_SIZE, inodes[i])
         else inodes[i] == FREE_INODE
  }

  lemma LoadedTableBytes(disk: seq<Sector>, sb: Superblock, sectors: nat)
    requires |disk| == TOTAL_SECTORS && (sectors > 0 ==> sb.inodeStart + sectors <= TOTAL_SECTORS)
    ensures TableBytes(disk, sb, sectors, LoadedInodes(disk, sb, sectors))
  {
    hide InodeBytes, InodeIn;
    forall i | 0 <= i < MAX_INODES && i / PER_SECTOR < sectors
      ensures InodeBytes(disk[sb.inodeStart + i / PER_SECTOR], i % PER_SECTOR * INODE_SIZE,
                         LoadedInodes(disk, sb, sectors)[i])
    {
      InodeInLayout(disk[sb.inodeStart + i / PER_SECTOR], i % PER_SECTOR);
    }
  }

  /** A disk that a failure-free mount accepts. */
  predicate Mountable(disk: seq<Sector>)
    requires |disk| == TOTAL_SECTORS
  {
    var sb := DecodeSuperblock(disk[0]);
    HeaderOk(sb) && Accepts(sb, LoadedInodes(disk, sb, sb.inodeSectors))
  }

  // ---------------------------------------------------------------- what acceptance guarantees

  lemma AcceptedHeader(sb: Superblock, inodes: seq<Inode>)
    requires |inodes| == MAX_INODES && Accepts(sb, inodes)
    ensures sb.inodeCount <= MAX_INODES && inodes[0].kind == TYPE_DIR
  {
  }

  /** The sum in `sectors_for_size` stays below 2^32. */
  predicate SizesDoNotWrap(inodes: seq<Inode>)
  {
    forall i :: 0 <= i < |inodes| && IsFile(inodes[i]) ==> inodes[i].size + SECTOR_SIZE - 1 < 0x1_0000_0000
  }

  /** The two sums are all that stands between the checks and what they are for. */
  ghost predicate ExactUpToWrapping(sb: Superblock, inodes: seq<Inode>)
    requires sb.inodeCount <= |inodes|
  {
    var counted := inodes[..sb.inodeCount];
    && (AllInBounds(sb.dataStart, counted) <==> Fsck.EndsDoNotWrap(counted))
    && (SizesMatch(counted) <==> SizesDoNotWrap(counted))
  }

  /** An accepted file lies inside the volume exactly when its end does not wrap, and has the sectors its size asks
      for exactly when that sum does not wrap. */
  lemma AcceptedInode(sb: Superblock, n: Inode, isRoot: bool)
    requires AcceptsInode(sb, n, isRoot) && IsFile(n) && sb.totalSectors == TOTAL_SECTORS
    ensures InBounds(sb.dataStart, n) <==> n.first + n.count < 0x1_0000_0000
    ensures n.count == SectorsFor(n.size) <==> n.size + SECTOR_SIZE - 1 < 0x1_0000_0000
  {
  }

  lemma AcceptedIsExact(sb: Superblock, inodes: seq<Inode>)
    requires |inodes| == MAX_INODES && Accepts(sb, inodes)
    ensures ExactUpToWrapping(sb, inodes)
  {
    hide CName, SectorsFor, Sectors32;
    forall i | 0 <= i < sb.inodeCount && IsFile(inodes[i])
      ensures InBounds(sb.dataStart, inodes[i]) <==> inodes[i].first + inodes[i].count < 0x1_0000_0000
      ensures inodes[i].count == SectorsFor(inodes[i].size) <==> inodes[i].size + SECTOR_SIZE - 1 < 0x1_0000_0000
    {
      AcceptedInode(sb, inodes[i], i == 0);
    }
  }

  /** A file of 200 sectors whose end wraps to sector 100. */
  function WrappedExtent(): (n: Inode)
  {
    Inode(TYPE_FILE, 0, 0, 102400, 0xFFFFFF9C, 200, 0, PadName([97]), Zeros(12))
  }

  /** A file of 2^32 - 1 bytes in one sector. */
  function WrappedSize(first: U32): (n: Inode)
  {
    Inode(TYPE_FILE, 0, 0, 0xFFFFFFFF, first, 1, 0, PadName([97]), Zeros(12))
  }

  /** Both sums can wrap: any accepted volume may hold a file outside it, or one that claims more bytes than it has. */
  lemma AcceptedAllTheSame(sb: Superblock, inodes: seq<Inode>)
    requires |inodes| == MAX_INODES && Accepts(sb, inodes) && sb.inodeCount >= 2 && sb.dataStart < TOTAL_SECTORS
    ensures Accepts(sb, inodes[1 := WrappedExtent()])
    ensures !AllInBounds(sb.dataStart, inodes[1 := WrappedExtent()][..sb.inodeCount])
    ensures Accepts(sb, inodes[1 := WrappedSize(sb.dataStart)])
    ensures !SizesMatch(inodes[1 := WrappedSize(sb.dataStart)][..sb.inodeCount])
  {
    hide CName;
    StoredName([97]);
    assert AcceptsInode(sb, WrappedExtent(), false) && AcceptsInode(sb, WrappedSize(sb.dataStart), false);
    assert !InBounds(sb.dataStart, inodes[1 := WrappedExtent()][..sb.inodeCount][1]);
    var n := inodes[1 := WrappedSize(sb.dataStart)][..sb.inodeCount][1];
    assert IsFile(n) && n.count != SectorsFor(n.size);
  }

  /** What every operation relies on and neither mounting nor `diskfs_fsck` looks at. */
  ghost predicate Unchecked(sb: Superblock, inodes: seq<Inode>)
    requires |inodes| == MAX_INODES
  {
    && LayoutOk(sb) && 1 <= sb.inodeCount <= MAX_INODES && CName(inodes[0].name) == []
    && (forall i :: sb.inodeCount <= i < MAX_INODES ==> inodes[i].kind == TYPE_FREE)
    && (forall i {:trigger inodes[i].parent} ::
       1 <= i < sb.inodeCount && inodes[i].kind != TYPE_FREE && inodes[i].parent < MAX_INODES ==>
          inodes[inodes[i].parent].kind == TYPE_DIR)
    && UniqueFiles(inodes) && SizesDoNotWrap(inodes)
  }

  lemma GoodSizes(sb: Superblock, inodes: seq<Inode>, bm: Sector)
    requires MetaOk(sb, inodes, bm)
    ensures Unchecked(sb, inodes)
  {
  }

  /** Uncounted inodes are free, so what holds of the counted ones holds of all. */
  lemma AllAsCounted(sb: Superblock, inodes: seq<Inode>, bm: Sector)
    requires sb.inodeCount <= |inodes| && forall i :: sb.inodeCount <= i < |inodes| ==> inodes[i].kind == TYPE_FREE
    requires Consistent(sb.dataStart, inodes[..sb.inodeCount], bm) && SizesMatch(inodes[..sb.inodeCount])
    ensures Consistent(sb.dataStart, inodes, bm) && SizesMatch(inodes)
  {
  }

  lemma CheckedIsGood(sb: Superblock, inodes: seq<Inode>, bm: Sector)
    requires |inodes| == MAX_INODES && Accepts(sb, inodes) && Unchecked(sb, inodes)
    requires Consistent(sb.dataStart, inodes[..sb.inodeCount], bm)
    ensures MetaOk(sb, inodes, bm)
  {
    hide Consistent, UniqueFiles, CName;
    AcceptedIsExact(sb, inodes);
    AllAsCounted(sb, inodes, bm);
    forall i | 1 <= i < sb.inodeCount && inodes[i].kind != TYPE_FREE
      ensures 0 < |CName(inodes[i].name)| < NAME_BYTES && inodes[i].parent < sb.inodeCount
    {
      assert AcceptsInode(sb, inodes[i], false);
    }
  }

  /** A volume is in good order exactly when mounting accepts it, `diskfs_fsck` finds it consistent,
      and the rest holds. */
  lemma GoodOrder(sb: Superblock, inodes: seq<Inode>, bm: Sector)
    requires |inodes| == MAX_INODES
    ensures MetaOk(sb, inodes, bm) <==>
              Accepts(sb, inodes) && Consistent(sb.dataStart, inodes[..sb.inodeCount], bm) && Unchecked(sb, inodes)
  {
    if MetaOk(sb, inodes, bm) {
      GoodVolumesAccepted(sb, inodes, bm);
      CountedIsConsistent(sb, inodes, bm);
      GoodSizes(sb, inodes, bm);
    }
    if Accepts(sb, inodes) && Consistent(sb.dataStart, inodes[..sb.inodeCount], bm) && Unchecked(sb, inodes) {
      CheckedIsGood(sb, inodes, bm);
    }
  }

  lemma AcceptedParents(sb: Superblock, inodes: seq<Inode>)
    requires |inodes| == MAX_INODES && Accepts(sb, inodes)
    ensures sb.inodeCount <= MAX_INODES
    ensures forall i :: 0 <= i < sb.inodeCount && inodes[i].kind == TYPE_FILE ==> inodes[i].parent < |inodes|
  {
  }

  /** Every volume in good order passes the mount checks. */
  lemma GoodVolumesAccepted(sb: Superblock, inodes: seq<Inode>, bm: Sector)
    requires MetaOk(sb, inodes, bm)
    ensures Accepts(sb, inodes)
  {
    forall i | 0 <= i < sb.inodeCount ensures AcceptsInode(sb, inodes[i], i == 0) {
      assert InBounds(sb.dataStart, inodes[i]);
      if i > 0 && inodes[i].kind != TYPE_FREE {
        assert inodes[i].parent < sb.inodeCount;
      }
    }
  }

  /** A disk whose metadata are in good order, whatever its marker says. */
  ghost predicate GoodDisk(disk: seq<Sector>)
  {
    && |disk| == TOTAL_SECTORS
    && var sb := DecodeSuperblock(disk[0]);
       LayoutOk(sb) && MetaOk(sb, InodeTable(disk, sb), disk[sb.bitmapStart])
  }

  /** The files on such a disk. */
  ghost function FilesOn(disk: seq<Sector>): (m: map<Key, seq<Byte>>)
    requires GoodDisk(disk)
  {
    var sb := DecodeSuperblock(disk[0]);
    MetaFilesOk(sb, InodeTable(disk, sb), disk[sb.bitmapStart]);
    FilesOf(disk, InodeTable(disk, sb))
  }

  /** It mounts, and the mount reads its inode table. */
  lemma GoodDiskMounts(disk: seq<Sector>)
    requires GoodDisk(disk)
    ensures Mountable(disk)
    ensures var sb := DecodeSuperblock(disk[0]); LoadedInodes(disk, sb, sb.inodeSectors) == InodeTable(disk, sb)
  {
    hide MetaOk, Accepts, InodeIn, DecodeSuperblock;
    var sb := DecodeSuperblock(disk[0]);
    GoodVolumesAccepted(sb, InodeTable(disk, sb), disk[sb.bitmapStart]);
    assert LoadedInodes(disk, sb, sb.inodeSectors) == InodeTable(disk, sb);
  }

  lemma UnmarkedIsGood(sb: Superblock, inodes: seq<Inode>, bm: Sector)
    requires MetaOk(sb, inodes, bm)
    ensures MetaOk(Unmarked(sb), inodes, bm)
  {
    hide TreeOk, UniqueFiles, SizesMatch, Consistent;
  }

  /** What a crash during a mount may leave of disk `before`: nothing changes from sector 2 on, and sector 0 is the
      superblock as it was, or the same one with the marker down. */
  ghost predicate MountPoint(before: seq<Sector>, disk: seq<Sector>)
  {
    && |disk| == |before| == TOTAL_SECTORS && disk[2..] == before[2..]
    && (disk[0] == before[0] || disk[0] == EncodeSuperblock(Unmarked(DecodeSuperblock(before[0]))))
  }

  /** So at every crash point between `a` and `b`. */
  ghost predicate MountSafe(a: Snapshot, b: Snapshot)
  {
    && |a.disk| == TOTAL_SECTORS && History(a.disk, a.log, b.disk, b.log)
    && forall k :: 0 <= k <= |WritesSince(a, b)| ==> MountPoint(a.disk, ReplayTo(a.disk, WritesSince(a, b), k))
  }

  lemma MountUntouched(a: Snapshot, b: Snapshot)
    requires |a.disk| == TOTAL_SECTORS && b.disk == a.disk && b.log == a.log
    ensures MountSafe(a, b)
  {
    HistoryRefl(a.disk, a.log);
    assert WritesSince(a, b) == [];
    assert ReplayTo(a.disk, [], 0) == a.disk;
  }

  lemma MountWrites(start: Snapshot, a: Snapshot, b: Snapshot)
    requires |a.disk| == TOTAL_SECTORS && AllClean(a.slots) && start.disk == a.disk && start.log == a.log
    requires Advances(a, b, MarkerWrites(Unmarked(DecodeSuperblock(a.disk[0]))))
    ensures MountSafe(start, b)
  {
    hide DecodeSuperblock, EncodeSuperblock, View, Coherent, Unmarked;
    CleanStart(a, b, MarkerWrites(Unmarked(DecodeSuperblock(a.disk[0]))));
    var writes := WritesSince(a, b);
    forall k | 0 <= k <= |writes| ensures MountPoint(a.disk, ReplayTo(a.disk, writes, k)) {
      var d := ReplayTo(a.disk, writes, k);
      assert forall w :: w in writes[..k] ==> w in writes;
      forall s | 2 <= s < TOTAL_SECTORS ensures d[s] == a.disk[s] {
        ReplaySector(a.disk, writes[..k], s);
      }
      ReplaySector(a.disk, writes[..k], 0);
    }
  }

  /** A crash during a mount leaves a good disk good, with the same files, so mounting can always be tried again. */
  lemma MountPointGood(before: seq<Sector>, disk: seq<Sector>)
    requires GoodDisk(before) && MountPoint(before, disk)
    ensures GoodDisk(disk) && FilesOn(disk) == FilesOn(before)
  {
    hide DecodeSuperblock, EncodeSuperblock, InodeTable, MetaOk, FilesOf, FilesOk;
    var sb, sb' := DecodeSuperblock(before[0]), DecodeSuperblock(disk[0]);
    SuperblockRoundTrip(Unmarked(sb));
    var inodes, bm := InodeTable(before, sb), before[sb.bitmapStart];
    UnmarkedIsGood(sb, inodes, bm);
    MetaFilesOk(sb, inodes, bm);
    forall s | 2 <= s < TOTAL_SECTORS ensures disk[s] == before[s] {
      assert disk[2..][s - 2] == before[2..][s - 2];
    }
    InodeTableFrame(before, disk, sb);
    TableLayout(disk, sb, sb');
    SameVolumeFiles(disk, before, sb, inodes, bm);
  }

  /** Remounting the disk of a settled volume finds that volume. */
  lemma Remount(st: State)
    requires Mounted(st) && Settled(st)
    ensures Mountable(st.io.disk)
    ensures DecodeSuperblock(st.io.disk[0]) == st.sb && st.io.disk[st.sb.bitmapStart] == st.bm
    ensures LoadedInodes(st.io.disk, st.sb, st.sb.inodeSectors) == st.inodes
  {
    hide MetaOk, Accepts, InodeIn, DecodeSuperblock, View, Coherent;
    SettledMeta(st);
    MetaLayout(st.sb, st.inodes, st.bm);
    GoodVolumesAccepted(st.sb, st.inodes, st.bm);
    assert LoadedInodes(st.io.disk, st.sb, st.sb.inodeSectors) == InodeTable(st.io.disk, st.sb);
  }

  /** Copy one sector of inodes into the table; entries past its end are ignored. */
  method LoadSector(inodes: seq<Inode>, sector: Sector, base: nat) returns (r: seq<Inode>)
    ensures |r| == |inodes|
    ensures forall j ::
              0 <= j < |r| ==> r[j] == if base <= j < base + PER_SECTOR then InodeIn(sector, j - base) else inodes[j]
  {
    r := inodes;
    var i := 0;
    while i < PER_SECTOR && base + i < |inodes|
      invariant i <= PER_SECTOR && |r| == |inodes|
      invariant forall j ::
                  0 <= j < |r| ==> r[j] == if base <= j < base + i then InodeIn(sector, j - base) else inodes[j]
    {
      r := r[base + i := InodeIn(sector, i)];
      i := i + 1;
    }
  }
}

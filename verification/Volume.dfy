/** A mounted volume as values: its invariant, the map from names to bytes that it
    stands for, and what the raw disk says about its metadata. */
module Volume {
  import opened SectorCache
  import opened DiskFormat
  import opened Extents
  import opened Paths

  // ---------------------------------------------------------------- the invariant

  ghost predicate SizesMatch(inodes: seq<Inode>)
  {
    forall i :: 0 <= i < |inodes| && IsFile(inodes[i]) ==> inodes[i].count == SectorsFor(inodes[i].size)
  }

  /** What every operation keeps, whatever the device does. */
  ghost predicate MetaOk(sb: Superblock, inodes: seq<Inode>, bm: Sector)
  {
    && LayoutOk(sb)
    && |inodes| == MAX_INODES
    && TreeOk(inodes, sb.inodeCount)
    && UniqueFiles(inodes)
    && SizesMatch(inodes)
    && Consistent(sb.dataStart, inodes, bm)
  }

  lemma MetaLayout(sb: Superblock, inodes: seq<Inode>, bm: Sector)
    requires MetaOk(sb, inodes, bm)
    ensures LayoutOk(sb) && |inodes| == MAX_INODES && TreeOk(inodes, sb.inodeCount)
  {
  }

  lemma MetaUnique(sb: Superblock, inodes: seq<Inode>, bm: Sector)
    requires MetaOk(sb, inodes, bm)
    ensures UniqueFiles(inodes)
  {
  }

  /** The unused inodes hold no sectors, so the volume is consistent as far as fsck looks. */
  lemma CountedIsConsistent(sb: Superblock, inodes: seq<Inode>, bm: Sector)
    requires MetaOk(sb, inodes, bm)
    ensures Consistent(sb.dataStart, inodes[..sb.inodeCount], bm)
  {
    var counted := inodes[..sb.inodeCount];
    forall s ensures InSomeFile(counted, s) <==> InSomeFile(inodes, s) {
      if InSomeFile(inodes, s) {
        var i :| 0 <= i < |inodes| && Covers(inodes[i], s);
        assert counted[i] == inodes[i];
      }
    }
  }

  /** The part of the invariant that makes file contents readable. */
  ghost predicate FilesOk(inodes: seq<Inode>)
  {
    AllInBounds(0, inodes) && SizesMatch(inodes) && UniqueFiles(inodes)
  }

  lemma MetaFilesOk(sb: Superblock, inodes: seq<Inode>, bm: Sector)
    requires MetaOk(sb, inodes, bm)
    ensures FilesOk(inodes)
  {
  }

  /** A free slot or file turned into a file under a directory, or into a free slot. */
  lemma TreeReplace(inodes: seq<Inode>, count: nat, i: nat, n: Inode, count': nat)
    requires TreeOk(inodes, count) && 1 <= i < count' && count <= count' <= |inodes|
    requires inodes[i].kind != TYPE_DIR && n.kind != TYPE_DIR
    requires n.kind != TYPE_FREE ==>
               0 < |CName(n.name)| < NAME_BYTES && n.parent < count && inodes[n.parent].kind == TYPE_DIR
    ensures TreeOk(inodes[i := n], count')
  {
    var inodes' := inodes[i := n];
    forall j | 1 <= j < count' && inodes'[j].kind != TYPE_FREE
      ensures 0 < |CName(inodes'[j].name)| < NAME_BYTES && inodes'[j].parent < count'
      ensures inodes'[inodes'[j].parent].kind == TYPE_DIR
    {
      if j != i {
        assert inodes'[j] == inodes[j] && inodes[inodes[j].parent].kind == TYPE_DIR;
      }
    }
  }

  /** One inode and its sectors are exchanged; everything else of the invariant follows. */
  lemma MetaReplace(sb: Superblock, inodes: seq<Inode>, bm: Sector, i: nat, n: Inode, bm': Sector, count': nat)
    requires MetaOk(sb, inodes, bm) && 1 <= i < count' && sb.inodeCount <= count' <= MAX_INODES
    requires inodes[i].kind != TYPE_DIR && n.kind != TYPE_DIR
    requires n.kind != TYPE_FREE ==>
               0 < |CName(n.name)| < NAME_BYTES && n.parent < sb.inodeCount && inodes[n.parent].kind == TYPE_DIR
    requires IsFile(n) ==>
               && n.count == SectorsFor(n.size)
               && forall j :: 0 <= j < |inodes| && j != i && IsFile(inodes[j]) ==> KeyOf(inodes[j]) != KeyOf(n)
    requires InBounds(sb.dataStart, n)
    requires forall s :: 0 <= s < TOTAL_SECTORS && Covers(n, s) ==> !Marked(bm, s) || Covers(inodes[i], s)
    requires forall s ::
               0 <= s < TOTAL_SECTORS ==> (Marked(bm', s) <==> (Marked(bm, s) && !Covers(inodes[i], s)) || Covers(n, s))
    ensures MetaOk(sb.(inodeCount := count'), inodes[i := n], bm')
  {
    hide Consistent;
    TreeReplace(inodes, sb.inodeCount, i, n, count');
    ReplaceInode(sb.dataStart, inodes, bm, i, n, bm');
  }

  /** A free inode becomes a file on a free run. */
  lemma MetaCreate(sb: Superblock, inodes: seq<Inode>, bm: Sector, i: nat, n: Inode, bm': Sector, count': nat)
    requires MetaOk(sb, inodes, bm) && 1 <= i < count' && sb.inodeCount <= count' <= MAX_INODES && i < |inodes|
    requires inodes[i].kind == TYPE_FREE && IsFile(n) && n.count == SectorsFor(n.size) && InBounds(sb.dataStart, n)
    requires 0 < |CName(n.name)| < NAME_BYTES && n.parent < sb.inodeCount && n.parent < |inodes|
    requires inodes[n.parent].kind == TYPE_DIR
    requires FindChild(inodes, n.parent, CName(n.name), TYPE_FILE) < 0
    requires RunFree(bm, n.first, n.count) && RunSet(bm, n.first, n.count, true, bm')
    ensures MetaOk(sb.(inodeCount := count'), inodes[i := n], bm')
  {
    hide Consistent;
    forall j | 0 <= j < |inodes| && IsFile(inodes[j]) ensures KeyOf(inodes[j]) != KeyOf(n) {
      assert !IsChild(inodes[j], n.parent, CName(n.name), TYPE_FILE);
    }
    MetaReplace(sb, inodes, bm, i, n, bm', count');
  }

  /** More inodes may be counted than are used. */
  lemma MetaMore(sb: Superblock, inodes: seq<Inode>, bm: Sector, count': nat)
    requires MetaOk(sb, inodes, bm) && sb.inodeCount <= count' <= MAX_INODES
    ensures MetaOk(sb.(inodeCount := count'), inodes, bm)
  {
  }

  /** Every sector of a file is marked, and no sector of a free run belongs to a file. */
  lemma FileIsMarked(sb: Superblock, inodes: seq<Inode>, bm: Sector, i: nat, s: nat)
    requires MetaOk(sb, inodes, bm) && i < |inodes| && Covers(inodes[i], s)
    ensures s < TOTAL_SECTORS && Marked(bm, s)
  {
  }

  /** A file under a new name that no live inode has. */
  lemma MetaRename(sb: Superblock, inodes: seq<Inode>, bm: Sector, i: nat, n: Inode)
    requires MetaOk(sb, inodes, bm) && i < |inodes| && IsFile(inodes[i])
    requires n == inodes[i].(parent := n.parent, name := n.name)
    requires 0 < |CName(n.name)| < NAME_BYTES && n.parent < sb.inodeCount && inodes[n.parent].kind == TYPE_DIR
    requires FindChild(inodes, n.parent, CName(n.name), 0) < 0
    ensures MetaOk(sb, inodes[i := n], bm)
  {
    forall s | 0 <= s < TOTAL_SECTORS && Covers(inodes[i], s) ensures Marked(bm, s) {
      FileIsMarked(sb, inodes, bm, i, s);
    }
    assert InBounds(sb.dataStart, inodes[i]);
    forall j | 0 <= j < |inodes| && IsFile(inodes[j]) ensures KeyOf(inodes[j]) != KeyOf(n) {
      assert !IsChild(inodes[j], n.parent, CName(n.name), 0);
    }
    MetaReplace(sb, inodes, bm, i, n, bm, sb.inodeCount);
  }

  // ---------------------------------------------------------------- the map of files

  function Contents(view: seq<Sector>, n: Inode): (d: seq<Byte>)
    requires n.first + SectorsFor(n.size) <= |view|
    ensures |d| == n.size
  {
    Data(view, n.first, n.size)
  }

  ghost predicate Represents(m: map<Key, seq<Byte>>, view: seq<Sector>, inodes: seq<Inode>)
    requires |view| == TOTAL_SECTORS && AllInBounds(0, inodes) && SizesMatch(inodes)
  {
    && (forall i :: 0 <= i < |inodes| && IsFile(inodes[i]) ==>
          InBounds(0, inodes[i]) && KeyOf(inodes[i]) in m && m[KeyOf(inodes[i])] == Contents(view, inodes[i]))
    && (forall k :: k in m ==> Named(inodes, k))
  }

  ghost predicate Named(inodes: seq<Inode>, k: Key)
  {
    exists i :: 0 <= i < |inodes| && IsFile(inodes[i]) && KeyOf(inodes[i]) == k
  }

  /** The volume as a map from (directory, name) to bytes. */
  ghost function FilesOf(view: seq<Sector>, inodes: seq<Inode>): (m: map<Key, seq<Byte>>)
    requires |view| == TOTAL_SECTORS && FilesOk(inodes)
  {
    assert forall i :: 0 <= i < |inodes| && IsFile(inodes[i]) ==> InBounds(0, inodes[i]);
    map i | 0 <= i < |inodes| && IsFile(inodes[i]) :: KeyOf(inodes[i]) := Contents(view, inodes[i])
  }

  lemma FilesRepresents(view: seq<Sector>, inodes: seq<Inode>)
    requires |view| == TOTAL_SECTORS && FilesOk(inodes)
    ensures Represents(FilesOf(view, inodes), view, inodes)
  {
    assert forall i :: 0 <= i < |inodes| && IsFile(inodes[i]) ==> InBounds(0, inodes[i]);
  }

  lemma RepresentsOne(m: map<Key, seq<Byte>>, view: seq<Sector>, inodes: seq<Inode>)
    requires |view| == TOTAL_SECTORS && FilesOk(inodes) && Represents(m, view, inodes)
    ensures m == FilesOf(view, inodes)
  {
    var f := FilesOf(view, inodes);
    FilesRepresents(view, inodes);
    forall k | k in m ensures k in f && f[k] == m[k] {
      assert Named(inodes, k);
    }
    forall k | k in f ensures k in m {
      assert Named(inodes, k);
    }
  }

  /** Two views that agree on the sectors of a file give it the same bytes. */
  lemma SameContents(view: seq<Sector>, view': seq<Sector>, n: Inode)
    requires |view| == |view'| == TOTAL_SECTORS && IsFile(n) && InBounds(0, n) && n.count == SectorsFor(n.size)
    requires forall s :: 0 <= s < TOTAL_SECTORS && Covers(n, s) ==> view'[s] == view[s]
    ensures Contents(view', n) == Contents(view, n)
  {
  }

  /** Replacing inode `i` leaves the bytes of every other file alone when only its own sectors were written. */
  lemma OtherContents(view: seq<Sector>, view': seq<Sector>, inodes: seq<Inode>, i: nat, n: Inode, j: nat)
    requires |view| == |view'| == TOTAL_SECTORS && i < |inodes| && j < |inodes| && i != j && IsFile(inodes[j])
    requires FilesOk(inodes) && NoOverlap(inodes[i := n])
    requires forall s ::
               0 <= s < TOTAL_SECTORS && !Covers(n, s) && InSomeFile(inodes[i := n], s) ==> view'[s] == view[s]
    ensures InBounds(0, inodes[j])
    ensures Contents(view', inodes[j]) == Contents(view, inodes[j])
  {
    var inodes' := inodes[i := n];
    assert inodes'[i] == n && inodes'[j] == inodes[j] && InBounds(0, inodes[j]);
    forall s | 0 <= s < TOTAL_SECTORS && Covers(inodes[j], s) ensures view'[s] == view[s] {
      assert Covers(inodes'[j], s) && InSomeFile(inodes', s);
      assert !Covers(inodes'[i], s);
    }
    SameContents(view, view', inodes[j]);
  }

  /** Storing `data` as file `i`, on sectors no other file has, is one map update. */
  lemma StoreFile(view: seq<Sector>, view': seq<Sector>, inodes: seq<Inode>, i: nat, n: Inode, data: seq<Byte>)
    requires |view| == |view'| == TOTAL_SECTORS && i < |inodes|
    requires FilesOk(inodes) && FilesOk(inodes[i := n]) && NoOverlap(inodes[i := n])
    requires IsFile(n) && (IsFile(inodes[i]) ==> KeyOf(inodes[i]) == KeyOf(n))
    requires n.first + SectorsFor(n.size) <= TOTAL_SECTORS && Contents(view', n) == data
    requires forall s ::
               0 <= s < TOTAL_SECTORS && !Covers(n, s) && InSomeFile(inodes[i := n], s) ==> view'[s] == view[s]
    ensures FilesOf(view', inodes[i := n]) == FilesOf(view, inodes)[KeyOf(n) := data]
  {
    var inodes' := inodes[i := n];
    var m := FilesOf(view, inodes)[KeyOf(n) := data];
    FilesRepresents(view, inodes);
    forall j | 0 <= j < |inodes'| && IsFile(inodes'[j])
      ensures InBounds(0, inodes'[j]) && KeyOf(inodes'[j]) in m && m[KeyOf(inodes'[j])] == Contents(view', inodes'[j])
    {
      StoredValue(view, view', inodes, i, n, data, j);
    }
    forall k | k in m ensures Named(inodes', k) {
      NamedAfter(inodes, i, n, k);
    }
    RepresentsOne(m, view', inodes');
  }

  lemma NamedAfter(inodes: seq<Inode>, i: nat, n: Inode, k: Key)
    requires i < |inodes| && (Named(inodes, k) || (IsFile(n) && k == KeyOf(n)))
    requires IsFile(inodes[i]) && KeyOf(inodes[i]) == k ==> IsFile(n) && KeyOf(n) == k
    ensures Named(inodes[i := n], k)
  {
    var inodes' := inodes[i := n];
    if IsFile(n) && k == KeyOf(n) {
      assert inodes'[i] == n;
    } else {
      var j :| 0 <= j < |inodes| && IsFile(inodes[j]) && KeyOf(inodes[j]) == k;
      assert inodes'[j] == inodes[j];
    }
  }

  lemma StoredValue(view: seq<Sector>, view': seq<Sector>, inodes: seq<Inode>, i: nat, n: Inode, data: seq<Byte>,
                    j: nat)
    requires |view| == |view'| == TOTAL_SECTORS && i < |inodes| && j < |inodes|
    requires FilesOk(inodes) && FilesOk(inodes[i := n]) && NoOverlap(inodes[i := n])
    requires IsFile(n) && IsFile(inodes[i := n][j])
    requires n.first + SectorsFor(n.size) <= TOTAL_SECTORS && Contents(view', n) == data
    requires forall s ::
               0 <= s < TOTAL_SECTORS && !Covers(n, s) && InSomeFile(inodes[i := n], s) ==> view'[s] == view[s]
    ensures InBounds(0, inodes[i := n][j])
    ensures KeyOf(inodes[i := n][j]) in FilesOf(view, inodes)[KeyOf(n) := data]
    ensures FilesOf(view, inodes)[KeyOf(n) := data][KeyOf(inodes[i := n][j])] == Contents(view', inodes[i := n][j])
  {
    var inodes' := inodes[i := n];
    assert inodes'[i] == n;
    FilesRepresents(view, inodes);
    if j != i {
      assert inodes'[j] == inodes[j];
      OtherContents(view, view', inodes, i, n, j);
      assert KeyOf(inodes'[j]) != KeyOf(inodes'[i]);
    }
  }

  /** Dropping file `i` removes one key; the data sectors of the others must not have changed. */
  lemma DropFile(view: seq<Sector>, view': seq<Sector>, inodes: seq<Inode>, i: nat, n: Inode)
    requires |view| == |view'| == TOTAL_SECTORS && i < |inodes|
    requires FilesOk(inodes) && FilesOk(inodes[i := n]) && NoOverlap(inodes[i := n]) && IsFile(inodes[i]) && !IsFile(n)
    requires forall s :: 0 <= s < TOTAL_SECTORS && InSomeFile(inodes[i := n], s) ==> view'[s] == view[s]
    ensures FilesOf(view', inodes[i := n]) == FilesOf(view, inodes) - {KeyOf(inodes[i])}
  {
    var inodes' := inodes[i := n];
    var m := FilesOf(view, inodes) - {KeyOf(inodes[i])};
    FilesRepresents(view, inodes);
    forall j | 0 <= j < |inodes'| && IsFile(inodes'[j])
      ensures InBounds(0, inodes'[j]) && KeyOf(inodes'[j]) in m && m[KeyOf(inodes'[j])] == Contents(view', inodes'[j])
    {
      OtherContents(view, view', inodes, i, n, j);
      assert inodes'[j] == inodes[j] && KeyOf(inodes[j]) != KeyOf(inodes[i]);
    }
    forall k | k in m ensures Named(inodes', k) {
      NamedAfter(inodes, i, n, k);
    }
    RepresentsOne(m, view', inodes');
  }

  function Moved(m: map<Key, seq<Byte>>, from: Key, to: Key): (r: map<Key, seq<Byte>>)
    requires from in m
  {
    (m - {from})[to := m[from]]
  }

  /** Giving file `i` another key moves its bytes to that key. */
  lemma MoveFile(view: seq<Sector>, view': seq<Sector>, inodes: seq<Inode>, i: nat, n: Inode)
    requires |view| == |view'| == TOTAL_SECTORS && i < |inodes|
    requires FilesOk(inodes) && FilesOk(inodes[i := n]) && NoOverlap(inodes) && IsFile(inodes[i])
    requires KeyOf(inodes[i]) in FilesOf(view, inodes) && n == inodes[i].(parent := n.parent, name := n.name)
    requires forall s :: 0 <= s < TOTAL_SECTORS && InSomeFile(inodes, s) ==> view'[s] == view[s]
    ensures FilesOf(view', inodes[i := n]) == Moved(FilesOf(view, inodes), KeyOf(inodes[i]), KeyOf(n))
  {
    var gone := inodes[i := FREE_INODE];
    var data := FilesOf(view, inodes)[KeyOf(inodes[i])];
    FewerSectors(inodes, i, FREE_INODE);
    FewerSectors(inodes, i, n);
    assert FilesOk(gone);
    assert gone[i := n] == inodes[i := n];
    assert data == Contents(view, inodes[i]) by {
      FilesRepresents(view, inodes);
    }
    SameContents(view, view', inodes[i]) by {
      assert InBounds(0, inodes[i]);
      assert forall s :: Covers(inodes[i], s) ==> InSomeFile(inodes, s);
    }
    hide FilesOf, FilesOk, NoOverlap, InSomeFile;
    DropFile(view, view, inodes, i, FREE_INODE);
    StoreFile(view, view', gone, i, n, data);
  }

  lemma FewerSectors(inodes: seq<Inode>, i: nat, n: Inode)
    requires i < |inodes| && NoOverlap(inodes) && forall s :: Covers(n, s) ==> Covers(inodes[i], s)
    ensures NoOverlap(inodes[i := n]) && forall s :: InSomeFile(inodes[i := n], s) ==> InSomeFile(inodes, s)
  {
  }

  /** Writes below the data area change no file. */
  lemma MetadataWrites(view: seq<Sector>, view': seq<Sector>, sb: Superblock, inodes: seq<Inode>, bm: Sector)
    requires |view| == |view'| == TOTAL_SECTORS && MetaOk(sb, inodes, bm) && FilesOk(inodes)
    requires forall s :: sb.dataStart <= s < TOTAL_SECTORS ==> view'[s] == view[s]
    ensures FilesOf(view', inodes) == FilesOf(view, inodes)
  {
    FilesRepresents(view, inodes);
    forall j | 0 <= j < |inodes| && IsFile(inodes[j])
      ensures InBounds(0, inodes[j]) && Contents(view', inodes[j]) == Contents(view, inodes[j])
    {
      assert InBounds(sb.dataStart, inodes[j]) && InBounds(0, inodes[j]);
      SameContents(view, view', inodes[j]);
    }
    RepresentsOne(FilesOf(view, inodes), view', inodes);
  }

  // ---------------------------------------------------------------- room

  ghost predicate HasRun(bm: Sector, dataStart: nat, n: nat)
  {
    exists first :: dataStart <= first && first + n <= TOTAL_SECTORS && RunFree(bm, first, n)
  }

  ghost predicate HasFreeInode(inodes: seq<Inode>)
  {
    exists i :: 1 <= i < |inodes| && inodes[i].kind == TYPE_FREE
  }

  /** Whether a file of `size` bytes can be stored under a name: exactly the cases in which a write goes through. */
  ghost predicate HasRoom(dataStart: nat, inodes: seq<Inode>, bm: Sector, key: Key, size: nat)
  {
    var f := FindChild(inodes, key.parent, key.name, TYPE_FILE);
    if f >= 0 then SectorsFor(size) <= inodes[f].count || HasRun(bm, dataStart, SectorsFor(size))
    else HasFreeInode(inodes) && HasRun(bm, dataStart, SectorsFor(size))
  }

  // ---------------------------------------------------------------- metadata on the disk

  /** A superblock with the marker down. */
  function Unmarked(sb: Superblock): (r: Superblock)
    ensures SameLayout(r, sb) && r.inodeCount == sb.inodeCount && r.journalState == 0
  {
    sb.(journalState := 0)
  }

  /** What a volume consists of: its metadata, and every sector behind the marker. */
  datatype Meta = Meta(head: Superblock, bitmap: Sector, inodes: seq<Inode>, sectors: seq<Sector>)

  /** The volume a mount would find, given where the layout puts it. */
  function MetaOn(disk: seq<Sector>, sb: Superblock): (m: Meta)
    requires LayoutOk(sb) && |disk| == TOTAL_SECTORS
  {
    Meta(Unmarked(DecodeSuperblock(disk[0])), disk[sb.bitmapStart], InodeTable(disk, sb), disk[2..])
  }

  function JournalState(disk: seq<Sector>): (v: U32)
    requires |disk| == TOTAL_SECTORS
  {
    DecodeSuperblock(disk[0]).journalState
  }

  /** The bitmap and the inode table on `view` are those in memory. */
  ghost predicate Synced(view: seq<Sector>, sb: Superblock, inodes: seq<Inode>, bm: Sector)
  {
    LayoutOk(sb) && |view| == TOTAL_SECTORS && view[sb.bitmapStart] == bm && InodeTable(view, sb) == inodes
  }

  /** ... and so is the superblock. */
  ghost predicate FullySynced(view: seq<Sector>, sb: Superblock, inodes: seq<Inode>, bm: Sector)
  {
    Synced(view, sb, inodes, bm) && DecodeSuperblock(view[0]) == sb
  }

  /** Where things are does not depend on the inode count or the marker. */
  lemma SyncedLayout(view: seq<Sector>, sb: Superblock, sb': Superblock, inodes: seq<Inode>, bm: Sector)
    requires Synced(view, sb, inodes, bm) && SameLayout(sb, sb')
    ensures Synced(view, sb', inodes, bm)
  {
  }

  lemma InBoundsOf(sb: Superblock, inodes: seq<Inode>, bm: Sector, i: nat)
    requires MetaOk(sb, inodes, bm) && i < |inodes| && IsFile(inodes[i])
    ensures LayoutOk(sb) && i >= 1
    ensures sb.dataStart <= inodes[i].first && inodes[i].first + inodes[i].count <= TOTAL_SECTORS
    ensures inodes[i].count == SectorsFor(inodes[i].size)
  {
  }

  lemma InodeTableFrame(view: seq<Sector>, view': seq<Sector>, sb: Superblock)
    requires LayoutOk(sb) && |view| == |view'| == TOTAL_SECTORS
    requires forall s :: sb.inodeStart <= s < sb.inodeStart + sb.inodeSectors ==> view'[s] == view[s]
    ensures InodeTable(view', sb) == InodeTable(view, sb)
  {
  }

  /** The same inodes over the same sectors are the same files. */
  lemma SameVolumeFiles(disk: seq<Sector>, view: seq<Sector>, sb: Superblock, inodes: seq<Inode>, bm: Sector)
    requires |disk| == |view| == TOTAL_SECTORS && MetaOk(sb, inodes, bm) && FilesOk(inodes) && disk[2..] == view[2..]
    ensures FilesOf(disk, inodes) == FilesOf(view, inodes)
  {
    forall s | sb.dataStart <= s < TOTAL_SECTORS ensures disk[s] == view[s] {
      assert disk[2..][s - 2] == view[2..][s - 2];
    }
    MetadataWrites(view, disk, sb, inodes, bm);
  }

  // ---------------------------------------------------------------- crashes

  /** A disk that claims to be clean carries the old volume or the new, not a mixture. */
  ghost predicate MarkerSound(disk: seq<Sector>, sb: Superblock, before: Meta, after: Meta)
    requires LayoutOk(sb) && |disk| == TOTAL_SECTORS
  {
    JournalState(disk) == 0 ==> MetaOn(disk, sb) == before || MetaOn(disk, sb) == after
  }

  /** Whatever prefix of the writes a crash leaves behind. */
  ghost predicate CrashSafe(disk: seq<Sector>, writes: seq<SectorWrite>, sb: Superblock, before: Meta, after: Meta)
    requires LayoutOk(sb) && |disk| == TOTAL_SECTORS
    requires forall w :: w in writes ==> w.sector < TOTAL_SECTORS
  {
    forall k :: 0 <= k <= |writes| ==> MarkerSound(ReplayTo(disk, writes, k), sb, before, after)
  }

  function ReplayTo(disk: seq<Sector>, writes: seq<SectorWrite>, k: nat): (d: seq<Sector>)
    requires k <= |writes| && |disk| == TOTAL_SECTORS
    requires forall w :: w in writes ==> w.sector < TOTAL_SECTORS
    ensures |d| == TOTAL_SECTORS
  {
    assert forall w :: w in writes[..k] ==> w in writes;
    Replay(disk, writes[..k])
  }

  /** A sector holds what it held at the start or what some write put there. */
  lemma {:induction false} ReplaySector(disk: seq<Sector>, writes: seq<SectorWrite>, s: nat)
    requires s < |disk| && forall w :: w in writes ==> w.sector < |disk|
    ensures Replay(disk, writes)[s] == disk[s] || SectorWrite(s, Replay(disk, writes)[s]) in writes
    decreases |writes|
  {
    if writes != [] {
      var rest := writes[..|writes| - 1];
      assert writes == rest + [writes[|writes| - 1]];
      ReplaySector(disk, rest, s);
    }
  }

  /** Raising the marker: until the superblock is rewritten the old metadata stands. */
  lemma BeginPhase(disk: seq<Sector>, writes: seq<SectorWrite>, sb: Superblock, after: Meta)
    requires LayoutOk(sb) && |disk| == TOTAL_SECTORS
    requires forall w :: w in writes ==> w.sector == 1 || (w.sector == 0 && DecodeSuperblock(w.data).journalState != 0)
    ensures CrashSafe(disk, writes, sb, MetaOn(disk, sb), after)
  {
    forall k | 0 <= k <= |writes| ensures MarkerSound(ReplayTo(disk, writes, k), sb, MetaOn(disk, sb), after) {
      var d := ReplayTo(disk, writes, k);
      assert forall w :: w in writes[..k] ==> w in writes;
      forall s | 2 <= s < TOTAL_SECTORS ensures d[s] == disk[s] {
        ReplaySector(disk, writes[..k], s);
      }
      ReplaySector(disk, writes[..k], 0);
      InodeTableFrame(disk, d, sb);
    }
  }

  /** While the marker is up the metadata may be anything. */
  lemma MiddlePhase(disk: seq<Sector>, writes: seq<SectorWrite>, sb: Superblock, before: Meta, after: Meta)
    requires LayoutOk(sb) && |disk| == TOTAL_SECTORS && JournalState(disk) != 0
    requires forall w ::
               w in writes ==>
                 w.sector < TOTAL_SECTORS && (w.sector == 0 ==> DecodeSuperblock(w.data).journalState != 0)
    ensures CrashSafe(disk, writes, sb, before, after)
  {
    forall k | 0 <= k <= |writes| ensures MarkerSound(ReplayTo(disk, writes, k), sb, before, after) {
      assert forall w :: w in writes[..k] ==> w in writes;
      ReplaySector(disk, writes[..k], 0);
    }
  }

  /** Lowering the marker: the one write that does it finds the new metadata in place. */
  lemma CommitPhase(disk: seq<Sector>, writes: seq<SectorWrite>, sb: Superblock, before: Meta, final: Superblock,
                    inodes: seq<Inode>, bm: Sector)
    requires LayoutOk(sb) && |disk| == TOTAL_SECTORS && JournalState(disk) != 0
    requires Synced(disk, sb, inodes, bm)
    requires forall w :: w in writes ==> w.sector == 1 || w == SectorWrite(0, EncodeSuperblock(final))
    ensures CrashSafe(disk, writes, sb, before, Meta(Unmarked(final), bm, inodes, disk[2..]))
  {
    var after := Meta(Unmarked(final), bm, inodes, disk[2..]);
    forall k | 0 <= k <= |writes| ensures MarkerSound(ReplayTo(disk, writes, k), sb, before, after) {
      var d := ReplayTo(disk, writes, k);
      assert forall w :: w in writes[..k] ==> w in writes;
      forall s | 2 <= s < TOTAL_SECTORS ensures d[s] == disk[s] {
        ReplaySector(disk, writes[..k], s);
      }
      ReplaySector(disk, writes[..k], 0);
      InodeTableFrame(disk, d, sb);
      SuperblockRoundTrip(final);
    }
  }

  /** Phases compose. */
  lemma CrashSafeConcat(disk: seq<Sector>, a: seq<SectorWrite>, b: seq<SectorWrite>, sb: Superblock, before: Meta,
                        after: Meta)
    requires LayoutOk(sb) && |disk| == TOTAL_SECTORS
    requires forall w :: w in a ==> w.sector < TOTAL_SECTORS
    requires forall w :: w in b ==> w.sector < TOTAL_SECTORS
    requires CrashSafe(disk, a, sb, before, after)
    requires CrashSafe(Replay(disk, a), b, sb, before, after)
    ensures CrashSafe(disk, a + b, sb, before, after)
  {
    forall k | 0 <= k <= |a + b| ensures MarkerSound(ReplayTo(disk, a + b, k), sb, before, after) {
      if k <= |a| {
        assert (a + b)[..k] == a[..k];
        assert MarkerSound(ReplayTo(disk, a, k), sb, before, after);
      } else {
        var c := b[..k - |a|];
        assert (a + b)[..k] == a + c;
        assert forall w :: w in c ==> w in b;
        ReplayConcat(disk, a, c);
        assert MarkerSound(ReplayTo(Replay(disk, a), b, k - |a|), sb, before, after);
      }
    }
  }
}

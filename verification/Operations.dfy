/** What each operation writes, what that does to the map of files, and what it guarantees. */
module Operations {
  import opened SectorCache
  import opened DiskFormat
  import opened Extents
  import opened Paths
  import opened Volume
  import opened Transactions
  import opened Reading

  const MAX_FILE_SIZE: nat := 1048576
  const READ_BUFFER_SIZE: nat := 16384

  /** Sector `s` of a file holding `data`, zero-filled past its end. */
  function Chunk(data: seq<Byte>, s: nat): (c: Sector)
  {
    seq(SECTOR_SIZE, k requires 0 <= k < SECTOR_SIZE => if s * SECTOR_SIZE + k < |data| then data[s * SECTOR_SIZE + k]
        else 0)
  }

  /** The first `n` sectors of `data` stored from sector `first` on. */
  function StoreChunks(view: seq<Sector>, first: nat, data: seq<Byte>, n: nat): (v: seq<Sector>)
    requires first + n <= |view|
    ensures |v| == |view|
  {
    if n == 0 then view else StoreChunks(view, first, data, n - 1)[first + n - 1 := Chunk(data, n - 1)]
  }

  lemma {:induction false} StoreChunksAt(view: seq<Sector>, first: nat, data: seq<Byte>, n: nat, s: nat)
    requires first + n <= |view| && s < |view|
    ensures StoreChunks(view, first, data, n)[s] == if first <= s < first + n then Chunk(data, s - first) else view[s]
  {
    if n > 0 {
      StoreChunksAt(view, first, data, n - 1, s);
    }
  }

  /** The sectors from `first` on hold `data`, the last of them zero past its end. */
  ghost predicate Written(disk: seq<Sector>, first: nat, data: seq<Byte>)
  {
    forall s :: first <= s < first + SectorsFor(|data|) && s < |disk| ==>
      forall k :: 0 <= k < 512 ==>
        disk[s][k] == if (s - first) * 512 + k < |data| then data[(s - first) * 512 + k] else 0
  }

  lemma ChunksWritten(view: seq<Sector>, first: nat, data: seq<Byte>)
    requires first + SectorsFor(|data|) <= |view|
    ensures Written(StoreChunks(view, first, data, SectorsFor(|data|)), first, data)
  {
    var n := SectorsFor(|data|);
    forall s | first <= s < first + n ensures StoreChunks(view, first, data, n)[s] == Chunk(data, s - first) {
      StoreChunksAt(view, first, data, n, s);
    }
  }

  /** A stored file reads back as it was written. */
  lemma ChunksAreData(view: seq<Sector>, first: nat, data: seq<Byte>)
    requires first + SectorsFor(|data|) <= |view|
    ensures Data(StoreChunks(view, first, data, SectorsFor(|data|)), first, |data|) == data
  {
    var v := StoreChunks(view, first, data, SectorsFor(|data|));
    forall k | 0 <= k < |data| ensures ByteAt(v, first, k) == data[k] {
      var s := k / SECTOR_SIZE;
      assert 0 <= s < SectorsFor(|data|);
      StoreChunksAt(view, first, data, SectorsFor(|data|), first + s);
    }
  }

  /** How the body of a write ends. */
  datatype Outcome = NoSpace | IoError | Stored

  /** The directories are the same inodes as before. */
  ghost predicate SameDirs(before: seq<Inode>, after: seq<Inode>)
  {
    |before| == |after| &&
    forall i :: 0 <= i < |after| && (before[i].kind == TYPE_DIR || after[i].kind == TYPE_DIR) ==> before[i] == after[i]
  }

  function NewFile(parent: U32, leaf: Name, size: U32, first: U32): (n: Inode)
    requires |leaf| < NAME_BYTES && size <= MAX_FILE_SIZE
  {
    Inode(TYPE_FILE, 0, 0, size, first, SectorsFor(size), parent, PadName(leaf), Zeros(12))
  }

  lemma PutInodeKeeps(v: seq<Sector>, sb: Superblock, i: nat, n: Inode)
    requires LayoutOk(sb) && |v| == TOTAL_SECTORS && i < MAX_INODES
    ensures PutInode(v, sb, i, n)[0] == v[0]
    ensures forall s :: sb.dataStart <= s < TOTAL_SECTORS ==> PutInode(v, sb, i, n)[s] == v[s]
  {
  }

  /** What the sectors look like once the data, the inode, sector 0 and the bitmap are written. */
  function StoredView(v: seq<Sector>, sb: Superblock, i: nat, n: Inode, data: seq<Byte>, head: Sector,
      bm: Sector): (r: seq<Sector>)
    requires |v| == TOTAL_SECTORS && LayoutOk(sb) && i < MAX_INODES && n.first + SectorsFor(|data|) <= TOTAL_SECTORS
    ensures |r| == TOTAL_SECTORS
  {
    PutInode(StoreChunks(v, n.first, data, SectorsFor(|data|)), sb, i, n)[0 := head][sb.bitmapStart := bm]
  }

  lemma StoredContents(v: seq<Sector>, sb: Superblock, i: nat, n: Inode, data: seq<Byte>, head: Sector, bm: Sector)
    requires |v| == TOTAL_SECTORS && LayoutOk(sb) && i < MAX_INODES && sb.dataStart <= n.first
    requires n.first + SectorsFor(|data|) <= TOTAL_SECTORS
    requires n.size == |data|
    ensures Contents(StoredView(v, sb, i, n, data, head, bm), n) == data
  {
    var v' := StoredView(v, sb, i, n, data, head, bm);
    var stored := StoreChunks(v, n.first, data, SectorsFor(|data|));
    ChunksAreData(v, n.first, data);
    DataFrame(stored, v', n.first, n.size);
  }

  /** Writes into one file's extent and below the data area update one key of the map, however far they got ... */
  lemma WrittenFiles(v: seq<Sector>, v': seq<Sector>, sb: Superblock, sb': Superblock, inodes: seq<Inode>, bm: Sector,
                     i: nat, n: Inode, bm': Sector)
    requires |v| == |v'| == TOTAL_SECTORS && i < MAX_INODES && MetaOk(sb, inodes, bm)
    requires MetaOk(sb', inodes[i := n], bm')
    requires IsFile(n) && (IsFile(inodes[i]) ==> KeyOf(inodes[i]) == KeyOf(n))
    requires n.first + SectorsFor(n.size) <= TOTAL_SECTORS
    requires forall s :: sb'.dataStart <= s < TOTAL_SECTORS && !Covers(n, s) ==> v'[s] == v[s]
    ensures FilesOk(inodes) && FilesOk(inodes[i := n])
    ensures FilesOf(v', inodes[i := n]) == FilesOf(v, inodes)[KeyOf(n) := Contents(v', n)]
  {
    MetaFilesOk(sb, inodes, bm);
    MetaFilesOk(sb', inodes[i := n], bm');
    var inodes' := inodes[i := n];
    forall s | 0 <= s < TOTAL_SECTORS && !Covers(n, s) && InSomeFile(inodes', s) ensures v'[s] == v[s] {
      var j :| 0 <= j < |inodes'| && Covers(inodes'[j], s);
      assert InBounds(sb'.dataStart, inodes'[j]);
    }
    StoreFile(v, v', inodes, i, n, Contents(v', n));
  }

  /** ... and once they are complete the inode table on disk has the new inode, and the bitmap is the new one. */
  lemma StoredTable(v: seq<Sector>, sb: Superblock, i: nat, n: Inode, data: seq<Byte>, head: Sector, bm: Sector)
    requires |v| == TOTAL_SECTORS && LayoutOk(sb) && i < MAX_INODES
    requires sb.dataStart <= n.first && n.first + SectorsFor(|data|) <= TOTAL_SECTORS
    ensures InodeTable(StoredView(v, sb, i, n, data, head, bm), sb) == InodeTable(v, sb)[i := n]
    ensures StoredView(v, sb, i, n, data, head, bm)[sb.bitmapStart] == bm
  {
    var stored := StoreChunks(v, n.first, data, SectorsFor(|data|));
    forall s | 0 <= s < sb.dataStart ensures stored[s] == v[s] {
      StoreChunksAt(v, n.first, data, SectorsFor(|data|), s);
    }
    InodeTableFrame(v, stored, sb);
    PutInodeTable(stored, sb, i, n);
    InodeTableFrame(PutInode(stored, sb, i, n), StoredView(v, sb, i, n, data, head, bm), sb);
  }

  /** A table with one entry rewritten is the one in memory exactly when all the other entries were. */
  lemma TableAgrees(table: seq<Inode>, inodes: seq<Inode>, i: nat, n: Inode)
    requires |table| == |inodes| && i < |table|
    ensures table[i := n] == inodes[i := n] <==> forall j :: 0 <= j < |table| && j != i ==> table[j] == inodes[j]
  {
    if table[i := n] == inodes[i := n] {
      forall j | 0 <= j < |table| && j != i ensures table[j] == inodes[j] {
        assert table[i := n][j] == inodes[i := n][j];
      }
    }
  }

  /** From what the writers report to a marker step. */
  lemma MarkerDone(a: State, b: State, state: U32, ok: bool)
    requires Mounted(a) && Coherent(b.io.disk, b.io.slots) && |b.io.disk| == TOTAL_SECTORS
    requires b.sb == a.sb.(journalState := state) && b.inodes == a.inodes && b.bm == a.bm
    requires Advances(a.io, b.io, MarkerWrites(b.sb))
    requires if ok then b.io.faults >= a.io.faults else b.io.faults > a.io.faults
    requires ok ==>
               && AllClean(b.io.slots)
               && b.io.disk == Seen(b) == Seen(a)[1 := EncodeJournal(state)][0 := EncodeSuperblock(b.sb)]
    ensures Mounted(b) && MarkerStep(a, b, state, ok) && Files(b) == Files(a)
  {
    hide Advances, View, Coherent, Consistent, TreeOk, UniqueFiles, SizesMatch, MarkerWrites, FilesOk, FilesOf;
    hide AllClean;
    hide InodeTable, EncodeSuperblock, DecodeSuperblock, EncodeJournal;
    MarkerShows(a.io, b.io, b.sb);
    MetadataWrites(Seen(a), Seen(b), b.sb, b.inodes, b.bm);
    if ok {
      SuperblockRoundTrip(b.sb);
    }
  }

  /** Marker writes show in sectors 0 and 1 only. */
  lemma MarkerShows(a: Snapshot, b: Snapshot, sb: Superblock)
    requires Advances(a, b, MarkerWrites(sb)) && |a.disk| == TOTAL_SECTORS
    ensures |b.disk| == TOTAL_SECTORS
    ensures forall s :: 2 <= s < TOTAL_SECTORS ==> View(b.disk, b.slots)[s] == View(a.disk, a.slots)[s]
    ensures View(b.disk, b.slots)[2..] == View(a.disk, a.slots)[2..]
  {
  }

  /** Writes of a body show in the metadata and in its extent only. */
  lemma BodyShows(a: Snapshot, b: Snapshot, dataStart: nat, first: nat, count: nat)
    requires Advances(a, b, BodyWrites(dataStart, first, count)) && |a.disk| == TOTAL_SECTORS
    ensures |b.disk| == TOTAL_SECTORS && Advances(a, b, MarkerUp())
    ensures forall s ::
              dataStart <= s < TOTAL_SECTORS && !(first <= s < first + count) ==>
                View(b.disk, b.slots)[s] == View(a.disk, a.slots)[s]
  {
  }

  /** From what the writers report to a completed or interrupted store. */
  lemma StoreDone(a: State, b: State, i: nat, n: Inode, data: seq<Byte>, head: Sector, done: bool)
    requires Mounted(a) && Coherent(b.io.disk, b.io.slots) && |b.io.disk| == TOTAL_SECTORS
    requires MetaOk(b.sb, b.inodes, b.bm)
    requires SameLayout(a.sb, b.sb) && b.sb.journalState == a.sb.journalState
    requires i < MAX_INODES && b.inodes == a.inodes[i := n] && WroteAt(a.inodes, b.inodes, KeyOf(n), i)
    requires IsFile(n) && n.size == |data|
    requires b.sb.dataStart <= n.first && n.first + SectorsFor(|data|) <= TOTAL_SECTORS
    requires Advances(a.io, b.io, BodyWrites(b.sb.dataStart, n.first, SectorsFor(|data|))) && a.io.faults <= b.io.faults
    requires done ==> AllClean(b.io.slots) && b.io.disk == Seen(b) == StoredView(Seen(a), b.sb, i, n, data, head, b.bm)
    ensures Mounted(b) && BodyStep(a, b, done)
    ensures n.first + SectorsFor(n.size) <= TOTAL_SECTORS && Files(b) == Files(a)[KeyOf(n) := Contents(Seen(b), n)]
    ensures WroteKey(a.inodes, b.inodes, KeyOf(n)) && KeptBut(Files(a), Files(b), KeyOf(n))
    ensures done ==> Files(b) == Files(a)[KeyOf(n) := data] && StoredBy(a, b, KeyOf(n))
  {
    hide Advances, View, Coherent, Consistent, TreeOk, UniqueFiles, SizesMatch, MarkerUp, FilesOk, FilesOf;
    hide InodeTable, AllClean, StoredView, BodyWrites, Contents, KeyOf;
    MetaFilesOk(b.sb, b.inodes, b.bm);
    InBoundsOf(b.sb, b.inodes, b.bm, i);
    BodyShows(a.io, b.io, b.sb.dataStart, n.first, SectorsFor(|data|));
    WrittenFiles(Seen(a), Seen(b), a.sb, b.sb, a.inodes, a.bm, i, n, b.bm);
    if done {
      StoredContents(Seen(a), b.sb, i, n, data, head, b.bm);
      StoredTable(Seen(a), b.sb, i, n, data, head, b.bm);
      TableLayout(Seen(a), a.sb, b.sb);
      TableAgrees(InodeTable(Seen(a), a.sb), a.inodes, i, n);
      assert InStep(b) <==> AgreeBut(a, i);
    }
  }

  /** The inode sector and the bitmap sector, and nothing else, are rewritten. */
  function InodeView(v: seq<Sector>, sb: Superblock, i: nat, n: Inode, bm: Sector): (r: seq<Sector>)
    requires |v| == TOTAL_SECTORS && LayoutOk(sb) && i < MAX_INODES
    ensures |r| == TOTAL_SECTORS
  {
    PutInode(v, sb, i, n)[sb.bitmapStart := bm]
  }

  lemma InodeViewSame(v: seq<Sector>, sb: Superblock, i: nat, n: Inode)
    requires |v| == TOTAL_SECTORS && LayoutOk(sb) && i < MAX_INODES
    ensures InodeView(v, sb, i, n, v[sb.bitmapStart]) == PutInode(v, sb, i, n)
  {
  }

  lemma InodeViewTable(v: seq<Sector>, sb: Superblock, i: nat, n: Inode, bm: Sector)
    requires |v| == TOTAL_SECTORS && LayoutOk(sb) && i < MAX_INODES
    ensures InodeTable(InodeView(v, sb, i, n, bm), sb) == InodeTable(v, sb)[i := n]
    ensures InodeView(v, sb, i, n, bm)[sb.bitmapStart] == bm
  {
    PutInodeTable(v, sb, i, n);
    InodeTableFrame(PutInode(v, sb, i, n), InodeView(v, sb, i, n, bm), sb);
  }

  /** Rewriting inode `i` alone: the file is dropped, or moves to its new key. */
  lemma InodeDone(a: State, b: State, i: nat, n: Inode, bits: Sector, done: bool)
    requires Mounted(a) && Coherent(b.io.disk, b.io.slots) && |b.io.disk| == TOTAL_SECTORS
    requires MetaOk(b.sb, b.inodes, b.bm)
    requires a.sb == b.sb && i < MAX_INODES && b.inodes == a.inodes[i := n] && IsFile(a.inodes[i])
    requires n == FREE_INODE || n == a.inodes[i].(parent := n.parent, name := n.name)
    requires Advances(a.io, b.io, BodyWrites(a.sb.dataStart, 0, 0)) && a.io.faults <= b.io.faults
    requires done ==> AllClean(b.io.slots) && b.io.disk == Seen(b) == InodeView(Seen(a), a.sb, i, n, bits)
    requires bits == b.bm || (a.bm == b.bm && bits == Seen(a)[a.sb.bitmapStart])
    ensures Mounted(b) && BodyStep(a, b, done)
    ensures KeyOf(a.inodes[i]) in Files(a)
    ensures n == FREE_INODE ==> Files(b) == Files(a) - {KeyOf(a.inodes[i])}
    ensures n != FREE_INODE ==> Files(b) == Moved(Files(a), KeyOf(a.inodes[i]), KeyOf(n))
    ensures done ==> (InStep(b) <==> AgreeBut(a, i) && bits == b.bm)
  {
    hide Advances, View, Coherent, MarkerUp, Consistent, TreeOk, UniqueFiles, SizesMatch, FilesOk, FilesOf;
    hide InodeView, InodeTable, AllClean, Moved, BodyWrites;
    MetaFilesOk(b.sb, b.inodes, b.bm);
    BodyShows(a.io, b.io, a.sb.dataStart, 0, 0);
    InodeViewFiles(Seen(a), Seen(b), a.sb, a.inodes, a.bm, i, n);
    if done {
      InodeViewTable(Seen(a), a.sb, i, n, bits);
      TableAgrees(InodeTable(Seen(a), a.sb), a.inodes, i, n);
    }
  }

  lemma InodeViewFiles(v: seq<Sector>, v': seq<Sector>, sb: Superblock, inodes: seq<Inode>, bm: Sector, i: nat,
                       n: Inode)
    requires |v| == |v'| == TOTAL_SECTORS && MetaOk(sb, inodes, bm) && i < MAX_INODES && IsFile(inodes[i])
    requires FilesOk(inodes) && FilesOk(inodes[i := n])
    requires n == FREE_INODE || n == inodes[i].(parent := n.parent, name := n.name)
    requires forall s :: sb.dataStart <= s < TOTAL_SECTORS ==> v'[s] == v[s]
    ensures KeyOf(inodes[i]) in FilesOf(v, inodes)
    ensures n == FREE_INODE ==> FilesOf(v', inodes[i := n]) == FilesOf(v, inodes) - {KeyOf(inodes[i])}
    ensures n != FREE_INODE ==> FilesOf(v', inodes[i := n]) == Moved(FilesOf(v, inodes), KeyOf(inodes[i]), KeyOf(n))
  {
    FilesRepresents(v, inodes);
    hide FilesOf, FilesOk, BitmapExact;
    forall s | 0 <= s < TOTAL_SECTORS && InSomeFile(inodes, s) ensures v'[s] == v[s] {
      var j :| 0 <= j < |inodes| && Covers(inodes[j], s);
      assert InBounds(sb.dataStart, inodes[j]);
    }
    FewerSectors(inodes, i, n);
    if n == FREE_INODE {
      DropFile(v, v', inodes, i, n);
    } else {
      MoveFile(v, v', inodes, i, n);
    }
  }

  /** Inode `i` alone may differ: it is a file under `key`, new or rewritten. */
  ghost predicate WroteAt(before: seq<Inode>, after: seq<Inode>, key: Key, i: nat)
  {
    && 1 <= i < |before| == |after| && after == before[i := after[i]] && IsFile(after[i]) && KeyOf(after[i]) == key
    && (LowestFree(before, i) || (IsFile(before[i]) && KeyOf(before[i]) == key))
  }

  ghost predicate WroteKey(before: seq<Inode>, after: seq<Inode>, key: Key)
  {
    after == before || exists i :: WroteAt(before, after, key, i)
  }

  lemma WroteNothing(inodes: seq<Inode>, key: Key)
    ensures WroteKey(inodes, inodes, key)
  {
  }

  lemma WroteKeyKeepsDirs(before: seq<Inode>, after: seq<Inode>, key: Key)
    requires WroteKey(before, after, key)
    ensures SameDirs(before, after)
  {
  }

  /** The disk ends in step with memory exactly when they agreed on every inode but the one written. */
  ghost predicate StoredBy(a: State, b: State, key: Key)
    requires Mounted(a)
  {
    exists i :: WroteAt(a.inodes, b.inodes, key, i) && (InStep(b) <==> AgreeBut(a, i))
  }

  /** The volume ends settled exactly when disk and memory agreed on every inode but the one written. */
  ghost predicate SettledBy(a: State, b: State, key: Key)
    requires Mounted(a)
  {
    exists i :: WroteAt(a.inodes, b.inodes, key, i) && (Settled(b) <==> AgreeBut(a, i))
  }

  lemma CommittedBy(a: State, b: State, c: State, d: State, key: Key)
    requires MarkerStep(a, b, 1, true) && Mounted(b) && StoredBy(b, c, key) && d.inodes == c.inodes
    requires (Settled(d) <==> InStep(c))
    ensures Mounted(a) && SettledBy(a, d, key)
  {
    hide View, Coherent, MetaOk, FilesOk, FilesOf, Settled, InStep, AgreeBut, Advances;
    MountedLayout(a);
    InStepSame(a, b);
    var i :| WroteAt(b.inodes, c.inodes, key, i) && (InStep(c) <==> AgreeBut(b, i));
    assert WroteAt(a.inodes, d.inodes, key, i) && (Settled(d) <==> AgreeBut(a, i));
  }

  /** Only `key` may read differently. */
  ghost predicate KeptBut(m: map<Key, seq<Byte>>, m': map<Key, seq<Byte>>, key: Key)
  {
    m' - {key} == m - {key}
  }

  /** What a write of `data` under a path does to the map of files. */
  ghost predicate MapUpdated(a: State, b: State, path: Path, data: seq<Byte>, ok: bool)
  {
    && Mounted(a) && Mounted(b)
    && var t := Target(a.inodes, path);
       && (ok <==> t.Some? && HasRoom(a.sb.dataStart, a.inodes, a.bm, t.value, |data|))
       && Files(b) == if ok then Files(a)[t.value := data] else Files(a)
  }

  /** What `diskfs_truncate_file` decides to do. */
  datatype Plan = Refuse | Keep | Put(data: seq<Byte>)

  ghost function TruncatePlan(st: State, path: Path, size: nat): (p: Plan)
    requires Mounted(st)
  {
    var i := FindFile(st.inodes, path);
    if size > MAX_FILE_SIZE then Refuse
    else if i < 0 then (if size == 0 then Put([]) else Refuse)
    else if size == st.inodes[i].size then Keep
    else if size == 0 then Put([])
    else if st.inodes[i].size > READ_BUFFER_SIZE || size > READ_BUFFER_SIZE then Refuse
    else FileHasKey(st, i); Put(Resized(Files(st)[KeyOf(st.inodes[i])], size))
  }

  /** Everything a write of `data` under a path guarantees, with or without device failures. */
  ghost predicate WriteResult(a: State, b: State, path: Path, data: seq<Byte>, ok: bool)
  {
    && Mounted(a) && Mounted(b) && SameLayout(b.sb, a.sb) && SameDirs(a.inodes, b.inodes) && a.io.faults <= b.io.faults
    && CrashSound(a, b)
    && (match Target(a.inodes, path)
        case None => b.inodes == a.inodes && Files(b) == Files(a)
        case Some(key) => WroteKey(a.inodes, b.inodes, key) && KeptBut(Files(a), Files(b), key))
    && (a.io.faults == b.io.faults ==> MapUpdated(a, b, path, data, ok) && (Settled(a) ==> Settled(b)))
    && (ok ==> Target(a.inodes, path).Some? && Committed(b) && SettledBy(a, b, Target(a.inodes, path).value))
  }

  /** The same for a write whose target is known. */
  ghost predicate StoreResult(a: State, b: State, key: Key, data: seq<Byte>, ok: bool)
  {
    && Mounted(a) && Mounted(b) && SameLayout(b.sb, a.sb) && a.io.faults <= b.io.faults && CrashSound(a, b)
    && WroteKey(a.inodes, b.inodes, key) && KeptBut(Files(a), Files(b), key)
    && (a.io.faults == b.io.faults ==>
          && (ok <==> HasRoom(a.sb.dataStart, a.inodes, a.bm, key, |data|))
          && Files(b) == (if ok then Files(a)[key := data] else Files(a))
          && (Settled(a) ==> Settled(b)))
    && (ok ==> Committed(b) && SettledBy(a, b, key))
  }

  /** What the body of a write reports. */
  ghost predicate StoreReport(a: State, b: State, key: Key, data: seq<Byte>, r: Outcome)
  {
    && Mounted(a) && BodyStep(a, b, r.Stored?) && WroteKey(a.inodes, b.inodes, key) && KeptBut(Files(a), Files(b), key)
    && (r.NoSpace? <==> !HasRoom(a.sb.dataStart, a.inodes, a.bm, key, |data|))
    && (r.NoSpace? ==> b == a.(sb := b.sb))
    && (r.IoError? ==> a.io.faults < b.io.faults)
    && (r.Stored? ==> Files(b) == Files(a)[key := data] && StoredBy(a, b, key))
  }

  lemma StoreNotBegun(a: State, b: State, key: Key, data: seq<Byte>)
    requires MarkerStep(a, b, 1, false)
    ensures StoreResult(a, b, key, data, false)
  {
    hide View, Coherent, MetaOk, FilesOk, FilesOf, Advances, CrashSound, Settled, HasRoom;
    NotBegun(a, b);
  }

  lemma StoreStopped(a: State, b: State, c: State, key: Key, data: seq<Byte>)
    requires MarkerStep(a, b, 1, true) && StoreReport(b, c, key, data, IoError)
    ensures StoreResult(a, c, key, data, false)
  {
    hide View, Coherent, MetaOk, FilesOk, FilesOf, Advances, CrashSound, Settled, HasRoom, WroteKey;
    Stopped(a, b, c);
  }

  lemma StoreRefused(a: State, b: State, c: State, d: State, key: Key, data: seq<Byte>, ok: bool)
    requires MarkerStep(a, b, 1, true) && StoreReport(b, c, key, data, NoSpace) && MarkerStep(c, d, 0, ok)
    ensures StoreResult(a, d, key, data, false)
  {
    hide View, Coherent, MetaOk, FilesOk, FilesOf, Advances, CrashSound, Settled, HasRoom;
    EmptyBody(b, c);
    Completed(a, b, c, d, ok);
  }

  lemma StoreCompleted(a: State, b: State, c: State, d: State, key: Key, data: seq<Byte>, ok: bool)
    requires MarkerStep(a, b, 1, true) && StoreReport(b, c, key, data, Stored) && MarkerStep(c, d, 0, ok)
    ensures StoreResult(a, d, key, data, ok)
  {
    hide View, Coherent, MetaOk, FilesOk, FilesOf, Advances, CrashSound, Settled, HasRoom, WroteKey, StoredBy;
    hide SettledBy, InStep;
    Completed(a, b, c, d, ok);
    if ok {
      CommittedBy(a, b, c, d, key);
    }
  }

  /** Everything a delete guarantees; `i` is the file the path opens, or negative. */
  ghost predicate DeleteResult(a: State, b: State, i: int, ok: bool)
    requires -1 <= i < |a.inodes|
  {
    && Mounted(a) && Mounted(b) && SameLayout(b.sb, a.sb) && a.io.faults <= b.io.faults && CrashSound(a, b)
    && (if b.inodes == a.inodes then Files(b) == Files(a)
        else i >= 0 && b.inodes == a.inodes[i := FREE_INODE] && Files(b) == Files(a) - {KeyOf(a.inodes[i])})
    && (a.io.faults == b.io.faults ==>
          (ok <==> i >= 0) && (ok <==> b.inodes != a.inodes) && (Settled(a) ==> Settled(b)))
    && (ok ==> i >= 0 && Committed(b) && (Settled(b) <==> AgreeBut(a, i)))
  }

  lemma DeleteNotBegun(a: State, b: State, i: nat)
    requires MarkerStep(a, b, 1, false) && i < |a.inodes| && IsFile(a.inodes[i])
    ensures DeleteResult(a, b, i, false)
  {
    NotBegun(a, b);
  }

  lemma DeleteStopped(a: State, b: State, c: State, i: nat)
    requires MarkerStep(a, b, 1, true) && BodyStep(b, c, false) && i < |a.inodes| && IsFile(a.inodes[i])
    requires b.io.faults < c.io.faults
    requires c.inodes == a.inodes[i := FREE_INODE] && Files(c) == Files(b) - {KeyOf(a.inodes[i])}
    ensures DeleteResult(a, c, i, false)
  {
    hide View, Coherent, MetaOk, FilesOk, FilesOf, Advances, CrashSound, Settled, InStep, AgreeBut, KeyOf;
    Stopped(a, b, c);
    assert c.inodes[i] != a.inodes[i];
  }

  lemma DeleteCompleted(a: State, b: State, c: State, d: State, i: nat, ok: bool)
    requires MarkerStep(a, b, 1, true) && BodyStep(b, c, true) && MarkerStep(c, d, 0, ok) && i < |a.inodes|
    requires IsFile(a.inodes[i])
    requires c.inodes == a.inodes[i := FREE_INODE] && Files(c) == Files(b) - {KeyOf(a.inodes[i])}
    requires (InStep(c) <==> AgreeBut(b, i))
    ensures DeleteResult(a, d, i, ok)
  {
    hide View, Coherent, MetaOk, FilesOk, FilesOf, Advances, CrashSound, Settled, InStep, AgreeBut, KeyOf;
    MountedLayout(a);
    InStepSame(a, b);
    Completed(a, b, c, d, ok);
    assert d.inodes[i] != a.inodes[i];
  }

  /** Everything a rename guarantees; `i` is the file the old path opens, or negative. */
  ghost predicate RenameResult(a: State, b: State, i: int, newPath: Path, ok: bool)
    requires -1 <= i < |a.inodes|
  {
    var t := Target(a.inodes, newPath);
    var free := i >= 0 && t.Some? && FindChild(a.inodes, t.value.parent, t.value.name, 0) < 0;
    && Mounted(a) && Mounted(b) && SameLayout(b.sb, a.sb) && a.io.faults <= b.io.faults && CrashSound(a, b)
    && (i >= 0 ==> KeyOf(a.inodes[i]) in Files(a))
    && (if b.inodes == a.inodes then Files(b) == Files(a)
        else
          && free && Renamed(a.inodes, b.inodes, i, t.value)
          && Files(b) == Moved(Files(a), KeyOf(a.inodes[i]), t.value))
    && (a.io.faults == b.io.faults ==> (ok <==> free) && (ok <==> b.inodes != a.inodes) && (Settled(a) ==> Settled(b)))
    && (ok ==> i >= 0 && Committed(b) && (Settled(b) <==> AgreeBut(a, i) && Seen(a)[a.sb.bitmapStart] == a.bm))
  }

  /** Inode `i` alone has another key. */
  ghost predicate Renamed(before: seq<Inode>, after: seq<Inode>, i: nat, key: Key)
  {
    && i < |before| == |after| && IsFile(before[i]) && after == before[i := after[i]]
    && after[i].kind == before[i].kind && KeyOf(after[i]) == key
  }

  lemma RenamedAt(before: seq<Inode>, i: nat, parent: U32, leaf: Name, key: Key)
    requires i < |before| && IsFile(before[i]) && |leaf| < NAME_BYTES
    requires KeyOf(before[i].(parent := parent, name := PadName(leaf))) == key
    ensures Renamed(before, before[i := before[i].(parent := parent, name := PadName(leaf))], i, key)
  {
  }

  /** A rename to the untaken name `key`. */
  ghost predicate RenameOf(a: State, i: nat, newPath: Path, key: Key)
  {
    && Mounted(a) && i < |a.inodes| && IsFile(a.inodes[i]) && KeyOf(a.inodes[i]) in Files(a)
    && Target(a.inodes, newPath) == Some(key) && FindChild(a.inodes, key.parent, key.name, 0) < 0
  }

  lemma RenameNotBegun(a: State, b: State, i: nat, newPath: Path, key: Key)
    requires RenameOf(a, i, newPath, key) && MarkerStep(a, b, 1, false)
    ensures RenameResult(a, b, i, newPath, false)
  {
    hide View, Coherent, MetaOk, FilesOk, FilesOf, Advances, CrashSound, Settled, InStep, AgreeBut, KeyOf, Target;
    hide FindChild, Moved;
    NotBegun(a, b);
  }

  /** The new key was nobody's, so the inode did change. */
  lemma RenameChanges(a: State, i: nat, newPath: Path, key: Key, inodes: seq<Inode>)
    requires RenameOf(a, i, newPath, key) && Renamed(a.inodes, inodes, i, key)
    ensures inodes != a.inodes
  {
    assert !IsChild(a.inodes[i], key.parent, key.name, 0);
  }

  lemma RenameStopped(a: State, b: State, c: State, i: nat, newPath: Path, key: Key)
    requires RenameOf(a, i, newPath, key) && MarkerStep(a, b, 1, true) && BodyStep(b, c, false)
    requires b.io.faults < c.io.faults
    requires Renamed(a.inodes, c.inodes, i, key) && Files(c) == Moved(Files(a), KeyOf(a.inodes[i]), key)
    ensures RenameResult(a, c, i, newPath, false)
  {
    hide View, Coherent, MetaOk, FilesOk, FilesOf, Advances, CrashSound, Settled, InStep, AgreeBut, KeyOf, Target;
    hide FindChild, Moved, Renamed;
    Stopped(a, b, c);
    RenameChanges(a, i, newPath, key, c.inodes);
  }

  lemma RenameCompleted(a: State, b: State, c: State, d: State, i: nat, newPath: Path, key: Key, ok: bool)
    requires RenameOf(a, i, newPath, key) && MarkerStep(a, b, 1, true) && BodyStep(b, c, true)
    requires MarkerStep(c, d, 0, ok)
    requires Renamed(a.inodes, c.inodes, i, key) && Files(c) == Moved(Files(a), KeyOf(a.inodes[i]), key)
    requires InStep(c) <==> AgreeBut(b, i) && Seen(b)[b.sb.bitmapStart] == b.bm
    ensures RenameResult(a, d, i, newPath, ok)
  {
    hide View, Coherent, MetaOk, FilesOk, FilesOf, Advances, CrashSound, Settled, InStep, AgreeBut, KeyOf, Target;
    hide FindChild, Moved, Renamed;
    MountedLayout(a);
    InStepSame(a, b);
    Completed(a, b, c, d, ok);
    RenameChanges(a, i, newPath, key, c.inodes);
  }

  /** An inode that a failed operation left unwritten stays lost when other files are written: the marker goes down over
      it. */
  lemma LostInodeStays(a: State, b: State, j: nat, key: Key, data: seq<Byte>)
    requires StoreResult(a, b, key, data, true) && LayoutOk(a.sb) && j < |a.inodes| == MAX_INODES
    requires InodeTable(Seen(a), a.sb)[j] != a.inodes[j] && a.inodes[j].kind != TYPE_FREE && KeyOf(a.inodes[j]) != key
    ensures !Settled(b) && LayoutOk(b.sb) && JournalState(b.io.disk) == 0 && MetaOn(b.io.disk, b.sb) != MemMeta(b)
  {
    hide View, Coherent, MetaOk, FilesOk, FilesOf, CrashSound, Settled, HasRoom, KeyOf, Committed, InodeTable;
    var i :| WroteAt(a.inodes, b.inodes, key, i) && (Settled(b) <==> AgreeBut(a, i));
    CommittedSettles(b);
  }

  /** Reading before writing changes none of it; the data matter only if the reads went through. */
  lemma ResultAfterReading(a: State, b: State, c: State, path: Path, data: seq<Byte>, data': seq<Byte>, ok: bool)
    requires Mounted(a) && Advances(a.io, b.io, iset{}) && Seen(b) == Seen(a) && b == a.(io := b.io)
    requires WriteResult(b, c, path, data, ok) && (a.io.faults == b.io.faults ==> data' == data)
    ensures WriteResult(a, c, path, data', ok)
  {
    AfterReading(a, b, c);
  }
}

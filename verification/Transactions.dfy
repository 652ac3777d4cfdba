/** The bracketing of every operation by the journal marker, seen from the raw disk. */
module Transactions {
  import opened SectorCache
  import opened DiskFormat
  import opened Extents
  import opened Paths
  import opened Volume

  /** Writes that leave the journal marker up. */
  ghost function MarkerUp(): (r: iset<SectorWrite>)
  {
    iset w: SectorWrite | w.sector == 0 ==> DecodeSuperblock(w.data).journalState != 0
  }

  /** Writes of the journal and superblock sectors that carry superblock `sb`. */
  ghost function MarkerWrites(sb: Superblock): (r: iset<SectorWrite>)
  {
    iset w: SectorWrite | w.sector == 1 || w == SectorWrite(0, EncodeSuperblock(sb))
  }

  /** Writes behind the marker into the metadata and into one extent. */
  ghost function BodyWrites(dataStart: nat, first: nat, count: nat): (r: iset<SectorWrite>)
  {
    iset w: SectorWrite | w in MarkerUp() && (w.sector < dataStart || first <= w.sector < first + count)
  }

  lemma BodyIsBehind(dataStart: nat, first: nat, count: nat)
    ensures BodyWrites(dataStart, first, count) <= MarkerUp()
    ensures BodyWrites(dataStart, 0, 0) <= BodyWrites(dataStart, first, count)
  {
  }

  lemma BehindMarker(sb: Superblock)
    requires sb.journalState != 0
    ensures iset{SectorWrite(0, EncodeSuperblock(sb))} <= MarkerUp()
    ensures sb.dataStart > 0 ==> iset{SectorWrite(0, EncodeSuperblock(sb))} <= BodyWrites(sb.dataStart, 0, 0)
  {
    SuperblockRoundTrip(sb);
  }

  lemma Then(a: Snapshot, b: Snapshot, c: Snapshot, i: iset<SectorWrite>, j: iset<SectorWrite>, all: iset<SectorWrite>)
    requires Advances(a, b, i) && Advances(b, c, j) && i <= all && j <= all
    ensures Advances(a, c, all)
  {
    AdvancesTrans(a, b, c, i, j);
  }

  lemma Widen(a: Snapshot, b: Snapshot, i: iset<SectorWrite>, all: iset<SectorWrite>)
    requires Advances(a, b, i) && i <= all
    ensures Advances(a, b, all)
  {
  }

  lemma Stay(a: Snapshot, issued: iset<SectorWrite>)
    requires Coherent(a.disk, a.slots)
    ensures Advances(a, a, issued)
  {
  }

  // ---------------------------------------------------------------- crash safety of a stretch of writes

  function WritesSince(a: Snapshot, b: Snapshot): (r: seq<SectorWrite>)
    requires |a.log| <= |b.log|
  {
    b.log[|a.log|..]
  }

  /** Every disk a crash between `a` and `b` can leave is marked, or carries `before` or `after`. */
  ghost predicate Safe(a: Snapshot, b: Snapshot, sb: Superblock, before: Meta, after: Meta)
  {
    && LayoutOk(sb) && |a.disk| == TOTAL_SECTORS
    && History(a.disk, a.log, b.disk, b.log)
    && (forall w :: w in WritesSince(a, b) ==> w.sector < TOTAL_SECTORS)
    && CrashSafe(a.disk, WritesSince(a, b), sb, before, after)
  }

  lemma SafeTrans(a: Snapshot, b: Snapshot, c: Snapshot, sb: Superblock, before: Meta, after: Meta)
    requires Safe(a, b, sb, before, after) && Safe(b, c, sb, before, after)
    ensures Safe(a, c, sb, before, after)
  {
    HistoryTrans(a.disk, a.log, b.disk, b.log, c.disk, c.log);
    assert WritesSince(a, c) == WritesSince(a, b) + WritesSince(b, c);
    CrashSafeConcat(a.disk, WritesSince(a, b), WritesSince(b, c), sb, before, after);
  }

  lemma SafeStay(a: Snapshot, sb: Superblock, after: Meta)
    requires LayoutOk(sb) && |a.disk| == TOTAL_SECTORS
    ensures Safe(a, a, sb, MetaOn(a.disk, sb), after)
  {
  }

  /** `begin_transaction` from a clean cache, whether or not it succeeds. */
  lemma SafeBegin(a: Snapshot, b: Snapshot, sb: Superblock, marked: Superblock, after: Meta)
    requires LayoutOk(sb) && |a.disk| == TOTAL_SECTORS && AllClean(a.slots)
    requires marked.journalState != 0 && Advances(a, b, MarkerWrites(marked))
    ensures Safe(a, b, sb, MetaOn(a.disk, sb), after)
  {
    CleanStart(a, b, MarkerWrites(marked));
    SuperblockRoundTrip(marked);
    BeginPhase(a.disk, WritesSince(a, b), sb, after);
  }

  /** The body of an operation, on a disk whose marker is up. */
  lemma SafeBody(a: Snapshot, b: Snapshot, sb: Superblock, before: Meta, after: Meta)
    requires LayoutOk(sb) && |a.disk| == TOTAL_SECTORS && AllClean(a.slots) && JournalState(a.disk) != 0
    requires Advances(a, b, MarkerUp())
    ensures Safe(a, b, sb, before, after) && JournalState(b.disk) != 0
  {
    CleanStart(a, b, MarkerUp());
    MiddlePhase(a.disk, WritesSince(a, b), sb, before, after);
    ReplaySector(a.disk, WritesSince(a, b), 0);
  }

  /** `commit_transaction` once the new metadata is on the disk, whether or not it succeeds. */
  lemma SafeCommit(a: Snapshot, b: Snapshot, sb: Superblock, before: Meta, final: Superblock, inodes: seq<Inode>,
                   bm: Sector)
    requires LayoutOk(sb) && |a.disk| == TOTAL_SECTORS && AllClean(a.slots) && JournalState(a.disk) != 0
    requires Synced(a.disk, sb, inodes, bm) && Advances(a, b, MarkerWrites(final))
    ensures Safe(a, b, sb, before, Meta(Unmarked(final), bm, inodes, a.disk[2..]))
  {
    CleanStart(a, b, MarkerWrites(final));
    CommitPhase(a.disk, WritesSince(a, b), sb, before, final, inodes, bm);
  }

  // ---------------------------------------------------------------- whole operations

  /** The file system at one moment: the device and cache, and the metadata in memory. */
  datatype State = State(io: Snapshot, sb: Superblock, inodes: seq<Inode>, bm: Sector)

  ghost predicate Mounted(st: State)
  {
    && Coherent(st.io.disk, st.io.slots) && |st.io.disk| == TOTAL_SECTORS
    && MetaOk(st.sb, st.inodes, st.bm) && FilesOk(st.inodes)
  }

  ghost function Seen(st: State): (v: seq<Sector>)
    ensures |v| == |st.io.disk|
  {
    View(st.io.disk, st.io.slots)
  }

  ghost function Files(st: State): (m: map<Key, seq<Byte>>)
    requires Mounted(st)
  {
    FilesOf(Seen(st), st.inodes)
  }

  /** The volume that the metadata in memory and the cached disk make up. */
  ghost function MemMeta(st: State): (m: Meta)
    requires |st.io.disk| == TOTAL_SECTORS
  {
    Meta(Unmarked(st.sb), st.bm, st.inodes, Seen(st)[2..])
  }

  ghost predicate InStep(st: State)
  {
    Synced(Seen(st), st.sb, st.inodes, st.bm)
  }

  /** Nothing left to write back, and the disk carries exactly the metadata in memory, marked clean. */
  ghost predicate Settled(st: State)
  {
    AllClean(st.io.slots) && FullySynced(Seen(st), st.sb, st.inodes, st.bm) && st.sb.journalState == 0
  }

  /** The superblock in memory is on the disk, marked clean, and nothing is left to write back. */
  ghost predicate Committed(st: State)
    requires |st.io.disk| == TOTAL_SECTORS
  {
    && AllClean(st.io.slots) && st.io.disk == Seen(st)
    && DecodeSuperblock(st.io.disk[0]) == st.sb && st.sb.journalState == 0
  }

  /** A committed volume is settled exactly when its disk carries the volume in memory. */
  lemma CommittedSettles(st: State)
    requires Mounted(st) && Committed(st)
    ensures LayoutOk(st.sb) && JournalState(st.io.disk) == 0
    ensures Settled(st) <==> InStep(st)
    ensures InStep(st) <==> MetaOn(st.io.disk, st.sb) == MemMeta(st)
  {
    hide View, Coherent, FilesOk, InodeTable, DecodeSuperblock;
    MountedLayout(st);
  }

  /** No crash between `a` and `b` leaves a disk that claims to be clean and mixes the old volume and the new. */
  ghost predicate CrashSound(a: State, b: State)
    requires |a.io.disk| == |b.io.disk| == TOTAL_SECTORS
  {
    Settled(a) ==> Safe(a.io, b.io, a.sb, MemMeta(a), MemMeta(b))
  }

  /** `begin_transaction` (state 1) or `commit_transaction` (state 0). */
  ghost predicate MarkerStep(a: State, b: State, state: U32, ok: bool)
  {
    && Mounted(a) && Mounted(b)
    && b.sb == a.sb.(journalState := state) && b.inodes == a.inodes && b.bm == a.bm
    && Advances(a.io, b.io, MarkerWrites(b.sb))
    && (if ok then b.io.faults >= a.io.faults else b.io.faults > a.io.faults)
    && (ok ==> AllClean(b.io.slots) && b.io.disk == Seen(b) && DecodeSuperblock(Seen(b)[0]) == b.sb)
    && Seen(b)[2..] == Seen(a)[2..] && Files(b) == Files(a)
  }

  /** Disk and memory agree on every inode but `i`. */
  ghost predicate AgreeBut(st: State, i: nat)
    requires |st.io.disk| == TOTAL_SECTORS && LayoutOk(st.sb)
  {
    && |st.inodes| == MAX_INODES
    && forall j :: 0 <= j < MAX_INODES && j != i ==> InodeTable(Seen(st), st.sb)[j] == st.inodes[j]
  }

  /** The body of an operation; `done` when all its writes went through. */
  ghost predicate BodyStep(a: State, b: State, done: bool)
  {
    && Mounted(a) && Mounted(b)
    && SameLayout(a.sb, b.sb) && b.sb.journalState == a.sb.journalState
    && Advances(a.io, b.io, MarkerUp()) && a.io.faults <= b.io.faults
    && (done ==> AllClean(b.io.slots) && b.io.disk == Seen(b))
    && (done && InStep(a) ==> InStep(b))
  }

  lemma SettledMeta(a: State)
    requires Mounted(a) && Settled(a)
    ensures MetaOn(a.io.disk, a.sb) == MemMeta(a) && Seen(a) == a.io.disk && InStep(a)
  {
    CleanViewIsDisk(a.io.disk, a.io.slots);
  }

  /** Sectors 0 and 1 hold nothing that memory has to agree with. */
  lemma InStepSame(a: State, b: State)
    requires |a.io.disk| == |b.io.disk| == TOTAL_SECTORS && Seen(b)[2..] == Seen(a)[2..]
    requires LayoutOk(a.sb) && SameLayout(a.sb, b.sb) && b.inodes == a.inodes && b.bm == a.bm
    ensures LayoutOk(b.sb) && (InStep(b) <==> InStep(a)) && Seen(b)[b.sb.bitmapStart] == Seen(a)[a.sb.bitmapStart]
    ensures forall i: nat :: AgreeBut(b, i) <==> AgreeBut(a, i)
  {
    hide View, InodeAt;
    forall s | 2 <= s < TOTAL_SECTORS ensures Seen(b)[s] == Seen(a)[s] {
      assert Seen(b)[2..][s - 2] == Seen(a)[2..][s - 2];
    }
    InodeTableFrame(Seen(a), Seen(b), a.sb);
    TableLayout(Seen(b), a.sb, b.sb);
    assert InodeTable(Seen(b), b.sb) == InodeTable(Seen(a), a.sb);
  }

  lemma TableLayout(view: seq<Sector>, sb: Superblock, sb': Superblock)
    requires LayoutOk(sb) && SameLayout(sb, sb') && |view| == TOTAL_SECTORS
    ensures LayoutOk(sb') && InodeTable(view, sb') == InodeTable(view, sb)
  {
  }

  lemma NotStarted(a: State)
    requires Mounted(a)
    ensures CrashSound(a, a)
  {
    if Settled(a) {
      SettledMeta(a);
      SafeStay(a.io, a.sb, MemMeta(a));
    }
  }

  lemma NotBegun(a: State, b: State)
    requires MarkerStep(a, b, 1, false)
    ensures CrashSound(a, b)
  {
    if Settled(a) {
      SettledMeta(a);
      SafeBegin(a.io, b.io, a.sb, b.sb, MemMeta(b));
    }
  }

  lemma Stopped(a: State, b: State, c: State)
    requires MarkerStep(a, b, 1, true) && BodyStep(b, c, false)
    ensures CrashSound(a, c)
  {
    if Settled(a) {
      SettledMeta(a);
      SafeBegin(a.io, b.io, a.sb, b.sb, MemMeta(c));
      SafeBody(b.io, c.io, a.sb, MemMeta(a), MemMeta(c));
      SafeTrans(a.io, b.io, c.io, a.sb, MemMeta(a), MemMeta(c));
    }
  }

  /** A whole operation, with a commit that may itself fail. */
  lemma Completed(a: State, b: State, c: State, d: State, ok: bool)
    requires MarkerStep(a, b, 1, true) && BodyStep(b, c, true) && MarkerStep(c, d, 0, ok)
    ensures CrashSound(a, d)
    ensures ok ==> Committed(d) && (Settled(d) <==> InStep(c))
    ensures ok && Settled(a) ==> Settled(d)
  {
    hide Advances, MetaOk, FilesOk, FilesOf, View, Coherent, Safe, InodeTable, DecodeSuperblock;
    MountedLayout(a);
    MountedLayout(c);
    InStepSame(a, b);
    InStepSame(c, d);
    if Settled(a) {
      SettledMeta(a);
      SafeBegin(a.io, b.io, a.sb, b.sb, MemMeta(d));
      SafeBody(b.io, c.io, a.sb, MemMeta(a), MemMeta(d));
      SafeTrans(a.io, b.io, c.io, a.sb, MemMeta(a), MemMeta(d));
      SyncedLayout(Seen(c), c.sb, a.sb, c.inodes, c.bm);
      SafeCommit(c.io, d.io, a.sb, MemMeta(a), d.sb, c.inodes, c.bm);
      SafeTrans(a.io, c.io, d.io, a.sb, MemMeta(a), MemMeta(d));
    }
  }

  lemma MountedLayout(a: State)
    requires Mounted(a)
    ensures LayoutOk(a.sb) && |a.inodes| == MAX_INODES && MetaOk(a.sb, a.inodes, a.bm)
  {
  }

  lemma Unchanged(a: State)
    requires Mounted(a)
    ensures BodyStep(a, a, false)
  {
  }

  lemma OnlyCount(a: State, b: State)
    requires Mounted(a) && MetaOk(b.sb, b.inodes, b.bm) && b == a.(sb := b.sb)
    requires SameLayout(a.sb, b.sb) && b.sb.journalState == a.sb.journalState
    ensures Mounted(b) && BodyStep(a, b, false)
  {
    Stay(a.io, MarkerUp());
  }

  /** A body that changed nothing but the inode count has nothing to write. */
  lemma EmptyBody(a: State, b: State)
    requires Mounted(a) && Mounted(b) && AllClean(a.io.slots) && a.io.disk == Seen(a)
    requires b.io == a.io && b.inodes == a.inodes && b.bm == a.bm
    requires SameLayout(a.sb, b.sb) && b.sb.journalState == a.sb.journalState
    ensures BodyStep(a, b, true)
  {
    Stay(a.io, MarkerUp());
    if InStep(a) {
      SyncedLayout(Seen(a), a.sb, b.sb, a.inodes, a.bm);
    }
  }

  lemma FileHasKey(a: State, i: nat)
    requires Mounted(a) && i < |a.inodes| && IsFile(a.inodes[i])
    ensures a.inodes[i].first + SectorsFor(a.inodes[i].size) <= TOTAL_SECTORS
    ensures KeyOf(a.inodes[i]) in Files(a) && Files(a)[KeyOf(a.inodes[i])] == Contents(Seen(a), a.inodes[i])
  {
    assert InBounds(0, a.inodes[i]);
    FilesRepresents(Seen(a), a.inodes);
  }

  /** A disk that carries the volume of `st` carries its files. */
  lemma CrashedFiles(disk: seq<Sector>, sb: Superblock, st: State)
    requires Mounted(st) && |disk| == TOTAL_SECTORS && LayoutOk(sb) && MetaOn(disk, sb) == MemMeta(st)
    ensures InodeTable(disk, sb) == st.inodes && FilesOk(st.inodes) && FilesOf(disk, InodeTable(disk, sb)) == Files(st)
  {
    hide View, Coherent, FilesOf, InodeTable, MetaOk, FilesOk;
    SameVolumeFiles(disk, Seen(st), st.sb, st.inodes, st.bm);
  }

  /** Reading writes nothing when nothing is owed, so an operation may read first. */
  lemma AfterReading(a: State, b: State, c: State)
    requires Mounted(a) && Advances(a.io, b.io, iset{}) && Seen(b) == Seen(a) && b == a.(io := b.io)
    requires |c.io.disk| == TOTAL_SECTORS && CrashSound(b, c)
    ensures Mounted(b) && Files(b) == Files(a)
    ensures CrashSound(a, c) && (Settled(a) ==> Settled(b))
    ensures Seen(b)[2..] == Seen(a)[2..]
  {
    if Settled(a) {
      CleanStart(a.io, b.io, iset{});
      assert b.io.log[|a.io.log|..] == [];
      assert b.io.log == a.io.log && b.io.disk == a.io.disk;
      forall i | 0 <= i < |b.io.slots| && b.io.slots[i].valid ensures !b.io.slots[i].dirty {
        assert !Pending(b.io.slots, SectorWrite(b.io.slots[i].sector, b.io.slots[i].data));
      }
    }
  }
}

/** diskfs v2: the mounted volume and its operations. */
module DiskFs {
  import opened Bits
  import opened SectorCache
  import opened DiskFormat
  import opened Extents
  import opened Paths
  import opened Volume
  import opened Transactions
  import opened Listing
  import opened Reading
  import opened Operations
  import opened Mounting
  import Fsck

  class FileSystem {
    const cache: Cache
    const bitmap: array<Byte>
    const fileBuffer: array<Byte>
    var sb: Superblock
    var inodes: seq<Inode>
    var available: bool
    var fileIndices: seq<nat>
    var fileNames: seq<seq<Byte>>

    /** The parts are there and the cache is coherent. */
    ghost predicate Alive()
      reads this, cache
    {
      && cache.Valid() && |cache.disk| == TOTAL_SECTORS
      && bitmap.Length == SECTOR_SIZE && fileBuffer.Length == READ_BUFFER_SIZE && bitmap != fileBuffer
    }

    ghost predicate Sound()
      reads this, bitmap
    {
      bitmap.Length == SECTOR_SIZE && MetaOk(sb, inodes, bitmap[..])
    }

    ghost function St(): (st: State)
      requires bitmap.Length == SECTOR_SIZE
      reads this, bitmap, cache
    {
      State(cache.Snap(), sb, inodes, bitmap[..])
    }

    /** Mounted and consistent, whatever the device has done so far. */
    ghost predicate Up()
      reads this, bitmap, cache
    {
      Alive() && Mounted(St())
    }

    constructor (cache: Cache)
      requires cache.Valid() && |cache.disk| == TOTAL_SECTORS
      ensures Alive() && !available && this.cache == cache && fresh(bitmap) && fresh(fileBuffer)
    {
      this.cache := cache;
      bitmap := new Byte[SECTOR_SIZE](_ => 0);
      fileBuffer := new Byte[READ_BUFFER_SIZE](_ => 0);
      sb := Superblock(0, 0, 0, 0, 0, 0, 0, 0, 0, 0);
      inodes := seq(MAX_INODES, _ => FREE_INODE);
      available := false;
      fileIndices, fileNames := [], [];
    }

    // -------------------------------------------------------------- metadata writers

    /** `write_sector` followed by `diskfs_flush`, as every metadata writer does. */
    method WriteThrough(s: nat, data: Sector) returns (ok: bool)
      requires Alive() && s < TOTAL_SECTORS
      modifies cache
      ensures Alive()
      ensures ok ==> AllClean(cache.slots) && cache.disk == cache.Seen() == old(cache.Seen())[s := data]
      ensures if ok then cache.faults >= old(cache.faults) else cache.faults > old(cache.faults)
      ensures Advances(old(cache.Snap()), cache.Snap(), iset{SectorWrite(s, data)})
    {
      hide Advances, Coherent, View;
      ghost var a := cache.Snap();
      ok := cache.WriteSector(s, data);
      if ok {
        ghost var b := cache.Snap();
        ok := cache.Flush();
        Then(a, b, cache.Snap(), iset{SectorWrite(s, data)}, iset{}, iset{SectorWrite(s, data)});
      }
    }

    /** `write_bitmap` */
    method WriteBitmap() returns (ok: bool)
      requires Alive() && LayoutOk(sb)
      modifies cache
      ensures Alive()
      ensures ok ==>
                AllClean(cache.slots) && cache.disk == cache.Seen() == old(cache.Seen())[sb.bitmapStart := bitmap[..]]
      ensures if ok then cache.faults >= old(cache.faults) else cache.faults > old(cache.faults)
      ensures Advances(old(cache.Snap()), cache.Snap(), BodyWrites(sb.dataStart, 0, 0))
    {
      ghost var a := cache.Snap();
      ok := WriteThrough(sb.bitmapStart, bitmap[..]);
      Widen(a, cache.Snap(), iset{SectorWrite(sb.bitmapStart, bitmap[..])}, BodyWrites(sb.dataStart, 0, 0));
    }

    /** `write_inode`: read the sector, replace 64 bytes, write it back. */
    method WriteInode(i: nat) returns (ok: bool)
      requires Alive() && LayoutOk(sb) && i < MAX_INODES == |inodes|
      modifies cache
      ensures Alive()
      ensures ok ==>
                AllClean(cache.slots) && cache.disk == cache.Seen() == PutInode(old(cache.Seen()), sb, i, inodes[i])
      ensures ok ==> InodeBytes(cache.disk[sb.inodeStart + i / PER_SECTOR], i % PER_SECTOR * INODE_SIZE, inodes[i])
      ensures if ok then cache.faults >= old(cache.faults) else cache.faults > old(cache.faults)
      ensures Advances(old(cache.Snap()), cache.Snap(), BodyWrites(sb.dataStart, 0, 0))
    {
      hide Advances, Coherent, View, InodeBytes;
      ghost var a := cache.Snap();
      PutInodeBytes(cache.Seen(), sb, i, inodes[i]);
      var s := sb.inodeStart + i / PER_SECTOR;
      var offset := (i % PER_SECTOR) * INODE_SIZE;
      var sector: Sector;
      ghost var all := BodyWrites(sb.dataStart, 0, 0);
      ok, sector := cache.ReadSector(s);
      Widen(a, cache.Snap(), iset{}, all);
      if ok {
        ghost var b := cache.Snap();
        sector := Splice(sector, offset, EncodeInode(inodes[i]));
        ok := WriteThrough(s, sector);
        Then(a, b, cache.Snap(), all, iset{SectorWrite(s, sector)}, all);
      }
    }

    /** `write_superblock` */
    method WriteSuperblock() returns (ok: bool)
      requires Alive()
      modifies cache
      ensures Alive()
      ensures ok ==> AllClean(cache.slots) && cache.disk == cache.Seen() == old(cache.Seen())[0 := EncodeSuperblock(sb)]
      ensures if ok then cache.faults >= old(cache.faults) else cache.faults > old(cache.faults)
      ensures Advances(old(cache.Snap()), cache.Snap(), iset{SectorWrite(0, EncodeSuperblock(sb))})
    {
      ok := WriteThrough(0, EncodeSuperblock(sb));
    }

    /** `write_journal`: the marker goes to its own sector and into the superblock. */
    method WriteJournal(state: U32) returns (ok: bool)
      requires Alive()
      modifies this`sb, cache
      ensures Alive() && sb == old(sb).(journalState := state)
      ensures ok ==>
                && AllClean(cache.slots)
                && cache.disk == cache.Seen() == old(cache.Seen())[1 := EncodeJournal(state)][0 := EncodeSuperblock(sb)]
      ensures ok ==> JournalBytes(cache.disk[1], state) && SuperblockBytes(cache.disk[0], sb)
      ensures if ok then cache.faults >= old(cache.faults) else cache.faults > old(cache.faults)
      ensures Advances(old(cache.Snap()), cache.Snap(), MarkerWrites(sb))
    {
      hide Advances, Coherent, View, JournalBytes, SuperblockBytes, EncodeJournal, EncodeSuperblock;
      ghost var a := cache.Snap();
      sb := sb.(journalState := state);
      JournalWritten(state);
      SuperblockWritten(sb);
      ok := cache.WriteSector(1, EncodeJournal(state));
      Widen(a, cache.Snap(), iset{SectorWrite(1, EncodeJournal(state))}, MarkerWrites(sb));
      if ok {
        ghost var b := cache.Snap();
        ok := WriteSuperblock();
        Then(a, b, cache.Snap(), MarkerWrites(sb), iset{SectorWrite(0, EncodeSuperblock(sb))}, MarkerWrites(sb));
      }
    }

    /** `write_file_data` */
    method WriteFileData(first: nat, data: seq<Byte>) returns (ok: bool)
      requires Alive() && 0 < first && first + SectorsFor(|data|) <= TOTAL_SECTORS
      modifies cache
      ensures Alive()
      ensures ok ==>
                && AllClean(cache.slots)
                && cache.disk == cache.Seen() == StoreChunks(old(cache.Seen()), first, data, SectorsFor(|data|))
      ensures ok ==> Written(cache.disk, first, data)
      ensures if ok then cache.faults >= old(cache.faults) else cache.faults > old(cache.faults)
      ensures Advances(old(cache.Snap()), cache.Snap(), BodyWrites(0, first, SectorsFor(|data|)))
    {
      hide Advances, Coherent, View;
      ghost var a, view := cache.Snap(), cache.Seen();
      var sectors := SectorsFor(|data|);
      ghost var all := BodyWrites(0, first, sectors);
      Stay(a, all);
      var s := 0;
      while s < sectors
        invariant s <= sectors && Alive() && Advances(a, cache.Snap(), all)
        invariant cache.Seen() == StoreChunks(view, first, data, s) && cache.faults >= old(cache.faults)
      {
        ghost var b := cache.Snap();
        ok := cache.WriteSector(first + s, Chunk(data, s));
        Then(a, b, cache.Snap(), all, iset{SectorWrite(first + s, Chunk(data, s))}, all);
        if !ok {
          return;
        }
        s := s + 1;
      }
      ghost var b := cache.Snap();
      ok := cache.Flush();
      Then(a, b, cache.Snap(), all, iset{}, all);
      ChunksWritten(view, first, data);
    }

    // -------------------------------------------------------------- allocation in memory

    /** `bitmap_set` */
    method BitmapSet(s: nat, used: bool)
      requires bitmap.Length == SECTOR_SIZE && s < TOTAL_SECTORS
      modifies bitmap
      ensures bitmap[..] == Mark(old(bitmap[..]), s, used)
    {
      assert Pow2(8) == 256;
      BitWeight(bitmap[s / 8], s % 8, 8);
      bitmap[s / 8] := if used then SetBit(bitmap[s / 8], s % 8) else ClearBit(bitmap[s / 8], s % 8);
    }

    method MarkRun(first: nat, n: nat)
      requires bitmap.Length == SECTOR_SIZE && first + n <= TOTAL_SECTORS
      modifies bitmap
      ensures RunSet(old(bitmap[..]), first, n, true, bitmap[..])
    {
      var i := 0;
      while i < n
        invariant i <= n && RunSet(old(bitmap[..]), first, i, true, bitmap[..])
      {
        BitmapSet(first + i, true);
        i := i + 1;
      }
    }

    /** `alloc_contiguous`: the lowest run of free data sectors. */
    method AllocContiguous(sectors: nat) returns (ok: bool, first: nat)
      requires bitmap.Length == SECTOR_SIZE && LayoutOk(sb)
      modifies bitmap
      ensures ok <==> sectors > 0 && HasRun(old(bitmap[..]), sb.dataStart, sectors)
      ensures !ok ==> bitmap[..] == old(bitmap[..])
      ensures ok ==>
                sb.dataStart <= first && first + sectors <= TOTAL_SECTORS && RunFree(old(bitmap[..]), first, sectors)
      ensures ok ==> forall t :: sb.dataStart <= t < first ==> !RunFree(old(bitmap[..]), t, sectors)
      ensures ok ==> RunSet(old(bitmap[..]), first, sectors, true, bitmap[..])
    {
      first := 0;
      var start, len := sb.dataStart, 0;
      var sector := sb.dataStart;
      ghost var bm: Sector := bitmap[..];
      while sector < sb.totalSectors
        invariant sb.dataStart <= sector <= TOTAL_SECTORS && bitmap[..] == bm
        invariant len <= sector - sb.dataStart && (len > 0 ==> start == sector - len)
        invariant sectors > 0 ==> len < sectors
        invariant RunFree(bm, sector - len, len)
        invariant len < sector - sb.dataStart ==> Marked(bm, sector - len - 1)
        invariant sectors > 0 ==> forall t :: sb.dataStart <= t && t + sectors <= sector ==> !RunFree(bm, t, sectors)
      {
        if !Marked(bitmap[..], sector) {
          if len == 0 {
            start := sector;
          }
          len := len + 1;
          assert RunFree(bm, start, len);
          if len == sectors {
            MarkRun(start, sectors);
            return true, start;
          }
        } else {
          len := 0;
        }
        sector := sector + 1;
      }
      ok := false;
    }

    /** `free_extent` */
    method FreeExtent(first: nat, sectors: nat)
      requires bitmap.Length == SECTOR_SIZE && LayoutOk(sb)
      modifies bitmap
      ensures RunSet(old(bitmap[..]), first, sectors, false, bitmap[..])
    {
      var i := 0;
      while i < sectors && first + i < sb.totalSectors
        invariant i <= sectors && RunSet(old(bitmap[..]), first, i, false, bitmap[..])
      {
        BitmapSet(first + i, false);
        i := i + 1;
      }
    }

    /** `alloc_inode` */
    method AllocInode() returns (index: int)
      requires LayoutOk(sb) && |inodes| == MAX_INODES && TreeOk(inodes, sb.inodeCount)
      modifies this`sb
      ensures index < 0 <==> !HasFreeInode(inodes)
      ensures index >= 0 ==> LowestFree(inodes, index)
      ensures sb == old(sb).(inodeCount := if index >= old(sb).inodeCount then index + 1 else old(sb).inodeCount)
    {
      var i := 1;
      while i < MAX_INODES
        invariant 1 <= i <= MAX_INODES && sb == old(sb)
        invariant forall j :: 1 <= j < i ==> inodes[j].kind != TYPE_FREE
      {
        if i >= sb.inodeCount {
          sb := sb.(inodeCount := i + 1);
          return i;
        }
        if inodes[i].kind == TYPE_FREE {
          return i;
        }
        i := i + 1;
      }
      index := -1;
    }

    // -------------------------------------------------------------- metadata changes in memory

    /** Give file `i` the extent that `size` bytes need: move it when it grows, cut its tail when it shrinks. */
    method Resize(i: nat, size: nat) returns (ok: bool)
      requires Sound() && i < MAX_INODES && IsFile(inodes[i]) && size <= MAX_FILE_SIZE
      modifies this`inodes, bitmap
      ensures Sound()
      ensures ok <==>
                SectorsFor(size) <= old(inodes)[i].count || HasRun(old(bitmap[..]), sb.dataStart, SectorsFor(size))
      ensures !ok ==> inodes == old(inodes) && bitmap[..] == old(bitmap[..])
      ensures ok ==>
                var n := old(inodes)[i];
                inodes == old(inodes)[i := n.(size := size, first := inodes[i].first, count := SectorsFor(size))]
    {
      ghost var bm: Sector := bitmap[..];
      var n := inodes[i];
      var sectors := SectorsFor(size);
      assert InBounds(sb.dataStart, n);
      if sectors > n.count {
        var first: nat;
        ok, first := AllocContiguous(sectors);
        if !ok {
          return;
        }
        FreeExtent(n.first, n.count);
        n := n.(first := first, count := sectors);
      } else if sectors < n.count {
        FreeExtent(n.first + sectors, n.count - sectors);
        n := n.(count := sectors);
      }
      n := n.(size := size);
      forall s | 0 <= s < TOTAL_SECTORS && Covers(inodes[i], s) ensures Marked(bm, s) {
        FileIsMarked(sb, inodes, bm, i, s);
      }
      MetaReplace(sb, inodes, bm, i, n, bitmap[..], sb.inodeCount);
      inodes := inodes[i := n];
      ok := true;
    }

    /** Take a free inode and an extent for a new file. */
    method Create(parent: nat, leaf: Name, size: nat) returns (ok: bool, index: nat)
      requires Sound() && size <= MAX_FILE_SIZE
      requires parent < sb.inodeCount && inodes[parent].kind == TYPE_DIR
      requires 0 < |leaf| < NAME_BYTES && 0 !in leaf && FindChild(inodes, parent, leaf, TYPE_FILE) < 0
      modifies this`sb, this`inodes, bitmap
      ensures Sound() && SameLayout(sb, old(sb)) && sb.journalState == old(sb).journalState
      ensures ok <==> HasFreeInode(old(inodes)) && HasRun(old(bitmap[..]), sb.dataStart, SectorsFor(size))
      ensures !ok ==> inodes == old(inodes) && bitmap[..] == old(bitmap[..])
      ensures ok ==> LowestFree(old(inodes), index) && index < MAX_INODES
      ensures ok ==>
                && inodes == old(inodes)[index := NewFile(parent, leaf, size, inodes[index].first)]
                && KeyOf(inodes[index]) == Key(parent, leaf)
      ensures ok ==>
                && inodes[index].kind == TYPE_FILE && inodes[index].size == size
                && inodes[index].count == SectorsFor(size) && inodes[index].flags == 0
                && inodes[index].reserved0 == 0 && forall k :: 0 <= k < 12 ==> inodes[index].reserved[k] == 0
    {
      hide MetaOk, TreeOk, RunFree, RunSet, CName, FindChild;
      MetaLayout(sb, inodes, bitmap[..]);
      ghost var bm: Sector := bitmap[..];
      index := 0;
      var i := AllocInode();
      if i < 0 {
        return false, 0;
      }
      var sectors := SectorsFor(size);
      MetaMore(old(sb), inodes, bm, sb.inodeCount);
      var first: nat;
      ok, first := AllocContiguous(sectors);
      if !ok {
        return;
      }
      var n := NewFile(parent, leaf, size, first);
      StoredName(leaf);
      MetaCreate(old(sb), inodes, bm, i, n, bitmap[..], sb.inodeCount);
      inodes := inodes[i := n];
      index := i;
    }

    method SetName(i: nat, parent: nat, leaf: Name)
      requires Sound() && i < MAX_INODES && IsFile(inodes[i])
      requires parent < sb.inodeCount && inodes[parent].kind == TYPE_DIR && 0 < |leaf| < NAME_BYTES && 0 !in leaf
      requires FindChild(inodes, parent, leaf, 0) < 0
      modifies this`inodes
      ensures Sound()
      ensures inodes == old(inodes)[i := old(inodes)[i].(parent := parent, name := PadName(leaf))]
      ensures KeyOf(inodes[i]) == Key(parent, leaf)
    {
      hide MetaOk, CName, TreeOk, FindChild, PadName;
      MetaLayout(sb, inodes, bitmap[..]);
      var n := inodes[i].(parent := parent, name := PadName(leaf));
      StoredName(leaf);
      MetaRename(sb, inodes, bitmap[..], i, n);
      inodes := inodes[i := n];
    }

    // -------------------------------------------------------------- the marker

    /** `begin_transaction` and `commit_transaction` */
    method SetMarker(state: U32) returns (ok: bool)
      requires Up()
      modifies this`sb, cache
      ensures Up() && MarkerStep(old(St()), St(), state, ok)
      ensures sb == old(sb).(journalState := state)
      ensures (if ok then cache.faults >= old(cache.faults) else cache.faults > old(cache.faults))
      ensures Files(St()) == old(Files(St())) && (ok ==> AllClean(cache.slots) && cache.disk == Seen(St()))
    {
      hide Advances, View, Coherent, MarkerWrites, MetaOk, FilesOk, FilesOf, MarkerStep;
      ghost var a := St();
      ok := WriteJournal(state);
      MarkerDone(a, St(), state, ok);
    }

    // -------------------------------------------------------------- lookups

    ghost predicate Walkable()
      reads this
    {
      |inodes| == MAX_INODES && TreeOk(inodes, sb.inodeCount)
    }

    /** `find_child` */
    method FindChildIn(parent: nat, name: Name, kind: Byte) returns (r: int)
      requires Walkable()
      ensures r == FindChild(inodes, parent, name, kind)
    {
      var i := 0;
      while i < sb.inodeCount && i < MAX_INODES
        invariant i <= sb.inodeCount
        invariant forall j :: 0 <= j < i ==> !IsChild(inodes[j], parent, name, kind)
      {
        if IsChild(inodes[i], parent, name, kind) {
          return i;
        }
        i := i + 1;
      }
      r := -1;
    }

    /** `find_path` */
    method FindPath(path: Option<Path>) returns (r: int)
      requires Walkable()
      ensures r == if path.None? then -1 else Walk(inodes, 0, Components(path.value))
    {
      hide NextPart, CName, FindChild, TreeOk;
      if path.None? {
        return -1;
      }
      var current := 0;
      var ok, part, cursor := PathPart(path.value, 0);
      ghost var at := 0;
      while ok
        invariant at <= cursor <= |path.value| && current < MAX_INODES
        invariant NextPart(path.value, at) == if ok then Part(part, cursor) else NoPart
        invariant Walk(inodes, 0, Components(path.value)) == Walk(inodes, current, ComponentsFrom(path.value, at))
        decreases |path.value| - at
      {
        assert ComponentsFrom(path.value, at)[1..] == ComponentsFrom(path.value, cursor);
        var child := FindChildIn(current, part, 0);
        if child < 0 {
          return -1;
        }
        current := child;
        at := cursor;
        ok, part, cursor := PathPart(path.value, cursor);
      }
      r := current;
    }

    /** `ensure_parent_dir` */
    method EnsureParentDir(path: Path) returns (parent: int, leaf: Name)
      requires Walkable()
      ensures parent < 0 <==> Target(inodes, path).None?
      ensures parent >= 0 ==> Target(inodes, path) == Some(Key(parent, leaf))
      ensures parent >= 0 ==>
                parent < sb.inodeCount && inodes[parent].kind == TYPE_DIR && 0 < |leaf| <= MAX_PART && 0 !in leaf
    {
      hide NextPart, CName, FindChild, TreeOk;
      ghost var parts := Components(path);
      var ok, part, cursor := PathPart(path, 0);
      if !ok {
        return -1, [];
      }
      var current := 0;
      ghost var k := 0;
      assert parts == [part] + ComponentsFrom(path, cursor);
      var next: Name;
      ghost var at := cursor;
      ok, next, cursor := PathPart(path, cursor);
      while ok
        invariant at <= cursor <= |path| && current < MAX_INODES && k < |parts|
        invariant NextPart(path, at) == if ok then Part(next, cursor) else NoPart
        invariant parts[k..] == [part] + ComponentsFrom(path, at)
        invariant WalkDirs(inodes, 0, parts[..|parts| - 1]) == WalkDirs(inodes, current, parts[k..|parts| - 1])
        decreases |path| - at
      {
        assert ComponentsFrom(path, at) == [next] + ComponentsFrom(path, cursor);
        assert parts[k] == part && parts[k + 1..] == parts[k..][1..] == [next] + ComponentsFrom(path, cursor);
        assert parts[k..|parts| - 1][1..] == parts[k + 1..|parts| - 1];
        var child := FindChildIn(current, part, TYPE_DIR);
        if child < 0 {
          return -1, [];
        }
        current := child;
        part := next;
        k := k + 1;
        at := cursor;
        ok, next, cursor := PathPart(path, cursor);
      }
      assert parts[k..] == [part];
      assert parts[k] == part && k == |parts| - 1;
      RootIsDir(inodes, sb.inodeCount);
      WalkDirsIsDir(inodes, sb.inodeCount, 0, parts[..|parts| - 1]);
      ComponentShape(path, 0, k);
      return current, part;
    }

    /** `diskfs_find_file` */
    method LookupFile(path: Option<Path>) returns (r: int)
      requires Walkable()
      ensures r == if path.None? then -1 else FindFile(inodes, path.value)
    {
      r := FindPath(path);
      if r >= 0 && inodes[r].kind == TYPE_FILE {
        return;
      }
      if path.Some? && (path.value == [] || path.value[0] != SLASH) {
        var cut := path.value[..if |path.value| < MAX_PREFIXED then |path.value| else MAX_PREFIXED];
        r := FindPath(Some([SLASH] + cut));
        if r >= 0 && inodes[r].kind == TYPE_FILE {
          return;
        }
      }
      r := -1;
    }

    // -------------------------------------------------------------- bodies of the operations

    /** The writes that put a file's data and metadata on the disk, in the order the source issues them. */
    method WriteOut(i: nat, data: seq<Byte>, withSuperblock: bool) returns (ok: bool)
      requires Alive() && LayoutOk(sb) && sb.journalState != 0 && i < MAX_INODES == |inodes|
      requires sb.dataStart <= inodes[i].first && inodes[i].first + SectorsFor(|data|) <= TOTAL_SECTORS
      modifies cache
      ensures Alive()
      ensures if ok then cache.faults >= old(cache.faults) else cache.faults > old(cache.faults)
      ensures Advances(old(cache.Snap()), cache.Snap(), BodyWrites(sb.dataStart, inodes[i].first, SectorsFor(|data|)))
      ensures ok ==> AllClean(cache.slots) && cache.disk == cache.Seen()
      ensures ok ==>
                var head := if withSuperblock then EncodeSuperblock(sb) else old(cache.Seen())[0];
                cache.Seen() == StoredView(old(cache.Seen()), sb, i, inodes[i], data, head, bitmap[..])
    {
      hide Advances, Coherent, View, MarkerUp, PutInode, StoreChunks, SectorsFor;
      BehindMarker(sb);
      ghost var a := cache.Snap();
      ghost var low := BodyWrites(sb.dataStart, 0, 0);
      ghost var all := BodyWrites(sb.dataStart, inodes[i].first, SectorsFor(|data|));
      BodyIsBehind(sb.dataStart, inodes[i].first, SectorsFor(|data|));
      ok := WriteFileData(inodes[i].first, data);
      Widen(a, cache.Snap(), BodyWrites(0, inodes[i].first, SectorsFor(|data|)), all);
      if !ok {
        return;
      }
      ghost var b, v := cache.Snap(), cache.Seen();
      assert v[0] == old(cache.Seen())[0] by {
        StoreChunksAt(old(cache.Seen()), inodes[i].first, data, SectorsFor(|data|), 0);
      }
      ok := WriteInode(i);
      Then(a, b, cache.Snap(), all, low, all);
      if !ok {
        return;
      }
      assert cache.Seen()[0 := old(cache.Seen())[0]] == cache.Seen() by {
        PutInodeKeeps(v, sb, i, inodes[i]);
      }
      if withSuperblock {
        b := cache.Snap();
        ok := WriteSuperblock();
        Then(a, b, cache.Snap(), all, iset{SectorWrite(0, EncodeSuperblock(sb))}, all);
        if !ok {
          return;
        }
      }
      b := cache.Snap();
      ok := WriteBitmap();
      Then(a, b, cache.Snap(), all, low, all);
    }

    /** The branch of `diskfs_write_file` for a file that exists. */
    method StoreExisting(i: nat, data: seq<Byte>) returns (r: Outcome)
      requires Up() && sb.journalState != 0 && |data| <= MAX_FILE_SIZE
      requires i < MAX_INODES && IsFile(inodes[i])
      modifies this`inodes, bitmap, cache
      ensures Up() && BodyStep(old(St()), St(), r.Stored?) && WroteKey(old(inodes), inodes, KeyOf(old(inodes)[i]))
      ensures r.NoSpace? <==>
                && SectorsFor(|data|) > old(inodes)[i].count
                && !HasRun(old(bitmap[..]), sb.dataStart, SectorsFor(|data|))
      ensures r.NoSpace? ==> St() == old(St())
      ensures r.IoError? ==> cache.faults > old(cache.faults)
      ensures KeptBut(old(Files(St())), Files(St()), KeyOf(old(inodes)[i]))
      ensures r.Stored? ==>
                && Files(St()) == old(Files(St()))[KeyOf(old(inodes)[i]) := data]
                && StoredBy(old(St()), St(), KeyOf(old(inodes)[i]))
    {
      hide Advances, View, Coherent, MarkerUp, MetaOk, FilesOk, FilesOf, BodyStep, SectorsFor, HasRun, StoredBy, CName;
      ghost var a := St();
      UpLayout();
      var ok := Resize(i, |data|);
      if !ok {
        Unchanged(a);
        WroteNothing(a.inodes, KeyOf(a.inodes[i]));
        return NoSpace;
      }
      ghost var n := inodes[i];
      assert KeyOf(n) == KeyOf(a.inodes[i]);
      InBoundsOf(sb, inodes, bitmap[..], i);
      ok := WriteOut(i, data, false);
      StoreDone(a, St(), i, n, data, Seen(a)[0], ok);
      r := if ok then Stored else IoError;
    }

    /** The branch of `diskfs_write_file` for a new file. */
    method StoreNew(parent: nat, leaf: Name, data: seq<Byte>) returns (r: Outcome)
      requires Up() && sb.journalState != 0 && |data| <= MAX_FILE_SIZE
      requires parent < sb.inodeCount && inodes[parent].kind == TYPE_DIR
      requires 0 < |leaf| < NAME_BYTES && 0 !in leaf && FindChild(inodes, parent, leaf, TYPE_FILE) < 0
      modifies this`sb, this`inodes, bitmap, cache
      ensures Up() && BodyStep(old(St()), St(), r.Stored?) && WroteKey(old(inodes), inodes, Key(parent, leaf))
      ensures r.NoSpace? <==>
                !(HasFreeInode(old(inodes)) && HasRun(old(bitmap[..]), old(sb).dataStart, SectorsFor(|data|)))
      ensures r.NoSpace? ==> St() == old(St()).(sb := sb)
      ensures r.IoError? ==> cache.faults > old(cache.faults)
      ensures KeptBut(old(Files(St())), Files(St()), Key(parent, leaf))
      ensures r.Stored? ==>
                && Files(St()) == old(Files(St()))[Key(parent, leaf) := data]
                && StoredBy(old(St()), St(), Key(parent, leaf))
    {
      hide Advances, View, Coherent, MarkerUp, MetaOk, FilesOk, FilesOf, BodyStep, SectorsFor, HasRun, StoredBy, CName;
      hide WroteKey;
      hide HasFreeInode, FindChild;
      ghost var a := St();
      UpLayout();
      var ok, i := Create(parent, leaf, |data|);
      if !ok {
        OnlyCount(a, St());
        WroteNothing(a.inodes, Key(parent, leaf));
        return NoSpace;
      }
      ghost var n := inodes[i];
      InBoundsOf(sb, inodes, bitmap[..], i);
      ok := WriteOut(i, data, true);
      StoreDone(a, St(), i, n, data, EncodeSuperblock(sb), ok);
      r := if ok then Stored else IoError;
    }

    /** Either branch. */
    method Store(parent: nat, leaf: Name, data: seq<Byte>) returns (r: Outcome)
      requires Up() && sb.journalState != 0 && |data| <= MAX_FILE_SIZE
      requires parent < sb.inodeCount && inodes[parent].kind == TYPE_DIR && 0 < |leaf| < NAME_BYTES && 0 !in leaf
      modifies this`sb, this`inodes, bitmap, cache
      ensures Up() && StoreReport(old(St()), St(), Key(parent, leaf), data, r)
    {
      hide Advances, View, Coherent, MarkerUp, Consistent, FilesOf, FilesOk, SectorsFor, HasRun, WroteKey, BodyStep;
      hide StoredBy;
      var existing := FindChildIn(parent, leaf, TYPE_FILE);
      if existing >= 0 {
        r := StoreExisting(existing, data);
      } else {
        r := StoreNew(parent, leaf, data);
      }
    }

    /** Drop file `i`: free its sectors, clear its inode, write both. */
    method DropBody(i: nat) returns (ok: bool)
      requires Up() && sb.journalState != 0 && i < MAX_INODES && IsFile(inodes[i])
      modifies this`inodes, bitmap, cache
      ensures Up() && BodyStep(old(St()), St(), ok) && inodes == old(inodes)[i := FREE_INODE]
      ensures if ok then cache.faults >= old(cache.faults) else cache.faults > old(cache.faults)
      ensures Files(St()) == old(Files(St())) - {KeyOf(old(inodes)[i])}
      ensures ok ==> (InStep(St()) <==> AgreeBut(old(St()), i))
    {
      hide Advances, View, Coherent, MarkerUp, Consistent, FilesOk, FilesOf, BodyStep, PutInode;
      ghost var a := St();
      InBoundsOf(sb, inodes, bitmap[..], i);
      FreeExtent(inodes[i].first, inodes[i].count);
      MetaReplace(sb, inodes, a.bm, i, FREE_INODE, bitmap[..], sb.inodeCount);
      inodes := inodes[i := FREE_INODE];
      ok := WriteInode(i);
      if ok {
        ghost var b := cache.Snap();
        ok := WriteBitmap();
        ghost var low := BodyWrites(sb.dataStart, 0, 0);
        Then(a.io, b, cache.Snap(), low, low, low);
      }
      InodeDone(a, St(), i, FREE_INODE, bitmap[..], ok);
    }

    /** Give file `i` a new directory and name and write its inode. */
    method MoveBody(i: nat, parent: nat, leaf: Name) returns (ok: bool)
      requires Up() && sb.journalState != 0 && i < MAX_INODES && IsFile(inodes[i])
      requires parent < sb.inodeCount && inodes[parent].kind == TYPE_DIR && 0 < |leaf| < NAME_BYTES && 0 !in leaf
      requires FindChild(inodes, parent, leaf, 0) < 0
      modifies this`inodes, cache
      ensures Up() && BodyStep(old(St()), St(), ok)
      ensures inodes == old(inodes)[i := old(inodes)[i].(parent := parent, name := PadName(leaf))]
      ensures KeyOf(inodes[i]) == Key(parent, leaf)
      ensures if ok then cache.faults >= old(cache.faults) else cache.faults > old(cache.faults)
      ensures KeyOf(old(inodes)[i]) in old(Files(St()))
      ensures Files(St()) == Moved(old(Files(St())), KeyOf(old(inodes)[i]), Key(parent, leaf))
      ensures ok ==> (InStep(St()) <==> AgreeBut(old(St()), i) && old(Seen(St()))[sb.bitmapStart] == bitmap[..])
    {
      hide Advances, View, Coherent, MarkerUp, Consistent, FilesOk, FilesOf, BodyStep, PutInode, InodeView, CName;
      hide FindChild;
      ghost var a := St();
      SetName(i, parent, leaf);
      ok := WriteInode(i);
      InodeViewSame(Seen(a), sb, i, inodes[i]);
      InodeDone(a, St(), i, inodes[i], Seen(a)[sb.bitmapStart], ok);
    }

    // -------------------------------------------------------------- the visible list

    ghost predicate Listed()
      reads this
    {
      IsListing(inodes, sb.inodeCount, fileIndices, fileNames)
    }

    /** The name that `rebuild_file_list` prints for one file. */
    method PrintName(i: nat) returns (out: seq<Byte>)
      requires i < |inodes| && inodes[i].parent < |inodes|
      ensures out == ListedName(inodes, i)
    {
      var n := inodes[i];
      out := [SLASH];
      if n.parent != 0 && inodes[n.parent].kind == TYPE_DIR {
        out := AppendName(out, inodes[n.parent].name);
        if |out| < MAX_LISTED {
          out := out + [SLASH];
        }
      }
      ghost var dirs, leaf := ShownDirs(inodes, i), CName(n.name);
      assert out == Cut(Join(dirs) + [SLASH]) by {
        if dirs != [] {
          assert Join(dirs) == [SLASH] + dirs[0] + Join([]);
          CutMore([SLASH] + dirs[0], [SLASH]);
        }
      }
      out := AppendName(out, n.name);
      JoinMore(dirs, leaf);
      CutMore(Join(dirs) + [SLASH], leaf);
    }

    /** `rebuild_file_list` */
    method RebuildFileList()
      requires |inodes| == MAX_INODES && sb.inodeCount <= MAX_INODES
      requires forall i :: 0 <= i < sb.inodeCount && inodes[i].kind == TYPE_FILE ==> inodes[i].parent < |inodes|
      modifies this`fileIndices, this`fileNames
      ensures Listed()
    {
      fileIndices, fileNames := [], [];
      var i := 0;
      while i < sb.inodeCount && i < MAX_INODES
        invariant i <= sb.inodeCount
        invariant fileIndices == FileIndices(inodes, i) && |fileNames| == |fileIndices|
        invariant forall k ::
                    0 <= k < |fileIndices| ==>
                      inodes[fileIndices[k]].parent < |inodes| && fileNames[k] == ListedName(inodes, fileIndices[k])
      {
        if inodes[i].kind == TYPE_FILE {
          var name := PrintName(i);
          fileIndices := fileIndices + [i];
          fileNames := fileNames + [name];
        }
        i := i + 1;
      }
    }

    // -------------------------------------------------------------- operations

    /** `diskfs_write_file` past its argument checks. */
    method StoreAt(parent: nat, leaf: Name, data: seq<Byte>) returns (ok: bool)
      requires Up() && |data| <= MAX_FILE_SIZE
      requires parent < sb.inodeCount && inodes[parent].kind == TYPE_DIR && 0 < |leaf| < NAME_BYTES && 0 !in leaf
      modifies this`sb, this`inodes, this`fileIndices, this`fileNames, bitmap, cache
      ensures Up() && StoreResult(old(St()), St(), Key(parent, leaf), data, ok) && (ok ==> Listed())
    {
      hide View, Coherent, MetaOk, FilesOf, FilesOk, IsListing, MarkerStep, StoreReport, StoreResult, Mounted;
      ghost var s0, key := St(), Key(parent, leaf);
      UpLayout();
      ok := SetMarker(1);
      ghost var s1 := St();
      if !ok {
        StoreNotBegun(s0, s1, key, data);
        return;
      }
      var r := Store(parent, leaf, data);
      ghost var s2 := St();
      if r.IoError? {
        StoreStopped(s0, s1, s2, key, data);
        return false;
      }
      if r.NoSpace? {
        var committed := SetMarker(0);
        StoreRefused(s0, s1, s2, St(), key, data, committed);
        return false;
      }
      UpLayout();
      RebuildFileList();
      ok := SetMarker(0);
      StoreCompleted(s0, s1, s2, St(), key, data, ok);
    }

    /** `diskfs_write_file` */
    method WriteFile(path: Option<Path>, buffer: array?<Byte>, size: nat) returns (ok: bool)
      requires Alive() && (available ==> Up()) && buffer != bitmap && (buffer != null ==> size <= buffer.Length)
      modifies this`sb, this`inodes, this`fileIndices, this`fileNames, bitmap, cache
      ensures Alive() && (available ==> Up()) && cache.faults >= old(cache.faults)
      ensures !available || path.None? || buffer == null || size > MAX_FILE_SIZE ==> !ok && St() == old(St())
      ensures available && path.Some? && buffer != null && size <= MAX_FILE_SIZE ==>
                WriteResult(old(St()), St(), path.value, old(buffer[..size]), ok)
      ensures ok ==> Listed()
    {
      hide View, Coherent, FilesOf, Synced, FilesOk, HasRoom, WroteKey, IsListing, Safe, Consistent, SettledBy;
      if available {
        NotStarted(St());
        if path.Some? && Target(inodes, path.value).Some? {
          WroteNothing(inodes, Target(inodes, path.value).value);
        }
      }
      if !available || path.None? || buffer == null || size > MAX_FILE_SIZE {
        return false;
      }
      var parent, leaf := EnsureParentDir(path.value);
      if parent < 0 || |leaf| == 0 || |leaf| >= NAME_BYTES {
        return false;
      }
      ok := StoreAt(parent, leaf, buffer[..size]);
      WroteKeyKeepsDirs(old(inodes), inodes, Key(parent, leaf));
    }

    /** `diskfs_delete_file` once the file is found. */
    method DeleteAt(i: nat) returns (ok: bool)
      requires Up() && i < MAX_INODES && IsFile(inodes[i])
      modifies this`sb, this`inodes, this`fileIndices, this`fileNames, bitmap, cache
      ensures Up() && DeleteResult(old(St()), St(), i, ok) && (ok ==> Listed())
    {
      hide View, Coherent, MetaOk, FilesOf, FilesOk, IsListing, MarkerStep, BodyStep, CName, Mounted, DeleteResult;
      hide InStep, AgreeBut;
      UpLayout();
      ghost var s0 := St();
      ok := SetMarker(1);
      ghost var s1 := St();
      if !ok {
        DeleteNotBegun(s0, s1, i);
        return;
      }
      ok := DropBody(i);
      ghost var s2 := St();
      if !ok {
        DeleteStopped(s0, s1, s2, i);
        return;
      }
      UpLayout();
      RebuildFileList();
      ok := SetMarker(0);
      DeleteCompleted(s0, s1, s2, St(), i, ok);
    }

    /** `diskfs_delete_file` */
    method DeleteFile(path: Option<Path>) returns (ok: bool)
      requires Up()
      modifies this`sb, this`inodes, this`fileIndices, this`fileNames, bitmap, cache
      ensures Up() && (ok ==> Listed())
      ensures DeleteResult(old(St()), St(), if path.None? then -1 else FindFile(old(inodes), path.value), ok)
    {
      hide View, Coherent, MetaOk, FilesOf, Synced, FilesOk, IsListing, CrashSound;
      NotStarted(St());
      MetaLayout(sb, inodes, bitmap[..]);
      var i := LookupFile(path);
      if i < 0 {
        return false;
      }
      ok := DeleteAt(i);
    }

    /** `diskfs_rename_file` once the file and the free name are found. */
    method RenameAt(i: nat, parent: nat, leaf: Name, ghost newPath: Path) returns (ok: bool)
      requires Up() && i < MAX_INODES && IsFile(inodes[i]) && Target(inodes, newPath) == Some(Key(parent, leaf))
      requires parent < sb.inodeCount && inodes[parent].kind == TYPE_DIR && 0 < |leaf| < NAME_BYTES && 0 !in leaf
      requires FindChild(inodes, parent, leaf, 0) < 0
      modifies this`sb, this`inodes, this`fileIndices, this`fileNames, bitmap, cache
      ensures Up() && RenameResult(old(St()), St(), i, newPath, ok) && (ok ==> Listed())
    {
      hide View, Coherent, MetaOk, FilesOf, FilesOk, IsListing, MarkerStep, BodyStep, Moved, Target, FindChild, CName;
      hide PadName, Mounted;
      hide RenameResult, InStep, AgreeBut, Renamed;
      ghost var s0 := St();
      UpLayout();
      FileHasKey(s0, i);
      ghost var key := Key(parent, leaf);
      ok := SetMarker(1);
      ghost var s1 := St();
      if !ok {
        RenameNotBegun(s0, s1, i, newPath, key);
        return;
      }
      ok := MoveBody(i, parent, leaf);
      ghost var s2 := St();
      RenamedAt(s0.inodes, i, parent, leaf, key);
      if !ok {
        RenameStopped(s0, s1, s2, i, newPath, key);
        return;
      }
      UpLayout();
      RebuildFileList();
      ok := SetMarker(0);
      RenameCompleted(s0, s1, s2, St(), i, newPath, key, ok);
    }

    lemma UpLayout()
      requires Up()
      ensures |inodes| == MAX_INODES && sb.inodeCount <= MAX_INODES
      ensures forall i :: 0 <= i < sb.inodeCount && inodes[i].kind == TYPE_FILE ==> inodes[i].parent < |inodes|
    {
    }

    /** `diskfs_rename_file` */
    method RenameFile(oldPath: Option<Path>, newPath: Path) returns (ok: bool)
      requires Up()
      modifies this`sb, this`inodes, this`fileIndices, this`fileNames, bitmap, cache
      ensures Up() && (ok ==> Listed())
      ensures var i := if oldPath.None? then -1 else FindFile(old(inodes), oldPath.value);
              RenameResult(old(St()), St(), i, newPath, ok)
    {
      hide View, Coherent, MetaOk, FilesOf, FilesOk, Settled, IsListing, CrashSound, Moved, FindChild, CName;
      NotStarted(St());
      MetaLayout(sb, inodes, bitmap[..]);
      var i := LookupFile(oldPath);
      var parent, leaf := EnsureParentDir(newPath);
      if i >= 0 {
        FileHasKey(St(), i);
      }
      if i < 0 || parent < 0 || |leaf| == 0 || |leaf| >= NAME_BYTES {
        return false;
      }
      var taken := FindChildIn(parent, leaf, 0);
      if taken >= 0 {
        return false;
      }
      ok := RenameAt(i, parent, leaf, newPath);
    }

    /** One round of the loop of `diskfs_read_index`. */
    method ReadChunk(s: nat, at: nat, buffer: array<Byte>, done: nat, chunk: nat) returns (ok: bool)
      requires Alive() && buffer != bitmap && s < TOTAL_SECTORS && at + chunk <= SECTOR_SIZE
      requires done + chunk <= buffer.Length
      modifies cache, buffer
      ensures Alive() && cache.Seen() == old(cache.Seen())
      ensures Advances(old(cache.Snap()), cache.Snap(), iset{})
      ensures if ok then cache.faults >= old(cache.faults) else cache.faults > old(cache.faults)
      ensures ok ==> buffer[..done + chunk] == old(buffer[..done]) + cache.Seen()[s][at..at + chunk]
      ensures ok ==> buffer[done + chunk..] == old(buffer[done + chunk..])
    {
      hide Advances, View, Coherent;
      var sector: Sector;
      ok, sector := cache.ReadSector(s);
      if ok {
        CopyBytes(buffer, done, sector, at, chunk);
      }
    }

    /** The copying loop of `diskfs_read_index`. */
    method ReadExtent(first: nat, offset: nat, buffer: array<Byte>, want: nat) returns (ok: bool)
      requires Alive() && buffer != bitmap && want <= buffer.Length
      requires first + SectorsFor(offset + want) <= TOTAL_SECTORS
      modifies cache, buffer
      ensures Alive() && cache.Seen() == old(cache.Seen())
      ensures Advances(old(cache.Snap()), cache.Snap(), iset{})
      ensures if ok then cache.faults >= old(cache.faults) else cache.faults > old(cache.faults)
      ensures ok ==> buffer[..want] == Bytes(cache.Seen(), first, offset, want) && buffer[want..] == old(buffer[want..])
    {
      hide Advances, View, Coherent, SectorsFor, Bytes;
      var done := 0;
      ghost var a, view, rest := cache.Snap(), cache.Seen(), buffer[..];
      Stay(a, iset{});
      NoBytes(view, first, offset, want);
      while done < want
        invariant done <= want && Alive() && cache.Seen() == view && cache.faults >= old(cache.faults)
        invariant Advances(a, cache.Snap(), iset{})
        invariant first + SectorsFor(offset + done) <= TOTAL_SECTORS
        invariant buffer[..done] == Bytes(view, first, offset, done) && buffer[done..] == rest[done..]
      {
        ghost var b := cache.Snap();
        var sector := first + (offset + done) / SECTOR_SIZE;
        var at := (offset + done) % SECTOR_SIZE;
        var chunk := SECTOR_SIZE - at;
        if chunk > want - done {
          chunk := want - done;
        }
        MoreBytes(view, first, offset, done, chunk, want, sector, at);
        ok := ReadChunk(sector, at, buffer, done, chunk);
        Then(a, b, cache.Snap(), iset{}, iset{}, iset{});
        if !ok {
          return;
        }
        assert rest[done + chunk..] == rest[done..][chunk..];
        done := done + chunk;
      }
      ok := true;
    }

    /** `diskfs_read_index`: the requested slice, clipped to the file. */
    method ReadIndex(index: nat, offset: nat, buffer: array?<Byte>, size: nat) returns (ok: bool, n: nat)
      requires Alive() && (available ==> Up())
      requires buffer != null ==> buffer != bitmap && size <= buffer.Length
      modifies cache, if buffer == null then {} else {buffer}
      ensures Alive() && (available ==> Up()) && Seen(St()) == old(Seen(St())) && cache.faults >= old(cache.faults)
      ensures Advances(old(cache.Snap()), cache.Snap(), iset{})
      ensures !ok ==> n == 0
      ensures !ok && cache.faults == old(cache.faults) ==>
                !available || index >= sb.inodeCount || !IsFile(inodes[index]) || buffer == null
      ensures ok ==> available && index < sb.inodeCount && IsFile(inodes[index]) && buffer != null
      ensures ok ==> n == Clipped(inodes[index].size, offset, size)
      ensures ok && n > 0 ==> IsSlice(Files(St()), KeyOf(inodes[index]), offset, buffer[..n])
      ensures ok ==> buffer[n..] == old(buffer[n..])
    {
      hide Advances, View, Coherent, Consistent, FilesOf, FilesOk, SectorsFor;
      Stay(cache.Snap(), iset{});
      if !available || index >= sb.inodeCount || inodes[index].kind != TYPE_FILE || buffer == null {
        return false, 0;
      }
      var node := inodes[index];
      if offset >= node.size || size == 0 {
        return true, 0;
      }
      var want := Clipped(node.size, offset, size);
      InBoundsOf(sb, inodes, bitmap[..], index);
      FewerAreEnough(offset + want, node.size);
      ok := ReadExtent(node.first, offset, buffer, want);
      n := if ok then want else 0;
      if ok {
        FileHasKey(St(), index);
        ghost var view := Seen(St());
        DataPrefix(view, node.first, offset + n, node.size);
        assert buffer[..n] == Contents(view, node)[offset..offset + n];
      }
    }

    /** Fill the read buffer with file `i`, cut or zero-extended to `size`. A failed read is ignored,
        as in the source. */
    method LoadResized(i: nat, size: nat)
      requires Up() && available && i < MAX_INODES && IsFile(inodes[i]) && inodes[i].size <= READ_BUFFER_SIZE
      requires size <= READ_BUFFER_SIZE
      modifies cache, fileBuffer
      ensures Up() && Seen(St()) == old(Seen(St())) && cache.faults >= old(cache.faults)
      ensures Advances(old(cache.Snap()), cache.Snap(), iset{})
      ensures KeyOf(inodes[i]) in Files(St())
      ensures cache.faults == old(cache.faults) ==> fileBuffer[..size] == Resized(Files(St())[KeyOf(inodes[i])], size)
    {
      hide Advances, View, Coherent, Consistent, FilesOf, FilesOk;
      ZeroBytes(fileBuffer, size);
      ghost var zeroed := fileBuffer[..];
      var ok, n := ReadIndex(i, 0, fileBuffer, inodes[i].size);
      FileHasKey(St(), i);
      ghost var data := Files(St())[KeyOf(inodes[i])];
      if ok {
        assert n == |data|;
        assert fileBuffer[..n] == data;
        assert fileBuffer[n..] == zeroed[n..];
        assert forall k :: n <= k < size ==> fileBuffer[k] == zeroed[n..][k - n] == zeroed[..size][k] == 0;
        assert fileBuffer[..size] == Resized(data, size);
      }
    }

    /** The last step of `diskfs_truncate_file`. */
    method Rewrite(path: Path, i: nat, size: nat) returns (ok: bool)
      requires Up() && available && i < MAX_INODES && IsFile(inodes[i]) && inodes[i].size <= READ_BUFFER_SIZE
      requires size <= READ_BUFFER_SIZE
      modifies this`sb, this`inodes, this`fileIndices, this`fileNames, bitmap, fileBuffer, cache
      ensures Up() && KeyOf(old(inodes)[i]) in old(Files(St()))
      ensures WriteResult(old(St()), St(), path, Resized(old(Files(St()))[KeyOf(old(inodes)[i])], size), ok)
    {
      hide Advances, View, Coherent, MetaOk, FilesOf, FilesOk, WriteResult, Resized;
      ghost var a := St();
      MetaLayout(sb, inodes, bitmap[..]);
      LoadResized(i, size);
      ghost var b, data := St(), fileBuffer[..size];
      ok := WriteFile(Some(path), fileBuffer, size);
      ResultAfterReading(a, b, St(), path, data, Resized(Files(a)[KeyOf(a.inodes[i])], size), ok);
    }

    /** `diskfs_truncate_file` */
    method TruncateFile(path: Option<Path>, size: nat) returns (ok: bool)
      requires Up() && available
      modifies this`sb, this`inodes, this`fileIndices, this`fileNames, bitmap, fileBuffer, cache
      ensures Up()
      ensures path.None? ==> !ok && St() == old(St())
      ensures path.Some? ==>
                match TruncatePlan(old(St()), path.value, size)
                case Refuse => !ok && St() == old(St())
                case Keep => ok && St() == old(St())
                case Put(data) => WriteResult(old(St()), St(), path.value, data, ok)
    {
      hide View, Coherent, MetaOk, FilesOf, FilesOk, WriteResult, Resized;
      MetaLayout(sb, inodes, bitmap[..]);
      if size > MAX_FILE_SIZE {
        return false;
      }
      var zero := new Byte[1](_ => 0);
      var i := LookupFile(path);
      if i < 0 {
        if size == 0 {
          ok := WriteFile(path, zero, 0);
        } else {
          ok := false;
        }
        return;
      }
      if size == inodes[i].size {
        return true;
      }
      if size == 0 {
        ok := WriteFile(path, zero, 0);
        return;
      }
      if inodes[i].size > READ_BUFFER_SIZE || size > READ_BUFFER_SIZE {
        return false;
      }
      ok := Rewrite(path.value, i, size);
    }

    // -------------------------------------------------------------- mounting

    /** `diskfs_validate` */
    method Validate() returns (ok: bool)
      requires |inodes| == MAX_INODES
      ensures ok <==> available && Accepts(sb, inodes)
      ensures ok ==> ExactUpToWrapping(sb, inodes)
    {
      if !available || sb.magic != MAGIC || sb.totalSectors != TOTAL_SECTORS || sb.inodeCount > MAX_INODES
          || inodes[0].kind != TYPE_DIR {
        return false;
      }
      var i := 0;
      while i < sb.inodeCount
        invariant i <= sb.inodeCount
        invariant forall j :: 0 <= j < i ==> AcceptsInode(sb, inodes[j], j == 0)
      {
        if !AcceptsInode(sb, inodes[i], i == 0) {
          return false;
        }
        i := i + 1;
      }
      ok := true;
      AcceptedIsExact(sb, inodes);
    }

    /** The loop of `diskfs_initialize` that reads the inode table. */
    method LoadInodes() returns (ok: bool)
      requires Alive() && inodes == seq(MAX_INODES, _ => FREE_INODE)
      modifies this`inodes, cache`faults
      ensures Alive()
      ensures ok ==> sb.inodeSectors > 0 ==> sb.inodeStart + sb.inodeSectors <= TOTAL_SECTORS
      ensures ok ==> inodes == LoadedInodes(cache.disk, sb, sb.inodeSectors)
      ensures !ok && cache.faults == old(cache.faults) ==>
                sb.inodeSectors > 0 && sb.inodeStart + sb.inodeSectors > TOTAL_SECTORS
      ensures cache.faults >= old(cache.faults) && |inodes| == MAX_INODES
    {
      var s := 0;
      while s < sb.inodeSectors
        invariant s <= sb.inodeSectors && (s > 0 ==> sb.inodeStart + s <= TOTAL_SECTORS)
        invariant inodes == LoadedInodes(cache.disk, sb, s) && cache.faults >= old(cache.faults)
      {
        var sector: Sector;
        ok, sector := cache.RawRead(sb.inodeStart + s);
        if !ok {
          return;
        }
        inodes := LoadSector(inodes, sector, s * PER_SECTOR);
        s := s + 1;
      }
      ok := true;
    }

    /** Read the superblock, the bitmap and the inode table from the raw disk. */
    method LoadMetadata() returns (ok: bool)
      requires Alive() && inodes == seq(MAX_INODES, _ => FREE_INODE)
      modifies this`sb, this`inodes, bitmap, cache`faults
      ensures Alive() && |inodes| == MAX_INODES && cache.faults >= old(cache.faults)
      ensures ok ==> sb == DecodeSuperblock(cache.disk[0]) && HeaderOk(sb)
      ensures ok ==> inodes == LoadedInodes(cache.disk, sb, sb.inodeSectors) && bitmap[..] == cache.disk[sb.bitmapStart]
      ensures ok ==> SuperblockBytes(cache.disk[0], sb) && TableBytes(cache.disk, sb, sb.inodeSectors, inodes)
      ensures !ok ==> cache.faults > old(cache.faults) || !HeaderOk(DecodeSuperblock(cache.disk[0]))
    {
      hide SuperblockBytes, TableBytes, DecodeSuperblock;
      var sector: Sector;
      ok, sector := cache.RawRead(0);
      if !ok {
        return;
      }
      sb := DecodeSuperblock(sector);
      if sb.magic != MAGIC || sb.maxInodes > MAX_INODES || sb.bitmapSectors != 1 || sb.totalSectors != TOTAL_SECTORS {
        return false;
      }
      ok, sector := cache.RawRead(sb.bitmapStart);
      if !ok {
        return;
      }
      CopyBytes(bitmap, 0, sector, 0, SECTOR_SIZE);
      ok := LoadInodes();
      SuperblockLayout(cache.disk[0]);
      if ok {
        LoadedTableBytes(cache.disk, sb, sb.inodeSectors);
      }
    }

    /** The end of `diskfs_initialize`: a marker that is up is lowered, whether or not that succeeds. */
    method ClearMarker(ghost start: Snapshot)
      requires Alive() && AllClean(cache.slots) && cache.disk == cache.Seen() && sb == DecodeSuperblock(cache.disk[0])
      requires start.disk == cache.disk && start.log == cache.log
      modifies this`sb, cache
      ensures Alive() && sb == Unmarked(old(sb)) && cache.faults >= old(cache.faults)
      ensures MountSafe(start, cache.Snap())
      ensures old(sb).journalState == 0 ==> cache.Snap() == old(cache.Snap())
      ensures cache.faults == old(cache.faults) ==>
                && AllClean(cache.slots) && cache.disk == cache.Seen()
                && DecodeSuperblock(cache.disk[0]) == sb && cache.disk[2..] == old(cache.disk)[2..]
    {
      hide Coherent, View, DecodeSuperblock, EncodeSuperblock, EncodeJournal, Advances, MountSafe, JournalBytes;
      hide SuperblockBytes;
      if sb.journalState == 0 {
        MountUntouched(start, cache.Snap());
        return;
      }
      ghost var a := cache.Snap();
      var cleared := WriteJournal(0);
      MountWrites(start, a, cache.Snap());
      SuperblockRoundTrip(sb);
    }

    /** `diskfs_initialize` */
    method Initialize()
      requires Alive()
      modifies this`sb, this`inodes, this`available, this`fileIndices, this`fileNames, bitmap, cache
      ensures Alive() && cache.faults >= old(cache.faults)
      ensures available ==>
                Mountable(old(cache.disk)) && Listed() && sb.inodeCount <= |inodes| && ExactUpToWrapping(sb, inodes)
      ensures cache.faults == old(cache.faults) && Mountable(old(cache.disk)) ==> available
      ensures
        var found := DecodeSuperblock(old(cache.disk)[0]);
        && (available ==>
              && sb == found.(journalState := 0) && bitmap[..] == old(cache.disk)[found.bitmapStart]
              && inodes == LoadedInodes(old(cache.disk), found, found.inodeSectors))
        && (found.journalState == 0 ==>
              && cache.disk == old(cache.disk) == cache.Seen()
              && AllClean(cache.slots) && cache.log == old(cache.log))
      ensures available && cache.faults == old(cache.faults) ==>
                && AllClean(cache.slots) && cache.disk == cache.Seen()
                && DecodeSuperblock(cache.disk[0]) == sb && cache.disk[2..] == old(cache.disk)[2..]
      ensures available ==>
                && sb.magic == MAGIC && sb.totalSectors == TOTAL_SECTORS && sb.maxInodes <= MAX_INODES
                && sb.bitmapSectors == 1 && sb.inodeCount <= MAX_INODES && inodes[0].kind == TYPE_DIR
      ensures MountSafe(old(cache.Snap()), cache.Snap())
    {
      hide Coherent, View, Accepts, LoadedInodes, DecodeSuperblock, EncodeSuperblock, IsListing, Advances;
      hide AllInBounds, SizesMatch, SizesDoNotWrap, Fsck.EndsDoNotWrap, MountSafe, TableBytes, SuperblockBytes;
      ghost var start := cache.Snap();
      available := false;
      fileIndices, fileNames := [], [];
      sb := Superblock(0, 0, 0, 0, 0, 0, 0, 0, 0, 0);
      inodes := seq(MAX_INODES, _ => FREE_INODE);
      ZeroBytes(bitmap, SECTOR_SIZE);
      cache.Reset();
      var ok := LoadMetadata();
      MountUntouched(start, cache.Snap());
      if !ok {
        return;
      }
      available := true;
      ok := Validate();
      if !ok {
        available := false;
        return;
      }
      AcceptedParents(sb, inodes);
      AcceptedHeader(sb, inodes);
      ClearMarker(start);
      RebuildFileList();
    }

    /** `diskfs_fsck` */
    method FsckVolume() returns (errors: nat)
      requires bitmap.Length == SECTOR_SIZE && sb.inodeCount <= |inodes| && sb.dataStart <= TOTAL_SECTORS
      requires Fsck.EndsDoNotWrap(inodes[..sb.inodeCount])
      ensures errors == if available then Fsck.Errors(sb.dataStart, inodes[..sb.inodeCount], bitmap[..]) else 1
      ensures errors == 0 <==> available && Consistent(sb.dataStart, inodes[..sb.inodeCount], bitmap[..])
      ensures available && Sound() ==> errors == 0
    {
      if !available {
        return 1;
      }
      errors := Fsck.Check(sb.dataStart, inodes[..sb.inodeCount], bitmap);
      if Sound() {
        CountedIsConsistent(sb, inodes, bitmap[..]);
      }
    }
  }
}

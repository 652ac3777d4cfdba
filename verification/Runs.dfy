/** Runs of file operations: the volume behaves as a map from (directory, name) to bytes. */
module Runs {
  import opened SectorCache
  import opened DiskFormat
  import opened Extents
  import opened Paths
  import opened Lookups
  import opened Volume
  import opened Transactions
  import opened Reading
  import opened Operations
  import opened Listing
  import opened Mounting
  import opened DiskFs

  // ---------------------------------------------------------------- the part no operation touches

  /** The inode table without its files: the directory tree, which no operation changes. */
  function Fixed(inodes: seq<Inode>): (r: seq<Inode>)
    ensures |r| == |inodes|
    ensures forall i ::
              0 <= i < |r| ==>
                r[i] == if IsFile(inodes[i]) || inodes[i].kind == TYPE_FREE then FREE_INODE else inodes[i]
  {
    seq(|inodes|, i requires 0 <= i < |inodes| =>
      if IsFile(inodes[i]) || inodes[i].kind == TYPE_FREE then FREE_INODE else inodes[i])
  }

  lemma FindChildFixed(inodes: seq<Inode>, parent: nat, name: Name)
    ensures FindChild(Fixed(inodes), parent, name, TYPE_DIR) == FindChild(inodes, parent, name, TYPE_DIR)
  {
  }

  lemma {:induction false} WalkDirsFixed(inodes: seq<Inode>, from: nat, parts: seq<Name>)
    ensures WalkDirs(Fixed(inodes), from, parts) == WalkDirs(inodes, from, parts)
    decreases |parts|
  {
    if parts != [] {
      FindChildFixed(inodes, from, parts[0]);
      var c := FindChild(inodes, from, parts[0], TYPE_DIR);
      if c >= 0 {
        WalkDirsFixed(inodes, c, parts[1..]);
      }
    }
  }

  /** Where a path points depends on directories only. */
  lemma TargetFixed(inodes: seq<Inode>, path: Path)
    ensures Target(Fixed(inodes), path) == Target(inodes, path)
  {
    var parts := Components(path);
    if parts != [] {
      WalkDirsFixed(inodes, 0, parts[..|parts| - 1]);
    }
  }

  // ---------------------------------------------------------------- the abstract file system

  datatype Op =
    | Read(path: Path, offset: nat, size: nat)
    | Write(path: Path, data: seq<Byte>)
    | Delete(path: Path)
    | Rename(from: Path, to: Path)
    | Truncate(path: Path, size: nat)

  /** What an operation answers; only a read returns bytes. */
  datatype Reply = Reply(ok: bool, bytes: seq<Byte>)

  type FileMap = map<Key, seq<Byte>>

  /** The file that a path opens; relative paths over 62 bytes get a second chance, cut short. */
  function FileTarget(fixed: seq<Inode>, m: FileMap, path: Path): (r: Option<Key>)
    ensures r.Some? ==> r.value in m && r.value in Opens(fixed, path)
  {
    var t := Target(fixed, path);
    if t.Some? && t.value in m then t
    else if path != [] && path[0] == SLASH then None
    else
      var t2 := Target(fixed, CutShort(path));
      if t2.Some? && t2.value in m then t2 else None
  }

  function Keys(t: Option<Key>): (r: set<Key>)
  {
    if t.None? then {} else {t.value}
  }

  /** The names a path may open. */
  function Opens(fixed: seq<Inode>, path: Path): (r: set<Key>)
  {
    Keys(Target(fixed, path)) + Keys(Target(fixed, CutShort(path)))
  }

  /** The names an operation may change, whatever is stored under them. */
  function Touches(fixed: seq<Inode>, op: Op): (r: set<Key>)
  {
    match op
    case Read(_, _, _) => {}
    case Write(path, _) => Keys(Target(fixed, path))
    case Delete(path) => Opens(fixed, path)
    case Rename(from, to) => Opens(fixed, from) + Keys(Target(fixed, to))
    case Truncate(path, _) => Keys(Target(fixed, path))
  }

  function TouchedBy(fixed: seq<Inode>, ops: seq<Op>): (r: set<Key>)
    decreases |ops|
  {
    if ops == [] then {} else TouchedBy(fixed, ops[..|ops| - 1]) + Touches(fixed, ops[|ops| - 1])
  }

  /** No file and no directory has this name. */
  predicate NameFree(fixed: seq<Inode>, m: FileMap, k: Key)
  {
    k !in m && FindChild(fixed, k.parent, k.name, 0) < 0
  }

  /** A write under a path: one update, or nothing when it does not go through. */
  ghost predicate Writes(fixed: seq<Inode>, m: FileMap, path: Path, data: seq<Byte>, ok: bool, m': FileMap)
  {
    var t := Target(fixed, path);
    (ok ==> t.Some?) && m' == if ok then m[t.value := data] else m
  }

  /** One step of the abstract file system. Only a write may fail where it could succeed: for want of space. */
  ghost predicate Step(fixed: seq<Inode>, m: FileMap, op: Op, r: Reply, m': FileMap)
  {
    match op
    case Read(path, offset, size) =>
      var f := FileTarget(fixed, m, path);
      m' == m && r == if f.Some? then Reply(true, Slice(m[f.value], offset, size)) else Reply(false, [])
    case Write(path, data) =>
      (r.ok ==> |data| <= MAX_FILE_SIZE) && Writes(fixed, m, path, data, r.ok, m')
    case Delete(path) =>
      var f := FileTarget(fixed, m, path);
      (r.ok <==> f.Some?) && m' == if f.Some? then m - {f.value} else m
    case Rename(from, to) =>
      var f, t := FileTarget(fixed, m, from), Target(fixed, to);
      && (r.ok <==> f.Some? && t.Some? && NameFree(fixed, m, t.value))
      && m' == if r.ok then Moved(m, f.value, t.value) else m
    case Truncate(path, size) =>
      var f := FileTarget(fixed, m, path);
      if size > MAX_FILE_SIZE then !r.ok && m' == m
      else if f.None? then (if size == 0 then Writes(fixed, m, path, [], r.ok, m') else !r.ok && m' == m)
      else if size == |m[f.value]| then r.ok && m' == m
      else if size == 0 then Writes(fixed, m, path, [], r.ok, m')
      else if |m[f.value]| > READ_BUFFER_SIZE || size > READ_BUFFER_SIZE then !r.ok && m' == m
      else Writes(fixed, m, path, Resized(m[f.value], size), r.ok, m')
  }

  ghost predicate Run(fixed: seq<Inode>, m: FileMap, ops: seq<Op>, replies: seq<Reply>, m': FileMap)
    requires |ops| == |replies|
    decreases |ops|
  {
    if ops == [] then m' == m
    else
      var n := |ops| - 1;
      exists mid :: Run(fixed, m, ops[..n], replies[..n], mid) && Step(fixed, mid, ops[n], replies[n], m')
  }

  /** Unless the second try looks for something new, opening and writing name the same file. */
  lemma OpensWhatItNames(fixed: seq<Inode>, m: FileMap, path: Path)
    requires TriesOnce(path)
    ensures FileTarget(fixed, m, path) == (var t := Target(fixed, path); if t.Some? && t.value in m then t else None)
  {
    if |path| <= MAX_PREFIXED {
      assert path[..|path|] == path;
    }
  }

  // ---------------------------------------------------------------- the table agrees with the map

  lemma KeyInFiles(st: State, k: Key)
    requires Mounted(st)
    ensures k in Files(st) <==> FindChild(st.inodes, k.parent, k.name, TYPE_FILE) >= 0
  {
    FilesRepresents(Seen(st), st.inodes);
    var f := FindChild(st.inodes, k.parent, k.name, TYPE_FILE);
    if k in Files(st) {
      assert Named(st.inodes, k);
      var i :| 0 <= i < |st.inodes| && IsFile(st.inodes[i]) && KeyOf(st.inodes[i]) == k;
      assert IsChild(st.inodes[i], k.parent, k.name, TYPE_FILE);
    }
    if f >= 0 {
      assert KeyOf(st.inodes[f]) == k;
    }
  }

  /** What a walk to a file finds, in terms of the map. */
  lemma WalkFinds(st: State, path: Path)
    requires Mounted(st) && UniqueNames(st.inodes)
    ensures
      var w, t := Walk(st.inodes, 0, Components(path)), Target(Fixed(st.inodes), path);
      && (w >= 0 && IsFile(st.inodes[w]) <==> t.Some? && t.value in Files(st))
      && (w >= 0 && IsFile(st.inodes[w]) ==> t == Some(KeyOf(st.inodes[w])))
  {
    var parts := Components(path);
    MetaLayout(st.sb, st.inodes, st.bm);
    TargetFixed(st.inodes, path);
    if parts != [] {
      forall i | 0 <= i < |parts| ensures parts[i] != [] {
        ComponentShape(path, 0, i);
      }
      WalkIsTarget(st.inodes, st.sb.inodeCount, 0, parts);
      var d := WalkDirs(st.inodes, 0, parts[..|parts| - 1]);
      if d >= 0 {
        KeyInFiles(st, Key(d, parts[|parts| - 1]));
      }
    }
  }

  /** `diskfs_find_file` opens what the map says. */
  lemma FindFileIsTarget(st: State, path: Path)
    requires Mounted(st) && UniqueNames(st.inodes)
    ensures
      var f := FindFile(st.inodes, path);
      FileTarget(Fixed(st.inodes), Files(st), path) == if f < 0 then None else Some(KeyOf(st.inodes[f]))
  {
    WalkFinds(st, path);
    var cut := CutShort(path);
    WalkFinds(st, cut);
    LeadingSlash(cut);
  }

  lemma NameFreeIsUntaken(st: State, k: Key)
    requires Mounted(st)
    ensures NameFree(Fixed(st.inodes), Files(st), k) <==> FindChild(st.inodes, k.parent, k.name, 0) < 0
  {
    KeyInFiles(st, k);
    var fixed := Fixed(st.inodes);
    var c, d := FindChild(st.inodes, k.parent, k.name, 0), FindChild(fixed, k.parent, k.name, 0);
    var f := FindChild(st.inodes, k.parent, k.name, TYPE_FILE);
    if c >= 0 {
      assert IsChild(fixed[c], k.parent, k.name, 0) || IsChild(st.inodes[c], k.parent, k.name, TYPE_FILE);
    }
    if d >= 0 {
      assert IsChild(st.inodes[d], k.parent, k.name, 0);
    }
    if f >= 0 {
      assert IsChild(st.inodes[f], k.parent, k.name, 0);
    }
  }

  // ---------------------------------------------------------------- what operations keep

  /** The name to be written is not that of a directory. */
  predicate Allowed(fixed: seq<Inode>, op: Op)
  {
    match op
    case Write(path, _) => NotADirectory(fixed, path)
    case Truncate(path, _) => NotADirectory(fixed, path)
    case _ => true
  }

  predicate NotADirectory(fixed: seq<Inode>, path: Path)
  {
    var t := Target(fixed, path);
    t.Some? ==> FindChild(fixed, t.value.parent, t.value.name, 0) < 0
  }

  lemma WriteKeepsNames(before: seq<Inode>, after: seq<Inode>, key: Key)
    requires WroteKey(before, after, key) && UniqueFiles(after)
    ensures Fixed(after) == Fixed(before)
    ensures UniqueNames(before) && FindChild(Fixed(before), key.parent, key.name, 0) < 0 ==> UniqueNames(after)
  {
    hide UniqueNames, UniqueFiles, KeyOf, FindChild;
    if after != before {
      var i :| WroteAt(before, after, key, i);
      if UniqueNames(before) && FindChild(Fixed(before), key.parent, key.name, 0) < 0 {
        NewNameUnique(before, after, key, i);
      }
    }
  }

  lemma NewNameUnique(before: seq<Inode>, after: seq<Inode>, key: Key, i: nat)
    requires i < |before| == |after| && after == before[i := after[i]] && IsFile(after[i]) && KeyOf(after[i]) == key
    requires UniqueFiles(after) && UniqueNames(before) && FindChild(Fixed(before), key.parent, key.name, 0) < 0
    ensures UniqueNames(after)
  {
    forall j | 1 <= j < |after| && j != i && after[j].kind != TYPE_FREE ensures KeyOf(after[j]) != key {
      assert !IsChild(Fixed(before)[j], key.parent, key.name, 0);
    }
  }

  lemma RemovalKeepsNames(before: seq<Inode>, after: seq<Inode>, i: nat)
    requires i < |before| && IsFile(before[i]) && after == before[i := FREE_INODE]
    ensures Fixed(after) == Fixed(before) && (UniqueNames(before) ==> UniqueNames(after))
  {
  }

  lemma RenameKeepsNames(before: seq<Inode>, after: seq<Inode>, i: nat, k: Key)
    requires Renamed(before, after, i, k) && FindChild(before, k.parent, k.name, 0) < 0
    ensures Fixed(after) == Fixed(before) && (UniqueNames(before) ==> UniqueNames(after))
  {
    forall j | 1 <= j < |after| && j != i && after[j].kind != TYPE_FREE ensures KeyOf(after[j]) != k {
      assert !IsChild(before[j], k.parent, k.name, 0);
    }
  }

  /** The names outside `keys` hold what they held. */
  ghost predicate KeptOutside(m: FileMap, m': FileMap, keys: set<Key>)
  {
    m' - keys == m - keys
  }

  lemma KeptBoth(a: FileMap, b: FileMap, c: FileMap, keys: set<Key>, more: set<Key>)
    requires KeptOutside(a, b, keys) && KeptOutside(b, c, more)
    ensures KeptOutside(a, c, keys + more)
  {
    var all := keys + more;
    assert a - all == (a - keys) - more && b - all == (b - keys) - more;
    assert b - all == (b - more) - keys && c - all == (c - more) - keys;
  }

  /** What one operation guarantees, with or without device failures, ... */
  ghost predicate Keeps(a: State, b: State, op: Op)
  {
    && Mounted(a) && Mounted(b) && SameLayout(b.sb, a.sb) && a.io.faults <= b.io.faults
    && Fixed(b.inodes) == Fixed(a.inodes) && UniqueNames(b.inodes)
    && CrashSound(a, b) && KeptOutside(Files(a), Files(b), Touches(Fixed(a.inodes), op))
  }

  /** ... and without. */
  ghost predicate Applied(a: State, b: State, op: Op, r: Reply)
  {
    && Keeps(a, b, op)
    && (a.io.faults == b.io.faults ==> Step(Fixed(a.inodes), Files(a), op, r, Files(b)) && (Settled(a) ==> Settled(b)))
  }

  /** What reading under a path reports. */
  ghost predicate ReadResult(a: State, b: State, path: Path, offset: nat, size: nat, r: Reply)
  {
    && Mounted(a) && Mounted(b) && Advances(a.io, b.io, iset{}) && Seen(b) == Seen(a) && b == a.(io := b.io)
    && a.io.faults <= b.io.faults
    && var i := FindFile(a.inodes, path);
       if r.ok then
         && i >= 0 && KeyOf(a.inodes[i]) in Files(a)
         && r.bytes == Slice(Files(a)[KeyOf(a.inodes[i])], offset, size)
       else r.bytes == [] && (i < 0 || a.io.faults < b.io.faults)
  }

  lemma ReadIsStep(a: State, b: State, path: Path, offset: nat, size: nat, r: Reply)
    requires UniqueNames(a.inodes) && ReadResult(a, b, path, offset, size, r)
    ensures Applied(a, b, Read(path, offset, size), r)
  {
    hide MetaOk, FilesOf, CrashSound, Settled, FindFile, Fixed, UniqueNames, FileTarget, Slice, Coherent, View;
    hide Advances;
    NotStarted(b);
    AfterReading(a, b, b);
    FindFileIsTarget(a, path);
  }

  /** A write that reports its result as `WriteResult` is an abstract write. */
  lemma WriteIsStep(a: State, b: State, path: Path, data: seq<Byte>, ok: bool)
    requires WriteResult(a, b, path, data, ok) && UniqueNames(a.inodes) && NotADirectory(Fixed(a.inodes), path)
    ensures Fixed(b.inodes) == Fixed(a.inodes) && UniqueNames(b.inodes)
    ensures KeptOutside(Files(a), Files(b), Keys(Target(Fixed(a.inodes), path)))
    ensures a.io.faults == b.io.faults ==> Writes(Fixed(a.inodes), Files(a), path, data, ok, Files(b))
  {
    hide MetaOk, FilesOf, CrashSound, WroteKey, HasRoom, Fixed, UniqueNames, Target, Committed, SettledBy;
    TargetFixed(a.inodes, path);
    var t := Target(a.inodes, path);
    if t.Some? {
      MetaUnique(b.sb, b.inodes, b.bm);
      WriteKeepsNames(a.inodes, b.inodes, t.value);
    }
  }

  /** A successful write to the name of a directory: the path then opens the new file exactly when its inode comes
      first. */
  lemma WriteBesideDirectory(a: State, b: State, path: Path, data: seq<Byte>, dir: nat)
    requires WriteResult(a, b, path, data, true) && UniqueNames(a.inodes) && TriesOnce(path)
    requires 1 <= dir < |a.inodes| && a.inodes[dir].kind == TYPE_DIR
    requires Target(a.inodes, path) == Some(KeyOf(a.inodes[dir]))
    ensures OpensIfFirst(a.inodes, b.inodes, a.sb.inodeCount, KeyOf(a.inodes[dir]), path, dir)
  {
    hide MetaOk, FilesOf, CrashSound, HasRoom, Committed, Target, FindFile, PlainFile, AgreeBut, Settled, TreeOk;
    hide Coherent, TriesOnce, CName;
    MetaLayout(a.sb, a.inodes, a.bm);
    MetaLayout(b.sb, b.inodes, b.bm);
    RootIsDir(b.inodes, b.sb.inodeCount);
    var key := KeyOf(a.inodes[dir]);
    var file :| WroteAt(a.inodes, b.inodes, key, file) && (Settled(b) <==> AgreeBut(a, file));
    BesideDirectory(a.inodes, b.inodes, a.sb.inodeCount, path, file, dir);
    SecondTry(b.inodes, path);
  }

  lemma DeleteIsStep(a: State, b: State, path: Path, ok: bool)
    requires Mounted(a) && UniqueNames(a.inodes) && DeleteResult(a, b, FindFile(a.inodes, path), ok)
    ensures Applied(a, b, Delete(path), Reply(ok, []))
  {
    hide MetaOk, FilesOf, CrashSound, Settled, FindFile, Fixed, UniqueNames, FileTarget, Committed, AgreeBut, Coherent;
    hide Opens, KeyOf;
    MountedLayout(a);
    var i := FindFile(a.inodes, path);
    FindFileIsTarget(a, path);
    if b.inodes != a.inodes {
      RemovalKeepsNames(a.inodes, b.inodes, i);
    }
  }

  lemma RenameKeeps(a: State, b: State, from: Path, to: Path, ok: bool)
    requires Mounted(a) && UniqueNames(a.inodes) && RenameResult(a, b, FindFile(a.inodes, from), to, ok)
    ensures Keeps(a, b, Rename(from, to))
  {
    hide MetaOk, FilesOf, CrashSound, Settled, FindFile, Fixed, UniqueNames, FileTarget, Committed, AgreeBut, Coherent;
    hide Opens, KeyOf, Target, Renamed;
    MountedLayout(a);
    var i, t := FindFile(a.inodes, from), Target(a.inodes, to);
    FindFileIsTarget(a, from);
    TargetFixed(a.inodes, to);
    if b.inodes != a.inodes {
      RenameKeepsNames(a.inodes, b.inodes, i, t.value);
    }
  }

  lemma RenameIsStep(a: State, b: State, from: Path, to: Path, ok: bool)
    requires Mounted(a) && UniqueNames(a.inodes) && RenameResult(a, b, FindFile(a.inodes, from), to, ok)
    ensures Applied(a, b, Rename(from, to), Reply(ok, []))
  {
    hide MetaOk, FilesOf, CrashSound, Settled, FindFile, Fixed, UniqueNames, FileTarget, Moved, Committed, AgreeBut;
    hide Coherent, Keeps, KeyOf, Target;
    hide NameFree, FindChild;
    RenameKeeps(a, b, from, to, ok);
    FindFileIsTarget(a, from);
    TargetFixed(a.inodes, to);
    var t := Target(a.inodes, to);
    if t.Some? {
      NameFreeIsUntaken(a, t.value);
    }
  }

  lemma TruncateIsStep(a: State, b: State, path: Path, size: nat, ok: bool)
    requires Mounted(a) && UniqueNames(a.inodes) && NotADirectory(Fixed(a.inodes), path)
    requires match TruncatePlan(a, path, size)
             case Refuse => !ok && b == a
             case Keep => ok && b == a
             case Put(data) => WriteResult(a, b, path, data, ok)
    ensures Applied(a, b, Truncate(path, size), Reply(ok, []))
  {
    hide MetaOk, FilesOf, CrashSound, Settled, FindFile, Fixed, UniqueNames, FileTarget, Resized, NotADirectory, Writes;
    hide MapUpdated, WroteKey;
    hide Committed, SettledBy, Coherent, KeyOf, Target;
    FindFileIsTarget(a, path);
    MetaLayout(a.sb, a.inodes, a.bm);
    var i := FindFile(a.inodes, path);
    if i >= 0 {
      FileHasKey(a, i);
    }
    NotStarted(a);
    var plan := TruncatePlan(a, path, size);
    if plan.Put? {
      WriteIsStep(a, b, path, plan.data, ok);
    }
  }

  lemma WriteDone(a: State, b: State, path: Path, data: seq<Byte>, ok: bool)
    requires Mounted(a) && UniqueNames(a.inodes) && NotADirectory(Fixed(a.inodes), path)
    requires if |data| > MAX_FILE_SIZE then !ok && b == a else WriteResult(a, b, path, data, ok)
    ensures Applied(a, b, Write(path, data), Reply(ok, []))
  {
    hide MetaOk, FilesOf, CrashSound, Settled, Fixed, UniqueNames, NotADirectory, MapUpdated, WroteKey, Committed;
    hide SettledBy, Coherent, Target;
    NotStarted(a);
    if |data| <= MAX_FILE_SIZE {
      WriteIsStep(a, b, path, data, ok);
    }
  }

  /** `diskfs_find_file` followed by `diskfs_read_index`, as opening and reading a file do. */
  method ReadPath(fs: FileSystem, path: Path, offset: nat, size: nat) returns (r: Reply)
    requires fs.Up() && fs.available
    modifies fs.cache
    ensures fs.Up() && ReadResult(old(fs.St()), fs.St(), path, offset, size, r)
  {
    hide MetaOk, FilesOf, FilesOk, Coherent, View, Advances, FindFile;
    ghost var a := fs.St();
    Stay(fs.cache.Snap(), iset{});
    MetaLayout(fs.sb, fs.inodes, fs.bitmap[..]);
    var i := fs.LookupFile(Some(path));
    if i < 0 {
      return Reply(false, []);
    }
    FileHasKey(a, i);
    var buffer := new Byte[size](_ => 0);
    var ok, n := fs.ReadIndex(i, offset, buffer, size);
    r := Reply(ok, buffer[..n]);
  }

  /** Carry out one operation. */
  method Apply(fs: FileSystem, op: Op) returns (r: Reply)
    requires fs.Up() && fs.available && UniqueNames(fs.inodes) && Allowed(Fixed(fs.inodes), op)
    modifies fs`sb, fs`inodes, fs`fileIndices, fs`fileNames, fs.bitmap, fs.fileBuffer, fs.cache
    ensures fs.Up() && Applied(old(fs.St()), fs.St(), op, r)
  {
    hide MetaOk, FilesOf, CrashSound, Settled, FindFile, Fixed, UniqueNames, FileTarget, WriteResult, DeleteResult;
    hide RenameResult, TruncatePlan;
    hide Coherent, View, FilesOk, Writes, ReadResult, Applied;
    ghost var a := fs.St();
    var ok: bool;
    match op
    case Read(path, offset, size) =>
      r := ReadPath(fs, path, offset, size);
      ReadIsStep(a, fs.St(), path, offset, size, r);
    case Write(path, data) =>
      var buffer := new Byte[|data|](i requires 0 <= i < |data| => data[i]);
      assert buffer[..|data|] == data;
      ok := fs.WriteFile(Some(path), buffer, |data|);
      WriteDone(a, fs.St(), path, data, ok);
      r := Reply(ok, []);
    case Delete(path) =>
      ok := fs.DeleteFile(Some(path));
      DeleteIsStep(a, fs.St(), path, ok);
      r := Reply(ok, []);
    case Rename(from, to) =>
      ok := fs.RenameFile(Some(from), to);
      RenameIsStep(a, fs.St(), from, to, ok);
      r := Reply(ok, []);
    case Truncate(path, size) =>
      ok := fs.TruncateFile(Some(path), size);
      TruncateIsStep(a, fs.St(), path, size, ok);
      r := Reply(ok, []);
  }

  // ---------------------------------------------------------------- whole runs

  /** The states between the operations of a run. */
  ghost predicate Trace(states: seq<State>, ops: seq<Op>, replies: seq<Reply>)
  {
    && |states| == |ops| + 1 == |replies| + 1
    && forall i :: 0 <= i < |ops| ==> Applied(states[i], states[i + 1], ops[i], replies[i])
  }

  lemma TraceFront(states: seq<State>, ops: seq<Op>, replies: seq<Reply>)
    requires Trace(states, ops, replies) && |ops| > 0
    ensures Trace(states[..|ops|], ops[..|ops| - 1], replies[..|ops| - 1])
    ensures Applied(states[|ops| - 1], states[|ops|], ops[|ops| - 1], replies[|ops| - 1])
  {
    hide Applied;
  }

  /** Any stretch of a run is a run. */
  lemma TraceStretch(states: seq<State>, ops: seq<Op>, replies: seq<Reply>, i: nat, j: nat)
    requires Trace(states, ops, replies) && i <= j <= |ops|
    ensures Trace(states[i..j + 1], ops[i..j], replies[i..j])
  {
    hide Applied;
    forall k | 0 <= k < j - i
      ensures Applied(states[i..j + 1][k], states[i..j + 1][k + 1], ops[i..j][k], replies[i..j][k])
    {
      assert Applied(states[i + k], states[i + k + 1], ops[i + k], replies[i + k]);
    }
  }

  /** Whatever the device does, the tree stays and the files no operation names keep their bytes. */
  lemma {:induction false} TraceKeeps(states: seq<State>, ops: seq<Op>, replies: seq<Reply>)
    requires Trace(states, ops, replies) && Mounted(states[0]) && UniqueNames(states[0].inodes)
    ensures
      var a, b := states[0], states[|ops|];
      && Mounted(b) && SameLayout(b.sb, a.sb) && a.io.faults <= b.io.faults && UniqueNames(b.inodes)
      && Fixed(b.inodes) == Fixed(a.inodes)
      && KeptOutside(Files(a), Files(b), TouchedBy(Fixed(a.inodes), ops))
    decreases |ops|
  {
    hide MetaOk, FilesOf, FilesOk, Coherent, View, CrashSound, Settled, Step, Fixed, UniqueNames, Touches;
    if |ops| > 0 {
      TraceFront(states, ops, replies);
      TraceKeeps(states[..|ops|], ops[..|ops| - 1], replies[..|ops| - 1]);
      var n, fixed := |ops| - 1, Fixed(states[0].inodes);
      KeptBoth(Files(states[0]), Files(states[n]), Files(states[|ops|]),
               TouchedBy(fixed, ops[..n]), Touches(fixed, ops[n]));
    }
  }

  /** Without device failures the volume is the abstract file system. */
  lemma {:induction false} TraceRefines(states: seq<State>, ops: seq<Op>, replies: seq<Reply>)
    requires Trace(states, ops, replies) && Mounted(states[0]) && UniqueNames(states[0].inodes)
    requires states[|ops|].io.faults == states[0].io.faults
    ensures Mounted(states[|ops|]) && (Settled(states[0]) ==> Settled(states[|ops|]))
    ensures Run(Fixed(states[0].inodes), Files(states[0]), ops, replies, Files(states[|ops|]))
    decreases |ops|
  {
    hide MetaOk, FilesOf, FilesOk, Coherent, View, CrashSound, Settled, Step, Fixed, UniqueNames, Touches, KeptOutside;
    hide TouchedBy;
    if |ops| > 0 {
      var n := |ops| - 1;
      TraceFront(states, ops, replies);
      TraceKeeps(states[..|ops|], ops[..n], replies[..n]);
      TraceRefines(states[..|ops|], ops[..n], replies[..n]);
      var mid := Files(states[n]);
      assert Run(Fixed(states[0].inodes), Files(states[0]), ops[..n], replies[..n], mid);
    }
  }

  /** Every disk a crash can leave between `a` and `b` is marked, or carries the volume of one of `moments`. */
  ghost predicate RunSafe(a: Snapshot, b: Snapshot, sb: Superblock, moments: seq<State>)
  {
    && LayoutOk(sb) && |a.disk| == TOTAL_SECTORS
    && History(a.disk, a.log, b.disk, b.log)
    && (forall w :: w in WritesSince(a, b) ==> w.sector < TOTAL_SECTORS)
    && forall k :: 0 <= k <= |WritesSince(a, b)| ==> SoundIn(ReplayTo(a.disk, WritesSince(a, b), k), moments)
  }

  ghost predicate SoundIn(disk: seq<Sector>, moments: seq<State>)
    requires |disk| == TOTAL_SECTORS
  {
    JournalState(disk) == 0 ==> exists i :: 0 <= i < |moments| && CarriedBy(disk, moments[i])
  }

  /** The disk holds the volume of moment `st`: its superblock but for the marker, its metadata and its files. */
  ghost predicate CarriedBy(disk: seq<Sector>, st: State)
  {
    && Mounted(st) && GoodDisk(disk) && FilesOn(disk) == Files(st)
    && Unmarked(DecodeSuperblock(disk[0])) == Unmarked(st.sb) && disk[2..] == Seen(st)[2..]
  }

  lemma IsCarried(disk: seq<Sector>, sb: Superblock, st: State)
    requires Mounted(st) && |disk| == TOTAL_SECTORS && LayoutOk(sb) && SameLayout(sb, st.sb)
    requires MetaOn(disk, sb) == MemMeta(st)
    ensures CarriedBy(disk, st)
  {
    hide View, Coherent, FilesOf, InodeTable, FilesOk, DecodeSuperblock, TreeOk, UniqueFiles, SizesMatch, Consistent;
    CrashedFiles(disk, sb, st);
    TableLayout(disk, sb, DecodeSuperblock(disk[0]));
  }

  lemma RunSafeStart(a: State)
    requires Mounted(a) && Settled(a)
    ensures RunSafe(a.io, a.io, a.sb, [a])
  {
    hide FilesOf, FilesOk, View, Coherent, InodeTable;
    SettledMeta(a);
    HistoryRefl(a.io.disk, a.io.log);
    IsCarried(a.io.disk, a.sb, a);
    assert WritesSince(a.io, a.io) == [];
    assert ReplayTo(a.io.disk, [], 0) == a.io.disk;
    assert CarriedBy(a.io.disk, [a][0]);
  }

  lemma MetaOnLayout(disk: seq<Sector>, sb: Superblock, sb': Superblock)
    requires |disk| == TOTAL_SECTORS && LayoutOk(sb) && SameLayout(sb, sb')
    ensures LayoutOk(sb') && MetaOn(disk, sb') == MetaOn(disk, sb)
  {
  }

  /** A crash in the second of two stretches of writes. */
  lemma SoundLater(disk: seq<Sector>, first: seq<SectorWrite>, second: seq<SectorWrite>, k: nat, sb: Superblock,
                   before: State, after: State)
    requires |disk| == TOTAL_SECTORS && LayoutOk(sb) && LayoutOk(before.sb) && SameLayout(before.sb, sb)
    requires Mounted(before) && Mounted(after) && SameLayout(after.sb, sb)
    requires forall w :: w in first ==> w.sector < TOTAL_SECTORS
    requires forall w :: w in second ==> w.sector < TOTAL_SECTORS
    requires k <= |second| && CrashSafe(Replay(disk, first), second, before.sb, MemMeta(before), MemMeta(after))
    ensures SoundIn(ReplayTo(disk, first + second, |first| + k), [before, after])
  {
    hide FilesOf, FilesOk, View, Coherent, InodeTable, MetaOk, DecodeSuperblock;
    var part := second[..k];
    assert (first + second)[..|first| + k] == first + part;
    assert forall w :: w in part ==> w in second;
    ReplayConcat(disk, first, part);
    var d := ReplayTo(Replay(disk, first), second, k);
    assert MarkerSound(d, before.sb, MemMeta(before), MemMeta(after));
    MetaOnLayout(d, before.sb, sb);
    if JournalState(d) == 0 {
      if MetaOn(d, sb) == MemMeta(before) {
        IsCarried(d, sb, before);
        assert CarriedBy(d, [before, after][0]);
      } else {
        IsCarried(d, sb, after);
        assert CarriedBy(d, [before, after][1]);
      }
    }
  }

  /** A crash in the first. */
  lemma SoundEarlier(disk: seq<Sector>, first: seq<SectorWrite>, second: seq<SectorWrite>, k: nat, moments: seq<State>)
    requires |disk| == TOTAL_SECTORS
    requires forall w :: w in first ==> w.sector < TOTAL_SECTORS
    requires forall w :: w in first + second ==> w.sector < TOTAL_SECTORS
    requires k <= |first| && SoundIn(ReplayTo(disk, first, k), moments)
    ensures SoundIn(ReplayTo(disk, first + second, k), moments)
  {
    hide CarriedBy;
    assert (first + second)[..k] == first[..k];
  }

  lemma MoreMoments(disk: seq<Sector>, some: seq<State>, all: seq<State>)
    requires |disk| == TOTAL_SECTORS && SoundIn(disk, some)
    requires forall st :: st in some ==> st in all
    ensures SoundIn(disk, all)
  {
    hide CarriedBy;
    if JournalState(disk) == 0 {
      var i :| 0 <= i < |some| && CarriedBy(disk, some[i]);
      assert some[i] in some;
      var j :| 0 <= j < |all| && all[j] == some[i];
    }
  }

  lemma RunSafeStep(a: Snapshot, b: State, c: State, sb: Superblock, moments: seq<State>)
    requires RunSafe(a, b.io, sb, moments) && SameLayout(b.sb, sb) && b in moments && Mounted(b) && Mounted(c)
    requires Safe(b.io, c.io, b.sb, MemMeta(b), MemMeta(c)) && SameLayout(c.sb, sb)
    ensures RunSafe(a, c.io, sb, moments + [c])
  {
    hide Replay, ReplayTo, CrashSafe, SoundIn, Mounted, MemMeta, Seen;
    var first, second, all := WritesSince(a, b.io), WritesSince(b.io, c.io), moments + [c];
    HistoryTrans(a.disk, a.log, b.io.disk, b.io.log, c.io.disk, c.io.log);
    assert WritesSince(a, c.io) == first + second;
    assert forall w :: w in first + second ==> w in first || w in second;
    assert forall st :: st in moments || st == c ==> st in all;
    assert c in all;
    forall k | 0 <= k <= |first + second| ensures SoundIn(ReplayTo(a.disk, first + second, k), all) {
      if k <= |first| {
        SoundEarlier(a.disk, first, second, k, moments);
        MoreMoments(ReplayTo(a.disk, first + second, k), moments, all);
      } else {
        SoundLater(a.disk, first, second, k - |first|, sb, b, c);
        MoreMoments(ReplayTo(a.disk, first + second, k), [b, c], all);
      }
    }
  }

  /** From a settled state, up to and including the first operation during which the device fails, no crash mixes two
      moments. */
  lemma {:induction false} TraceCrashSafe(states: seq<State>, ops: seq<Op>, replies: seq<Reply>)
    requires Trace(states, ops, replies) && Mounted(states[0]) && UniqueNames(states[0].inodes) && Settled(states[0])
    requires |ops| > 0 ==> states[|ops| - 1].io.faults == states[0].io.faults
    ensures RunSafe(states[0].io, states[|ops|].io, states[0].sb, states)
    decreases |ops|
  {
    hide MetaOk, FilesOf, FilesOk, Coherent, View, Settled, Step, Fixed, UniqueNames, Touches, KeptOutside, TouchedBy;
    hide RunSafe, Safe, Run;
    if |ops| == 0 {
      RunSafeStart(states[0]);
      assert states == [states[0]];
    } else {
      var n := |ops| - 1;
      var front := states[..|ops|];
      TraceFront(states, ops, replies);
      TraceKeeps(front, ops[..n], replies[..n]);
      TraceRefines(front, ops[..n], replies[..n]);
      if n > 0 {
        TraceFront(front, ops[..n], replies[..n]);
        TraceKeeps(front[..n], ops[..n - 1], replies[..n - 1]);
      }
      TraceCrashSafe(front, ops[..n], replies[..n]);
      assert front[n] in front && front + [states[|ops|]] == states;
      RunSafeStep(states[0].io, states[n], states[|ops|], states[0].sb, front);
    }
  }

  /** Between any two moments of a run, if the first is settled and the device fails in the last operation at most. */
  lemma StretchCrashSafe(states: seq<State>, ops: seq<Op>, replies: seq<Reply>, i: nat, j: nat)
    requires Trace(states, ops, replies) && Mounted(states[0]) && UniqueNames(states[0].inodes) && i <= j <= |ops|
    requires Settled(states[i]) && (i < j ==> states[j - 1].io.faults == states[i].io.faults)
    ensures RunSafe(states[i].io, states[j].io, states[i].sb, states[i..j + 1])
  {
    hide MetaOk, FilesOf, FilesOk, Coherent, View, Settled, Applied, Fixed, UniqueNames, KeptOutside, TouchedBy;
    hide RunSafe;
    TraceStretch(states, ops, replies, 0, i);
    TraceKeeps(states[0..i + 1], ops[0..i], replies[0..i]);
    TraceStretch(states, ops, replies, i, j);
    TraceCrashSafe(states[i..j + 1], ops[i..j], replies[i..j]);
  }

  /** Any sequence of operations on a mounted volume, on a device that may fail at any time. */
  method RunAll(fs: FileSystem, ops: seq<Op>) returns (replies: seq<Reply>, ghost states: seq<State>)
    requires fs.Up() && fs.available && UniqueNames(fs.inodes)
    requires forall i :: 0 <= i < |ops| ==> Allowed(Fixed(fs.inodes), ops[i])
    modifies fs`sb, fs`inodes, fs`fileIndices, fs`fileNames, fs.bitmap, fs.fileBuffer, fs.cache
    ensures fs.Up() && UniqueNames(fs.inodes) && Fixed(fs.inodes) == old(Fixed(fs.inodes))
    ensures Trace(states, ops, replies) && states[0] == old(fs.St()) && states[|ops|] == fs.St()
    ensures KeptOutside(old(Files(fs.St())), Files(fs.St()), TouchedBy(old(Fixed(fs.inodes)), ops))
    ensures fs.cache.faults == old(fs.cache.faults) ==>
              && Run(old(Fixed(fs.inodes)), old(Files(fs.St())), ops, replies, Files(fs.St()))
              && (old(Settled(fs.St())) ==> Settled(fs.St()))
    ensures old(Settled(fs.St())) && (|ops| > 0 ==> states[|ops| - 1].io.faults == old(fs.cache.faults)) ==>
              RunSafe(old(fs.cache.Snap()), fs.cache.Snap(), old(fs.sb), states)
  {
    hide MetaOk, FilesOf, FilesOk, Coherent, View, Settled, Step, Fixed, UniqueNames, Allowed, RunSafe, CrashSound;
    hide KeptOutside, Touches;
    hide TouchedBy, Run;
    ghost var first := fs.St();
    replies, states := [], [first];
    var n := 0;
    while n < |ops|
      invariant n <= |ops| && fs.Up() && UniqueNames(fs.inodes) && Fixed(fs.inodes) == Fixed(first.inodes)
      invariant Trace(states, ops[..n], replies) && states[0] == first && states[n] == fs.St()
    {
      ghost var b := fs.St();
      var r := Apply(fs, ops[n]);
      TraceExtends(states, ops[..n], replies, fs.St(), ops[n], r);
      assert ops[..n + 1] == ops[..n] + [ops[n]];
      replies, states := replies + [r], states + [fs.St()];
      n := n + 1;
    }
    assert ops[..n] == ops;
    TraceKeeps(states, ops, replies);
    if fs.cache.faults == old(fs.cache.faults) {
      TraceRefines(states, ops, replies);
    }
    if Settled(first) && (|ops| > 0 ==> states[|ops| - 1].io.faults == first.io.faults) {
      TraceCrashSafe(states, ops, replies);
    }
  }

  lemma TraceExtends(states: seq<State>, ops: seq<Op>, replies: seq<Reply>, st: State, op: Op, r: Reply)
    requires Trace(states, ops, replies) && Applied(states[|ops|], st, op, r)
    ensures Trace(states + [st], ops + [op], replies + [r])
  {
    hide Applied;
  }

  // ---------------------------------------------------------------- mounting

  /** Every crash point with the marker down is a disk in good order, with the files of some moment of the run. */
  lemma CrashPointMounts(a: Snapshot, b: Snapshot, sb: Superblock, moments: seq<State>, k: nat) returns (i: nat)
    requires RunSafe(a, b, sb, moments) && k <= |WritesSince(a, b)|
    requires JournalState(ReplayTo(a.disk, WritesSince(a, b), k)) == 0
    ensures i < |moments| && CarriedBy(ReplayTo(a.disk, WritesSince(a, b), k), moments[i])
  {
    hide CarriedBy, JournalState;
    assert SoundIn(ReplayTo(a.disk, WritesSince(a, b), k), moments);
    i :| 0 <= i < |moments| && CarriedBy(ReplayTo(a.disk, WritesSince(a, b), k), moments[i]);
  }

  lemma MountedAgain(disk: seq<Sector>, st: State)
    requires GoodDisk(disk) && Coherent(st.io.disk, st.io.slots) && |st.io.disk| == TOTAL_SECTORS
    requires AllClean(st.io.slots) && st.io.disk == Seen(st) && st.io.disk[2..] == disk[2..]
    requires st.sb == Unmarked(DecodeSuperblock(disk[0])) == DecodeSuperblock(st.io.disk[0])
    requires st.inodes == InodeTable(disk, DecodeSuperblock(disk[0])) && st.bm == disk[st.sb.bitmapStart]
    ensures Mounted(st) && Settled(st) && Files(st) == FilesOn(disk)
  {
    hide View, Coherent, FilesOf, FilesOk, DecodeSuperblock, MetaOk, InodeTable;
    var sb := DecodeSuperblock(disk[0]);
    UnmarkedIsGood(sb, st.inodes, st.bm);
    MetaFilesOk(st.sb, st.inodes, st.bm);
    forall s | 2 <= s < TOTAL_SECTORS ensures st.io.disk[s] == disk[s] {
      assert st.io.disk[2..][s - 2] == disk[2..][s - 2];
    }
    InodeTableFrame(disk, st.io.disk, sb);
    TableLayout(st.io.disk, sb, st.sb);
    SameVolumeFiles(st.io.disk, disk, sb, st.inodes, st.bm);
  }

  /** Mounting a disk in good order, dirty or not: without failures it comes back settled, with the files on it. */
  method Mount(fs: FileSystem)
    requires fs.Alive() && GoodDisk(fs.cache.disk)
    modifies fs`sb, fs`inodes, fs`available, fs`fileIndices, fs`fileNames, fs.bitmap, fs.cache
    ensures fs.Alive() && MountSafe(old(fs.cache.Snap()), fs.cache.Snap())
    ensures fs.cache.faults == old(fs.cache.faults) ==>
              && fs.available && fs.Up() && Settled(fs.St()) && fs.Listed()
              && fs.sb == Unmarked(DecodeSuperblock(old(fs.cache.disk)[0]))
              && Files(fs.St()) == FilesOn(old(fs.cache.disk))
  {
    hide MetaOk, FilesOf, FilesOk, View, Mountable, LoadedInodes, DecodeSuperblock, IsListing, Coherent, MountSafe;
    hide ExactUpToWrapping, InodeTable, FilesOn, Settled;
    ghost var disk := fs.cache.disk;
    GoodDiskMounts(disk);
    fs.Initialize();
    if fs.cache.faults == old(fs.cache.faults) {
      MountedAgain(disk, fs.St());
    }
  }

  /** Mounting again after a shutdown: a settled volume comes back with the same metadata and the same files. */
  method Reboot(fs: FileSystem)
    requires fs.Up() && Settled(fs.St())
    modifies fs`sb, fs`inodes, fs`available, fs`fileIndices, fs`fileNames, fs.bitmap, fs.cache
    ensures fs.cache.faults == old(fs.cache.faults) ==>
              && fs.available && fs.Up() && Settled(fs.St()) && fs.Listed()
              && fs.sb == old(fs.sb) && fs.inodes == old(fs.inodes) && fs.bitmap[..] == old(fs.bitmap[..])
              && Files(fs.St()) == old(Files(fs.St())) && fs.cache.disk == old(fs.cache.disk)
  {
    hide MetaOk, FilesOf, FilesOk, View, Mountable, LoadedInodes, DecodeSuperblock, FullySynced, IsListing;
    ghost var before := fs.St();
    Remount(before);
    SettledMeta(before);
    fs.Initialize();
    if fs.cache.faults == old(fs.cache.faults) {
      assert fs.sb == before.sb && fs.inodes == before.inodes && fs.bitmap[..] == before.bm;
      assert Seen(fs.St()) == Seen(before);
    }
  }
}

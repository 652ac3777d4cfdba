/** Names, path components, and the walk from the root to an inode. */
module Paths {
  import opened SectorCache
  import opened DiskFormat

  type Name = seq<Byte>
  /** Path bytes before the terminating zero. */
  type Path = s: seq<Byte> | 0 !in s

  const SLASH: Byte := 47
  /** `path_part` fails on a component that does not leave room in DISKFS_NAME_MAX bytes. */
  const MAX_PART: nat := 30
  /** Longest relative path that `diskfs_find_file` can copy behind a slash. */
  const MAX_PREFIXED: nat := 62

  // ---------------------------------------------------------------- name fields

  /** A C string stored in a fixed field. */
  function CName(field: seq<Byte>): (name: Name)
    ensures |name| <= |field| && 0 !in name
    ensures |name| < |field| ==> field[|name|] == 0
  {
    if field == [] || field[0] == 0 then [] else [field[0]] + CName(field[1..])
  }

  function PadName(name: Name): (field: NameField)
    requires |name| < NAME_BYTES
    ensures name <= field && forall i :: |name| <= i < NAME_BYTES ==> field[i] == 0
  {
    name + Zeros(NAME_BYTES - |name|)
  }

  lemma {:induction false} NameRoundTrip(name: Name, pad: nat)
    requires 0 !in name
    ensures CName(name + Zeros(pad)) == name
  {
    if name == [] {
      assert name + Zeros(pad) == Zeros(pad);
    } else {
      assert (name + Zeros(pad))[1..] == name[1..] + Zeros(pad);
      NameRoundTrip(name[1..], pad);
    }
  }

  lemma StoredName(name: Name)
    requires |name| < NAME_BYTES && 0 !in name
    ensures CName(PadName(name)) == name
  {
    NameRoundTrip(name, NAME_BYTES - |name|);
  }

  // ---------------------------------------------------------------- components

  function SkipSlashes(p: seq<Byte>, i: nat): (j: nat)
    requires i <= |p|
    ensures i <= j <= |p| && (j < |p| ==> p[j] != SLASH)
    ensures forall k :: i <= k < j ==> p[k] == SLASH
    decreases |p| - i
  {
    if i < |p| && p[i] == SLASH then SkipSlashes(p, i + 1) else i
  }

  function PartEnd(p: seq<Byte>, i: nat): (j: nat)
    requires i <= |p|
    ensures i <= j <= |p| && (j < |p| ==> p[j] == SLASH)
    ensures forall k :: i <= k < j ==> p[k] != SLASH
    decreases |p| - i
  {
    if i < |p| && p[i] != SLASH then PartEnd(p, i + 1) else i
  }

  datatype Part = NoPart | Part(name: Name, next: nat)

  /** What `path_part` yields at cursor `i`: an overlong component reads as the end of the path. */
  function NextPart(p: seq<Byte>, i: nat): (r: Part)
    requires i <= |p|
    ensures r.Part? ==> i < r.next <= |p| && 0 < |r.name| <= MAX_PART
  {
    var s := SkipSlashes(p, i);
    var e := PartEnd(p, s);
    if s == |p| || e - s > MAX_PART then NoPart else Part(p[s..e], e)
  }

  /** The components that the kernel sees in a path from cursor `i` on. */
  function ComponentsFrom(p: seq<Byte>, i: nat): (r: seq<Name>)
    requires i <= |p|
    decreases |p| - i
  {
    match NextPart(p, i)
    case NoPart => []
    case Part(name, next) => [name] + ComponentsFrom(p, next)
  }

  lemma {:induction false} ComponentShape(p: seq<Byte>, i: nat, k: nat)
    requires i <= |p| && k < |ComponentsFrom(p, i)|
    ensures var n := ComponentsFrom(p, i)[k]; 0 < |n| <= MAX_PART && SLASH !in n && (0 !in p ==> 0 !in n)
    decreases k
  {
    var part := NextPart(p, i);
    if k > 0 {
      ComponentShape(p, part.next, k - 1);
    }
  }

  function Components(p: seq<Byte>): (r: seq<Name>)
  {
    ComponentsFrom(p, 0)
  }

  /** A slash before each component. */
  function Join(parts: seq<Name>): (p: seq<Byte>)
  {
    if parts == [] then [] else [SLASH] + parts[0] + Join(parts[1..])
  }

  predicate Component(n: Name)
  {
    n != [] && SLASH !in n
  }

  /** The components up to the first one that is too long. */
  function Readable(parts: seq<Name>): (r: seq<Name>)
  {
    if parts == [] || |parts[0]| > MAX_PART then [] else [parts[0]] + Readable(parts[1..])
  }

  lemma SkipAt(p: seq<Byte>, i: nat)
    requires i < |p| && p[i] == SLASH && (i + 1 < |p| ==> p[i + 1] != SLASH)
    ensures SkipSlashes(p, i) == i + 1
  {
  }

  lemma PartEndAt(p: seq<Byte>, i: nat, j: nat)
    requires i <= j <= |p| && (j < |p| ==> p[j] == SLASH)
    requires forall k :: i <= k < j ==> p[k] != SLASH
    ensures PartEnd(p, i) == j
  {
  }

  /** Parsing a joined path gives back its components, up to the first overlong one. */
  lemma {:induction false} JoinParsesFrom(before: seq<Byte>, parts: seq<Name>)
    requires forall i :: 0 <= i < |parts| ==> Component(parts[i])
    ensures ComponentsFrom(before + Join(parts), |before|) == Readable(parts)
    decreases |parts|
  {
    var p := before + Join(parts);
    if parts != [] {
      var rest := Join(parts[1..]);
      var s := |before| + 1;
      var e := s + |parts[0]|;
      assert p == before + [SLASH] + parts[0] + rest;
      assert p[|before|] == SLASH && p[s..e] == parts[0];
      assert p[s] == parts[0][0] != SLASH;
      assert forall k :: s <= k < e ==> p[k] == parts[0][k - s];
      assert e < |p| ==> p[e] == rest[0] == SLASH;
      SkipAt(p, |before|);
      PartEndAt(p, s, e);
      assert NextPart(p, |before|) == if |parts[0]| > MAX_PART then NoPart else Part(parts[0], e);
      JoinParsesFrom(before + [SLASH] + parts[0], parts[1..]);
    }
  }

  lemma {:induction false} ReadableIff(parts: seq<Name>)
    ensures Readable(parts) == parts <==> forall i :: 0 <= i < |parts| ==> |parts[i]| <= MAX_PART
  {
    if parts != [] {
      ReadableIff(parts[1..]);
      if Readable(parts) == parts {
        assert |parts[0]| <= MAX_PART;
        assert Readable(parts[1..]) == parts[1..] by {
          assert Readable(parts)[1..] == Readable(parts[1..]);
        }
        assert forall i :: 0 < i < |parts| ==> parts[i] == parts[1..][i - 1];
      } else if |parts[0]| <= MAX_PART {
        assert Readable(parts[1..]) != parts[1..] by {
          assert Readable(parts) == [parts[0]] + Readable(parts[1..]);
          assert parts == [parts[0]] + parts[1..];
        }
        assert forall i :: 0 <= i < |parts[1..]| ==> parts[1..][i] == parts[i + 1];
      }
    }
  }

  /** The kernel reads a path as it was written exactly when no component exceeds 30 bytes. */
  lemma PathsParse(parts: seq<Name>)
    requires forall i :: 0 <= i < |parts| ==> Component(parts[i])
    ensures Components(Join(parts)) == Readable(parts)
    ensures Components(Join(parts)) == parts <==> forall i :: 0 <= i < |parts| ==> |parts[i]| <= MAX_PART
  {
    JoinParsesFrom([], parts);
    assert [] + Join(parts) == Join(parts);
    ReadableIff(parts);
  }

  /** Parsing does not depend on what stands before the cursor. */
  lemma {:induction false} ShiftParse(c: Byte, p: seq<Byte>, i: nat)
    requires i <= |p|
    ensures ComponentsFrom([c] + p, i + 1) == ComponentsFrom(p, i)
    decreases |p| - i
  {
    hide NextPart;
    ShiftNext(c, p, i);
    if NextPart(p, i).Part? {
      ShiftParse(c, p, NextPart(p, i).next);
    }
  }

  lemma ShiftNext(c: Byte, p: seq<Byte>, i: nat)
    requires i <= |p|
    ensures NextPart([c] + p, i + 1) ==
              match NextPart(p, i) { case NoPart => NoPart case Part(name, next) => Part(name, next + 1) }
  {
    hide SkipSlashes, PartEnd;
    var q := [c] + p;
    var s := SkipSlashes(p, i);
    var e := PartEnd(p, s);
    ShiftSkip(c, p, i);
    ShiftPartEnd(c, p, s);
    assert q[s + 1..e + 1] == p[s..e];
  }

  lemma {:induction false} ShiftSkip(c: Byte, p: seq<Byte>, i: nat)
    requires i <= |p|
    ensures SkipSlashes([c] + p, i + 1) == SkipSlashes(p, i) + 1
    decreases |p| - i
  {
    if i < |p| && p[i] == SLASH {
      ShiftSkip(c, p, i + 1);
    }
  }

  lemma {:induction false} ShiftPartEnd(c: Byte, p: seq<Byte>, i: nat)
    requires i <= |p|
    ensures PartEnd([c] + p, i + 1) == PartEnd(p, i) + 1
    decreases |p| - i
  {
    if i < |p| && p[i] != SLASH {
      ShiftPartEnd(c, p, i + 1);
    }
  }

  /** A leading slash means nothing. */
  lemma LeadingSlash(p: seq<Byte>)
    ensures Components([SLASH] + p) == Components(p)
  {
    ShiftParse(SLASH, p, 0);
    assert NextPart([SLASH] + p, 0) == NextPart([SLASH] + p, 1);
  }

  // ---------------------------------------------------------------- walking the inode table

  predicate IsChild(n: Inode, parent: nat, name: Name, kind: Byte)
  {
    n.kind != TYPE_FREE && n.parent == parent && (kind == 0 || n.kind == kind) && CName(n.name) == name
  }

  /** The inode that the next new file gets. */
  predicate LowestFree(inodes: seq<Inode>, i: nat)
  {
    1 <= i < |inodes| && inodes[i].kind == TYPE_FREE && forall j :: 1 <= j < i ==> inodes[j].kind != TYPE_FREE
  }

  /** `find_child`: the lowest matching inode, or -1. */
  function FindChild(inodes: seq<Inode>, parent: nat, name: Name, kind: Byte): (r: int)
    ensures -1 <= r < |inodes|
    ensures r >= 0 ==> IsChild(inodes[r], parent, name, kind)
    ensures forall j :: 0 <= j < (if r < 0 then |inodes| else r) ==> !IsChild(inodes[j], parent, name, kind)
  {
    if inodes == [] then -1
    else
      var k := |inodes| - 1;
      var r := FindChild(inodes[..k], parent, name, kind);
      if r >= 0 then r
      else if IsChild(inodes[k], parent, name, kind) then k
      else -1
  }

  /** `find_path` over components: follow children of any kind. */
  function Walk(inodes: seq<Inode>, from: nat, parts: seq<Name>): (r: int)
    ensures r >= -1 && (from < |inodes| ==> r < |inodes|)
    decreases |parts|
  {
    if parts == [] then from
    else
      var c := FindChild(inodes, from, parts[0], 0);
      if c < 0 then -1 else Walk(inodes, c, parts[1..])
  }

  /** The directories leading to the last component. */
  function WalkDirs(inodes: seq<Inode>, from: nat, parts: seq<Name>): (r: int)
    ensures r >= -1 && (from < |inodes| ==> r < |inodes|)
    decreases |parts|
  {
    if parts == [] then from
    else
      var c := FindChild(inodes, from, parts[0], TYPE_DIR);
      if c < 0 then -1 else WalkDirs(inodes, c, parts[1..])
  }

  datatype Key = Key(parent: nat, name: Name)
  datatype Option<T> = None | Some(value: T)

  function KeyOf(n: Inode): (k: Key)
  {
    Key(n.parent, CName(n.name))
  }

  /** `ensure_parent_dir`: the directory and leaf that a path names. */
  function Target(inodes: seq<Inode>, path: Path): (r: Option<Key>)
  {
    var parts := Components(path);
    if parts == [] then None
    else
      var d := WalkDirs(inodes, 0, parts[..|parts| - 1]);
      if d < 0 then None else Some(Key(d, parts[|parts| - 1]))
  }

  /** `diskfs_find_file`: a relative path that names no file is tried once more behind a slash, cut to 62 bytes. */
  function FindFile(inodes: seq<Inode>, path: Path): (r: int)
    requires |inodes| > 0
    ensures -1 <= r < |inodes| && (r >= 0 ==> inodes[r].kind == TYPE_FILE)
  {
    var w := Walk(inodes, 0, Components(path));
    if w >= 0 && inodes[w].kind == TYPE_FILE then w
    else if path != [] && path[0] == SLASH then -1
    else
      var w2 := Walk(inodes, 0, Components([SLASH] + CutShort(path)));
      if w2 >= 0 && inodes[w2].kind == TYPE_FILE then w2 else -1
  }

  // ---------------------------------------------------------------- namespaces

  /** Every live inode but the root has a stored name and a directory for parent. */
  ghost predicate TreeOk(inodes: seq<Inode>, count: nat)
  {
    && 1 <= count <= |inodes|
    && inodes[0].kind == TYPE_DIR && CName(inodes[0].name) == []
    && (forall i :: count <= i < |inodes| ==> inodes[i].kind == TYPE_FREE)
    && (forall i {:trigger inodes[i].parent} :: 1 <= i < count && inodes[i].kind != TYPE_FREE ==>
          && 0 < |CName(inodes[i].name)| < NAME_BYTES
          && inodes[i].parent < count && inodes[inodes[i].parent].kind == TYPE_DIR)
  }

  ghost predicate UniqueFiles(inodes: seq<Inode>)
  {
    forall i, j :: 0 <= i < j < |inodes| && inodes[i].kind == TYPE_FILE && inodes[j].kind == TYPE_FILE ==>
        KeyOf(inodes[i]) != KeyOf(inodes[j])
  }

  /** No two live inodes of any kind share a name in one directory. */
  ghost predicate UniqueNames(inodes: seq<Inode>)
  {
    forall i, j :: 1 <= i < j < |inodes| && inodes[i].kind != TYPE_FREE && inodes[j].kind != TYPE_FREE ==>
        KeyOf(inodes[i]) != KeyOf(inodes[j])
  }

  lemma FindChildUnique(inodes: seq<Inode>, count: nat, i: nat, kind: Byte)
    requires TreeOk(inodes, count) && UniqueNames(inodes)
    requires 1 <= i < |inodes| && inodes[i].kind != TYPE_FREE && (kind == 0 || kind == inodes[i].kind)
    ensures FindChild(inodes, inodes[i].parent, CName(inodes[i].name), kind) == i
  {
    var r := FindChild(inodes, inodes[i].parent, CName(inodes[i].name), kind);
    assert IsChild(inodes[i], inodes[i].parent, CName(inodes[i].name), kind);
    assert r >= 0 && KeyOf(inodes[r]) == KeyOf(inodes[i]);
  }

  /** When a file and a directory share a name, a lookup of any kind finds the one with the lower inode number. */
  lemma SharedName(inodes: seq<Inode>, file: nat, dir: nat)
    requires 1 <= file < |inodes| && 1 <= dir < |inodes| && inodes[file].kind == TYPE_FILE
    requires inodes[dir].kind == TYPE_DIR
    requires KeyOf(inodes[file]) == KeyOf(inodes[dir])
    requires forall i ::
               0 <= i < |inodes| && inodes[i].kind != TYPE_FREE && KeyOf(inodes[i]) == KeyOf(inodes[file]) ==>
                 i == file || i == dir
    ensures FindChild(inodes, inodes[file].parent, CName(inodes[file].name), 0) == if file < dir then file else dir
    ensures FindChild(inodes, inodes[file].parent, CName(inodes[file].name), TYPE_FILE) == file
  {
  }

  /** In a well-named tree, following any child to a file is following directories and then one file name. */
  lemma {:induction false} WalkIsTarget(inodes: seq<Inode>, count: nat, from: nat, parts: seq<Name>)
    requires TreeOk(inodes, count) && UniqueNames(inodes) && from < |inodes| && parts != []
    requires forall i :: 0 <= i < |parts| ==> parts[i] != []
    ensures
      var w := Walk(inodes, from, parts);
      var d := WalkDirs(inodes, from, parts[..|parts| - 1]);
      var f := if d < 0 then -1 else FindChild(inodes, d, parts[|parts| - 1], TYPE_FILE);
      && (w >= 0 ==> w < |inodes|)
      && (f >= 0 ==> w == f)
      && (w >= 0 && inodes[w].kind == TYPE_FILE ==> f == w)
    decreases |parts|
  {
    hide UniqueNames, TreeOk, FindChild;
    var c := FindChild(inodes, from, parts[0], 0);
    if |parts| == 1 {
      assert parts[1..] == [] && parts[..0] == [];
      KindChild(inodes, count, from, parts[0], TYPE_FILE);
    } else {
      var tail := parts[1..];
      assert parts[..|parts| - 1][1..] == tail[..|tail| - 1];
      KindChild(inodes, count, from, parts[0], TYPE_DIR);
      if c >= 0 {
        if inodes[c].kind != TYPE_DIR {
          Childless(inodes, count, c, tail[0]);
        }
        WalkIsTarget(inodes, count, c, tail);
      }
    }
  }

  /** In a well-named tree there is at most one child of a name, so asking for a kind is asking and then looking at the
      kind. */
  lemma KindChild(inodes: seq<Inode>, count: nat, from: nat, name: Name, kind: Byte)
    requires TreeOk(inodes, count) && UniqueNames(inodes) && name != [] && (kind == TYPE_DIR || kind == TYPE_FILE)
    ensures var c := FindChild(inodes, from, name, 0);
            FindChild(inodes, from, name, kind) == if c >= 0 && inodes[c].kind == kind then c else -1
  {
    var c, f := FindChild(inodes, from, name, 0), FindChild(inodes, from, name, kind);
    assert c != 0 && f != 0;
    if f > 0 {
      FindChildUnique(inodes, count, f, 0);
    }
    if c > 0 && inodes[c].kind == kind {
      FindChildUnique(inodes, count, c, kind);
    }
  }

  lemma Childless(inodes: seq<Inode>, count: nat, i: nat, name: Name)
    requires TreeOk(inodes, count) && i < |inodes| && inodes[i].kind != TYPE_DIR && name != []
    ensures FindChild(inodes, i, name, 0) < 0
  {
  }

  /** What is left of a path when it is tried again behind a slash. */
  function CutShort(path: Path): (r: Path)
    ensures r <= path && |r| <= MAX_PREFIXED
  {
    path[..if |path| < MAX_PREFIXED then |path| else MAX_PREFIXED]
  }

  /** The file a path leads to, without the second try. */
  function PlainFile(inodes: seq<Inode>, path: Path): (r: int)
    requires |inodes| > 0
    ensures -1 <= r < |inodes|
  {
    var w := Walk(inodes, 0, Components(path));
    if w >= 0 && inodes[w].kind == TYPE_FILE then w else -1
  }

  /** The second try looks for nothing new. */
  predicate TriesOnce(path: Path)
  {
    || |path| <= MAX_PREFIXED
    || path[0] == SLASH
    || Components(CutShort(path)) == Components(path)
    || Components(CutShort(path)) == []
  }

  /** Then the lookup is the plain walk. */
  lemma SecondTry(inodes: seq<Inode>, path: Path)
    requires |inodes| > 0 && inodes[0].kind == TYPE_DIR && TriesOnce(path)
    ensures FindFile(inodes, path) == PlainFile(inodes, path)
  {
    if |path| <= MAX_PREFIXED {
      assert path[..|path|] == path;
    }
    LeadingSlash(CutShort(path));
  }

  lemma RootIsDir(inodes: seq<Inode>, count: nat)
    requires TreeOk(inodes, count)
    ensures 1 <= count <= |inodes| && inodes[0].kind == TYPE_DIR
  {
  }

  /** Directories are reached through directories. */
  lemma {:induction false} WalkDirsIsDir(inodes: seq<Inode>, count: nat, from: nat, parts: seq<Name>)
    requires TreeOk(inodes, count) && from < count && inodes[from].kind == TYPE_DIR
    ensures var d := WalkDirs(inodes, from, parts); d >= 0 ==> d < count && inodes[d].kind == TYPE_DIR
    decreases |parts|
  {
    if parts != [] {
      var c := FindChild(inodes, from, parts[0], TYPE_DIR);
      if c >= 0 {
        WalkDirsIsDir(inodes, count, c, parts[1..]);
      }
    }
  }

  // ---------------------------------------------------------------- the parser

  /** `path_part` */
  method PathPart(path: Path, cursor: nat) returns (ok: bool, part: Name, next: nat)
    requires cursor <= |path|
    ensures NextPart(path, cursor) == if ok then Part(part, next) else NoPart
    ensures cursor <= next <= |path|
  {
    var p := cursor;
    part := [];
    while p < |path| && path[p] == SLASH
      invariant cursor <= p <= |path| && SkipSlashes(path, p) == SkipSlashes(path, cursor)
    {
      p := p + 1;
    }
    if p == |path| {
      return false, part, p;
    }
    ghost var start := p;
    while p < |path| && path[p] != SLASH
      invariant start <= p <= |path| && part == path[start..p] && |part| <= MAX_PART
      invariant PartEnd(path, p) == PartEnd(path, start)
    {
      if |part| + 1 > MAX_PART {
        assert PartEnd(path, start) > p;
        return false, part, cursor;
      }
      part := part + [path[p]];
      p := p + 1;
    }
    return |part| > 0, part, p;
  }
}

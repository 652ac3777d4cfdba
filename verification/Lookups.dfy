/** Exactly when `diskfs_find_file` opens what a path names. */
module Lookups {
  import opened SectorCache
  import opened DiskFormat
  import opened Paths

  /** An inode table of full size, in good order as far as names go. */
  ghost predicate WellNamed(inodes: seq<Inode>)
  {
    |inodes| == MAX_INODES && TreeOk(inodes, MAX_INODES) && UniqueNames(inodes)
  }

  // ---------------------------------------------------------------- a table with one file

  /** Names that a path can have for components. */
  predicate Storable(parts: seq<Name>)
  {
    0 < |parts| < MAX_INODES && forall i :: 0 <= i < |parts| ==> 0 < |parts[i]| <= MAX_PART && 0 !in parts[i]
  }

  /** Directories nested along `parts`, the last of which is a file. */
  function Nested(parts: seq<Name>): (t: seq<Inode>)
    requires Storable(parts)
    ensures |t| == MAX_INODES
  {
    seq(MAX_INODES, i requires 0 <= i < MAX_INODES => NestedInode(parts, i))
  }

  function NestedInode(parts: seq<Name>, i: nat): (n: Inode)
    requires Storable(parts) && i < MAX_INODES
  {
    if i == 0 then FREE_INODE.(kind := TYPE_DIR)
    else if i > |parts| then FREE_INODE
    else
      var kind := if i < |parts| then TYPE_DIR else TYPE_FILE;
      FREE_INODE.(kind := kind, parent := i - 1, name := PadName(parts[i - 1]))
  }

  lemma NestedNames(parts: seq<Name>, i: nat)
    requires Storable(parts) && i <= |parts|
    ensures CName(Nested(parts)[i].name) == if i == 0 then [] else parts[i - 1]
  {
    if i == 0 {
      NameRoundTrip([], NAME_BYTES);
      assert [] + Zeros(NAME_BYTES) == Zeros(NAME_BYTES);
    } else {
      StoredName(parts[i - 1]);
    }
  }

  lemma NestedWellNamed(parts: seq<Name>)
    requires Storable(parts)
    ensures WellNamed(Nested(parts))
  {
    hide CName, PadName;
    forall i | 0 <= i <= |parts| ensures CName(Nested(parts)[i].name) == if i == 0 then [] else parts[i - 1] {
      NestedNames(parts, i);
    }
  }

  /** The only child of the inode at depth `k` is the next one. */
  lemma NestedChild(parts: seq<Name>, k: nat, name: Name)
    requires Storable(parts) && k <= |parts| && name != []
    ensures FindChild(Nested(parts), k, name, 0) == if k < |parts| && name == parts[k] then k + 1 else -1
  {
    hide CName, PadName;
    var t := Nested(parts);
    forall j | 0 <= j < MAX_INODES ensures IsChild(t[j], k, name, 0) <==> j == k + 1 <= |parts| && name == parts[k] {
      if j <= |parts| {
        NestedNames(parts, j);
      }
    }
    if k < |parts| && name == parts[k] {
      assert IsChild(t[k + 1], k, name, 0);
    }
  }

  /** A walk ends at the file exactly when it follows all the names. */
  lemma {:induction false} NestedWalk(parts: seq<Name>, k: nat, names: seq<Name>)
    requires Storable(parts) && k <= |parts| && forall i :: 0 <= i < |names| ==> names[i] != []
    ensures Walk(Nested(parts), k, names) == |parts| <==> names == parts[k..]
    ensures Walk(Nested(parts), k, names) <= |parts|
    decreases |names|
  {
    hide FindChild, Nested;
    if names != [] {
      NestedChild(parts, k, names[0]);
      if k < |parts| && names[0] == parts[k] {
        NestedWalk(parts, k + 1, names[1..]);
        assert parts[k..] == [parts[k]] + parts[k + 1..] && names == [names[0]] + names[1..];
      }
    }
  }

  // ---------------------------------------------------------------- the exact condition

  lemma {:induction false} FewComponents(p: seq<Byte>, i: nat)
    requires i <= |p|
    ensures |ComponentsFrom(p, i)| <= |p| - i
    decreases |p| - i
  {
    var part := NextPart(p, i);
    if part.Part? {
      FewComponents(p, part.next);
    }
  }

  lemma ComponentsStorable(path: Path)
    requires |path| < MAX_INODES && Components(path) != []
    ensures Storable(Components(path))
  {
    FewComponents(path, 0);
    forall i | 0 <= i < |Components(path)| ensures 0 < |Components(path)[i]| <= MAX_PART && 0 !in Components(path)[i] {
      ComponentShape(path, 0, i);
    }
  }

  /** A path that is tried twice opens, in some volume, a file it does not name. */
  lemma OpensAnother(path: Path)
    requires !TriesOnce(path)
    ensures Storable(Components(CutShort(path)))
    ensures var t := Nested(Components(CutShort(path)));
            WellNamed(t) && FindFile(t, path) >= 0 && PlainFile(t, path) == -1
  {
    hide Nested;
    var cut := CutShort(path);
    var parts := Components(cut);
    ComponentsStorable(cut);
    NestedWellNamed(parts);
    forall i | 0 <= i < |Components(path)| ensures Components(path)[i] != [] {
      ComponentShape(path, 0, i);
    }
    LeadingSlash(cut);
    assert parts[0..] == parts;
    NestedWalk(parts, 0, parts);
    NestedWalk(parts, 0, Components(path));
    NestedKinds(parts);
  }

  lemma NestedKinds(parts: seq<Name>)
    requires Storable(parts)
    ensures forall i :: 0 <= i < MAX_INODES ==> (Nested(parts)[i].kind == TYPE_FILE <==> i == |parts|)
  {
  }

  function Letters(c: Byte, n: nat): (s: Name)
    ensures |s| == n
  {
    seq(n, _ => c)
  }

  /** One such path: a^30/b^20/c^11 opens /a^30/b^20/c^10. */
  lemma LongPathOpensAnother()
    ensures
      var file := [Letters(97, 30), Letters(98, 20), Letters(99, 10)];
      var path := Letters(97, 30) + [SLASH] + Letters(98, 20) + [SLASH] + Letters(99, 11);
      && 0 !in path && Storable(file) && WellNamed(Nested(file))
      && FindFile(Nested(file), path) == 3 && Walk(Nested(file), 0, Components(path)) == -1
  {
    hide Nested;
    var a, b, c, c' := Letters(97, 30), Letters(98, 20), Letters(99, 10), Letters(99, 11);
    var path := a + [SLASH] + b + [SLASH] + c';
    assert CutShort(path) == a + [SLASH] + b + [SLASH] + c;
    ThreeParts(a, b, c);
    ThreeParts(a, b, c');
    var file: seq<Name>, other: seq<Name> := [a, b, c], [a, b, c'];
    assert file[2] != other[2];
    OpensAnother(path);
    NestedKinds(file);
    NestedChild(file, 0, a);
    NestedChild(file, 1, b);
    NestedChild(file, 2, c');
    WalkThree(Nested(file), a, b, c');
  }

  lemma WalkThree(t: seq<Inode>, a: Name, b: Name, c: Name)
    requires FindChild(t, 0, a, 0) == 1 && FindChild(t, 1, b, 0) == 2 && FindChild(t, 2, c, 0) == -1
    ensures Walk(t, 0, [a, b, c]) == -1
  {
    assert [a, b, c][1..] == [b, c] && [b, c][1..] == [c];
    assert Walk(t, 2, [c]) == -1;
    assert Walk(t, 1, [b, c]) == -1;
  }

  lemma ThreeParts(a: Name, b: Name, c: Name)
    requires Component(a) && Component(b) && Component(c) && |a| <= MAX_PART && |b| <= MAX_PART && |c| <= MAX_PART
    ensures Components(a + [SLASH] + b + [SLASH] + c) == [a, b, c]
  {
    hide ComponentsFrom;
    var parts: seq<Name>, path := [a, b, c], a + [SLASH] + b + [SLASH] + c;
    assert parts[1..] == [b, c] && parts[1..][1..] == [c];
    assert Join(parts[1..][1..]) == [SLASH] + c;
    assert Join(parts[1..]) == [SLASH] + b + ([SLASH] + c);
    assert Join(parts) == [SLASH] + path;
    PathsParse(parts);
    LeadingSlash(path);
  }

  /** A lookup opens what the path names in every volume exactly when the second try looks for nothing new:
      the path is absolute, has at most 62 bytes, or has the same components, or none, when cut to 62 bytes. */
  lemma LookupExact(path: Path)
    ensures (forall t :: WellNamed(t) ==> FindFile(t, path) == PlainFile(t, path)) <==> TriesOnce(path)
  {
    if TriesOnce(path) {
      forall t | WellNamed(t) ensures FindFile(t, path) == PlainFile(t, path) {
        SecondTry(t, path);
      }
    } else {
      OpensAnother(path);
    }
  }

  // ---------------------------------------------------------------- a file beside a directory

  lemma {:induction false} WalkSnoc(inodes: seq<Inode>, from: nat, parts: seq<Name>, name: Name)
    ensures Walk(inodes, from, parts + [name]) ==
              (var d := Walk(inodes, from, parts); if d < 0 then -1 else FindChild(inodes, d, name, 0))
    decreases |parts|
  {
    var all := parts + [name];
    if parts == [] {
      assert all[1..] == [];
    } else {
      assert all[1..] == parts[1..] + [name];
      var c := FindChild(inodes, from, parts[0], 0);
      if c >= 0 {
        WalkSnoc(inodes, c, parts[1..], name);
      }
    }
  }

  lemma {:induction false} WalkDirsSnoc(inodes: seq<Inode>, from: nat, parts: seq<Name>, name: Name)
    ensures WalkDirs(inodes, from, parts + [name]) ==
            (var d := WalkDirs(inodes, from, parts); if d < 0 then -1 else FindChild(inodes, d, name, TYPE_DIR))
    decreases |parts|
  {
    var all := parts + [name];
    if parts == [] {
      assert all[1..] == [];
    } else {
      assert all[1..] == parts[1..] + [name];
      var c := FindChild(inodes, from, parts[0], TYPE_DIR);
      if c >= 0 {
        WalkDirsSnoc(inodes, c, parts[1..], name);
      }
    }
  }

  /** The directory reached after `k` names. */
  function Visit(inodes: seq<Inode>, parts: seq<Name>, k: nat): (r: int)
    requires k <= |parts|
  {
    WalkDirs(inodes, 0, parts[..k])
  }

  lemma VisitRoot(inodes: seq<Inode>, parts: seq<Name>)
    ensures Visit(inodes, parts, 0) == 0
  {
  }

  lemma VisitStep(inodes: seq<Inode>, parts: seq<Name>, k: nat)
    requires 0 < k <= |parts|
    ensures Visit(inodes, parts, k) ==
            (var d := Visit(inodes, parts, k - 1); if d < 0 then -1 else FindChild(inodes, d, parts[k - 1], TYPE_DIR))
  {
    assert parts[..k] == parts[..k - 1] + [parts[k - 1]];
    WalkDirsSnoc(inodes, 0, parts[..k - 1], parts[k - 1]);
  }

  predicate NoneEmpty(parts: seq<Name>)
  {
    forall i :: 0 <= i < |parts| ==> parts[i] != []
  }

  /** A walk from the root never comes to a directory twice, even in a table whose parent links run in circles. */
  lemma {:induction false} NoRevisit(inodes: seq<Inode>, count: nat, parts: seq<Name>, k: nat, m: nat)
    requires TreeOk(inodes, count) && NoneEmpty(parts) && k < m <= |parts| && Visit(inodes, parts, m) >= 0
    ensures Visit(inodes, parts, k) != Visit(inodes, parts, m)
    decreases k
  {
    hide WalkDirs, CName, UniqueNames;
    VisitRoot(inodes, parts);
    VisitStep(inodes, parts, m);
    if k > 0 {
      VisitStep(inodes, parts, k);
      NoRevisit(inodes, count, parts, k - 1, m - 1);
    }
  }

  /** A file that takes the name of a directory. */
  ghost predicate Beside(before: seq<Inode>, after: seq<Inode>, count: nat, key: Key, file: nat, dir: nat)
  {
    && 1 <= file < |before| == |after| && 1 <= dir < |before|
    && before[dir].kind == TYPE_DIR && KeyOf(before[dir]) == key
    && LowestFree(before, file) && after == before[file := after[file]]
    && after[file].kind == TYPE_FILE && KeyOf(after[file]) == key
    && TreeOk(before, count) && UniqueNames(before)
  }

  /** There is such a file, and the path opens it exactly when its inode number is lower. */
  ghost predicate OpensIfFirst(before: seq<Inode>, after: seq<Inode>, count: nat, key: Key, path: Path, dir: nat)
  {
    && |after| > 0
    && exists file: nat ::
         && Beside(before, after, count, key, file, dir)
         && FindFile(after, path) == if file < dir then file else -1
  }

  lemma OnlyTwo(before: seq<Inode>, after: seq<Inode>, count: nat, key: Key, file: nat, dir: nat)
    requires Beside(before, after, count, key, file, dir) && key.name != []
    ensures forall i ::
              0 <= i < |after| && after[i].kind != TYPE_FREE && KeyOf(after[i]) == key ==> i == file || i == dir
  {
    hide CName;
  }

  lemma OtherNames(before: seq<Inode>, after: seq<Inode>, count: nat, key: Key, file: nat, dir: nat, from: nat,
                   name: Name)
    requires Beside(before, after, count, key, file, dir) && Key(from, name) != key
    ensures FindChild(after, from, name, 0) == FindChild(before, from, name, 0)
  {
    hide CName, TreeOk, UniqueNames;
    forall j | 0 <= j < |before| ensures IsChild(after[j], from, name, 0) == IsChild(before[j], from, name, 0) {
    }
  }

  /** The new file changes no walk to its own directory. */
  lemma {:induction false} SameWay(before: seq<Inode>, after: seq<Inode>, count: nat, key: Key, file: nat, dir: nat,
                                   parts: seq<Name>, k: nat)
    requires Beside(before, after, count, key, file, dir)
    requires NoneEmpty(parts) && k <= |parts| && Visit(before, parts, |parts|) == key.parent
    requires Visit(before, parts, k) >= 0
    ensures Walk(after, 0, parts[..k]) == Visit(before, parts, k)
  {
    hide TreeOk, UniqueNames, WalkDirs, FindChild, IsChild;
    VisitRoot(before, parts);
    if k > 0 {
      VisitStep(before, parts, k);
      SameWay(before, after, count, key, file, dir, parts, k - 1);
      var d, name := Visit(before, parts, k - 1), parts[k - 1];
      assert parts[..k] == parts[..k - 1] + [name];
      WalkSnoc(after, 0, parts[..k - 1], name);
      KindChild(before, count, d, name, TYPE_DIR);
      NoRevisit(before, count, parts, k - 1, |parts|);
      OtherNames(before, after, count, key, file, dir, d, name);
    }
  }

  /** A write to a directory's own name makes a file beside it, which the path opens exactly when its inode number is
      lower. */
  lemma BesideDirectory(before: seq<Inode>, after: seq<Inode>, count: nat, path: Path, file: nat, dir: nat)
    requires Target(before, path).Some? && Beside(before, after, count, Target(before, path).value, file, dir)
    ensures PlainFile(after, path) == if file < dir then file else -1
  {
    hide TreeOk, UniqueNames, WalkDirs, CName, FindChild, ComponentsFrom;
    var parts, key := Components(path), Target(before, path).value;
    forall i | 0 <= i < |parts| ensures parts[i] != [] {
      ComponentShape(path, 0, i);
    }
    var dirs := parts[..|parts| - 1];
    assert parts == dirs + [key.name] && dirs[..|dirs|] == dirs;
    SameWay(before, after, count, key, file, dir, dirs, |dirs|);
    WalkSnoc(after, 0, dirs, key.name);
    OnlyTwo(before, after, count, key, file, dir);
    SharedName(after, file, dir);
  }
}

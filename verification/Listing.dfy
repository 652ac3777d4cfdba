/** The list of file names that the kernel shows, and why its entries can be opened. */
module Listing {
  import opened SectorCache
  import opened DiskFormat
  import opened Paths

  /** Bytes of a listed name that fit before the terminating zero. */
  const MAX_LISTED: nat := 63

  function Cut(p: seq<Byte>): (r: seq<Byte>)
    ensures |r| <= MAX_LISTED
  {
    if |p| <= MAX_LISTED then p else p[..MAX_LISTED]
  }

  /** The directory part shown for inode `i`: one level at most. */
  function ShownDirs(inodes: seq<Inode>, i: nat): (r: seq<Name>)
    requires i < |inodes| && inodes[i].parent < |inodes|
  {
    var p := inodes[i].parent;
    if p != 0 && inodes[p].kind == TYPE_DIR then [CName(inodes[p].name)] else []
  }

  function ListedName(inodes: seq<Inode>, i: nat): (r: seq<Byte>)
    requires i < |inodes| && inodes[i].parent < |inodes|
  {
    Cut(Join(ShownDirs(inodes, i) + [CName(inodes[i].name)]))
  }

  /** Indices of the files among the first `n` inodes, in order. */
  function FileIndices(inodes: seq<Inode>, n: nat): (r: seq<nat>)
    requires n <= |inodes|
    ensures forall k :: 0 <= k < |r| ==> r[k] < n && inodes[r[k]].kind == TYPE_FILE
  {
    if n == 0 then []
    else if inodes[n - 1].kind == TYPE_FILE then FileIndices(inodes, n - 1) + [n - 1]
    else FileIndices(inodes, n - 1)
  }

  /** Every file is listed, and listed once: the list is strictly increasing and complete. */
  lemma {:induction false} ListedOnce(inodes: seq<Inode>, n: nat)
    requires n <= |inodes|
    ensures forall j, k ::
              0 <= j < k < |FileIndices(inodes, n)| ==> FileIndices(inodes, n)[j] < FileIndices(inodes, n)[k]
    ensures forall i :: 0 <= i < n && inodes[i].kind == TYPE_FILE ==> i in FileIndices(inodes, n)
  {
    if n > 0 {
      ListedOnce(inodes, n - 1);
    }
  }

  /** The conditions under which the shown name is the real one. */
  predicate Listable(inodes: seq<Inode>, i: nat)
    requires i < |inodes|
  {
    && inodes[i].parent < |inodes|
    && Component(CName(inodes[i].name)) && |CName(inodes[i].name)| <= MAX_PART
    && var p := inodes[i].parent;
       p == 0 || (inodes[p].kind == TYPE_DIR && inodes[p].parent == 0 && Component(CName(inodes[p].name))
           && |CName(inodes[p].name)| <= MAX_PART)
  }

  /** Short components are shown in full and read back. */
  lemma ShownInFull(dirs: seq<Name>, leaf: Name)
    requires |dirs| <= 1 && Component(leaf) && |leaf| <= MAX_PART
    requires forall i :: 0 <= i < |dirs| ==> Component(dirs[i]) && |dirs[i]| <= MAX_PART
    ensures Components(Cut(Join(dirs + [leaf]))) == dirs + [leaf]
  {
    var parts := dirs + [leaf];
    assert parts[1..] == if dirs == [] then [] else [leaf];
    assert |Join([leaf])| == 1 + |leaf|;
    assert |Join(parts)| <= 62;
    PathsParse(parts);
  }

  lemma WalkOne(inodes: seq<Inode>, from: nat, leaf: Name)
    ensures Walk(inodes, from, [leaf]) == FindChild(inodes, from, leaf, 0)
  {
  }

  lemma WalkTwo(inodes: seq<Inode>, dir: Name, leaf: Name, p: nat)
    requires FindChild(inodes, 0, dir, 0) == p
    ensures Walk(inodes, 0, [dir] + [leaf]) == FindChild(inodes, p, leaf, 0)
  {
    assert ([dir] + [leaf])[1..] == [leaf];
    WalkOne(inodes, p, leaf);
  }

  /** Looking up a listed name finds the listed file. */
  lemma ListedNameOpens(inodes: seq<Inode>, count: nat, i: nat)
    requires TreeOk(inodes, count) && UniqueNames(inodes)
    requires i < |inodes| && inodes[i].kind == TYPE_FILE && Listable(inodes, i)
    ensures Walk(inodes, 0, Components(ListedName(inodes, i))) == i
  {
    var p, leaf := inodes[i].parent, CName(inodes[i].name);
    FindChildUnique(inodes, count, i, 0);
    ShownInFull(ShownDirs(inodes, i), leaf);
    if p == 0 {
      assert [] + [leaf] == [leaf];
      WalkOne(inodes, 0, leaf);
    } else {
      FindChildUnique(inodes, count, p, 0);
      WalkTwo(inodes, CName(inodes[p].name), leaf, p);
    }
  }

  /** The visible list: the files among the first `count` inodes, each with its printed name. */
  ghost predicate IsListing(inodes: seq<Inode>, count: nat, indices: seq<nat>, names: seq<seq<Byte>>)
  {
    && count <= |inodes| && indices == FileIndices(inodes, count) && |names| == |indices|
    && forall k :: 0 <= k < |indices| ==>
         inodes[indices[k]].parent < |inodes| && names[k] == ListedName(inodes, indices[k])
  }

  // ---------------------------------------------------------------- building the list

  lemma CutMore(out: seq<Byte>, more: seq<Byte>)
    ensures Cut(Cut(out) + more) == Cut(out + more)
  {
  }

  lemma {:induction false} JoinMore(dirs: seq<Name>, leaf: Name)
    ensures Join(dirs + [leaf]) == Join(dirs) + [SLASH] + leaf
  {
    if dirs == [] {
      assert dirs + [leaf] == [leaf];
      assert Join([leaf]) == [SLASH] + leaf + Join([]);
    } else {
      JoinMore(dirs[1..], leaf);
      assert (dirs + [leaf])[1..] == dirs[1..] + [leaf];
    }
  }

  lemma {:induction false} CNamePrefix(field: seq<Byte>, j: nat)
    requires j <= |field| && forall k :: 0 <= k < j ==> field[k] != 0
    ensures CName(field) == field[..j] + CName(field[j..])
  {
    if j == 0 {
      assert field[0..] == field;
    } else {
      CNamePrefix(field[1..], j - 1);
      assert field[1..][j - 1..] == field[j..];
      assert field[..j] == [field[0]] + field[1..][..j - 1];
    }
  }

  /** Append a stored name while room is left for the terminating zero. */
  method AppendName(out: seq<Byte>, field: NameField) returns (r: seq<Byte>)
    requires |out| <= MAX_LISTED
    ensures r == Cut(out + CName(field))
  {
    r := out;
    var j := 0;
    while j < NAME_BYTES && field[j] != 0 && |r| < MAX_LISTED
      invariant j <= NAME_BYTES && r == out + field[..j] && |r| <= MAX_LISTED
      invariant forall k :: 0 <= k < j ==> field[k] != 0
    {
      r := r + [field[j]];
      j := j + 1;
    }
    CNamePrefix(field, j);
    if j < NAME_BYTES && field[j] != 0 {
      assert (out + CName(field))[..|r|] == r;
    } else {
      assert CName(field[j..]) == [];
    }
  }
}

/** File extents and the sector bitmap: what a consistent volume is, and why
    replacing one inode together with its sectors keeps it consistent. */
module Extents {
  import opened Bits
  import opened SectorCache
  import opened DiskFormat

  predicate IsFile(n: Inode)
  {
    n.kind == TYPE_FILE
  }

  /** `sectors_for_size` */
  function SectorsFor(size: nat): (n: nat)
    ensures n >= 1 && size <= n * SECTOR_SIZE
    ensures n > 1 ==> (n - 1) * SECTOR_SIZE < size
  {
    if (size + SECTOR_SIZE - 1) / SECTOR_SIZE == 0 then 1 else (size + SECTOR_SIZE - 1) / SECTOR_SIZE
  }

  /** Sector `s` belongs to the file with inode `n`. */
  predicate Covers(n: Inode, s: nat)
  {
    IsFile(n) && n.first <= s < n.first + n.count
  }

  predicate Marked(bm: Sector, s: nat)
    requires s < TOTAL_SECTORS
  {
    Bit(bm[s / 8], s % 8)
  }

  /** Sector `s` is bit `s % 8` of byte `s / 8`, from the low end. */
  lemma MarkedIsShift(bm: Sector, s: nat)
    requires s < TOTAL_SECTORS
    ensures Marked(bm, s) <==> bm[s / 8] / Pow2(s % 8) % 2 == 1
  {
    BitIsShift(bm[s / 8], s % 8);
  }

  /** `bitmap_set` */
  function Mark(bm: Sector, s: nat, used: bool): (r: Sector)
    requires s < TOTAL_SECTORS
    ensures forall t :: 0 <= t < TOTAL_SECTORS ==> Marked(r, t) == if s == t then used else Marked(bm, t)
  {
    assert Pow2(8) == 256;
    BitWeight(bm[s / 8], s % 8, 8);
    var r := bm[s / 8 := if used then SetBit(bm[s / 8], s % 8) else ClearBit(bm[s / 8], s % 8)];
    assert forall t :: 0 <= t < TOTAL_SECTORS ==> Marked(r, t) == if s == t then used else Marked(bm, t) by {
      forall t | 0 <= t < TOTAL_SECTORS ensures Marked(r, t) == if s == t then used else Marked(bm, t) {
        SetBitIsOr(bm[s / 8], s % 8, t % 8);
        ClearBitIsAndNot(bm[s / 8], s % 8, t % 8);
      }
    }
    r
  }

  predicate RunFree(bm: Sector, first: nat, n: nat)
    requires first + n <= TOTAL_SECTORS
  {
    forall s :: first <= s < first + n ==> !Marked(bm, s)
  }

  /** `r` is `bm` with the sectors of one run marked or cleared. */
  ghost predicate RunSet(bm: Sector, first: nat, n: nat, used: bool, r: Sector)
  {
    forall s :: 0 <= s < TOTAL_SECTORS ==> Marked(r, s) == if first <= s < first + n then used else Marked(bm, s)
  }

  // ---------------------------------------------------------------- consistency

  predicate InBounds(dataStart: nat, n: Inode)
  {
    IsFile(n) ==> dataStart <= n.first && n.first + n.count <= TOTAL_SECTORS
  }

  ghost predicate AllInBounds(dataStart: nat, inodes: seq<Inode>)
  {
    forall i :: 0 <= i < |inodes| ==> InBounds(dataStart, inodes[i])
  }

  ghost predicate NoOverlap(inodes: seq<Inode>)
  {
    forall i, j, s :: 0 <= i < j < |inodes| && Covers(inodes[i], s) ==> !Covers(inodes[j], s)
  }

  ghost predicate InSomeFile(inodes: seq<Inode>, s: nat)
  {
    exists i :: 0 <= i < |inodes| && Covers(inodes[i], s)
  }

  ghost predicate BitmapExact(dataStart: nat, inodes: seq<Inode>, bm: Sector)
  {
    forall s :: 0 <= s < TOTAL_SECTORS ==> (Marked(bm, s) <==> s < dataStart || InSomeFile(inodes, s))
  }

  /** What fsck is meant to decide. */
  ghost predicate Consistent(dataStart: nat, inodes: seq<Inode>, bm: Sector)
  {
    AllInBounds(dataStart, inodes) && NoOverlap(inodes) && BitmapExact(dataStart, inodes, bm)
  }

  ghost predicate InOtherFile(inodes: seq<Inode>, i: nat, s: nat)
  {
    exists j :: 0 <= j < |inodes| && j != i && Covers(inodes[j], s)
  }

  lemma InSomeFileAfter(inodes: seq<Inode>, i: nat, n: Inode, s: nat)
    requires i < |inodes|
    ensures InSomeFile(inodes[i := n], s) <==> Covers(n, s) || InOtherFile(inodes, i, s)
  {
    var inodes' := inodes[i := n];
    assert inodes'[i] == n;
    if InOtherFile(inodes, i, s) {
      var j :| 0 <= j < |inodes| && j != i && Covers(inodes[j], s);
      assert inodes'[j] == inodes[j];
    }
  }

  /** Inode `i` is replaced by `n`; the bitmap gives up the sectors of the old extent and takes those of the new. */
  lemma ReplaceInode(dataStart: nat, inodes: seq<Inode>, bm: Sector, i: nat, n: Inode, bm': Sector)
    requires Consistent(dataStart, inodes, bm) && i < |inodes| && dataStart <= TOTAL_SECTORS
    requires InBounds(dataStart, n)
    requires forall s :: 0 <= s < TOTAL_SECTORS && Covers(n, s) ==> !Marked(bm, s) || Covers(inodes[i], s)
    requires forall s ::
               0 <= s < TOTAL_SECTORS ==> (Marked(bm', s) <==> (Marked(bm, s) && !Covers(inodes[i], s)) || Covers(n, s))
    ensures Consistent(dataStart, inodes[i := n], bm')
  {
    var inodes' := inodes[i := n];
    forall s | 0 <= s < TOTAL_SECTORS
      ensures Marked(bm', s) <==> s < dataStart || InSomeFile(inodes', s)
      ensures InOtherFile(inodes, i, s) ==> !Covers(n, s)
    {
      InSomeFileAfter(inodes, i, n, s);
      InSomeFileAfter(inodes, i, inodes[i], s);
      assert inodes[i := inodes[i]] == inodes;
    }
    forall j, k, s | 0 <= j < k < |inodes'| && Covers(inodes'[j], s)
      ensures !Covers(inodes'[k], s)
    {
      if j == i {
        assert Covers(inodes[k], s) ==> InOtherFile(inodes, i, s);
      } else if k == i {
        assert Covers(inodes[j], s) && InOtherFile(inodes, i, s);
      }
    }
  }

  // ---------------------------------------------------------------- file contents

  /** Byte `k` of the data that starts at sector `first`. */
  function ByteAt(view: seq<Sector>, first: nat, k: nat): (b: Byte)
    requires first + k / SECTOR_SIZE < |view|
  {
    view[first + k / SECTOR_SIZE][k % SECTOR_SIZE]
  }

  /** `size` bytes of data starting at sector `first`. */
  function Data(view: seq<Sector>, first: nat, size: nat): (d: seq<Byte>)
    requires first + SectorsFor(size) <= |view|
    ensures |d| == size
    ensures forall k {:trigger d[k]} :: 0 <= k < size ==> d[k] == ByteAt(view, first, k)
  {
    seq(size, k requires 0 <= k < size => ByteAt(view, first, k))
  }

  lemma DataFrame(view: seq<Sector>, view': seq<Sector>, first: nat, size: nat)
    requires |view| == |view'| && first + SectorsFor(size) <= |view|
    requires forall s :: first <= s < first + SectorsFor(size) ==> view'[s] == view[s]
    ensures Data(view', first, size) == Data(view, first, size)
  {
  }
}

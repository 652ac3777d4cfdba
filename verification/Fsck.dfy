/** `diskfs_fsck` decides consistency. */
module Fsck {
  import opened Bits
  import opened SectorCache
  import opened DiskFormat
  import opened Extents

  method MarkSeen(seen: array<Byte>, s: nat)
    requires seen.Length == SECTOR_SIZE && s < TOTAL_SECTORS
    modifies seen
    ensures seen[..] == Mark(old(seen[..]), s, true)
  {
    assert Pow2(8) == 256;
    BitWeight(seen[s / 8], s % 8, 8);
    seen[s / 8] := SetBit(seen[s / 8], s % 8);
  }

  /** The sectors before the data area. */
  method MarkMetadata(dataStart: nat) returns (seen: array<Byte>)
    requires dataStart <= TOTAL_SECTORS
    ensures fresh(seen) && seen.Length == SECTOR_SIZE
    ensures forall s :: 0 <= s < TOTAL_SECTORS ==> (Marked(seen[..], s) <==> s < dataStart)
  {
    seen := new Byte[SECTOR_SIZE](_ => 0);
    forall s | 0 <= s < TOTAL_SECTORS ensures !Marked(seen[..], s) {
      NoBits(s % 8);
    }
    var sector := 0;
    while sector < dataStart
      invariant sector <= dataStart
      invariant forall s :: 0 <= s < TOTAL_SECTORS ==> (Marked(seen[..], s) <==> s < sector)
    {
      MarkSeen(seen, sector);
      sector := sector + 1;
    }
  }

  // ---------------------------------------------------------------- what is counted

  /** A sector of the metadata, or of a file that lies inside the data area. */
  ghost predicate Seen(dataStart: nat, inodes: seq<Inode>, s: nat)
  {
    s < dataStart || exists j :: 0 <= j < |inodes| && InBounds(dataStart, inodes[j]) && Covers(inodes[j], s)
  }

  /** How many of the sectors from `first` on have been seen. */
  ghost function SeenAgain(dataStart: nat, inodes: seq<Inode>, first: nat, count: nat): (n: nat)
  {
    if count == 0 then 0
    else SeenAgain(dataStart, inodes, first, count - 1) + if Seen(dataStart, inodes, first + count - 1) then 1 else 0
  }

  /** The errors among the first `n` inodes: one for each file out of bounds, and one for each sector of a file that
      was seen before. */
  ghost function FileErrors(dataStart: nat, inodes: seq<Inode>, n: nat): (e: nat)
    requires n <= |inodes|
  {
    if n == 0 then 0
    else
      var i := inodes[n - 1];
      FileErrors(dataStart, inodes, n - 1) +
      if !IsFile(i) then 0
      else if !InBounds(dataStart, i) then 1
      else SeenAgain(dataStart, inodes[..n - 1], i.first, i.count)
  }

  /** The bits set are those of the sectors seen. */
  ghost predicate Tracks(dataStart: nat, inodes: seq<Inode>, bits: Sector)
  {
    forall s :: 0 <= s < TOTAL_SECTORS ==> (Marked(bits, s) <==> Seen(dataStart, inodes, s))
  }

  /** Everything that `diskfs_fsck` counts. */
  ghost function Errors(dataStart: nat, inodes: seq<Inode>, bm: Sector): (e: nat)
  {
    FileErrors(dataStart, inodes, |inodes|) + if Tracks(dataStart, inodes, bm) then 0 else 1
  }

  lemma {:induction false} SeenAgainNone(dataStart: nat, inodes: seq<Inode>, first: nat, count: nat)
    ensures SeenAgain(dataStart, inodes, first, count) == 0 <==>
              forall s :: first <= s < first + count ==> !Seen(dataStart, inodes, s)
  {
    if count > 0 {
      SeenAgainNone(dataStart, inodes, first, count - 1);
    }
  }

  /** No errors among the files exactly when they are in bounds and disjoint. */
  lemma {:induction false} NoFileErrors(dataStart: nat, inodes: seq<Inode>, n: nat)
    requires n <= |inodes|
    ensures FileErrors(dataStart, inodes, n) == 0 <==> AllInBounds(dataStart, inodes[..n]) && NoOverlap(inodes[..n])
  {
    hide AllInBounds, NoOverlap, Seen;
    if n == 0 {
      NothingOverlaps(dataStart, inodes[..0]);
    } else {
      var i := inodes[n - 1];
      NoFileErrors(dataStart, inodes, n - 1);
      PrefixOfGood(dataStart, inodes, n - 1);
      if IsFile(i) && InBounds(dataStart, i) {
        SeenAgainNone(dataStart, inodes[..n - 1], i.first, i.count);
        if AllInBounds(dataStart, inodes[..n - 1]) && NoOverlap(inodes[..n - 1]) {
          OneMoreFile(dataStart, inodes, n - 1);
        }
      }
    }
  }

  lemma NothingOverlaps(dataStart: nat, inodes: seq<Inode>)
    requires inodes == []
    ensures AllInBounds(dataStart, inodes) && NoOverlap(inodes)
  {
  }

  /** One more file: its sectors are new exactly when the extents stay disjoint. */
  lemma OneMoreFile(dataStart: nat, inodes: seq<Inode>, i: nat)
    requires i < |inodes| && AllInBounds(dataStart, inodes[..i]) && NoOverlap(inodes[..i])
    requires IsFile(inodes[i]) && InBounds(dataStart, inodes[i])
    ensures (forall s :: inodes[i].first <= s < inodes[i].first + inodes[i].count ==>
               !Seen(dataStart, inodes[..i], s)) <==>
              NoOverlap(inodes[..i + 1])
  {
    var n, prefix, more := inodes[i], inodes[..i], inodes[..i + 1];
    assert more[i] == n && forall j :: 0 <= j < i ==> more[j] == prefix[j];
    if forall s :: n.first <= s < n.first + n.count ==> !Seen(dataStart, prefix, s) {
      forall j, k, s | 0 <= j < k < |more| && Covers(more[j], s) ensures !Covers(more[k], s) {
        if k == i {
          assert Covers(prefix[j], s) && Seen(dataStart, prefix, s);
        } else {
          assert more[j] == prefix[j] && more[k] == prefix[k];
        }
      }
    } else {
      var s :| n.first <= s < n.first + n.count && Seen(dataStart, prefix, s);
      var j :| 0 <= j < |prefix| && Covers(prefix[j], s);
      assert Covers(more[j], s) && Covers(more[i], s);
    }
  }

  /** A bad prefix stays bad. */
  lemma PrefixOfGood(dataStart: nat, inodes: seq<Inode>, i: nat)
    requires i < |inodes|
    ensures AllInBounds(dataStart, inodes[..i + 1]) <==>
              AllInBounds(dataStart, inodes[..i]) && InBounds(dataStart, inodes[i])
    ensures NoOverlap(inodes[..i + 1]) ==> NoOverlap(inodes[..i])
    ensures NoOverlap(inodes[..i]) && !IsFile(inodes[i]) ==> NoOverlap(inodes[..i + 1])
  {
  }

  /** Nothing is counted exactly when the volume is consistent. */
  lemma NoErrors(dataStart: nat, inodes: seq<Inode>, bm: Sector)
    requires dataStart <= TOTAL_SECTORS
    ensures Errors(dataStart, inodes, bm) == 0 <==> Consistent(dataStart, inodes, bm)
  {
    NoFileErrors(dataStart, inodes, |inodes|);
    assert inodes[..|inodes|] == inodes;
    if AllInBounds(dataStart, inodes) {
      forall s: nat ensures Seen(dataStart, inodes, s) <==> s < dataStart || InSomeFile(inodes, s) {
        if InSomeFile(inodes, s) {
          var j :| 0 <= j < |inodes| && Covers(inodes[j], s);
          assert InBounds(dataStart, inodes[j]);
        }
      }
    }
  }

  // ---------------------------------------------------------------- the code

  /** Mark one file's sectors and count those that were marked before. */
  method MarkFile(dataStart: nat, ghost inodes: seq<Inode>, seen: array<Byte>, n: Inode) returns (overlaps: nat)
    requires seen.Length == SECTOR_SIZE && IsFile(n) && n.first + n.count <= TOTAL_SECTORS
    requires Tracks(dataStart, inodes, seen[..])
    modifies seen
    ensures RunSet(old(seen[..]), n.first, n.count, true, seen[..])
    ensures overlaps == SeenAgain(dataStart, inodes, n.first, n.count)
  {
    hide Seen;
    overlaps := 0;
    ghost var before: Sector := seen[..];
    var i := 0;
    while i < n.count
      invariant i <= n.count && RunSet(before, n.first, i, true, seen[..])
      invariant overlaps == SeenAgain(dataStart, inodes, n.first, i)
    {
      var sector := n.first + i;
      assert Marked(seen[..], sector) <==> Marked(before, sector);
      if Marked(seen[..], sector) {
        overlaps := overlaps + 1;
      }
      MarkSeen(seen, sector);
      i := i + 1;
    }
  }

  /** The extent ends are computed in 32 bits; past a wrapped end the source would mark memory it does not own. */
  predicate EndsDoNotWrap(inodes: seq<Inode>)
  {
    forall i :: 0 <= i < |inodes| && IsFile(inodes[i]) ==> inodes[i].first + inodes[i].count < 0x1_0000_0000
  }

  lemma TracksMore(dataStart: nat, inodes: seq<Inode>, i: nat, bits: Sector, bits': Sector)
    requires i < |inodes| && Tracks(dataStart, inodes[..i], bits)
    requires if IsFile(inodes[i]) && InBounds(dataStart, inodes[i])
             then RunSet(bits, inodes[i].first, inodes[i].count, true, bits') else bits' == bits
    ensures Tracks(dataStart, inodes[..i + 1], bits')
  {
    var prefix, more := inodes[..i], inodes[..i + 1];
    assert more[i] == inodes[i] && forall j :: 0 <= j < i ==> more[j] == prefix[j];
    forall s | 0 <= s < TOTAL_SECTORS
      ensures Seen(dataStart, more, s) <==>
                Seen(dataStart, prefix, s) || (InBounds(dataStart, inodes[i]) && Covers(inodes[i], s))
    {
      SeenMore(dataStart, prefix, inodes[i], s);
      assert more == prefix + [inodes[i]];
    }
  }

  lemma SeenMore(dataStart: nat, prefix: seq<Inode>, n: Inode, s: nat)
    ensures Seen(dataStart, prefix + [n], s) <==> Seen(dataStart, prefix, s) || (InBounds(dataStart, n) && Covers(n, s))
  {
    var more := prefix + [n];
    assert more[|prefix|] == n && forall j :: 0 <= j < |prefix| ==> more[j] == prefix[j];
  }

  /** The scan over the inodes: bounds and overlaps. */
  method ScanFiles(dataStart: nat, inodes: seq<Inode>, seen: array<Byte>) returns (errors: nat)
    requires seen.Length == SECTOR_SIZE && dataStart <= TOTAL_SECTORS
    requires forall s :: 0 <= s < TOTAL_SECTORS ==> (Marked(seen[..], s) <==> s < dataStart)
    requires EndsDoNotWrap(inodes)
    modifies seen
    ensures errors == FileErrors(dataStart, inodes, |inodes|) && Tracks(dataStart, inodes, seen[..])
  {
    errors := 0;
    var i := 0;
    while i < |inodes|
      invariant i <= |inodes|
      invariant errors == FileErrors(dataStart, inodes, i) && Tracks(dataStart, inodes[..i], seen[..])
    {
      hide Mark, Tracks, RunSet, Marked;
      ghost var before: Sector := seen[..];
      var n := inodes[i];
      if IsFile(n) {
        if n.first < dataStart || (n.first + n.count) % 0x1_0000_0000 > TOTAL_SECTORS {
          errors := errors + 1;
        } else {
          var overlaps := MarkFile(dataStart, inodes[..i], seen, n);
          errors := errors + overlaps;
        }
      }
      TracksMore(dataStart, inodes, i, before, seen[..]);
      i := i + 1;
    }
    assert inodes[..i] == inodes;
  }

  /** `diskfs_fsck` on a mounted volume: the number it reports, which is zero exactly when the volume is consistent. */
  method Check(dataStart: nat, inodes: seq<Inode>, bitmap: array<Byte>) returns (errors: nat)
    requires bitmap.Length == SECTOR_SIZE && dataStart <= TOTAL_SECTORS && EndsDoNotWrap(inodes)
    ensures errors == Errors(dataStart, inodes, bitmap[..])
    ensures errors == 0 <==> Consistent(dataStart, inodes, bitmap[..])
  {
    hide Seen, Consistent;
    NoErrors(dataStart, inodes, bitmap[..]);
    var seen := MarkMetadata(dataStart);
    errors := ScanFiles(dataStart, inodes, seen);
    ghost var files := errors;
    var sector := 0;
    while sector < TOTAL_SECTORS
      invariant sector <= TOTAL_SECTORS && errors == files
      invariant forall s :: 0 <= s < sector ==> Marked(bitmap[..], s) == Marked(seen[..], s)
    {
      if Marked(bitmap[..], sector) != Marked(seen[..], sector) {
        errors := errors + 1;
        break;
      }
      sector := sector + 1;
    }
  }
}

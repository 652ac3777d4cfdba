/** The diskfs v2 on-disk format: superblock, inode and bitmap sectors as bytes. */
module DiskFormat {
  import opened SectorCache

  const MAGIC: U32 := 0x3246594D
  const JOURNAL_MAGIC: U32 := 0x324E524A
  const TOTAL_SECTORS: nat := 4096
  const MAX_INODES: nat := 64
  const INODE_SIZE: nat := 64
  const PER_SECTOR: nat := 8
  const TYPE_FREE: Byte := 0
  const TYPE_FILE: Byte := 1
  const TYPE_DIR: Byte := 2
  const NAME_BYTES: nat := 32

  type U16 = x: int | 0 <= x < 0x1_0000
  type U32 = x: int | 0 <= x < 0x1_0000_0000
  type NameField = s: seq<Byte> | |s| == NAME_BYTES witness seq(NAME_BYTES, _ => 0)
  type Reserved = s: seq<Byte> | |s| == 12 witness seq(12, _ => 0)

  datatype Superblock = Superblock(
    magic: U32, totalSectors: U32, maxInodes: U32, inodeCount: U32, bitmapStart: U32,
    bitmapSectors: U32, inodeStart: U32, inodeSectors: U32, dataStart: U32, journalState: U32)

  datatype Inode = Inode(
    kind: Byte, reserved0: Byte, flags: U16, size: U32, first: U32, count: U32,
    parent: U32, name: NameField, reserved: Reserved)

  function Zeros(n: nat): (z: seq<Byte>)
    ensures |z| == n && forall i :: 0 <= i < n ==> z[i] == 0
  {
    seq(n, _ => 0)
  }

  const FREE_INODE: Inode := Inode(0, 0, 0, 0, 0, 0, 0, Zeros(NAME_BYTES), Zeros(12))

  // ---------------------------------------------------------------- little-endian words

  function Le32(v: U32): (b: seq<Byte>)
    ensures |b| == 4
  {
    [v % 256, (v / 0x100) % 256, (v / 0x1_0000) % 256, v / 0x100_0000]
  }

  function Word(b: seq<Byte>, at: nat): (v: U32)
    requires at + 4 <= |b|
  {
    var b0: int, b1: int, b2: int, b3: int := b[at], b[at + 1], b[at + 2], b[at + 3];
    b0 + 0x100 * b1 + 0x1_0000 * b2 + 0x100_0000 * b3
  }

  /** The little-endian value of `n` bytes. */
  function Value(b: seq<Byte>, at: nat, n: nat): (v: nat)
    requires at + n <= |b|
    decreases n
  {
    if n == 0 then 0 else b[at] as int + 256 * Value(b, at + 1, n - 1)
  }

  lemma WordIsValue(b: seq<Byte>, at: nat)
    requires at + 4 <= |b|
    ensures Word(b, at) == Value(b, at, 4)
  {
    assert Value(b, at, 4) == b[at] as int + 256 * Value(b, at + 1, 3);
    assert Value(b, at + 1, 3) == b[at + 1] as int + 256 * Value(b, at + 2, 2);
  }

  lemma Digits(v: U32)
    ensures var b := Le32(v); b[0] as int + 0x100 * b[1] as int + 0x1_0000 * b[2] as int + 0x100_0000 * b[3] as int == v
  {
  }

  lemma WordOfLe32(v: U32, before: seq<Byte>, after: seq<Byte>)
    ensures Word(before + Le32(v) + after, |before|) == v
  {
    hide Le32;
    Digits(v);
    var b := before + Le32(v) + after;
    assert b[|before|] == Le32(v)[0] && b[|before| + 1] == Le32(v)[1] && b[|before| + 2] == Le32(v)[2]
           && b[|before| + 3] == Le32(v)[3];
  }

  function Words(ws: seq<U32>): (b: seq<Byte>)
    ensures |b| == 4 * |ws|
  {
    if ws == [] then [] else Le32(ws[0]) + Words(ws[1..])
  }

  /** Word `i` of an encoded run of words, at any offset in a buffer. */
  lemma {:induction false} WordOfWords(ws: seq<U32>, i: nat, before: seq<Byte>, after: seq<Byte>)
    requires i < |ws|
    ensures Word(before + Words(ws) + after, |before| + 4 * i) == ws[i]
    decreases i
  {
    if i == 0 {
      WordOfLe32(ws[0], before, Words(ws[1..]) + after);
      assert before + Words(ws) + after == before + Le32(ws[0]) + (Words(ws[1..]) + after);
    } else {
      WordOfWords(ws[1..], i - 1, before + Le32(ws[0]), after);
      assert before + Words(ws) + after == before + Le32(ws[0]) + Words(ws[1..]) + after;
    }
  }

  // ---------------------------------------------------------------- superblock

  function Fields(sb: Superblock): (ws: seq<U32>)
  {
    [sb.magic, sb.totalSectors, sb.maxInodes, sb.inodeCount, sb.bitmapStart,
     sb.bitmapSectors, sb.inodeStart, sb.inodeSectors, sb.dataStart, sb.journalState]
  }

  function EncodeSuperblock(sb: Superblock): (s: Sector)
  {
    Words(Fields(sb)) + Zeros(SECTOR_SIZE - 40)
  }

  function DecodeSuperblock(s: Sector): (sb: Superblock)
  {
    Superblock(Word(s, 0), Word(s, 4), Word(s, 8), Word(s, 12), Word(s, 16),
               Word(s, 20), Word(s, 24), Word(s, 28), Word(s, 32), Word(s, 36))
  }

  lemma SuperblockRoundTrip(sb: Superblock)
    ensures DecodeSuperblock(EncodeSuperblock(sb)) == sb
  {
    var ws := Fields(sb);
    forall i | 0 <= i < 10 ensures Word(EncodeSuperblock(sb), 4 * i) == ws[i] {
      WordOfWords(ws, i, [], Zeros(SECTOR_SIZE - 40));
      assert [] + Words(ws) + Zeros(SECTOR_SIZE - 40) == EncodeSuperblock(sb);
    }
    assert Word(EncodeSuperblock(sb), 4 * 0) == ws[0];
    assert Word(EncodeSuperblock(sb), 4 * 1) == ws[1];
    assert Word(EncodeSuperblock(sb), 4 * 2) == ws[2];
    assert Word(EncodeSuperblock(sb), 4 * 3) == ws[3];
    assert Word(EncodeSuperblock(sb), 4 * 4) == ws[4];
    assert Word(EncodeSuperblock(sb), 4 * 5) == ws[5];
    assert Word(EncodeSuperblock(sb), 4 * 6) == ws[6];
    assert Word(EncodeSuperblock(sb), 4 * 7) == ws[7];
    assert Word(EncodeSuperblock(sb), 4 * 8) == ws[8];
    assert Word(EncodeSuperblock(sb), 4 * 9) == ws[9];
  }

  /** The packed structure: ten little-endian words in this order. */
  predicate SuperblockBytes(s: Sector, sb: Superblock)
  {
    && Value(s, 0, 4) == sb.magic && Value(s, 4, 4) == sb.totalSectors && Value(s, 8, 4) == sb.maxInodes
    && Value(s, 12, 4) == sb.inodeCount && Value(s, 16, 4) == sb.bitmapStart && Value(s, 20, 4) == sb.bitmapSectors
    && Value(s, 24, 4) == sb.inodeStart && Value(s, 28, 4) == sb.inodeSectors && Value(s, 32, 4) == sb.dataStart
    && Value(s, 36, 4) == sb.journalState
  }

  /** Every sector is read in that layout ... */
  lemma SuperblockLayout(s: Sector)
    ensures SuperblockBytes(s, DecodeSuperblock(s))
  {
    hide Word, Value;
    WordIsValue(s, 0);
    WordIsValue(s, 4);
    WordIsValue(s, 8);
    WordIsValue(s, 12);
    WordIsValue(s, 16);
    WordIsValue(s, 20);
    WordIsValue(s, 24);
    WordIsValue(s, 28);
    WordIsValue(s, 32);
    WordIsValue(s, 36);
  }

  /** ... and written in it, with zeros behind. */
  lemma SuperblockWritten(sb: Superblock)
    ensures SuperblockBytes(EncodeSuperblock(sb), sb)
    ensures forall i :: 40 <= i < SECTOR_SIZE ==> EncodeSuperblock(sb)[i] == 0
  {
    hide DecodeSuperblock, SuperblockBytes;
    SuperblockRoundTrip(sb);
    SuperblockLayout(EncodeSuperblock(sb));
  }

  /** The journal sector: its magic and the state. */
  predicate JournalBytes(s: Sector, state: U32)
  {
    Value(s, 0, 4) == JOURNAL_MAGIC && Value(s, 4, 4) == state && forall i :: 8 <= i < SECTOR_SIZE ==> s[i] == 0
  }

  lemma JournalWritten(state: U32)
    ensures JournalBytes(EncodeJournal(state), state)
  {
    hide Word, Value;
    var s, ws := EncodeJournal(state), [JOURNAL_MAGIC, state];
    assert [] + Words(ws) + Zeros(SECTOR_SIZE - 8) == s;
    WordOfWords(ws, 0, [], Zeros(SECTOR_SIZE - 8));
    WordOfWords(ws, 1, [], Zeros(SECTOR_SIZE - 8));
    WordIsValue(s, 0);
    WordIsValue(s, 4);
  }

  function EncodeJournal(state: U32): (s: Sector)
  {
    Words([JOURNAL_MAGIC, state]) + Zeros(SECTOR_SIZE - 8)
  }

  // ---------------------------------------------------------------- inodes

  function EncodeInode(n: Inode): (b: seq<Byte>)
    ensures |b| == INODE_SIZE
  {
    [n.kind, n.reserved0, n.flags % 256, n.flags / 256] + Words([n.size, n.first, n.count, n.parent]) + n.name
        + n.reserved
  }

  function DecodeInode(b: seq<Byte>): (n: Inode)
    requires |b| == INODE_SIZE
  {
    var low: int, high: int := b[2], b[3];
    Inode(b[0], b[1], low + 256 * high, Word(b, 4), Word(b, 8), Word(b, 12), Word(b, 16), b[20..52], b[52..64])
  }

  lemma InodeRoundTrip(n: Inode)
    ensures DecodeInode(EncodeInode(n)) == n
  {
    var before := [n.kind, n.reserved0, n.flags % 256, n.flags / 256];
    var ws := [n.size, n.first, n.count, n.parent];
    var b := EncodeInode(n);
    assert b == before + Words(ws) + (n.name + n.reserved);
    WordOfWords(ws, 0, before, n.name + n.reserved);
    WordOfWords(ws, 1, before, n.name + n.reserved);
    WordOfWords(ws, 2, before, n.name + n.reserved);
    WordOfWords(ws, 3, before, n.name + n.reserved);
    assert b[20..52] == n.name;
    assert b[52..64] == n.reserved;
  }

  /** The packed structure of an inode at offset `at`. */
  predicate InodeBytes(b: seq<Byte>, at: nat, n: Inode)
    requires at + INODE_SIZE <= |b|
  {
    && b[at] == n.kind && b[at + 1] == n.reserved0 && Value(b, at + 2, 2) == n.flags
    && Value(b, at + 4, 4) == n.size && Value(b, at + 8, 4) == n.first && Value(b, at + 12, 4) == n.count
    && Value(b, at + 16, 4) == n.parent && b[at + 20..at + 52] == n.name && b[at + 52..at + 64] == n.reserved
  }

  /** Any 64 bytes are read in that layout, ... */
  lemma InodeLayout(b: seq<Byte>)
    requires |b| == INODE_SIZE
    ensures InodeBytes(b, 0, DecodeInode(b))
  {
    hide Word;
    WordIsValue(b, 4);
    WordIsValue(b, 8);
    WordIsValue(b, 12);
    WordIsValue(b, 16);
    assert Value(b, 2, 2) == b[2] as int + 256 * Value(b, 3, 1);
  }

  lemma {:induction false} ValueOfSlice(s: seq<Byte>, lo: nat, hi: nat, at: nat, n: nat)
    requires lo <= hi <= |s| && at + n <= hi - lo
    ensures Value(s[lo..hi], at, n) == Value(s, lo + at, n)
    decreases n
  {
    if n > 0 {
      ValueOfSlice(s, lo, hi, at + 1, n - 1);
    }
  }

  /** ... so the inodes of a sector lie one after another in it, ... */
  lemma InodeInLayout(s: Sector, k: nat)
    requires k < PER_SECTOR
    ensures InodeBytes(s, k * INODE_SIZE, InodeIn(s, k))
  {
    hide Value, DecodeInode;
    var lo := k * INODE_SIZE;
    var b := s[lo..lo + INODE_SIZE];
    InodeLayout(b);
    ValueOfSlice(s, lo, lo + INODE_SIZE, 2, 2);
    ValueOfSlice(s, lo, lo + INODE_SIZE, 4, 4);
    ValueOfSlice(s, lo, lo + INODE_SIZE, 8, 4);
    ValueOfSlice(s, lo, lo + INODE_SIZE, 12, 4);
    ValueOfSlice(s, lo, lo + INODE_SIZE, 16, 4);
    assert b[20..52] == s[lo + 20..lo + 52] && b[52..64] == s[lo + 52..lo + 64];
  }

  /** ... and written in it. */
  lemma InodeWritten(n: Inode)
    ensures InodeBytes(EncodeInode(n), 0, n)
  {
    hide DecodeInode, EncodeInode, InodeBytes;
    InodeRoundTrip(n);
    InodeLayout(EncodeInode(n));
  }

  /** Overwrite part of a sector. */
  function Splice(s: Sector, at: nat, b: seq<Byte>): (r: Sector)
    requires at + |b| <= SECTOR_SIZE
  {
    s[..at] + b + s[at + |b|..]
  }

  /** The `k`-th inode of a sector of the inode table. */
  function InodeIn(s: Sector, k: nat): (n: Inode)
    requires k < PER_SECTOR
  {
    DecodeInode(s[k * INODE_SIZE..(k + 1) * INODE_SIZE])
  }

  /** The read-modify-write of one inode stores it and keeps its seven neighbours. */
  lemma SpliceInode(s: Sector, k: nat, n: Inode, j: nat)
    requires k < PER_SECTOR && j < PER_SECTOR
    ensures InodeIn(Splice(s, k * INODE_SIZE, EncodeInode(n)), j) == if j == k then n else InodeIn(s, j)
  {
    var r := Splice(s, k * INODE_SIZE, EncodeInode(n));
    if j == k {
      assert r[k * INODE_SIZE..(k + 1) * INODE_SIZE] == EncodeInode(n);
      InodeRoundTrip(n);
    } else {
      assert r[j * INODE_SIZE..(j + 1) * INODE_SIZE] == s[j * INODE_SIZE..(j + 1) * INODE_SIZE];
    }
  }

  // ---------------------------------------------------------------- layout

  /** What the kernel relies on and mkfs provides, but the mount code does not check in full. */
  predicate LayoutOk(sb: Superblock)
  {
    && sb.magic == MAGIC && sb.totalSectors == TOTAL_SECTORS && sb.maxInodes <= MAX_INODES && sb.bitmapSectors == 1
    && 2 <= sb.bitmapStart < sb.dataStart
    && 2 <= sb.inodeStart && sb.inodeStart + sb.inodeSectors <= sb.dataStart <= TOTAL_SECTORS
    && MAX_INODES <= sb.inodeSectors * PER_SECTOR
    && !(sb.inodeStart <= sb.bitmapStart < sb.inodeStart + sb.inodeSectors)
  }

  /** Two superblocks that place everything alike. */
  predicate SameLayout(a: Superblock, b: Superblock)
  {
    a.(inodeCount := 0, journalState := 0) == b.(inodeCount := 0, journalState := 0)
  }

  function InodeAt(disk: seq<Sector>, sb: Superblock, i: nat): (n: Inode)
    requires LayoutOk(sb) && |disk| == TOTAL_SECTORS && i < MAX_INODES
  {
    InodeIn(disk[sb.inodeStart + i / PER_SECTOR], i % PER_SECTOR)
  }

  function InodeTable(disk: seq<Sector>, sb: Superblock): (t: seq<Inode>)
    requires LayoutOk(sb) && |disk| == TOTAL_SECTORS
    ensures |t| == MAX_INODES && forall i :: 0 <= i < MAX_INODES ==> t[i] == InodeAt(disk, sb, i)
  {
    seq(MAX_INODES, i requires 0 <= i < MAX_INODES => InodeAt(disk, sb, i))
  }

  /** Storing inode `i` on a disk. */
  function PutInode(disk: seq<Sector>, sb: Superblock, i: nat, n: Inode): (d: seq<Sector>)
    requires LayoutOk(sb) && |disk| == TOTAL_SECTORS && i < MAX_INODES
    ensures |d| == |disk|
  {
    var s := sb.inodeStart + i / PER_SECTOR;
    disk[s := Splice(disk[s], (i % PER_SECTOR) * INODE_SIZE, EncodeInode(n))]
  }

  /** The inode is then on the disk in the packed layout. */
  lemma PutInodeBytes(disk: seq<Sector>, sb: Superblock, i: nat, n: Inode)
    requires LayoutOk(sb) && |disk| == TOTAL_SECTORS && i < MAX_INODES
    ensures InodeBytes(PutInode(disk, sb, i, n)[sb.inodeStart + i / PER_SECTOR], i % PER_SECTOR * INODE_SIZE, n)
  {
    hide InodeBytes, DecodeInode, EncodeInode;
    var s := sb.inodeStart + i / PER_SECTOR;
    SpliceInode(disk[s], i % PER_SECTOR, n, i % PER_SECTOR);
    InodeInLayout(PutInode(disk, sb, i, n)[s], i % PER_SECTOR);
  }

  lemma PutInodeTable(disk: seq<Sector>, sb: Superblock, i: nat, n: Inode)
    requires LayoutOk(sb) && |disk| == TOTAL_SECTORS && i < MAX_INODES
    ensures InodeTable(PutInode(disk, sb, i, n), sb) == InodeTable(disk, sb)[i := n]
  {
    var d := PutInode(disk, sb, i, n);
    var s := sb.inodeStart + i / PER_SECTOR;
    forall j | 0 <= j < MAX_INODES ensures InodeAt(d, sb, j) == if j == i then n else InodeAt(disk, sb, j) {
      if j / PER_SECTOR == i / PER_SECTOR {
        SpliceInode(disk[s], i % PER_SECTOR, n, j % PER_SECTOR);
      }
    }
  }
}

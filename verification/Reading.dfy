/** Reading and resizing byte ranges of files. */
module Reading {
  import opened SectorCache
  import opened DiskFormat
  import opened Extents
  import opened Paths

  /** `mem_copy` into a buffer */
  method CopyBytes(dst: array<Byte>, at: nat, src: seq<Byte>, from: nat, n: nat)
    requires at + n <= dst.Length && from + n <= |src|
    modifies dst
    ensures dst[..at + n] == old(dst[..at]) + src[from..from + n] && dst[at + n..] == old(dst[at + n..])
  {
    var i := 0;
    while i < n
      invariant i <= n
      invariant forall k ::
                  0 <= k < dst.Length ==> dst[k] == if at <= k < at + i then src[from + k - at] else old(dst[k])
    {
      dst[at + i] := src[from + i];
      i := i + 1;
    }
  }

  /** How many bytes a read at `offset` yields. */
  function Clipped(fileSize: nat, offset: nat, size: nat): (n: nat)
    ensures n <= size && (n > 0 ==> offset + n <= fileSize) && (n == size || offset + n >= fileSize)
  {
    if offset >= fileSize then 0 else if size > fileSize - offset then fileSize - offset else size
  }

  /** The bytes a read at `offset` yields. */
  function Slice(data: seq<Byte>, offset: nat, size: nat): (s: seq<Byte>)
    ensures |s| == Clipped(|data|, offset, size)
  {
    if offset >= |data| then [] else data[offset..offset + Clipped(|data|, offset, size)]
  }

  /** Reading on within one sector extends the bytes read by part of that sector. */
  lemma SliceStep(view: seq<Sector>, first: nat, offset: nat, chunk: nat)
    requires first + SectorsFor(offset + chunk) <= |view| && 0 < chunk <= SECTOR_SIZE - offset % SECTOR_SIZE
    ensures SectorsFor(offset) <= SectorsFor(offset + chunk) && first + offset / SECTOR_SIZE < |view|
    ensures Data(view, first, offset + chunk) ==
              var at := offset % SECTOR_SIZE;
              Data(view, first, offset) + view[first + offset / SECTOR_SIZE][at..at + chunk]
  {
  }

  /** `n` bytes from `offset` on, of the data that starts at sector `first`. */
  function Bytes(view: seq<Sector>, first: nat, offset: nat, n: nat): (d: seq<Byte>)
    requires first + SectorsFor(offset + n) <= |view|
    ensures |d| == n
  {
    Data(view, first, offset + n)[offset..]
  }

  lemma NoBytes(view: seq<Sector>, first: nat, offset: nat, want: nat)
    requires first + SectorsFor(offset + want) <= |view|
    ensures first + SectorsFor(offset) <= |view| && Bytes(view, first, offset, 0) == []
  {
  }

  lemma MoreBytes(view: seq<Sector>, first: nat, offset: nat, done: nat, chunk: nat, want: nat, s: nat, at: nat)
    requires done + chunk <= want && first + SectorsFor(offset + want) <= |view|
    requires s == first + (offset + done) / SECTOR_SIZE && at == (offset + done) % SECTOR_SIZE
    requires 0 < chunk <= SECTOR_SIZE - at
    ensures first + SectorsFor(offset + done) <= |view| && first + SectorsFor(offset + done + chunk) <= |view|
    ensures s < |view|
    ensures Bytes(view, first, offset, done + chunk) == Bytes(view, first, offset, done) + view[s][at..at + chunk]
  {
    var absolute := offset + done;
    FewerAreEnough(absolute, offset + want);
    FewerAreEnough(absolute + chunk, offset + want);
    SliceStep(view, first, absolute, chunk);
    DropConcat(Data(view, first, absolute), view[s][at..at + chunk], offset);
    assert offset + (done + chunk) == absolute + chunk;
  }

  lemma DropConcat(a: seq<Byte>, b: seq<Byte>, n: nat)
    requires n <= |a|
    ensures (a + b)[n..] == a[n..] + b
  {
  }

  lemma DataPrefix(view: seq<Sector>, first: nat, n: nat, size: nat)
    requires n <= size && first + SectorsFor(size) <= |view|
    ensures SectorsFor(n) <= SectorsFor(size) && Data(view, first, n) == Data(view, first, size)[..n]
  {
  }

  lemma FewerAreEnough(a: nat, b: nat)
    requires a <= b
    ensures SectorsFor(a) <= SectorsFor(b)
  {
  }

  /** `bytes` are those of file `key` from `offset` on. */
  ghost predicate IsSlice(m: map<Key, seq<Byte>>, key: Key, offset: nat, bytes: seq<Byte>)
  {
    key in m && offset + |bytes| <= |m[key]| && bytes == m[key][offset..offset + |bytes|]
  }

  /** A file's bytes cut, or extended with zeros, to `size`. */
  function Resized(data: seq<Byte>, size: nat): (r: seq<Byte>)
    ensures |r| == size
  {
    if size <= |data| then data[..size] else data + Zeros(size - |data|)
  }

  /** `mem_zero` */
  method ZeroBytes(dst: array<Byte>, n: nat)
    requires n <= dst.Length
    modifies dst
    ensures dst[..n] == Zeros(n)
  {
    var i := 0;
    while i < n
      invariant i <= n && forall k :: 0 <= k < i ==> dst[k] == 0
    {
      dst[i] := 0;
      i := i + 1;
    }
  }
}

/** The two program formats: an ELF32 executable and the kernel's own flat format.
    File offsets are 32-bit and their sums wrap. */
module Programs {
  import DiskFormat
  import opened Pmm
  import opened PageTables
  import opened Paging
  import opened UserImage
  import opened Loader

  const WORD: nat := 0x1_0000_0000
  const ELF_HEADER: nat := 52
  const PROGRAM_HEADER: nat := 32
  const LOAD: nat := 1
  const MEXE_HEADER: nat := 16
  const MEXE_MAGIC: nat := 0x4558_454D

  function Half(b: seq<Byte>, at: nat): (v: nat)
    requires at + 2 <= |b|
  {
    var low: int, high: int := b[at], b[at + 1];
    low + 0x100 * high
  }

  function Word(b: seq<Byte>, at: nat): (v: nat)
    requires at + 4 <= |b|
    ensures v < WORD
  {
    DiskFormat.Word(b, at)
  }

  // ---------------------------------------------------------------- ELF

  function EntryPoint(file: seq<Byte>): nat requires |file| >= ELF_HEADER { Word(file, 24) }
  function HeaderOffset(file: seq<Byte>): nat requires |file| >= ELF_HEADER { Word(file, 28) }
  function HeaderCount(file: seq<Byte>): nat requires |file| >= ELF_HEADER { Half(file, 44) }

  predicate ElfMagic(file: seq<Byte>)
    requires |file| >= 4
  {
    file[0] == 0x7F && file[1] == 0x45 && file[2] == 0x4C && file[3] == 0x46
  }

  /** 32-bit little-endian, executable, i386, version 1, with program headers of the known size. */
  predicate ElfKind(file: seq<Byte>)
    requires |file| >= ELF_HEADER
  {
    && file[4] == 1 && file[5] == 1 && Half(file, 16) == 2 && Half(file, 18) == 3 && Word(file, 20) == 1
    && Half(file, 42) == PROGRAM_HEADER
  }

  /** The program header table lies in the file. */
  predicate TableFits(file: seq<Byte>)
    requires |file| >= ELF_HEADER
  {
    HeaderOffset(file) + HeaderCount(file) * PROGRAM_HEADER <= |file|
  }

  datatype Segment = Segment(kind: nat, offset: nat, vaddr: nat, filesz: nat, memsz: nat)

  function SegmentAt(file: seq<Byte>, i: nat): (s: Segment)
    requires |file| >= ELF_HEADER && TableFits(file) && i < HeaderCount(file)
    ensures s.offset < WORD && s.vaddr < WORD && s.filesz < WORD && s.memsz < WORD
  {
    var at := HeaderOffset(file) + i * PROGRAM_HEADER;
    Segment(Word(file, at), Word(file, at + 4), Word(file, at + 8), Word(file, at + 16), Word(file, at + 20))
  }

  /** The segment's memory lies in the window. */
  predicate InWindow(s: Segment)
  {
    BASE <= s.vaddr && s.vaddr + s.memsz <= BASE + IMAGE_SIZE
  }

  predicate InFile(s: Segment, size: nat)
  {
    s.offset + s.filesz <= size && s.filesz <= s.memsz
  }

  /** The program headers. */
  function Segments(file: seq<Byte>): (ss: seq<Segment>)
    requires |file| >= ELF_HEADER && TableFits(file)
    ensures |ss| == HeaderCount(file) && forall i :: 0 <= i < |ss| ==> ss[i] == SegmentAt(file, i)
  {
    seq(HeaderCount(file), i requires 0 <= i < HeaderCount(file) => SegmentAt(file, i))
  }

  /** What the kernel answers before it starts a launch; 0 is acceptance. */
  function ElfCode(file: seq<Byte>): (code: int)
  {
    if |file| < ELF_HEADER then -30
    else if !ElfMagic(file) then -31
    else if !ElfKind(file) then -32
    else if HeaderCount(file) == 0 || !TableFits(file) then -33
    else if !(BASE <= EntryPoint(file) < BASE + IMAGE_SIZE) then -37
    else ScanCode(Segments(file), |file|, false)
  }

  /** The first load segment that does not fit decides; a file with none is refused. */
  function ScanCode(ss: seq<Segment>, size: nat, loaded: bool): (code: int)
  {
    if ss == [] then (if loaded then 0 else -36)
    else if ss[0].kind != LOAD then ScanCode(ss[1..], size, loaded)
    else if !InWindow(ss[0]) then -34
    else if !InFile(ss[0], size) then -35
    else ScanCode(ss[1..], size, true)
  }

  /** Every load segment lies in the file and in the window. */
  predicate Loadable(ss: seq<Segment>, size: nat)
  {
    forall i :: 0 <= i < |ss| && ss[i].kind == LOAD ==> InWindow(ss[i]) && InFile(ss[i], size)
  }

  /** Acceptance, said of all segments at once. */
  lemma {:induction false} ScanAccepts(ss: seq<Segment>, size: nat, loaded: bool)
    ensures ScanCode(ss, size, loaded) == 0 <==>
              Loadable(ss, size) && (loaded || exists i :: 0 <= i < |ss| && ss[i].kind == LOAD)
  {
    hide InWindow, InFile;
    if ss != [] {
      var rest := ss[1..];
      assert forall i :: 1 <= i < |ss| ==> ss[i] == rest[i - 1];
      assert Loadable(ss, size) <==>
             (ss[0].kind == LOAD ==> InWindow(ss[0]) && InFile(ss[0], size)) && Loadable(rest, size);
      ScanAccepts(rest, size, loaded || ss[0].kind == LOAD);
    }
  }

  /** The file part of the segment covers offset `k` of the image. */
  predicate Covers(s: Segment, k: nat)
  {
    s.kind == LOAD && s.vaddr <= BASE + k < s.vaddr + s.filesz
  }

  /** Where in the file the byte at offset `k` of the image comes from. */
  function Source(s: Segment, k: nat): (at: nat)
    requires Covers(s, k)
  {
    s.offset + (BASE + k - s.vaddr)
  }

  /** Byte `k` of the image that the segments build one after another. */
  function ImageByte(file: seq<Byte>, ss: seq<Segment>, k: nat): (b: Byte)
    requires Loadable(ss, |file|)
  {
    if ss == [] then 0
    else
      var s := ss[|ss| - 1];
      if Covers(s, k) then file[Source(s, k)] else ImageByte(file, ss[..|ss| - 1], k)
  }

  /** The last segment that covers a byte gives it. */
  lemma {:induction false} LastWins(file: seq<Byte>, ss: seq<Segment>, k: nat, j: nat)
    requires Loadable(ss, |file|) && j < |ss| && Covers(ss[j], k) && forall i :: j < i < |ss| ==> !Covers(ss[i], k)
    ensures Source(ss[j], k) < |file| && ImageByte(file, ss, k) == file[Source(ss[j], k)]
  {
    if j < |ss| - 1 {
      LastWins(file, ss[..|ss| - 1], k, j);
    }
  }

  /** A byte that no segment covers is zero. */
  lemma {:induction false} NoneIsZero(file: seq<Byte>, ss: seq<Segment>, k: nat)
    requires Loadable(ss, |file|) && forall i :: 0 <= i < |ss| ==> !Covers(ss[i], k)
    ensures ImageByte(file, ss, k) == 0
  {
    if ss != [] {
      NoneIsZero(file, ss[..|ss| - 1], k);
    }
  }

  // ---------------------------------------------------------------- 32-bit sums

  predicate EndFits(s: Segment)
  {
    s.offset + s.filesz < WORD
  }

  /** No sum of file offsets in the headers reaches 2^32. */
  predicate NoWrap(file: seq<Byte>)
  {
    |file| >= ELF_HEADER ==>
      && HeaderOffset(file) + HeaderCount(file) * PROGRAM_HEADER < WORD
      && (TableFits(file) ==> forall i :: 0 <= i < HeaderCount(file) ==> EndFits(SegmentAt(file, i)))
  }

  /** A range that passes the kernel's 32-bit test lies in the file exactly when its end does not wrap. */
  lemma RangeTest(offset: nat, length: nat, size: nat)
    requires offset < WORD && length < WORD && size < WORD && (offset + length) % WORD <= size
    ensures offset + length <= size <==> offset + length < WORD
  {
  }

  /** A range whose end wraps passes the test and lies outside every file. */
  lemma RangeTestFooled(size: nat)
    requires 0x10 <= size < WORD
    ensures (0xFFFF_FFF0 + 0x20) % WORD <= size && 0xFFFF_FFF0 + 0x20 > size
  {
  }

  /** The window test of the kernel does allow for wrapping. */
  lemma WindowTest(s: Segment)
    requires s.vaddr < WORD && s.memsz < WORD
    ensures !InWindow(s) <==>
              s.vaddr < BASE || (s.vaddr + s.memsz) % WORD < s.vaddr || (s.vaddr + s.memsz) % WORD > BASE + IMAGE_SIZE
  {
  }

  // ---------------------------------------------------------------- running them

  class Runner {
    const loader: ProgramLoader
    const loadImage: array<Byte>

    constructor (loader: ProgramLoader)
      requires loader.Valid()
      ensures Valid() && this.loader == loader && fresh(loadImage)
    {
      this.loader := loader;
      loadImage := new Byte[IMAGE_SIZE](_ => 0);
    }

    ghost predicate Valid()
      reads loader, loader.paging, loader.paging.pmm, loader.paging.pmm.words
    {
      loader.Valid() && loadImage.Length == IMAGE_SIZE
    }

    method ClearImage()
      requires loadImage.Length == IMAGE_SIZE
      modifies loadImage
      ensures forall k :: 0 <= k < IMAGE_SIZE ==> loadImage[k] == 0
    {
      for i := 0 to IMAGE_SIZE
        invariant forall k :: 0 <= k < i ==> loadImage[k] == 0
      {
        loadImage[i] := 0;
      }
    }

    /** The copy loop for one segment. */
    method CopySegment(file: seq<Byte>, s: Segment)
      requires loadImage.Length == IMAGE_SIZE && s.kind == LOAD && InWindow(s) && InFile(s, |file|)
      modifies loadImage
      ensures forall k ::
                0 <= k < IMAGE_SIZE ==> loadImage[k] == if Covers(s, k) then file[Source(s, k)] else old(loadImage[k])
    {
      var destination := s.vaddr - BASE;
      for j := 0 to s.filesz
        invariant forall k :: 0 <= k < IMAGE_SIZE ==>
                    loadImage[k] ==
                        if destination <= k < destination + j then file[s.offset + (k - destination)]
                        else old(loadImage[k])
      {
        loadImage[destination + j] := file[s.offset + j];
      }
    }

    /** The segment loop of `run_elf_program`: the image, or the code it stops with. */
    method LoadSegments(file: seq<Byte>) returns (code: int)
      requires loadImage.Length == IMAGE_SIZE && ELF_HEADER <= |file| < WORD && TableFits(file) && NoWrap(file)
      modifies loadImage
      ensures code == ScanCode(Segments(file), |file|, false)
      ensures code == 0 ==>
                && Loadable(Segments(file), |file|)
                && forall k :: 0 <= k < IMAGE_SIZE ==> loadImage[k] == ImageByte(file, Segments(file), k)
    {
      hide SegmentAt, InWindow, InFile, Source, ImageByte;
      ghost var ss := Segments(file);
      ClearImage();
      forall k: nat | k < IMAGE_SIZE ensures ImageByte(file, ss[..0], k) == 0 {
        NoneIsZero(file, ss[..0], k);
      }
      var loaded := false;
      for i := 0 to HeaderCount(file)
        invariant Loadable(ss[..i], |file|) && ScanCode(ss, |file|, false) == ScanCode(ss[i..], |file|, loaded)
        invariant forall k :: 0 <= k < IMAGE_SIZE ==> loadImage[k] == ImageByte(file, ss[..i], k)
      {
        var s := SegmentAt(file, i);
        WindowTest(s);
        RangeTestOf(file, i);
        assert ss[i..][1..] == ss[i + 1..] && ss[i..][0] == s;
        assert ss[..i + 1][..i] == ss[..i] && ss[..i + 1][i] == s;
        if s.kind == LOAD {
          if s.vaddr < BASE || (s.vaddr + s.memsz) % WORD < s.vaddr || (s.vaddr + s.memsz) % WORD > BASE + IMAGE_SIZE {
            return -34;
          }
          if (s.offset + s.filesz) % WORD > |file| || s.filesz > s.memsz {
            return -35;
          }
          CopySegment(file, s);
          loaded := true;
        }
        LoadableMore(ss, i, |file|);
        forall k: nat | k < IMAGE_SIZE
          ensures Covers(s, k) ==> Source(s, k) < |file|
          ensures ImageByte(file, ss[..i + 1], k) ==
                    if Covers(s, k) then file[Source(s, k)] else ImageByte(file, ss[..i], k)
        {
          ImageMore(file, ss, i, k);
        }
      }
      assert ss[..|ss|] == ss && ss[|ss|..] == [];
      ScanAccepts(ss, |file|, false);
      return if loaded then 0 else -36;
    }

    /** Nothing is lost: the page allocator and the address spaces are as they were. */
    twostate predicate Undisturbed()
      requires old(Valid())
      reads loader, loader.paging, loader.paging.pmm, loader.paging.pmm.words
    {
      && Valid() && loader.pmm.Free() == old(loader.pmm.Free()) && loader.pmm.used == old(loader.pmm.used)
      && loader.paging.spaces == old(loader.paging.spaces) && SameViews(old(loader.paging.Snap()), loader.paging.Snap())
    }

    /** There are pages and a process entry for one more program. */
    ghost predicate Room()
      reads loader, loader.paging.pmm
    {
      loader.paging.pmm.used + PAGES_PER_RUN <= loader.paging.pmm.total && !AllRunning(loader.processes)
    }

    /** `run_elf_program`, for files whose offset sums do not wrap. */
    method RunElf(name: seq<Byte>, file: seq<Byte>) returns (code: int, ghost ran: bool, ghost start: Start)
      requires Valid() && |file| < WORD && NoWrap(file)
      modifies loadImage, loader, loader.paging`tables, loader.paging`spaces, loader.paging`owner,
               loader.paging`current, loader.paging.pmm`used, loader.paging.pmm.words
      ensures Undisturbed() && (ran <==> ElfCode(file) == 0 && old(Room()))
      ensures (ElfCode(file) != 0 ==> code == ElfCode(file))
      ensures ElfCode(file) == 0 && !ran ==> code == FailCode(old(loader.paging.pmm.used), loader.paging.pmm.total)
      ensures !ran ==> loader.processes == old(loader.processes)
      ensures ran ==>
                && ElfCode(file) == 0 && |file| >= ELF_HEADER && TableFits(file) && Loadable(Segments(file), |file|)
                && ElfRunning(start, file, old(loader.paging.Snap()))
      ensures ran ==>
                Finished(old(loader.processes), loader.processes,
                         Process(old(loader.nextPid), Exited, CutName(name), EntryPoint(file), code, 0))
    {
      hide SameViews, SegmentAt, Sound, Segments, AllRunning, Finished, Started, ScanCode, FreeIn, Counted, PagesOk;
      hide Loadable, ElfMagic, ElfKind;
      ran, start := false, Start(loader.paging.Snap(), 0, map[]);
      SameRefl(loader.paging.Snap());
      if |file| < ELF_HEADER {
        return -30, ran, start;
      }
      if !ElfMagic(file) {
        return -31, ran, start;
      }
      if !ElfKind(file) {
        return -32, ran, start;
      }
      if HeaderCount(file) == 0 || (HeaderOffset(file) + HeaderCount(file) * PROGRAM_HEADER) % WORD > |file| {
        return -33, ran, start;
      }
      if EntryPoint(file) < BASE || EntryPoint(file) >= BASE + IMAGE_PAGES * PAGE_SIZE {
        return -37, ran, start;
      }
      code := LoadSegments(file);
      if code != 0 {
        return code, ran, start;
      }
      code, ran, start := loader.RunLoadedImage(name, EntryPoint(file), loadImage[..]);
      if ran {
        StartedElf(start, file, loadImage[..], old(loader.paging.Snap()));
      }
    }

    /** `run_mexe_program` */
    method RunMexe(name: seq<Byte>, file: seq<Byte>) returns (code: int, ghost ran: bool, ghost start: Start)
      requires Valid() && |file| < WORD
      modifies loader, loader.paging`tables, loader.paging`spaces, loader.paging`owner, loader.paging`current,
               loader.paging.pmm`used, loader.paging.pmm.words
      ensures Undisturbed() && (ran <==> MexeCode(file) == 0 && old(Room()))
      ensures (MexeCode(file) != 0 ==> code == MexeCode(file))
      ensures MexeCode(file) == 0 && !ran ==> code == FailCode(old(loader.paging.pmm.used), loader.paging.pmm.total)
      ensures !ran ==> loader.processes == old(loader.processes)
      ensures ran ==> MexeCode(file) == 0 && |file| >= MEXE_HEADER && MEXE_HEADER + Word(file, 8) <= |file|
      ensures ran ==> Started(start, file[MEXE_HEADER..MEXE_HEADER + Word(file, 8)], old(loader.paging.Snap()))
      ensures ran ==>
                Finished(old(loader.processes), loader.processes,
                         Process(old(loader.nextPid), Exited, CutName(name), BASE + Word(file, 4), code, 0))
    {
      hide SameViews, Sound, AllRunning, Finished, Started, FreeIn, Counted, PagesOk;
      ran, start := false, Start(loader.paging.Snap(), 0, map[]);
      SameRefl(loader.paging.Snap());
      if |file| < MEXE_HEADER {
        return -10, ran, start;
      }
      var entryOffset, size := Word(file, 4), Word(file, 8);
      if Word(file, 0) != MEXE_MAGIC || entryOffset >= size || size > IMAGE_PAGES * PAGE_SIZE {
        return -11, ran, start;
      }
      if MEXE_HEADER + size > |file| {
        return -12, ran, start;
      }
      code, ran, start := loader.RunLoadedImage(name, BASE + entryOffset, file[MEXE_HEADER..MEXE_HEADER + size]);
    }
  }

  /** What the kernel answers about a flat program before it starts a launch; 0 is acceptance. */
  function MexeCode(file: seq<Byte>): (code: int)
  {
    if |file| < MEXE_HEADER then -10
    else if Word(file, 0) != MEXE_MAGIC || Word(file, 4) >= Word(file, 8) || Word(file, 8) > IMAGE_SIZE then -11
    else if MEXE_HEADER + Word(file, 8) > |file| then -12
    else 0
  }

  /** User code sees the segments of the file in the window and a zero stack page above it. */
  ghost predicate ElfRunning(s: Start, file: seq<Byte>, before: Paged)
    requires |file| >= ELF_HEADER && TableFits(file) && Loadable(Segments(file), |file|)
  {
    && s.space in s.paged.spaces
    && (forall va: Address :: BASE <= va < STACK ==> UserByte(s, va) == ImageByte(file, Segments(file), va - BASE))
    && (forall va: Address :: STACK <= va < STACK + PAGE_SIZE ==> UserByte(s, va) == 0)
    && (forall va: Address :: BASE <= va < STACK + PAGE_SIZE ==> UserMay(s.paged, s.space, va))
    && (forall va: Address :: !(BASE <= va < STACK + PAGE_SIZE) ==>
          View(s.paged, s.space, va) == Translate(before.tables, before.kernel, va))
  }

  lemma StartedElf(s: Start, file: seq<Byte>, image: seq<Byte>, before: Paged)
    requires |file| >= ELF_HEADER && TableFits(file) && Loadable(Segments(file), |file|) && |image| == IMAGE_SIZE
    requires && Started(s, image, before)
             && forall k :: 0 <= k < IMAGE_SIZE ==> image[k] == ImageByte(file, Segments(file), k)
    ensures ElfRunning(s, file, before)
  {
    hide UserByte, View, Translate, ImageByte, Loadable, Segments;
  }

  lemma LoadableMore(ss: seq<Segment>, i: nat, size: nat)
    requires i < |ss| && Loadable(ss[..i], size) && (ss[i].kind == LOAD ==> InWindow(ss[i]) && InFile(ss[i], size))
    ensures Loadable(ss[..i + 1], size)
  {
  }

  lemma ImageMore(file: seq<Byte>, ss: seq<Segment>, i: nat, k: nat)
    requires i < |ss| && Loadable(ss[..i + 1], |file|) && Loadable(ss[..i], |file|)
    ensures Covers(ss[i], k) ==> Source(ss[i], k) < |file|
    ensures ImageByte(file, ss[..i + 1], k) ==
              if Covers(ss[i], k) then file[Source(ss[i], k)] else ImageByte(file, ss[..i], k)
  {
    assert ss[..i + 1][..i] == ss[..i] && ss[..i + 1][i] == ss[i];
  }

  lemma RangeTestOf(file: seq<Byte>, i: nat)
    requires ELF_HEADER <= |file| < WORD && TableFits(file) && NoWrap(file) && i < HeaderCount(file)
    ensures var s := SegmentAt(file, i);
            (s.offset + s.filesz) % WORD > |file| || s.filesz > s.memsz <==> !InFile(s, |file|)
  {
    assert EndFits(SegmentAt(file, i));
  }
}

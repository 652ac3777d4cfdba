/** Executable files built from their fields, in the order of the C structures, and what the loader finds in them. */
module Executables {
  import SectorCache
  import opened DiskFormat
  import opened Pmm
  import opened PageTables
  import opened UserImage
  import opened Loader
  import Programs

  type Byte = SectorCache.Byte

  // ---------------------------------------------------------------- the encoders

  function Le16(v: U16): (b: seq<Byte>)
    ensures |b| == 2
  {
    [v % 256, v / 256]
  }

  function Halves(hs: seq<U16>): (b: seq<Byte>)
    ensures |b| == 2 * |hs|
  {
    if hs == [] then [] else Le16(hs[0]) + Halves(hs[1..])
  }

  /** `struct elf32_header`; the identification is the magic number, the format, the byte order and ten more bytes. */
  datatype ElfHeader = ElfHeader(
    magic: seq<Byte>, format: Byte, order: Byte, padding: seq<Byte>,
    kind: U16, machine: U16, version: U32, entry: U32, phoff: U32, shoff: U32, flags: U32,
    ehsize: U16, phentsize: U16, phnum: U16, shentsize: U16, shnum: U16, shstrndx: U16)

  /** `struct elf32_program_header` */
  datatype ProgramHeader = ProgramHeader(
    kind: U32, offset: U32, vaddr: U32, paddr: U32, filesz: U32, memsz: U32, flags: U32, align: U32)

  const ELF_MAGIC: seq<Byte> := [0x7F, 'E' as int, 'L' as int, 'F' as int]

  predicate Sized(h: ElfHeader)
  {
    |h.magic| == 4 && |h.padding| == 10
  }

  function Ident(h: ElfHeader): (b: seq<Byte>)
    requires Sized(h)
    ensures |b| == 16
  {
    h.magic + [h.format, h.order] + h.padding
  }

  function HeaderBytes(h: ElfHeader): (b: seq<Byte>)
    requires Sized(h)
    ensures |b| == 52
  {
    Ident(h) + Halves([h.kind, h.machine]) + Words([h.version, h.entry, h.phoff, h.shoff, h.flags])
    + Halves([h.ehsize, h.phentsize, h.phnum, h.shentsize, h.shnum, h.shstrndx])
  }

  function FieldsOf(p: ProgramHeader): (ws: seq<U32>)
    ensures |ws| == 8
  {
    [p.kind, p.offset, p.vaddr, p.paddr, p.filesz, p.memsz, p.flags, p.align]
  }

  function AllFields(phs: seq<ProgramHeader>): (ws: seq<U32>)
    ensures |ws| == 8 * |phs|
  {
    if phs == [] then [] else FieldsOf(phs[0]) + AllFields(phs[1..])
  }

  /** A file with its program headers after `gap`, and anything behind them. */
  function ElfFile(h: ElfHeader, gap: seq<Byte>, phs: seq<ProgramHeader>, body: seq<Byte>): (f: seq<Byte>)
    requires Sized(h)
    ensures |f| == 52 + |gap| + 32 * |phs| + |body|
  {
    HeaderBytes(h) + gap + Words(AllFields(phs)) + body
  }

  /** The header says where the program headers are. */
  predicate Describes(h: ElfHeader, gap: seq<Byte>, phs: seq<ProgramHeader>)
  {
    Sized(h) && h.phoff == 52 + |gap| && h.phnum == |phs|
  }

  /** 32-bit, little-endian, executable, for the i386, version 1. */
  predicate Known(h: ElfHeader)
  {
    h.format == 1 && h.order == 1 && h.kind == 2 && h.machine == 3 && h.version == 1 && h.phentsize == 32
  }

  // ---------------------------------------------------------------- reading them back

  lemma HalfOfLe16(v: U16, before: seq<Byte>, after: seq<Byte>)
    ensures Programs.Half(before + Le16(v) + after, |before|) == v
  {
    var b := before + Le16(v) + after;
    assert b[|before|] == Le16(v)[0] && b[|before| + 1] == Le16(v)[1];
  }

  lemma {:induction false} HalfOfHalves(hs: seq<U16>, i: nat, before: seq<Byte>, after: seq<Byte>)
    requires i < |hs|
    ensures Programs.Half(before + Halves(hs) + after, |before| + 2 * i) == hs[i]
    decreases i
  {
    if i == 0 {
      HalfOfLe16(hs[0], before, Halves(hs[1..]) + after);
      assert before + Halves(hs) + after == before + Le16(hs[0]) + (Halves(hs[1..]) + after);
    } else {
      HalfOfHalves(hs[1..], i - 1, before + Le16(hs[0]), after);
      assert before + Halves(hs) + after == before + Le16(hs[0]) + Halves(hs[1..]) + after;
    }
  }

  lemma {:induction false} FieldAt(phs: seq<ProgramHeader>, i: nat, k: nat)
    requires i < |phs| && k < 8
    ensures AllFields(phs)[8 * i + k] == FieldsOf(phs[i])[k]
    decreases i
  {
    if i > 0 {
      FieldAt(phs[1..], i - 1, k);
    }
  }

  /** The loader finds the fields of the header ... */
  lemma HeaderRead(h: ElfHeader, rest: seq<Byte>)
    requires Sized(h)
    ensures
      var f := HeaderBytes(h) + rest;
      && (Programs.ElfMagic(f) <==> h.magic == ELF_MAGIC) && (Programs.ElfKind(f) <==> Known(h))
      && Programs.EntryPoint(f) == h.entry && Programs.HeaderOffset(f) == h.phoff && Programs.HeaderCount(f) == h.phnum
  {
    hide Programs.Word, Programs.Half, Words, Halves;
    var f := HeaderBytes(h) + rest;
    var front, ws := Halves([h.kind, h.machine]), [h.version, h.entry, h.phoff, h.shoff, h.flags];
    var hs := [h.ehsize, h.phentsize, h.phnum, h.shentsize, h.shnum, h.shstrndx];
    assert f == Ident(h) + front + (Words(ws) + Halves(hs) + rest);
    HalfOfHalves([h.kind, h.machine], 0, Ident(h), Words(ws) + Halves(hs) + rest);
    HalfOfHalves([h.kind, h.machine], 1, Ident(h), Words(ws) + Halves(hs) + rest);
    assert f == (Ident(h) + front) + Words(ws) + (Halves(hs) + rest);
    WordRead(ws, 0, Ident(h) + front, Halves(hs) + rest);
    WordRead(ws, 1, Ident(h) + front, Halves(hs) + rest);
    WordRead(ws, 2, Ident(h) + front, Halves(hs) + rest);
    assert f == (Ident(h) + front + Words(ws)) + Halves(hs) + rest;
    HalfOfHalves(hs, 1, Ident(h) + front + Words(ws), rest);
    HalfOfHalves(hs, 2, Ident(h) + front + Words(ws), rest);
  }

  lemma WordRead(ws: seq<U32>, i: nat, before: seq<Byte>, after: seq<Byte>)
    requires i < |ws|
    ensures Programs.Word(before + Words(ws) + after, |before| + 4 * i) == ws[i]
  {
    WordOfWords(ws, i, before, after);
  }

  function AsSegment(p: ProgramHeader): (s: Programs.Segment)
  {
    Programs.Segment(p.kind, p.offset, p.vaddr, p.filesz, p.memsz)
  }

  /** ... and those of every program header. */
  lemma ElfRead(h: ElfHeader, gap: seq<Byte>, phs: seq<ProgramHeader>, body: seq<Byte>)
    requires Describes(h, gap, phs)
    ensures
      var f := ElfFile(h, gap, phs, body);
      && (Programs.ElfMagic(f) <==> h.magic == ELF_MAGIC) && (Programs.ElfKind(f) <==> Known(h))
      && Programs.EntryPoint(f) == h.entry
      && Programs.TableFits(f) && |Programs.Segments(f)| == |phs|
      && forall i :: 0 <= i < |phs| ==> Programs.Segments(f)[i] == AsSegment(phs[i])
  {
    hide Programs.Word, Programs.Half, HeaderBytes, Words;
    var f := ElfFile(h, gap, phs, body);
    var before := HeaderBytes(h) + gap;
    assert f == HeaderBytes(h) + (gap + Words(AllFields(phs)) + body);
    HeaderRead(h, gap + Words(AllFields(phs)) + body);
    forall i | 0 <= i < |phs| ensures Programs.SegmentAt(f, i) == AsSegment(phs[i]) {
      SegmentRead(h, gap, phs, body, i);
    }
  }

  lemma SegmentRead(h: ElfHeader, gap: seq<Byte>, phs: seq<ProgramHeader>, body: seq<Byte>, i: nat)
    requires Describes(h, gap, phs) && i < |phs|
    requires var f := ElfFile(h, gap, phs, body);
             Programs.HeaderOffset(f) == h.phoff && Programs.HeaderCount(f) == |phs| && Programs.TableFits(f)
    ensures Programs.SegmentAt(ElfFile(h, gap, phs, body), i) == AsSegment(phs[i])
  {
    hide Programs.Word, Programs.Half, HeaderBytes, Words, AllFields;
    var before, ws := HeaderBytes(h) + gap, AllFields(phs);
    FieldRead(phs, before, body, i, 0);
    FieldRead(phs, before, body, i, 1);
    FieldRead(phs, before, body, i, 2);
    FieldRead(phs, before, body, i, 4);
    FieldRead(phs, before, body, i, 5);
    assert ElfFile(h, gap, phs, body) == before + Words(ws) + body;
  }

  lemma FieldRead(phs: seq<ProgramHeader>, before: seq<Byte>, after: seq<Byte>, i: nat, k: nat)
    requires i < |phs| && k < 8
    ensures |before| + 32 * i + 4 * k + 4 <= |before + Words(AllFields(phs)) + after|
    ensures Programs.Word(before + Words(AllFields(phs)) + after, |before| + 32 * i + 4 * k) == FieldsOf(phs[i])[k]
  {
    hide Programs.Word, Words, AllFields;
    FieldAt(phs, i, k);
    WordRead(AllFields(phs), 8 * i + k, before, after);
  }

  // ---------------------------------------------------------------- what is accepted

  function AsSegments(phs: seq<ProgramHeader>): (ss: seq<Programs.Segment>)
    ensures |ss| == |phs| && forall i :: 0 <= i < |ss| ==> ss[i] == AsSegment(phs[i])
  {
    seq(|phs|, i requires 0 <= i < |phs| => AsSegment(phs[i]))
  }

  /** A 32-bit little-endian executable for the i386 whose entry and load segments fit. */
  predicate Runnable(h: ElfHeader, phs: seq<ProgramHeader>, size: nat)
  {
    && h.magic == ELF_MAGIC && Known(h) && BASE <= h.entry < BASE + IMAGE_SIZE
    && (exists i :: 0 <= i < |phs| && phs[i].kind == 1)
    && forall i :: 0 <= i < |phs| && phs[i].kind == 1 ==> Placed(phs[i]) && Backed(phs[i], size)
  }

  /** The kernel accepts exactly these. */
  lemma ElfAccepted(h: ElfHeader, gap: seq<Byte>, phs: seq<ProgramHeader>, body: seq<Byte>)
    requires Describes(h, gap, phs)
    ensures var f := ElfFile(h, gap, phs, body); Programs.ElfCode(f) == 0 <==> Runnable(h, phs, |f|)
  {
    hide ElfFile, Programs.ElfMagic, Programs.ElfKind, Programs.ScanCode, Programs.Loadable, Programs.SegmentAt;
    var f := ElfFile(h, gap, phs, body);
    ElfRead(h, gap, phs, body);
    Programs.ScanAccepts(Programs.Segments(f), |f|, false);
    SegmentsFit(phs, Programs.Segments(f), |f|);
  }

  lemma SegmentsFit(phs: seq<ProgramHeader>, ss: seq<Programs.Segment>, size: nat)
    requires |ss| == |phs| && forall i :: 0 <= i < |phs| ==> ss[i] == AsSegment(phs[i])
    ensures Programs.Loadable(ss, size) <==>
              forall i :: 0 <= i < |phs| && phs[i].kind == 1 ==> Placed(phs[i]) && Backed(phs[i], size)
    ensures (exists i :: 0 <= i < |ss| && ss[i].kind == Programs.LOAD) <==>
              exists i :: 0 <= i < |phs| && phs[i].kind == 1
  {
    if exists i :: 0 <= i < |phs| && phs[i].kind == 1 {
      var i :| 0 <= i < |phs| && phs[i].kind == 1;
      assert ss[i].kind == Programs.LOAD;
    }
  }

  predicate Placed(p: ProgramHeader)
  {
    BASE <= p.vaddr && p.vaddr + p.memsz <= BASE + IMAGE_SIZE
  }

  predicate Backed(p: ProgramHeader, size: nat)
  {
    p.offset + p.filesz <= size && p.filesz <= p.memsz
  }

  /** Program header `i` is the first load segment that does not fit. */
  predicate FirstBad(phs: seq<ProgramHeader>, size: nat, i: nat)
  {
    && i < |phs| && phs[i].kind == 1 && !(Placed(phs[i]) && Backed(phs[i], size))
    && forall j :: 0 <= j < i && phs[j].kind == 1 ==> Placed(phs[j]) && Backed(phs[j], size)
  }

  /** The first load segment that does not fit decides the code: -34 if it lies outside the window, -35 otherwise. */
  lemma {:induction false} BadSegment(phs: seq<ProgramHeader>, ss: seq<Programs.Segment>, size: nat, loaded: bool,
                                      i: nat)
    requires FirstBad(phs, size, i) && |ss| == |phs| && forall j :: 0 <= j < |phs| ==> ss[j] == AsSegment(phs[j])
    ensures Programs.ScanCode(ss, size, loaded) == if Placed(phs[i]) then -35 else -34
    decreases |phs|
  {
    if i > 0 {
      BadSegment(phs[1..], ss[1..], size, loaded || phs[0].kind == 1, i - 1);
    }
  }

  /** Without a load segment the code is -36. */
  lemma {:induction false} NoSegment(phs: seq<ProgramHeader>, ss: seq<Programs.Segment>, size: nat)
    requires (forall j :: 0 <= j < |phs| ==> phs[j].kind != 1)
    requires |ss| == |phs| && forall j :: 0 <= j < |phs| ==> ss[j] == AsSegment(phs[j])
    ensures Programs.ScanCode(ss, size, false) == -36
    decreases |phs|
  {
    if phs != [] {
      NoSegment(phs[1..], ss[1..], size);
    }
  }

  /** The code of every refusal, in terms of the fields. */
  lemma ElfRefused(h: ElfHeader, gap: seq<Byte>, phs: seq<ProgramHeader>, body: seq<Byte>)
    requires Describes(h, gap, phs)
    ensures
      var f := ElfFile(h, gap, phs, body);
      var known := h.magic == ELF_MAGIC && Known(h);
      var inside := BASE <= h.entry < BASE + IMAGE_SIZE;
      && (forall n :: 0 <= n < 52 ==> Programs.ElfCode(f[..n]) == -30)
      && (h.magic != ELF_MAGIC ==> Programs.ElfCode(f) == -31)
      && (h.magic == ELF_MAGIC && !Known(h) ==> Programs.ElfCode(f) == -32)
      && (known && phs == [] ==> Programs.ElfCode(f) == -33)
      && (known && phs != [] && !inside ==> Programs.ElfCode(f) == -37)
      && (known && phs != [] && inside && (forall j :: 0 <= j < |phs| ==> phs[j].kind != 1) ==>
            Programs.ElfCode(f) == -36)
      && (known && inside ==> forall i: nat :: FirstBad(phs, |f|, i) ==>
            Programs.ElfCode(f) == if Placed(phs[i]) then -35 else -34)
  {
    hide ElfFile, Programs.ElfMagic, Programs.ElfKind, Programs.ScanCode, Programs.SegmentAt, FirstBad, Placed;
    var f := ElfFile(h, gap, phs, body);
    ElfRead(h, gap, phs, body);
    var ss := Programs.Segments(f);
    if forall j :: 0 <= j < |phs| ==> phs[j].kind != 1 {
      NoSegment(phs, ss, |f|);
    }
    forall i: nat | FirstBad(phs, |f|, i) ensures phs != [] && i < |phs|
      ensures Programs.ScanCode(ss, |f|, false) == if Placed(phs[i]) then -35 else -34
    {
      BadIndex(phs, |f|, i);
      BadSegment(phs, ss, |f|, false, i);
    }
  }

  lemma BadIndex(phs: seq<ProgramHeader>, size: nat, i: nat)
    requires FirstBad(phs, size, i)
    ensures i < |phs|
  {
  }

  // ---------------------------------------------------------------- what runs

  /** The file part of the segment covers address `va`. */
  predicate Over(p: ProgramHeader, va: nat)
  {
    p.kind == 1 && p.vaddr <= va < p.vaddr + p.filesz
  }

  /** User memory: every byte from the last segment over it, and zero where there is none. */
  ghost predicate Shows(start: Start, file: seq<Byte>, phs: seq<ProgramHeader>)
  {
    && start.space in start.paged.spaces
    && (forall va: Address, j :: BASE <= va < STACK && 0 <= j < |phs| && Over(phs[j], va) && LastOver(phs, va, j) ==>
          && phs[j].offset + (va - phs[j].vaddr) < |file|
          && UserByte(start, va) == file[phs[j].offset + (va - phs[j].vaddr)])
    && (forall va: Address :: BASE <= va < STACK && NoneOver(phs, va) ==> UserByte(start, va) == 0)
    && (forall va: Address :: STACK <= va < STACK + PAGE_SIZE ==> UserByte(start, va) == 0)
    && (forall va: Address :: BASE <= va < STACK + PAGE_SIZE ==> UserMay(start.paged, start.space, va))
  }

  predicate LastOver(phs: seq<ProgramHeader>, va: nat, j: int)
  {
    forall i :: j < i < |phs| && 0 <= i ==> !Over(phs[i], va)
  }

  predicate NoneOver(phs: seq<ProgramHeader>, va: nat)
  {
    forall i :: 0 <= i < |phs| ==> !Over(phs[i], va)
  }

  lemma RunningShows(start: Start, file: seq<Byte>, phs: seq<ProgramHeader>, before: Paged)
    requires |file| >= Programs.ELF_HEADER && Programs.TableFits(file)
    requires Programs.Loadable(Programs.Segments(file), |file|) && Programs.ElfRunning(start, file, before)
    requires |Programs.Segments(file)| == |phs|
    requires forall i :: 0 <= i < |phs| ==> Programs.Segments(file)[i] == AsSegment(phs[i])
    ensures Shows(start, file, phs)
  {
    hide UserByte, Programs.ImageByte, Programs.Segments, Programs.Loadable;
    var ss := Programs.Segments(file);
    forall va: Address, j | BASE <= va < STACK && 0 <= j < |phs| && Over(phs[j], va) && LastOver(phs, va, j)
      ensures phs[j].offset + (va - phs[j].vaddr) < |file|
      ensures UserByte(start, va) == file[phs[j].offset + (va - phs[j].vaddr)]
    {
      CoversOver(phs, ss, va);
      Programs.LastWins(file, ss, va - BASE, j);
    }
    forall va: Address | BASE <= va < STACK && NoneOver(phs, va) ensures UserByte(start, va) == 0 {
      CoversOver(phs, ss, va);
      Programs.NoneIsZero(file, ss, va - BASE);
    }
  }

  lemma CoversOver(phs: seq<ProgramHeader>, ss: seq<Programs.Segment>, va: nat)
    requires |ss| == |phs| && va >= BASE && forall i :: 0 <= i < |phs| ==> ss[i] == AsSegment(phs[i])
    ensures forall i :: 0 <= i < |ss| ==> (Programs.Covers(ss[i], va - BASE) <==> Over(phs[i], va))
    ensures forall i :: 0 <= i < |ss| && Programs.Covers(ss[i], va - BASE) ==>
              Programs.Source(ss[i], va - BASE) == phs[i].offset + (va - phs[i].vaddr)
  {
  }

  /** Running a file built from its fields: it runs exactly when the fields are acceptable and there is room, and user
      memory shows its segments. */
  method RunBuilt(runner: Programs.Runner, name: seq<Byte>, h: ElfHeader, gap: seq<Byte>, phs: seq<ProgramHeader>,
                  body: seq<Byte>) returns (code: int, ghost ran: bool, ghost start: Start)
    requires runner.Valid() && Describes(h, gap, phs) && |ElfFile(h, gap, phs, body)| < Programs.WORD
    requires forall i :: 0 <= i < |phs| ==> phs[i].offset + phs[i].filesz < Programs.WORD
    modifies runner.loadImage, runner.loader, runner.loader.paging`tables, runner.loader.paging`spaces,
             runner.loader.paging`owner, runner.loader.paging`current, runner.loader.paging.pmm`used,
             runner.loader.paging.pmm.words
    ensures runner.Undisturbed()
    ensures ran <==> Runnable(h, phs, |ElfFile(h, gap, phs, body)|) && old(runner.Room())
    ensures ran ==> Shows(start, ElfFile(h, gap, phs, body), phs)
    ensures ran ==>
              Finished(old(runner.loader.processes), runner.loader.processes,
                       Process(old(runner.loader.nextPid), Exited, CutName(name), h.entry, code, 0))
  {
    hide ElfFile, Programs.ElfCode, Programs.ElfMagic, Programs.ElfKind, Programs.SegmentAt, Programs.Loadable;
    hide Programs.ElfRunning, Finished, Shows, Runnable;
    var file := ElfFile(h, gap, phs, body);
    ElfRead(h, gap, phs, body);
    ElfAccepted(h, gap, phs, body);
    assert forall i :: 0 <= i < |phs| ==> Programs.SegmentAt(file, i) == Programs.Segments(file)[i];
    code, ran, start := runner.RunElf(name, file);
    if ran {
      RunningShows(start, file, phs, old(runner.loader.paging.Snap()));
    }
  }

  // ---------------------------------------------------------------- the files that the image builder makes

  /** The header and program header of an executable around one payload. */
  function PayloadHeader(): (h: ElfHeader)
  {
    ElfHeader(ELF_MAGIC, 1, 1, [1] + Zeros(9), 2, 3, 1, 0x400000, 52, 0, 0, 52, 32, 1, 0, 0, 0)
  }

  function PayloadSegment(size: U32): (p: ProgramHeader)
  {
    ProgramHeader(1, 0x100, 0x400000, 0x400000, size, size, 7, 0x1000)
  }

  function PayloadElf(payload: seq<Byte>): (f: seq<Byte>)
    requires |payload| < Programs.WORD
  {
    ElfFile(PayloadHeader(), [], [PayloadSegment(|payload|)], Zeros(0x100 - 84) + payload)
  }

  /** The kernel runs it exactly when the payload fits in the window, and the payload is then what its segment shows. */
  lemma PayloadRuns(payload: seq<Byte>)
    requires |payload| < Programs.WORD
    ensures Describes(PayloadHeader(), [], [PayloadSegment(|payload|)])
    ensures Programs.ElfCode(PayloadElf(payload)) == 0 <==> |payload| <= IMAGE_SIZE
    ensures |PayloadElf(payload)| == 0x100 + |payload| && PayloadElf(payload)[0x100..] == payload
  {
    var phs := [PayloadSegment(|payload|)];
    ElfAccepted(PayloadHeader(), [], phs, Zeros(0x100 - 84) + payload);
    assert phs[0].kind == 1;
  }

  // ---------------------------------------------------------------- the flat format

  const MEXE_MAGIC: seq<Byte> := ['M' as int, 'E' as int, 'X' as int, 'E' as int]

  /** `struct user_exec_header` and the image behind it. */
  function MexeFile(magic: seq<Byte>, entry: U32, size: U32, reserved: U32, body: seq<Byte>): (f: seq<Byte>)
    requires |magic| == 4
    ensures |f| == 16 + |body|
  {
    magic + Words([entry, size, reserved]) + body
  }

  /** The kernel accepts it exactly when the image is there, fits in the window and contains its entry. */
  lemma MexeRead(magic: seq<Byte>, entry: U32, size: U32, reserved: U32, body: seq<Byte>)
    requires |magic| == 4
    ensures
      var f := MexeFile(magic, entry, size, reserved, body);
      var known := magic == MEXE_MAGIC && entry < size <= IMAGE_SIZE;
      && Programs.Word(f, 4) == entry && Programs.Word(f, 8) == size
      && (size <= |body| ==> f[16..16 + size] == body[..size])
      && Programs.MexeCode(f) == (if !known then -11 else if size > |body| then -12 else 0)
      && forall n :: 0 <= n < 16 ==> Programs.MexeCode(f[..n]) == -10
  {
    hide Words;
    var ws := [entry, size, reserved];
    WordRead(ws, 0, magic, body);
    WordRead(ws, 1, magic, body);
    var f := MexeFile(magic, entry, size, reserved, body);
    assert f[0] == magic[0] && f[1] == magic[1] && f[2] == magic[2] && f[3] == magic[3];
  }

  /** A flat program around one payload, as the image builder makes it: accepted unless it is empty or too large. */
  lemma PayloadMexe(payload: seq<Byte>)
    requires |payload| < Programs.WORD
    ensures var f := MexeFile(MEXE_MAGIC, 0, |payload|, 0, payload);
            (Programs.MexeCode(f) == 0 <==> 0 < |payload| <= IMAGE_SIZE) && f[16..16 + |payload|] == payload
  {
    MexeRead(MEXE_MAGIC, 0, |payload|, 0, payload);
  }
}

/** The memory of a user program at the moment it is entered. */
module UserImage {
  import SectorCache
  import opened Bits
  import opened Pmm
  import opened PageTables
  import opened Paging

  type Byte = SectorCache.Byte

  const BASE: nat := 0x40_0000
  const IMAGE_PAGES: nat := 16
  const IMAGE_SIZE: nat := 65536
  const STACK: nat := 0x41_0000
  /** Image pages and the stack page above them. */
  const ALL_PAGES: nat := 17
  const USER_FLAGS: nat := 6

  type PageBytes = b: seq<Byte> | |b| == 4096 witness seq(4096, _ => 0)

  /** What the processor and memory hold when user code starts. */
  datatype Start = Start(paged: Paged, space: nat, bytes: map<nat, PageBytes>)

  /** The byte that user code reads at `va`, or -1. */
  ghost function UserByte(s: Start, va: Address): (r: int)
    requires s.space in s.paged.spaces
  {
    match View(s.paged, s.space, va)
    case Nowhere => -1
    case Physical(a) => if Frame(a) in s.bytes then s.bytes[Frame(a)][a % PAGE_SIZE] else -1
  }

  /** User code may read and write at `va`. */
  ghost predicate UserMay(p: Paged, h: nat, va: Address)
    requires h in p.spaces
  {
    Allows(p, h, va, 1) && Allows(p, h, va, 2)
  }

  /** The image from the base of the window, zeros up to its end, and a zero stack page above it; elsewhere what the
      kernel maps. */
  ghost predicate Started(s: Start, image: seq<Byte>, before: Paged)
  {
    && s.space in s.paged.spaces
    && (forall va: Address :: BASE <= va < STACK ==>
          UserByte(s, va) == if va - BASE < |image| then image[va - BASE] else 0)
    && (forall va: Address :: STACK <= va < STACK + PAGE_SIZE ==> UserByte(s, va) == 0)
    && (forall va: Address :: BASE <= va < STACK + PAGE_SIZE ==> UserMay(s.paged, s.space, va))
    && (forall va: Address :: !(BASE <= va < STACK + PAGE_SIZE) ==>
          View(s.paged, s.space, va) == Translate(before.tables, before.kernel, va))
  }

  // ---------------------------------------------------------------- the window

  ghost predicate Aligned(pages: seq<nat>)
  {
    forall j :: 0 <= j < |pages| ==> pages[j] > 0 && pages[j] % PAGE_SIZE == 0
  }

  function WindowPage(va: Address): (r: int)
  {
    va / PAGE_SIZE - 1024
  }

  /** The first `n` pages of the window are mapped to `pages`; every other address is as it was. */
  ghost predicate Window(before: Paged, p: Paged, h: nat, pages: seq<nat>, n: nat)
  {
    && n <= |pages| && h !in before.spaces && p.spaces.Keys == before.spaces.Keys + {h}
    && (forall va: Address :: View(p, h, va) ==
          if 0 <= WindowPage(va) < n then Physical(pages[WindowPage(va)] + va % PAGE_SIZE)
              else Translate(before.tables, before.kernel, va))
    && (forall va: Address :: 0 <= WindowPage(va) < n ==> UserMay(p, h, va))
    && SameViews(before, p)
  }

  /** Mapping the next page extends the window by one. */
  lemma WindowStep(before: Paged, p: Paged, q: Paged, h: nat, pages: seq<nat>, n: nat)
    requires Window(before, p, h, pages, n) && n < |pages| <= ALL_PAGES && Aligned(pages)
    requires OnlyPage(p, q, h, BASE + n * PAGE_SIZE, PageEntry(pages[n], USER_FLAGS))
    requires MapAccess(p, q, h, BASE + n * PAGE_SIZE, USER_FLAGS)
    ensures Window(before, q, h, pages, n + 1)
  {
    hide Translate, View, PageEntry, Allows;
    assert Bit(USER_FLAGS, 1) && Bit(USER_FLAGS, 2);
    SameOthers(before, p, q, h, BASE + n * PAGE_SIZE, PageEntry(pages[n], USER_FLAGS));
    forall va: Address
      ensures View(q, h, va) ==
              if 0 <= WindowPage(va) < n + 1 then Physical(pages[WindowPage(va)] + va % PAGE_SIZE)
                  else Translate(before.tables, before.kernel, va)
    {
      if WindowPage(va) == n {
        MapExact(p, q, h, BASE + n * PAGE_SIZE, pages[n], USER_FLAGS, va);
      } else {
        assert View(q, h, va) == View(p, h, va);
      }
    }
  }

  /** A change to one page of `h` is invisible to spaces that were there before. */
  lemma SameOthers(before: Paged, p: Paged, q: Paged, h: nat, va: Address, e: nat)
    requires SameViews(before, p) && h !in before.spaces && p.spaces.Keys == before.spaces.Keys + {h}
    requires OnlyPage(p, q, h, va, e)
    ensures SameViews(before, q)
  {
  }

  /** Adding or removing a space is invisible to the others. */
  lemma SameAfter(before: Paged, p: Paged, q: Paged, h: nat)
    requires SameViews(before, p) && SameViews(p, q) && h !in before.spaces && p.spaces.Keys == before.spaces.Keys + {h}
    ensures SameViews(before, q)
  {
  }

  // ---------------------------------------------------------------- contents

  ghost predicate Distinct(pages: seq<nat>)
  {
    forall i, j :: 0 <= i < j < |pages| ==> pages[i] != pages[j]
  }

  /** The first `n` bytes of the image are in place and everything else is zero. */
  ghost predicate Filled(bytes: map<nat, PageBytes>, pages: seq<nat>, image: seq<Byte>, n: nat)
    requires n <= |image|
  {
    && (forall j :: 0 <= j < |pages| ==> pages[j] in bytes)
    && forall j, o :: 0 <= j < |pages| && 0 <= o < PAGE_SIZE ==>
         bytes[pages[j]][o] == if j * PAGE_SIZE + o < n then image[j * PAGE_SIZE + o] else 0
  }

  lemma FilledStep(bytes: map<nat, PageBytes>, pages: seq<nat>, image: seq<Byte>, n: nat)
    requires Distinct(pages) && n < |image| && n / PAGE_SIZE < |pages| && Filled(bytes, pages, image, n)
    ensures var a := pages[n / PAGE_SIZE]; Filled(bytes[a := bytes[a][n % PAGE_SIZE := image[n]]], pages, image, n + 1)
  {
  }

  /** A mapped window over filled pages is the program. */
  lemma WindowStarted(before: Paged, p: Paged, h: nat, pages: seq<nat>, image: seq<Byte>, bytes: map<nat, PageBytes>)
    requires |pages| == ALL_PAGES && Aligned(pages) && |image| <= IMAGE_SIZE
    requires Window(before, p, h, pages, ALL_PAGES) && Filled(bytes, pages, image, |image|)
    ensures Started(Start(p, h, bytes), image, before)
  {
    hide Translate, View, SameViews;
    var s := Start(p, h, bytes);
    forall va: Address | BASE <= va < STACK + PAGE_SIZE
      ensures UserByte(s, va) == if va - BASE < |image| then image[va - BASE] else 0
    {
      WindowByte(before, p, h, pages, image, bytes, va);
    }
  }

  lemma WindowByte(before: Paged, p: Paged, h: nat, pages: seq<nat>, image: seq<Byte>, bytes: map<nat, PageBytes>,
                   va: Address)
    requires |pages| == ALL_PAGES && Aligned(pages) && |image| <= IMAGE_SIZE && BASE <= va < STACK + PAGE_SIZE
    requires Window(before, p, h, pages, ALL_PAGES) && Filled(bytes, pages, image, |image|)
    ensures UserByte(Start(p, h, bytes), va) == if va - BASE < |image| then image[va - BASE] else 0
  {
  }
}

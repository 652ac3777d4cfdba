/** Launching a user program: its pages, its address space and its process entry. Entering user
    mode is an arbitrary change to the bytes of the program's own pages and an arbitrary exit code. */
module Loader {
  import opened Pmm
  import opened PageTables
  import opened Paging
  import opened UserImage

  const PROCESS_COUNT: nat := 8
  const NAME_SIZE: nat := 32
  const PAGES_PER_RUN: nat := 20

  datatype ProcessState = Unused | Running | Exited
  datatype Process = Process(pid: nat, state: ProcessState, name: seq<Byte>, entry: nat, exitCode: int, space: nat)

  // ---------------------------------------------------------------- lists of pages

  ghost function PageSet(pages: seq<nat>): (r: set<nat>)
  {
    if pages == [] then {} else {pages[0] / PAGE_SIZE} + PageSet(pages[1..])
  }

  lemma {:induction false} PageSetConcat(a: seq<nat>, b: seq<nat>)
    ensures PageSet(a + b) == PageSet(a) + PageSet(b)
  {
    if a == [] {
      assert a + b == b;
    } else {
      assert (a + b)[1..] == a[1..] + b;
      PageSetConcat(a[1..], b);
    }
  }

  lemma PageSetOne(a: nat)
    ensures PageSet([a]) == {a / PAGE_SIZE} && PageSet([]) == {}
  {
  }

  /** Pages that the launch took and that have no paging role. */
  ghost predicate Ours(pages: seq<nat>, owner: map<nat, Role>, usable: set<nat>, free: set<nat>)
  {
    && Aligned(pages) && Distinct(pages)
    && forall j :: 0 <= j < |pages| ==>
         pages[j] !in owner && pages[j] / PAGE_SIZE in usable && pages[j] / PAGE_SIZE !in free
  }

  lemma OursInsert(a: seq<nat>, x: nat, b: seq<nat>, owner: map<nat, Role>, usable: set<nat>, free: set<nat>)
    requires Ours(a + b, owner, usable, free) && x > 0 && x % PAGE_SIZE == 0 && x / PAGE_SIZE in free
    requires x / PAGE_SIZE in usable && x !in owner
    ensures Ours(a + [x] + b, owner, usable, free - {x / PAGE_SIZE})
  {
    var was, now := a + b, a + [x] + b;
    forall j | 0 <= j < |now| && j != |a| ensures now[j] == was[if j < |a| then j else j - 1] {
    }
    forall i, j | 0 <= i < j < |now| ensures now[i] != now[j] {
      if i != |a| && j != |a| {
        assert was[if i < |a| then i else i - 1] != was[if j < |a| then j else j - 1];
      }
    }
  }

  lemma OursDrop(pages: seq<nat>, owner: map<nat, Role>, usable: set<nat>, free: set<nat>)
    requires pages != [] && Ours(pages, owner, usable, free)
    ensures Ours(pages[1..], owner, usable, free + {pages[0] / PAGE_SIZE})
  {
  }

  lemma OursStays(pages: seq<nat>, owner: map<nat, Role>, owner': map<nat, Role>, usable: set<nat>, free: set<nat>,
                  free': set<nat>)
    requires Ours(pages, owner, usable, free) && NewRoles(owner, owner', free) && free' <= free
    ensures Ours(pages, owner', usable, free')
  {
  }

  class ProgramLoader {
    const paging: AddressSpaces
    const pmm: Allocator
    var bytes: map<nat, PageBytes>
    var processes: seq<Process>
    var nextPid: nat
    var currentProcess: int

    constructor (paging: AddressSpaces)
      requires paging.Valid()
      ensures Valid() && this.paging == paging
    {
      this.paging, pmm := paging, paging.pmm;
      bytes := map[];
      processes := seq(PROCESS_COUNT, _ => Process(0, Unused, [], 0, 0, 0));
      nextPid, currentProcess := 1, -1;
    }

    ghost predicate Valid()
      reads this, paging, paging.pmm, paging.pmm.words
    {
      pmm == paging.pmm && paging.Valid() && |processes| == PROCESS_COUNT
    }

    /** The launch has space `h` and `pages`, and these are all the pages gone from `free`. */
    ghost predicate Holding(before: Paged, free: set<nat>, h: nat, pages: seq<nat>)
      reads paging, paging.pmm, paging.pmm.words
    {
      && pmm == paging.pmm && paging.Valid()
      && h in paging.spaces && h !in before.spaces && h != 0 && h != paging.kernelSpace
      && paging.spaces == before.spaces[h := paging.spaces[h]] && SameViews(before, paging.Snap())
      && Ours(pages, paging.owner, pmm.usable, pmm.Free())
      && free == pmm.Free() + Held(h, paging.spaces[h]) + PageSet(pages)
    }

    /** The space is gone, and `pages` are all the pages gone from `free`. */
    ghost predicate Left(before: Paged, free: set<nat>, pages: seq<nat>)
      reads paging, paging.pmm, paging.pmm.words
    {
      && pmm == paging.pmm && paging.Valid() && paging.spaces == before.spaces && SameViews(before, paging.Snap())
      && Ours(pages, paging.owner, pmm.usable, pmm.Free()) && free == pmm.Free() + PageSet(pages)
    }

    lemma HasSpace(before: Paged, free: set<nat>, h: nat, pages: seq<nat>)
      requires Holding(before, free, h, pages)
      ensures h in paging.spaces && pmm == paging.pmm
    {
    }

    /** Give the first page back. */
    method Drop(a: nat, ghost rest: seq<nat>, ghost before: Paged, ghost free: set<nat>, ghost h: nat)
      requires Holding(before, free, h, [a] + rest)
      modifies pmm`used, pmm.words
      ensures Holding(before, free, h, rest)
    {
      hide Sound, SameViews, Counted, FreeIn, PagesOk, Held, Ours;
      ghost var pages := [a] + rest;
      assert pages[1..] == rest && pages[0] == a;
      OursFirst(pages, paging.owner, pmm.usable, pmm.Free());
      OursDrop(pages, paging.owner, pmm.usable, pmm.Free());
      PagesReturn(paging.owner, paging.shared, pmm.usable, pmm.Free(), a);
      pmm.FreePage(a);
    }

    method DropSpace(h: nat, ghost pages: seq<nat>, ghost before: Paged, ghost free: set<nat>)
      requires Holding(before, free, h, pages)
      modifies paging`spaces, paging`owner, paging`current, pmm`used, pmm.words
      ensures Left(before, free, pages)
    {
      hide Sound, Counted, FreeIn, PagesOk, Held, View, Translate, Ours, PageSet;
      ghost var p := paging.Snap();
      OursApart(p, pages, pmm.usable, pmm.Free(), h);
      paging.DestroySpace(h);
      OursFewer(pages, p.owner, paging.owner, pmm.usable, pmm.Free());
      SameAfter(before, p, paging.Snap(), h);
    }

    /** The end of every failed launch: the space goes, then the stack page. */
    method Abandon(h: nat, stack: nat, ghost before: Paged, ghost free: set<nat>)
      requires Holding(before, free, h, [stack])
      modifies paging`spaces, paging`owner, paging`current, pmm`used, pmm.words
      ensures Left(before, free, [])
    {
      hide Sound, SameViews, Counted, FreeIn, PagesOk, Held, Ours;
      DropSpace(h, [stack], before, free);
      OursFirst([stack], paging.owner, pmm.usable, pmm.Free());
      OursDrop([stack], paging.owner, pmm.usable, pmm.Free());
      PageSetOne(stack);
      PagesReturn(paging.owner, paging.shared, pmm.usable, pmm.Free(), stack);
      pmm.FreePage(stack);
    }

    /** Give every image page back. */
    method DropAll(images: seq<nat>, ghost rest: seq<nat>, ghost before: Paged, ghost free: set<nat>, ghost h: nat)
      requires Holding(before, free, h, images + rest)
      modifies pmm`used, pmm.words
      ensures Holding(before, free, h, rest)
    {
      hide Holding;
      assert images[0..] == images;
      for j := 0 to |images|
        invariant Holding(before, free, h, images[j..] + rest)
      {
        assert images[j..] + rest == [images[j]] + (images[j + 1..] + rest);
        Drop(images[j], images[j + 1..] + rest, before, free, h);
      }
      assert images[|images|..] + rest == rest;
    }

    /** The image pages, or a clean retreat. */
    method AllocImages(h: nat, stack: nat, ghost before: Paged, ghost free: set<nat>)
      returns (ok: bool, images: seq<nat>)
      requires Holding(before, free, h, [stack])
      modifies paging`spaces, paging`owner, paging`current, pmm`used, pmm.words
      ensures ok ==>
                && |images| == IMAGE_PAGES && Holding(before, free, h, images + [stack])
                && paging.Snap() == old(paging.Snap())
      ensures ok ==> pmm.used == old(pmm.used) + IMAGE_PAGES <= pmm.total
      ensures !ok ==> Left(before, free, []) && pmm.total < old(pmm.used) + IMAGE_PAGES
    {
      hide Holding, Left;
      images := [];
      assert [] + [stack] == [stack];
      while |images| < IMAGE_PAGES
        invariant |images| <= IMAGE_PAGES && Holding(before, free, h, images + [stack])
        invariant paging.Snap() == old(paging.Snap())
        invariant pmm.used == old(pmm.used) + |images| && (images != [] ==> pmm.used <= pmm.total)
      {
        var a := AllocNext(images, [stack], before, free, h);
        if a == 0 {
          DropAll(images, [stack], before, free, h);
          Abandon(h, stack, before, free);
          return false, images;
        }
        images := images + [a];
      }
      ok := true;
    }

    method AllocNext(ghost images: seq<nat>, ghost rest: seq<nat>, ghost before: Paged, ghost free: set<nat>,
                     ghost h: nat) returns (a: nat)
      requires Holding(before, free, h, images + rest)
      modifies pmm`used, pmm.words
      ensures a == 0 ==> Holding(before, free, h, images + rest) && pmm.used == old(pmm.used) == pmm.total
      ensures a != 0 ==> Holding(before, free, h, images + [a] + rest) && pmm.used == old(pmm.used) + 1 <= pmm.total
    {
      hide Sound, SameViews, Counted, FreeIn, PagesOk, Held, Ours, PageSet;
      ghost var f := pmm.Free();
      pmm.FreeIsUsable();
      a := pmm.AllocPage();
      if a != 0 {
        FreshPage(paging.owner, paging.shared, pmm.usable, f, a);
        PagesFewer(paging.owner, paging.shared, pmm.usable, f, pmm.Free());
        OursInsert(images, a, rest, paging.owner, pmm.usable, f);
        InsertPages(images, a, rest);
      }
    }

    // -------------------------------------------------------------- mapping

    /** Map one page of the window. */
    method MapOne(h: nat, pages: seq<nat>, n: nat, ghost before: Paged, ghost free: set<nat>) returns (ok: bool)
      requires Holding(before, free, h, pages) && Window(before, paging.Snap(), h, pages, n) && n < |pages| == ALL_PAGES
      modifies paging`tables, paging`spaces, paging`owner, pmm`used, pmm.words
      ensures Holding(before, free, h, pages) && pmm.used <= pmm.total && h in paging.spaces
      ensures ok ==> Window(before, paging.Snap(), h, pages, n + 1) && !NoTable(paging.spaces[h])
      ensures ok ==> pmm.used == old(pmm.used) + if NoTable(old(paging.spaces[h])) then 1 else 0
      ensures !ok ==>
                && NoTable(old(paging.spaces[h])) && paging.spaces == old(paging.spaces)
                && pmm.used == old(pmm.used) == pmm.total
    {
      hide Sound, Counted, FreeIn, PagesOk, Held, View, Translate, PageEntry, OnlyPage, Window, PageSet, Ours;
      hide SameViews;
      OursAligned(pages, paging.owner, pmm.usable, pmm.Free());
      ghost var p, f := paging.Snap(), pmm.Free();
      pmm.FreeIsUsable();
      var va := BASE + n * PAGE_SIZE;
      assert Slot(va) == 1;
      ok := paging.MapPage(h, va, pages[n], USER_FLAGS);
      OursStays(pages, p.owner, paging.owner, pmm.usable, f, pmm.Free());
      if ok {
        WindowStep(before, p, paging.Snap(), h, pages, n);
        WindowViews(before, paging.Snap(), h, pages, n + 1);
      } else {
        SameAfter(before, p, paging.Snap(), h);
      }
    }

    /** Unmap one page of the window. */
    method UnmapOne(h: nat, va: Address, ghost pages: seq<nat>, ghost before: Paged, ghost free: set<nat>)
      requires Holding(before, free, h, pages) && Slot(va) == 1 && !NoTable(paging.spaces[h])
      modifies paging`tables
      ensures Holding(before, free, h, pages)
    {
      hide Sound, Counted, FreeIn, PagesOk, Held, View, Translate, OnlyPage, Ours, PageSet, SameViews;
      ghost var p := paging.Snap();
      paging.UnmapPage(h, va);
      SameOthers(before, p, paging.Snap(), h, va, 0);
    }

    /** The map loop and the stack mapping of `run_loaded_image`: 0,
        or the code it fails with after undoing everything. */
    method MapWindow(h: nat, images: seq<nat>, stack: nat, ghost before: Paged, ghost free: set<nat>)
      returns (code: int)
      requires |images| == IMAGE_PAGES && Holding(before, free, h, images + [stack]) && NoTable(paging.spaces[h])
      requires Window(before, paging.Snap(), h, images + [stack], 0)
      modifies paging`tables, paging`spaces, paging`owner, paging`current, pmm`used, pmm.words
      ensures code == 0 || code == -23
      ensures code == 0 ==>
                && Holding(before, free, h, images + [stack])
                && Window(before, paging.Snap(), h, images + [stack], ALL_PAGES)
      ensures code == 0 ==> !NoTable(paging.spaces[h]) && old(pmm.used) + 1 <= pmm.total
      ensures code == -23 ==> Left(before, free, []) && pmm.total == old(pmm.used)
    {
      hide Holding, Left, Window, NoTable;
      ghost var pages := images + [stack];
      HasSpace(before, free, h, pages);
      for i := 0 to IMAGE_PAGES
        invariant Holding(before, free, h, pages) && Window(before, paging.Snap(), h, pages, i)
        invariant h in paging.spaces && if i == 0 then NoTable(paging.spaces[h]) && pmm.used == old(pmm.used)
                                        else !NoTable(paging.spaces[h]) && old(pmm.used) + 1 == pmm.used <= pmm.total
      {
        var ok := MapOne(h, images + [stack], i, before, free);
        if !ok {
          UnmapSome(h, i, pages, before, free);
          DropAll(images, [stack], before, free, h);
          Abandon(h, stack, before, free);
          return -23;
        }
      }
      var ok := MapOne(h, images + [stack], IMAGE_PAGES, before, free);
      if !ok {
        // The window and the stack share one table, so this failure never happens.
        assert false;
        return -24;
      }
      return 0;
    }

    /** Unmap the first `n` pages of the window. */
    method UnmapSome(h: nat, n: nat, ghost pages: seq<nat>, ghost before: Paged, ghost free: set<nat>)
      requires Holding(before, free, h, pages) && n <= IMAGE_PAGES && h in paging.spaces
      requires (n > 0 ==> !NoTable(paging.spaces[h]))
      modifies paging`tables
      ensures Holding(before, free, h, pages)
    {
      hide Holding, NoTable;
      for j := 0 to n
        invariant Holding(before, free, h, pages)
      {
        UnmapOne(h, BASE + j * PAGE_SIZE, pages, before, free);
      }
    }

    /** Unmap and give back every image page. */
    method UnmapAndDrop(h: nat, images: seq<nat>, ghost rest: seq<nat>, ghost before: Paged, ghost free: set<nat>)
      requires |images| == IMAGE_PAGES && Holding(before, free, h, images + rest) && h in paging.spaces
      requires !NoTable(paging.spaces[h])
      modifies paging`tables, pmm`used, pmm.words
      ensures Holding(before, free, h, rest)
    {
      hide Holding, NoTable;
      assert images[0..] == images;
      for j := 0 to IMAGE_PAGES
        invariant Holding(before, free, h, images[j..] + rest)
      {
        UnmapOne(h, BASE + j * PAGE_SIZE, images[j..] + rest, before, free);
        assert images[j..] + rest == [images[j]] + (images[j + 1..] + rest);
        Drop(images[j], images[j + 1..] + rest, before, free, h);
      }
      assert images[IMAGE_PAGES..] + rest == rest;
    }

    // -------------------------------------------------------------- contents

    method ZeroPage(a: nat)
      modifies this`bytes
      ensures bytes == old(bytes)[a := seq(PAGE_SIZE, _ => 0)]
    {
      var page: PageBytes :| true;
      for i := 0 to PAGE_SIZE
        invariant forall j :: 0 <= j < i ==> page[j] == 0
      {
        page := page[i := 0];
      }
      assert page == seq(PAGE_SIZE, _ => 0);
      bytes := bytes[a := page];
    }

    /** The zeroing loops and the copy loop of `run_loaded_image`. */
    method Fill(images: seq<nat>, stack: nat, image: seq<Byte>)
      requires |images| == IMAGE_PAGES && Distinct(images + [stack]) && |image| <= IMAGE_SIZE
      modifies this`bytes
      ensures Filled(bytes, images + [stack], image, |image|)
    {
      ghost var pages := images + [stack];
      for k := 0 to IMAGE_PAGES
        invariant forall j :: 0 <= j < k ==> pages[j] in bytes && bytes[pages[j]] == seq(PAGE_SIZE, _ => 0)
      {
        ZeroPage(images[k]);
      }
      ZeroPage(stack);
      assert Filled(bytes, pages, image, 0);
      for i := 0 to |image|
        invariant Filled(bytes, pages, image, i)
      {
        FilledStep(bytes, pages, image, i);
        var a := images[i / PAGE_SIZE];
        assert a == pages[i / PAGE_SIZE];
        bytes := bytes[a := bytes[a][i % PAGE_SIZE := image[i]]];
      }
    }

    // -------------------------------------------------------------- processes

    /** `allocate_process`: the first unused entry, else the first exited one. */
    method AllocateProcess(name: seq<Byte>, entry: nat) returns (slot: int)
      requires |processes| == PROCESS_COUNT
      modifies this`processes, this`nextPid, this`currentProcess
      ensures |processes| == PROCESS_COUNT && Chosen(old(processes), slot)
      ensures slot < 0 ==>
                processes == old(processes) && nextPid == old(nextPid) && currentProcess == old(currentProcess)
      ensures slot >= 0 ==>
                processes == old(processes)[slot := Process(old(nextPid), Running, CutName(name), entry, 0, 0)]
      ensures slot >= 0 ==> nextPid == (old(nextPid) + 1) % 0x1_0000_0000 && currentProcess == slot
    {
      slot := -1;
      for i := 0 to PROCESS_COUNT
        invariant forall j :: 0 <= j < i ==> processes[j].state != Unused
      {
        if processes[i].state == Unused {
          Claim(i, name, entry);
          return i;
        }
      }
      for i := 0 to PROCESS_COUNT
        invariant forall j :: 0 <= j < i ==> processes[j].state != Exited
      {
        if processes[i].state == Exited {
          Claim(i, name, entry);
          return i;
        }
      }
    }

    method Claim(i: nat, name: seq<Byte>, entry: nat)
      requires |processes| == PROCESS_COUNT && i < PROCESS_COUNT
      modifies this`processes, this`nextPid, this`currentProcess
      ensures processes == old(processes)[i := Process(old(nextPid), Running, CutName(name), entry, 0, 0)]
      ensures nextPid == (old(nextPid) + 1) % 0x1_0000_0000 && currentProcess == i
    {
      processes := processes[i := Process(nextPid, Running, CutName(name), entry, 0, 0)];
      nextPid := (nextPid + 1) % 0x1_0000_0000;
      currentProcess := i;
    }

    // -------------------------------------------------------------- the launch

    /** The stack page and the address space. */
    method Prepare() returns (stack: nat, h: nat)
      requires Valid()
      modifies paging`tables, paging`spaces, paging`owner, paging`current, pmm`used, pmm.words
      ensures h == 0 ==> Left(old(paging.Snap()), old(pmm.Free()), []) && pmm.total < old(pmm.used) + 3
      ensures h != 0 ==>
                Holding(old(paging.Snap()), old(pmm.Free()), h, [stack]) && pmm.used == old(pmm.used) + 3 <= pmm.total
      ensures h != 0 ==>
                && NoTable(paging.spaces[h])
                && forall va: Address :: View(paging.Snap(), h, va) == Translate(paging.tables, paging.kernel, va)
    {
      hide Sound, SameViews, Counted, FreeIn, PagesOk, Held, View, Translate, Ours;
      ghost var f, owner := pmm.Free(), paging.owner;
      pmm.FreeIsUsable();
      stack := pmm.AllocPage();
      PagesFewer(owner, paging.shared, pmm.usable, f, pmm.Free());
      ghost var g := pmm.Free();
      h := paging.CreateSpace();
      PageSetOne(stack);
      if stack == 0 || h == 0 {
        if h != 0 {
          // Without a page for the stack there was none for a space.
          assert false;
        }
        if stack != 0 {
          OursOne(stack, owner, paging.shared, paging.owner, pmm.usable, f);
          PagesReturn(paging.owner, paging.shared, pmm.usable, pmm.Free(), stack);
          pmm.FreePage(stack);
        }
        OursNone(paging.owner, pmm.usable, pmm.Free());
        return stack, 0;
      }
      OursOne(stack, owner, paging.shared, paging.owner, pmm.usable, f);
      OursSmaller(stack, paging.owner, pmm.usable, g, pmm.Free());
    }

    /** User code runs in `h`: any bytes of its own pages may change, and it exits with any code. */
    method Enter(h: nat, pages: seq<nat>, ghost before: Paged, ghost free: set<nat>)
      returns (exitCode: int, ghost start: Start)
      requires Holding(before, free, h, pages)
      modifies this`bytes, paging`current
      ensures Holding(before, free, h, pages) && paging.current == paging.kernelSpace
      ensures start.bytes == old(bytes) && start.space == h && start.paged == old(paging.Snap())
      ensures forall a :: a in old(bytes) && a !in pages ==> a in bytes && bytes[a] == old(bytes)[a]
    {
      hide Sound, Counted, FreeIn, PagesOk, Held, View, Translate, Ours, PageSet, SameViews;
      paging.SwitchSpace(h);
      start := Start(paging.Snap(), h, bytes);
      exitCode := *;
      var changed: map<nat, PageBytes> := *;
      bytes := map a | a in bytes :: if a in pages && a in changed then changed[a] else bytes[a];
      paging.SwitchSpace(paging.kernelSpace);
    }

    /** The pages go back after a run: the stack first, then the image, then the space. */
    method Dismantle(h: nat, images: seq<nat>, stack: nat, ghost before: Paged, ghost free: set<nat>)
      requires |images| == IMAGE_PAGES && Holding(before, free, h, images + [stack]) && h in paging.spaces
      requires !NoTable(paging.spaces[h])
      modifies paging`tables, paging`spaces, paging`owner, paging`current, pmm`used, pmm.words
      ensures Left(before, free, [])
    {
      hide Sound, Counted, FreeIn, PagesOk, Held, View, Translate, Ours, PageSet, SameViews, Left, NoTable;
      UnmapOne(h, STACK, images + [stack], before, free);
      Rotate(images, stack, paging.owner, pmm.usable, pmm.Free());
      Drop(stack, images, before, free, h);
      assert images + [] == images;
      UnmapAndDrop(h, images, [], before, free);
      DropSpace(h, [], before, free);
    }

    /** The same for a launch that found no process entry. */
    method Cancel(h: nat, images: seq<nat>, stack: nat, ghost before: Paged, ghost free: set<nat>)
      requires |images| == IMAGE_PAGES && Holding(before, free, h, images + [stack]) && h in paging.spaces
      requires !NoTable(paging.spaces[h])
      modifies paging`tables, paging`spaces, paging`owner, paging`current, pmm`used, pmm.words
      ensures Left(before, free, [])
    {
      hide Holding, Left, NoTable;
      UnmapOne(h, STACK, images + [stack], before, free);
      UnmapAndDrop(h, images, [stack], before, free);
      Abandon(h, stack, before, free);
    }

    /** The pages and the mapped window, or a clean retreat. */
    method Assemble() returns (code: int, h: nat, images: seq<nat>, stack: nat)
      requires Valid()
      modifies paging`tables, paging`spaces, paging`owner, paging`current, pmm`used, pmm.words
      ensures code ==
                if pmm.total < old(pmm.used) + 19 then -22
                else if pmm.total < old(pmm.used) + PAGES_PER_RUN then -23 else 0
      ensures code != 0 ==> Left(old(paging.Snap()), old(pmm.Free()), [])
      ensures code == 0 ==> |images| == IMAGE_PAGES && Holding(old(paging.Snap()), old(pmm.Free()), h, images + [stack])
      ensures code == 0 ==> Window(old(paging.Snap()), paging.Snap(), h, images + [stack], ALL_PAGES)
      ensures code == 0 ==> h in paging.spaces && !NoTable(paging.spaces[h])
    {
      hide Holding, Left, NoTable, Window, Sound, View, Translate, Counted, PagesOk;
      ghost var before, free := paging.Snap(), pmm.Free();
      images := [];
      stack, h := Prepare();
      if h == 0 {
        return -22, h, images, stack;
      }
      var ok;
      ok, images := AllocImages(h, stack, before, free);
      if !ok {
        return -22, h, images, stack;
      }
      HasSpace(before, free, h, images + [stack]);
      FirstWindow(before, free, h, images + [stack]);
      code := MapWindow(h, images, stack, before, free);
      if code == 0 {
        HasSpace(before, free, h, images + [stack]);
      }
    }

    /** `run_loaded_image` after its first test: whatever happens, every page and every space is as it was. */
    method Launch(name: seq<Byte>, entry: nat, image: seq<Byte>)
      returns (code: int, ghost ran: bool, ghost start: Start)
      requires Valid() && |image| <= IMAGE_SIZE
      modifies this, paging`tables, paging`spaces, paging`owner, paging`current, pmm`used, pmm.words
      ensures Left(old(paging.Snap()), old(pmm.Free()), []) && |processes| == PROCESS_COUNT
      ensures ran ==> Started(start, image, old(paging.Snap()))
      ensures ran <==> old(pmm.used) + PAGES_PER_RUN <= pmm.total && !AllRunning(old(processes))
      ensures !ran ==> processes == old(processes) && nextPid == old(nextPid) && currentProcess == old(currentProcess)
      ensures !ran ==> code == FailCode(old(pmm.used), pmm.total)
      ensures ran ==> currentProcess == -1 && nextPid == (old(nextPid) + 1) % 0x1_0000_0000
      ensures ran ==> Finished(old(processes), processes, Process(old(nextPid), Exited, CutName(name), entry, code, 0))
    {
      hide Holding, Left, NoTable, Window, Chosen, Started, Sound, Filled, Counted, PagesOk, Finished, AllRunning;
      ghost var before, free := paging.Snap(), pmm.Free();
      ran, start := false, Start(before, 0, map[]);
      var h, images, stack;
      code, h, images, stack := Assemble();
      if code != 0 {
        return;
      }
      Positions(before, free, h, images + [stack]);
      Fill(images, stack, image);
      var slot := AllocateProcess(name, entry);
      ChosenNone(old(processes), slot);
      if slot < 0 {
        Cancel(h, images, stack, before, free);
        return -25, ran, start;
      }
      ran := true;
      WindowStarted(before, paging.Snap(), h, images + [stack], image, bytes);
      code, start := RunAs(slot, h, images, stack, before, free);
      ItFinished(old(processes), processes, slot, Process(old(nextPid), Exited, CutName(name), entry, code, 0));
    }

    /** The process in `slot` runs, exits, and its pages go back. */
    method RunAs(slot: nat, h: nat, images: seq<nat>, stack: nat, ghost before: Paged, ghost free: set<nat>)
      returns (code: int, ghost start: Start)
      requires slot < |processes| && |images| == IMAGE_PAGES && Holding(before, free, h, images + [stack])
      requires h in paging.spaces && !NoTable(paging.spaces[h])
      modifies this`bytes, this`processes, this`currentProcess, paging`tables, paging`spaces, paging`owner,
               paging`current, pmm`used, pmm.words
      ensures Left(before, free, []) && start == Start(old(paging.Snap()), h, old(bytes)) && currentProcess == -1
      ensures processes == old(processes)[slot := old(processes)[slot].(exitCode := code, state := Exited, space := 0)]
    {
      hide Holding, Left, NoTable, Sound, Counted, PagesOk;
      processes := processes[slot := processes[slot].(space := h)];
      code, start := Enter(h, images + [stack], before, free);
      processes := processes[slot := processes[slot].(exitCode := code, state := Exited)];
      Dismantle(h, images, stack, before, free);
      processes := processes[slot := processes[slot].(space := 0)];
      currentProcess := -1;
    }

    lemma Positions(before: Paged, free: set<nat>, h: nat, pages: seq<nat>)
      requires Holding(before, free, h, pages)
      ensures Aligned(pages) && Distinct(pages)
    {
    }

    /** A new space reads as the kernel's. */
    lemma FirstWindow(before: Paged, free: set<nat>, h: nat, pages: seq<nat>)
      requires Holding(before, free, h, pages) && h in paging.spaces
      requires forall va: Address :: View(paging.Snap(), h, va) == Translate(paging.tables, paging.kernel, va)
      ensures Window(before, paging.Snap(), h, pages, 0)
    {
      hide Sound, Counted, FreeIn, PagesOk, Held, View, Translate, PageSet, Ours;
    }

    /** `run_loaded_image` */
    method RunLoadedImage(name: seq<Byte>, entry: nat, image: seq<Byte>)
      returns (code: int, ghost ran: bool, ghost start: Start)
      requires Valid()
      modifies this, paging`tables, paging`spaces, paging`owner, paging`current, pmm`used, pmm.words
      ensures Valid() && pmm.Free() == old(pmm.Free()) && pmm.used == old(pmm.used)
      ensures paging.spaces == old(paging.spaces) && SameViews(old(paging.Snap()), paging.Snap())
      ensures ran ==> Started(start, image, old(paging.Snap()))
      ensures ran <==>
                && BASE <= entry < BASE + 0x1_0000 && |image| <= 0x1_0000
                && old(pmm.used) + PAGES_PER_RUN <= pmm.total && !AllRunning(old(processes))
      ensures !ran ==> processes == old(processes) && nextPid == old(nextPid) && currentProcess == old(currentProcess)
      ensures !ran ==> code == if Rejected(entry, |image|) then -21 else FailCode(old(pmm.used), pmm.total)
      ensures ran ==> currentProcess == -1 && nextPid == (old(nextPid) + 1) % 0x1_0000_0000
      ensures ran ==> Finished(old(processes), processes, Process(old(nextPid), Exited, CutName(name), entry, code, 0))
    {
      hide Sound, Counted, FreeIn, PagesOk, View, Translate, SameViews, Chosen, Started;
      SameRefl(paging.Snap());
      if Rejected(entry, |image|) {
        return -21, false, Start(paging.Snap(), 0, map[]);
      }
      code, ran, start := Launch(name, entry, image);
      PageSetOne(0);
      pmm.SameFree();
    }
  }

  /** One entry, the one a new process gets, now holds `done`. */
  ghost predicate Finished(before: seq<Process>, after: seq<Process>, done: Process)
  {
    exists slot :: 0 <= slot < |before| && Chosen(before, slot) && after == before[slot := done]
  }

  lemma ItFinished(before: seq<Process>, after: seq<Process>, slot: nat, done: Process)
    requires slot < |before| && Chosen(before, slot) && after == before[slot := done]
    ensures Finished(before, after, done)
  {
  }

  ghost predicate AllRunning(ps: seq<Process>)
  {
    forall j :: 0 <= j < |ps| ==> ps[j].state == Running
  }

  lemma ChosenNone(ps: seq<Process>, slot: int)
    requires Chosen(ps, slot)
    ensures slot < |ps| && (slot < 0 <==> AllRunning(ps))
  {
  }

  /** `copy_process_name` */
  function CutName(name: seq<Byte>): (r: seq<Byte>)
    ensures |r| < NAME_SIZE && r <= name && (r == name || |r| == NAME_SIZE - 1)
  {
    if |name| < NAME_SIZE then name else name[..NAME_SIZE - 1]
  }

  /** `slot` is the first unused entry, else the first exited one, else -1. */
  ghost predicate Chosen(ps: seq<Process>, slot: int)
  {
    if slot < 0 then slot == -1 && forall j :: 0 <= j < |ps| ==> ps[j].state == Running
    else slot < |ps| &&
         if ps[slot].state == Unused then forall j :: 0 <= j < slot ==> ps[j].state != Unused
         else
           && ps[slot].state == Exited && (forall j :: 0 <= j < slot ==> ps[j].state != Exited)
           && (forall j :: 0 <= j < |ps| ==> ps[j].state != Unused)
  }

  /** The code of a launch that fails for want of pages: too few for stack, space and image, none for the table; else of
      a process entry. */
  function FailCode(used: nat, total: nat): (code: int)
    ensures code < 0
  {
    if total < used + 19 then -22 else if total < used + PAGES_PER_RUN then -23 else -25
  }

  /** The first test of `run_loaded_image`. */
  predicate Rejected(entry: nat, size: nat)
  {
    entry < BASE || entry >= BASE + IMAGE_PAGES * PAGE_SIZE || size > IMAGE_SIZE
  }

  lemma Rotate(images: seq<nat>, stack: nat, owner: map<nat, Role>, usable: set<nat>, free: set<nat>)
    requires Ours(images + [stack], owner, usable, free)
    ensures Ours([stack] + images, owner, usable, free) && PageSet([stack] + images) == PageSet(images + [stack])
  {
    var was, now := images + [stack], [stack] + images;
    PageSetConcat(images, [stack]);
    PageSetConcat([stack], images);
    forall j | 0 <= j < |now| ensures now[j] == was[if j == 0 then |images| else j - 1] {
    }
    forall i, j | 0 <= i < j < |now| ensures now[i] != now[j] {
      if i == 0 {
        assert was[j - 1] != was[|images|];
      } else {
        assert was[i - 1] != was[j - 1];
      }
    }
  }

  /** The slot of the window has no table of its own yet. */
  ghost predicate NoTable(sp: Space)
  {
    sp.owned[1] == 0
  }

  lemma WindowViews(before: Paged, p: Paged, h: nat, pages: seq<nat>, n: nat)
    requires Window(before, p, h, pages, n)
    ensures SameViews(before, p)
  {
  }

  lemma InsertPages(a: seq<nat>, x: nat, b: seq<nat>)
    ensures PageSet(a + [x] + b) == PageSet(a + b) + {x / PAGE_SIZE}
  {
    PageSetConcat(a, b);
    PageSetConcat(a + [x], b);
    PageSetConcat(a, [x]);
    PageSetOne(x);
  }

  /** Pages without a role are none of the pages that the space holds. */
  lemma OursApart(p: Paged, pages: seq<nat>, usable: set<nat>, free: set<nat>, h: nat)
    requires Sound(p) && PagesOk(p.owner, p.shared, usable, free) && h in p.spaces && Ours(pages, p.owner, usable, free)
    ensures Ours(pages, p.owner, usable, free + Held(h, p.spaces[h]))
  {
    hide Sound, Held, PagesOk;
    forall j | 0 <= j < |pages| ensures pages[j] / PAGE_SIZE !in Held(h, p.spaces[h]) {
      if pages[j] / PAGE_SIZE in Held(h, p.spaces[h]) {
        var a := HeldRole(p, usable, free, h, pages[j] / PAGE_SIZE);
      }
    }
  }

  lemma OursFewer(pages: seq<nat>, owner: map<nat, Role>, owner': map<nat, Role>, usable: set<nat>, free: set<nat>)
    requires Ours(pages, owner, usable, free) && owner'.Keys <= owner.Keys
    ensures Ours(pages, owner', usable, free)
  {
  }

  lemma OursAligned(pages: seq<nat>, owner: map<nat, Role>, usable: set<nat>, free: set<nat>)
    requires Ours(pages, owner, usable, free)
    ensures Aligned(pages) && Distinct(pages)
  {
  }

  lemma OursNone(owner: map<nat, Role>, usable: set<nat>, free: set<nat>)
    ensures Ours([], owner, usable, free)
  {
  }

  lemma OursOne(stack: nat, owner: map<nat, Role>, shared: set<nat>, owner': map<nat, Role>, usable: set<nat>,
                free: set<nat>)
    requires PagesOk(owner, shared, usable, free) && free <= usable && stack > 0 && stack % PAGE_SIZE == 0
    requires stack / PAGE_SIZE in free
    requires NewRoles(owner, owner', free - {stack / PAGE_SIZE})
    ensures stack !in owner' && Ours([stack], owner', usable, free - {stack / PAGE_SIZE})
  {
  }

  lemma OursSmaller(stack: nat, owner: map<nat, Role>, usable: set<nat>, free: set<nat>, free': set<nat>)
    requires Ours([stack], owner, usable, free) && free' <= free
    ensures Ours([stack], owner, usable, free')
  {
  }

  lemma OursFirst(pages: seq<nat>, owner: map<nat, Role>, usable: set<nat>, free: set<nat>)
    requires pages != [] && Ours(pages, owner, usable, free)
    ensures pages[0] > 0 && pages[0] % PAGE_SIZE == 0 && pages[0] !in owner && pages[0] / PAGE_SIZE in usable
    ensures pages[0] / PAGE_SIZE !in free
  {
  }
}

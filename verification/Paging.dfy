/** Address spaces: creating, mapping, unmapping and destroying them. Page-table pages and the
    `struct address_space` records come from the page allocator. The pointer and the slot array of
    the record are typed fields here; the translation cache is not modelled. */
module Paging {
  import opened Bits
  import opened Pmm
  import opened PageTables

  /** The page numbers of the first `n` owned tables. */
  ghost function OwnedPages(owned: Table, n: nat): (r: set<nat>)
    requires n <= ENTRIES
  {
    if n == 0 then {} else OwnedPages(owned, n - 1) + if owned[n - 1] != 0 then {owned[n - 1] / PAGE_SIZE} else {}
  }

  lemma {:induction false} OwnedSlot(owned: Table, n: nat, q: nat) returns (d: nat)
    requires n <= ENTRIES && q in OwnedPages(owned, n)
    ensures d < n && owned[d] != 0 && owned[d] / PAGE_SIZE == q
  {
    if owned[n - 1] != 0 && owned[n - 1] / PAGE_SIZE == q {
      d := n - 1;
    } else {
      d := OwnedSlot(owned, n - 1, q);
    }
  }

  /** Every page that a space holds: its record, its directory and its tables. */
  ghost function Held(h: nat, sp: Space): (r: set<nat>)
  {
    {h / PAGE_SIZE, sp.directory / PAGE_SIZE} + OwnedPages(sp.owned, ENTRIES)
  }

  /** Pages with a role are whole pages that were handed out; boot-time tables are not allocator memory. */
  ghost predicate PagesOk(owner: map<nat, Role>, shared: set<nat>, usable: set<nat>, free: set<nat>)
  {
    && (forall a :: a in owner ==> a > 0 && a % PAGE_SIZE == 0 && a / PAGE_SIZE in usable && a / PAGE_SIZE !in free)
    && (forall a :: a in shared ==> a / PAGE_SIZE !in usable)
  }

  lemma PagesFewer(owner: map<nat, Role>, shared: set<nat>, usable: set<nat>, free: set<nat>, free': set<nat>)
    requires PagesOk(owner, shared, usable, free) && free' <= free
    ensures PagesOk(owner, shared, usable, free')
  {
  }

  lemma PagesMore(owner: map<nat, Role>, shared: set<nat>, usable: set<nat>, free: set<nat>, a: nat, role: Role)
    requires PagesOk(owner, shared, usable, free) && a > 0 && a % PAGE_SIZE == 0 && a / PAGE_SIZE in usable - free
    ensures PagesOk(owner[a := role], shared, usable, free)
  {
  }

  /** A page without a role may go back. */
  lemma PagesReturn(owner: map<nat, Role>, shared: set<nat>, usable: set<nat>, free: set<nat>, a: nat)
    requires PagesOk(owner, shared, usable, free) && a % PAGE_SIZE == 0 && a !in owner
    ensures PagesOk(owner, shared, usable, free + {a / PAGE_SIZE})
  {
  }

  lemma FreshPage(owner: map<nat, Role>, shared: set<nat>, usable: set<nat>, free: set<nat>, a: nat)
    requires PagesOk(owner, shared, usable, free) && free <= usable && a / PAGE_SIZE in free
    ensures a !in owner && a !in shared
  {
  }

  /** The page at `va` in space `h` translates as `leaf` says, and nothing else translates differently. */
  ghost predicate OnlyPage(p: Paged, q: Paged, h: nat, va: Address, e: nat)
  {
    && q.spaces.Keys == p.spaces.Keys
    && (forall g, x: Address :: g in p.spaces ==>
          View(q, g, x) == if g == h && x / PAGE_SIZE == va / PAGE_SIZE then Leaf(e, x) else View(p, g, x))
    && (forall x: Address :: Translate(q.tables, q.kernel, x) == Translate(p.tables, p.kernel, x))
  }

  lemma StoreOnlyPage(p: Paged, m: Paged, h: nat, va: Address, e: nat)
    requires Sound(m) && SameViews(p, m) && m.spaces.Keys == p.spaces.Keys && h in m.spaces
    requires m.spaces[h].owned[Slot(va)] != 0
    requires m.spaces[h].owned[Slot(va)] in m.tables
    ensures OnlyPage(p, AfterStore(m, h, Slot(va), Index(va), e), h, va, e)
  {
    hide Sound, View, Translate, Leaf, Slot, Index;
    var q := AfterStore(m, h, Slot(va), Index(va), e);
    forall g, x: Address | g in p.spaces
      ensures View(q, g, x) == if g == h && x / PAGE_SIZE == va / PAGE_SIZE then Leaf(e, x) else View(p, g, x)
    {
      StoreView(m, h, Slot(va), Index(va), e, g, x);
      SamePage(x, va);
    }
    forall x: Address ensures Translate(q.tables, q.kernel, x) == Translate(p.tables, p.kernel, x) {
      StoreKernel(m, h, Slot(va), Index(va), e, x);
    }
  }

  /** Roles are only given to pages that were free. */
  ghost predicate NewRoles(before: map<nat, Role>, after: map<nat, Role>, free: set<nat>)
  {
    forall a :: a in after && a !in before ==> a / PAGE_SIZE in free
  }

  function WithTable(sp: Space, slot: nat, t: nat): (r: Space)
    requires slot < ENTRIES
  {
    sp.(owned := sp.owned[slot := t])
  }

  lemma SameRefl(p: Paged)
    ensures SameViews(p, p)
  {
  }

  lemma {:induction false} OwnedUpdate(owned: Table, slot: nat, t: nat, n: nat)
    requires slot < ENTRIES && owned[slot] == 0 && t != 0 && n <= ENTRIES
    ensures OwnedPages(owned[slot := t], n) == OwnedPages(owned, n) + if slot < n then {t / PAGE_SIZE} else {}
  {
    if n > 0 {
      OwnedUpdate(owned, slot, t, n - 1);
    }
  }

  lemma {:induction false} OwnedNone(owned: Table, n: nat)
    requires n <= ENTRIES && forall d :: 0 <= d < n ==> owned[d] == 0
    ensures OwnedPages(owned, n) == {}
  {
    if n > 0 {
      OwnedNone(owned, n - 1);
    }
  }

  /** The pages a space holds are handed out, and no other space's. */
  lemma HeldTaken(p: Paged, usable: set<nat>, free: set<nat>, h: nat)
    requires Sound(p) && PagesOk(p.owner, p.shared, usable, free) && h in p.spaces
    ensures Held(h, p.spaces[h]) <= usable && Held(h, p.spaces[h]) !! free
    ensures forall g :: g in p.spaces && g != h ==> Held(g, p.spaces[g]) !! Held(h, p.spaces[h])
  {
    hide Sound, SlotOk, OwnedPages;
    forall q | q in Held(h, p.spaces[h]) ensures q in usable && q !in free {
      var a := HeldRole(p, usable, free, h, q);
    }
    forall g, q | g in p.spaces && g != h && q in Held(g, p.spaces[g]) ensures q !in Held(h, p.spaces[h]) {
      var a := HeldRole(p, usable, free, g, q);
      if q in Held(h, p.spaces[h]) {
        var b := HeldRole(p, usable, free, h, q);
      }
    }
  }

  lemma HeldRole(p: Paged, usable: set<nat>, free: set<nat>, h: nat, q: nat) returns (a: nat)
    requires Sound(p) && PagesOk(p.owner, p.shared, usable, free) && h in p.spaces && q in Held(h, p.spaces[h])
    ensures a == q * PAGE_SIZE && a in p.owner && p.owner[a].space == h && q in usable && q !in free
  {
    hide Sound, SlotOk, OwnedPages;
    SlotAt(p, h, 0);
    if q == h / PAGE_SIZE {
      a := h;
    } else if q == p.spaces[h].directory / PAGE_SIZE {
      a := p.spaces[h].directory;
    } else {
      var d := OwnedSlot(p.spaces[h].owned, ENTRIES, q);
      OwnedRole(p, h, d);
      a := p.spaces[h].owned[d];
    }
  }

  class AddressSpaces {
    const pmm: Allocator
    /** `kernel_page_directory` and `&kernel_space` */
    const kernel: nat
    const kernelSpace: nat
    var tables: Tables
    var spaces: map<nat, Space>
    var current: nat
    ghost var shared: set<nat>
    ghost var owner: map<nat, Role>

    constructor (pmm: Allocator, tables: Tables, kernel: nat, kernelSpace: nat, ghost shared: set<nat>)
      requires pmm.Valid() && KernelOk(Paged(tables, map[], kernel, shared, map[])) && kernelSpace > 0
      requires kernelSpace / PAGE_SIZE !in pmm.usable && forall a :: a in shared ==> a / PAGE_SIZE !in pmm.usable
      ensures Valid() && this.pmm == pmm && spaces == map[] && current == kernelSpace
    {
      this.pmm, this.tables, this.kernel, this.kernelSpace, this.shared := pmm, tables, kernel, kernelSpace, shared;
      spaces, owner, current := map[], map[], kernelSpace;
    }

    ghost function Snap(): Paged
      reads this
    {
      Paged(tables, spaces, kernel, shared, owner)
    }

    ghost predicate Valid()
      reads this, pmm, pmm.words
    {
      Sound(Snap()) && Placed()
    }

    /** Everything but the tables. */
    ghost predicate Placed()
      reads this, pmm, pmm.words
    {
      && pmm.Valid() && PagesOk(owner, shared, pmm.usable, pmm.Free())
      && kernelSpace > 0 && kernelSpace / PAGE_SIZE !in pmm.usable && (current == kernelSpace || current in spaces)
    }

    /** `zero_page_table` */
    method ZeroTable(t: nat)
      requires t in tables
      modifies this`tables
      ensures tables == old(tables)[t := seq(ENTRIES, _ => 0)]
    {
      for i := 0 to ENTRIES
        invariant t in tables && tables == old(tables)[t := tables[t]] && forall j :: 0 <= j < i ==> tables[t][j] == 0
      {
        tables := tables[t := tables[t][i := 0]];
      }
      assert tables[t] == seq(ENTRIES, _ => 0);
    }

    /** `copy_page_table` */
    method CopyTable(dst: nat, src: nat)
      requires dst in tables && src in tables && dst != src
      modifies this`tables
      ensures tables == old(tables)[dst := old(tables)[src]]
    {
      for i := 0 to ENTRIES
        invariant && dst in tables && tables == old(tables)[dst := tables[dst]]
                  && forall j :: 0 <= j < i ==> tables[dst][j] == old(tables)[src][j]
      {
        tables := tables[dst := tables[dst][i := tables[src][i]]];
      }
      assert tables[dst] == old(tables)[src];
    }

    /** A page from the allocator, seen as a table: its contents are whatever they were. */
    method FreshTable() returns (t: nat)
      requires Valid()
      modifies this`tables, pmm`used, pmm.words
      ensures Valid() && SameViews(old(Snap()), Snap()) && forall flags: nat :: KeepsRights(old(Snap()), Snap(), flags)
      ensures t == 0 ==>
                tables == old(tables) && pmm.Free() == old(pmm.Free()) && pmm.used == old(pmm.used) == pmm.total
      ensures t != 0 ==> pmm.used == old(pmm.used) + 1 <= pmm.total
      ensures t != 0 ==>
                && t !in owner && t !in shared && t % PAGE_SIZE == 0 && t in tables
                && tables == old(tables)[t := tables[t]]
      ensures t != 0 ==> t / PAGE_SIZE in old(pmm.Free()) && pmm.Free() == old(pmm.Free()) - {t / PAGE_SIZE}
    {
      hide FreeIn, Sound, SameViews, Counted;
      pmm.FreeIsUsable();
      SameRefl(Snap());
      forall flags: nat ensures KeepsRights(Snap(), Snap(), flags) {
        KeepsRefl(Snap(), flags);
      }
      t := pmm.AllocPage();
      if t != 0 {
        FreshPage(owner, shared, pmm.usable, old(pmm.Free()), t);
        var junk: Table :| true;
        JunkSound(Snap(), t, junk);
        JunkAccess(Snap(), t, junk, 1);
        JunkAccess(Snap(), t, junk, 2);
        tables := tables[t := junk];
      }
    }

    method ZeroSlots() returns (owned: Table)
      ensures forall i :: 0 <= i < ENTRIES ==> owned[i] == 0
    {
      owned :| true;
      for i := 0 to ENTRIES
        invariant forall j :: 0 <= j < i ==> owned[j] == 0
      {
        owned := owned[i := 0];
      }
    }

    /** `paging_create_address_space` */
    method CreateSpace() returns (h: nat)
      requires Valid()
      modifies this`tables, this`spaces, this`owner, pmm`used, pmm.words
      ensures Valid() && SameViews(old(Snap()), Snap()) && NewRoles(old(owner), owner, old(pmm.Free()))
      ensures h == 0 ==> spaces == old(spaces) && pmm.Free() == old(pmm.Free()) && pmm.total < old(pmm.used) + 2
      ensures h != 0 ==> pmm.used == old(pmm.used) + 2 <= pmm.total
      ensures h != 0 ==> h != kernelSpace && h !in old(spaces) && h in spaces && spaces == old(spaces)[h := spaces[h]]
      ensures h != 0 ==> forall va: Address :: View(Snap(), h, va) == Translate(tables, kernel, va)
      ensures h != 0 ==> forall d :: 0 <= d < ENTRIES ==> spaces[h].owned[d] == 0
      ensures h != 0 ==> Held(h, spaces[h]) <= old(pmm.Free()) && pmm.Free() == old(pmm.Free()) - Held(h, spaces[h])
    {
      hide FreeIn, Sound, SameViews, View, Translate, OwnedPages, PagesOk, Held, Counted;
      pmm.FreeIsUsable();
      SameRefl(Snap());
      ghost var free := pmm.Free();
      h := pmm.AllocPage();
      if h == 0 {
        return;
      }
      FreshPage(owner, shared, pmm.usable, free, h);
      PagesFewer(owner, shared, pmm.usable, free, pmm.Free());
      var owned := ZeroSlots();
      var directory := Populate(h, owned);
      if directory == 0 {
        pmm.FreePage(h);
        assert pmm.Free() == free;
        return 0;
      }
      HeldNew(h, spaces[h]);
    }

    /** The directory of a new space. */
    method Populate(h: nat, owned: Table) returns (directory: nat)
      requires Valid() && h > 0 && h % PAGE_SIZE == 0 && h !in owner && h !in shared
      requires h / PAGE_SIZE in pmm.usable - pmm.Free()
      requires forall i :: 0 <= i < ENTRIES ==> owned[i] == 0
      modifies this`tables, this`spaces, this`owner, pmm`used, pmm.words
      ensures Valid() && SameViews(old(Snap()), Snap())
      ensures directory == 0 ==>
                && spaces == old(spaces) && owner == old(owner) && tables == old(tables)
                && pmm.Free() == old(pmm.Free()) && pmm.used == old(pmm.used) == pmm.total
      ensures directory != 0 ==> pmm.used == old(pmm.used) + 1 <= pmm.total
      ensures directory != 0 ==>
                && h !in old(spaces) && spaces == old(spaces)[h := Space(directory, owned)]
                && owner == old(owner)[h := Handle(h)][directory := Directory(h)]
      ensures directory != 0 ==> forall va: Address :: View(Snap(), h, va) == Translate(tables, kernel, va)
      ensures directory != 0 ==>
                directory / PAGE_SIZE in old(pmm.Free()) && pmm.Free() == old(pmm.Free()) - {directory / PAGE_SIZE}
    {
      hide FreeIn, Sound, SameViews, View, Translate, PagesOk, Counted;
      pmm.FreeIsUsable();
      directory := FreshTable();
      if directory != 0 {
        Install(h, directory, owned, old(Snap()));
      }
    }

    /** The end of `paging_create_address_space`: the directory becomes a copy of the kernel's, and the record points at
        it. */
    method Install(h: nat, directory: nat, owned: Table, ghost before: Paged)
      requires Valid() && SameViews(before, Snap()) && before.spaces == spaces && h > 0 && directory > 0
      requires h % PAGE_SIZE == directory % PAGE_SIZE == 0 && h != directory && directory in tables
      requires forall i :: 0 <= i < ENTRIES ==> owned[i] == 0
      requires h !in owner && directory !in owner && h !in shared && directory !in shared
      requires h / PAGE_SIZE in pmm.usable - pmm.Free() && directory / PAGE_SIZE in pmm.usable - pmm.Free()
      modifies this`tables, this`spaces, this`owner
      ensures Valid() && SameViews(before, Snap()) && h !in old(spaces)
      ensures spaces == old(spaces)[h := Space(directory, owned)]
      ensures owner == old(owner)[h := Handle(h)][directory := Directory(h)]
      ensures forall va: Address :: View(Snap(), h, va) == Translate(tables, kernel, va)
    {
      hide FreeIn, Sound, View, Translate, Counted, PagesOk;
      ghost var p := Snap();
      KernelIsShared(p);
      CreateSound(p, h, directory, owned);
      PagesMore(owner, shared, pmm.usable, pmm.Free(), h, Handle(h));
      PagesMore(owner[h := Handle(h)], shared, pmm.usable, pmm.Free(), directory, Directory(h));
      CopyTable(directory, kernel);
      spaces := spaces[h := Space(directory, owned)];
      owner := owner[h := Handle(h)][directory := Directory(h)];
      assert Snap() == AfterCreate(p, h, directory, owned);
    }

    /** The directory entry and the slot of a table that has its contents. */
    method Adopt(h: nat, slot: nat, t: nat, flags: nat, ghost p: Paged)
      requires Placed() && h in spaces && slot < ENTRIES && t in tables && t > 0 && t % PAGE_SIZE == 0
      requires Sound(p) && p.spaces == spaces && p.owner == owner && p.kernel == kernel && p.shared == shared
      requires h in p.spaces
      requires p.spaces[h].directory in p.tables && tables == p.tables[t := tables[t]]
      requires Adoptable(p, h, slot, t, tables[t], TableEntry(t, flags)) && t / PAGE_SIZE in pmm.usable - pmm.Free()
      modifies this`tables, this`spaces, this`owner
      ensures Valid() && SameViews(p, Snap()) && KeepsRights(p, Snap(), flags)
      ensures h in spaces && SlotAllows(Snap(), h, slot, 1) && (Bit(flags, 2) <==> SlotAllows(Snap(), h, slot, 2))
      ensures spaces == p.spaces[h := WithTable(p.spaces[h], slot, t)]
      ensures owner == p.owner[t := Owned(h, slot)]
    {
      hide FreeIn, Sound, View, Translate, Counted, PagesOk, SameViews, ReadsAs, TableEntry, KeepsAccess, Bit;
      ghost var contents, e := tables[t], TableEntry(t, flags);
      AdoptSound(p, h, slot, t, contents, e);
      TableEntryBits(t, flags, 1);
      TableEntryBits(t, flags, 2);
      AdoptAccess(p, h, slot, t, contents, e, 1);
      if Bit(flags, 2) {
        AdoptAccess(p, h, slot, t, contents, e, 2);
      }
      PagesMore(owner, shared, pmm.usable, pmm.Free(), t, Owned(h, slot));
      SlotAt(p, h, slot);
      var sp := spaces[h];
      spaces := spaces[h := WithTable(sp, slot, t)];
      tables := tables[sp.directory := tables[sp.directory][slot := TableEntry(t, flags)]];
      owner := owner[t := Owned(h, slot)];
      assert Snap() == AfterAdopt(p, h, slot, t, contents, e);
    }

    /** `ensure_table` for a space other than the kernel's: the slot ends up with a table of its own, and nothing
        translates differently. */
    method EnsureTable(h: nat, slot: nat, flags: nat) returns (table: nat)
      requires Valid() && h in spaces && slot < ENTRIES
      modifies this`tables, this`spaces, this`owner, pmm`used, pmm.words
      ensures Valid() && SameViews(old(Snap()), Snap()) && KeepsRights(old(Snap()), Snap(), flags)
      ensures table != 0 ==>
                h in spaces && forall k :: (k == 1 || k == 2) && Bit(flags, k) ==> SlotAllows(Snap(), h, slot, k)
      ensures old(spaces[h].owned[slot]) != 0 ==> KeepsAccess(old(Snap()), Snap(), 2)
      ensures table != 0 && old(spaces[h].owned[slot]) == 0 && !Bit(flags, 2) ==> !SlotAllows(Snap(), h, slot, 2)
      ensures table == 0 ==>
                && spaces == old(spaces) && pmm.Free() == old(pmm.Free()) && old(spaces[h].owned[slot]) == 0
                && pmm.used == old(pmm.used) == pmm.total
      ensures table != 0 ==> pmm.used == old(pmm.used) + (if old(spaces[h].owned[slot]) == 0 then 1 else 0) <= pmm.total
      ensures NewRoles(old(owner), owner, old(pmm.Free()))
      ensures table != 0 ==> h in spaces && spaces == old(spaces)[h := WithTable(old(spaces[h]), slot, table)]
      ensures table != 0 && old(spaces[h].owned[slot]) != 0 ==>
                pmm.Free() == old(pmm.Free()) && table == old(spaces[h].owned[slot])
      ensures table != 0 && old(spaces[h].owned[slot]) == 0 ==>
                table / PAGE_SIZE in old(pmm.Free()) && pmm.Free() == old(pmm.Free()) - {table / PAGE_SIZE}
    {
      hide FreeIn, Sound, View, Translate, Counted, PagesOk, SameViews, TableEntry, KeepsRights, Bit;
      hide KeepsAccess;
      pmm.FreeIsUsable();
      SlotAt(Snap(), h, slot);
      var e := tables[spaces[h].directory][slot];
      if !Present(e) {
        table := FreshTable();
        if table == 0 {
          return;
        }
        ghost var p := Snap();
        ZeroTable(table);
        TableEntryFrame(table, flags);
        Adopt(h, slot, table, flags, p);
        SameTrans(old(Snap()), p, Snap());
        KeepsTrans(old(Snap()), p, Snap(), flags);
        return;
      }
      table := Frame(e);
      if spaces[h].owned[slot] == 0 {
        KernelFrame(Snap(), slot);
        table := FreshTable();
        if table == 0 {
          return;
        }
        ghost var p := Snap();
        CopyTable(table, Frame(e));
        TableEntryFrame(table, flags);
        Adopt(h, slot, table, flags, p);
        SameTrans(old(Snap()), p, Snap());
        KeepsTrans(old(Snap()), p, Snap(), flags);
      } else {
        ghost var p := Snap();
        FrameFlags(e, AccessBits(flags));
        FlagsSound(p, h, slot, Or(e, AccessBits(flags)));
        WiderAccess(p, h, slot, e, flags);
        tables := tables[spaces[h].directory := tables[spaces[h].directory][slot := Or(e, AccessBits(flags))]];
        assert Snap() == AfterFlags(p, h, slot, Or(e, AccessBits(flags)));
        assert spaces[h].owned[slot := table] == spaces[h].owned;
      }
    }

    /** `paging_map_page_in_space` for null and for spaces other than the kernel's. */
    method MapPage(h: nat, va: Address, physical: nat, flags: nat) returns (ok: bool)
      requires Valid() && (h == 0 || h in spaces)
      modifies this`tables, this`spaces, this`owner, pmm`used, pmm.words
      ensures Valid() && (h == 0 ==> !ok) && NewRoles(old(owner), owner, old(pmm.Free()))
      ensures pmm.Free() <= old(pmm.Free())
      ensures !ok ==> SameViews(old(Snap()), Snap()) && spaces == old(spaces) && pmm.Free() == old(pmm.Free())
      ensures !ok && h != 0 ==> old(spaces[h].owned[Slot(va)]) == 0 && pmm.used == old(pmm.used) == pmm.total
      ensures ok ==> pmm.used == old(pmm.used) + (if old(spaces[h].owned[Slot(va)]) == 0 then 1 else 0) <= pmm.total
      ensures ok ==> OnlyPage(old(Snap()), Snap(), h, va, PageEntry(physical, flags))
      ensures ok ==> MapAccess(old(Snap()), Snap(), h, va, flags)
      ensures ok ==>
                && h in spaces
                && spaces == old(spaces)[h := WithTable(old(spaces[h]), Slot(va), spaces[h].owned[Slot(va)])]
      ensures ok ==> spaces[h].owned[Slot(va)] != 0 && (old(spaces[h].owned[Slot(va)]) != 0 ==> spaces == old(spaces))
      ensures ok ==> pmm.Free() + Held(h, spaces[h]) == old(pmm.Free()) + Held(h, old(spaces[h]))
    {
      hide FreeIn, Sound, View, Translate, Counted, PagesOk, SameViews, PageEntry, OnlyPage, OwnedPages, Slot, Index;
      hide Held, MapAccess, KeepsRights, Bit;
      if h == 0 {
        SameRefl(Snap());
        return false;
      }
      assert WithTable(spaces[h], Slot(va), spaces[h].owned[Slot(va)]) == spaces[h] && spaces[h := spaces[h]] == spaces;
      var table := EnsureTable(h, Slot(va), flags);
      if table == 0 {
        return false;
      }
      OwnedRole(Snap(), h, Slot(va));
      HeldGrows(h, old(spaces[h]), Slot(va), table);
      StoreMapAccess(old(Snap()), Snap(), h, va, physical, flags);
      StoreEntry(h, va, table, PageEntry(physical, flags), old(Snap()));
      return true;
    }

    /** One store into a table of the space. */
    method StoreEntry(h: nat, va: Address, table: nat, e: nat, ghost before: Paged)
      requires Valid() && SameViews(before, Snap()) && before.spaces.Keys == spaces.Keys
      requires h in spaces && table != 0 && spaces[h].owned[Slot(va)] == table && table in tables
      modifies this`tables
      ensures Valid() && OnlyPage(before, Snap(), h, va, e)
      ensures Snap() == AfterStore(old(Snap()), h, Slot(va), Index(va), e)
    {
      hide FreeIn, Sound, View, Translate, Counted, PagesOk, SameViews, OnlyPage, Slot, Index;
      ghost var m := Snap();
      StoreSound(m, h, Slot(va), Index(va), e);
      StoreOnlyPage(before, m, h, va, e);
      tables := tables[table := tables[table][Index(va) := e]];
      assert Snap() == AfterStore(m, h, Slot(va), Index(va), e);
    }

    /** `paging_unmap_page_in_space`, for an address whose table the space owns. */
    method UnmapPage(h: nat, va: Address)
      requires Valid() && (h == 0 || (h in spaces && spaces[h].owned[Slot(va)] != 0))
      modifies this`tables
      ensures Valid() && if h == 0 then tables == old(tables) else OnlyPage(old(Snap()), Snap(), h, va, 0)
    {
      hide FreeIn, Sound, View, Translate, Counted, PagesOk, SameViews, OnlyPage, Slot, Index;
      if h == 0 {
        return;
      }
      SlotAt(Snap(), h, Slot(va));
      SameRefl(Snap());
      var e := tables[spaces[h].directory][Slot(va)];
      if !Present(e) {
        return;
      }
      StoreEntry(h, va, Frame(e), 0, Snap());
    }

    /** `paging_get_physical_in_space` */
    method GetPhysical(h: nat, va: Address) returns (physical: nat)
      requires Valid() && (h == 0 || h in spaces)
      ensures physical == if h == 0 then 0 else match View(Snap(), h, va) { case Physical(a) => a case Nowhere => 0 }
    {
      hide FreeIn, Sound, Counted, PagesOk, Slot, Index;
      if h == 0 {
        return 0;
      }
      SlotAt(Snap(), h, Slot(va));
      KernelFrame(Snap(), Slot(va));
      var e := tables[spaces[h].directory][Slot(va)];
      if !Present(e) {
        return 0;
      }
      var f := tables[Frame(e)][Index(va)];
      if !Present(f) {
        return 0;
      }
      return Frame(f) + va % PAGE_SIZE;
    }

    /** `paging_switch_address_space` */
    method SwitchSpace(h: nat)
      requires Valid() && (h == 0 || h == kernelSpace || h in spaces)
      modifies this`current
      ensures Valid() && current == if h == 0 then old(current) else h
    {
      if h != 0 {
        current := h;
      }
    }

    /** The loop of `paging_destroy_address_space`. */
    method FreeTables(owned: Table)
      requires pmm.Valid() && forall d :: 0 <= d < ENTRIES && owned[d] != 0 ==>
                 owned[d] % PAGE_SIZE == 0 && owned[d] / PAGE_SIZE in pmm.usable
      modifies pmm`used, pmm.words
      ensures pmm.Valid() && pmm.Free() == old(pmm.Free()) + OwnedPages(owned, ENTRIES)
    {
      hide FreeIn, Counted;
      for i := 0 to ENTRIES
        invariant pmm.Valid() && pmm.Free() == old(pmm.Free()) + OwnedPages(owned, i)
      {
        if owned[i] != 0 {
          pmm.FreePage(owned[i]);
        }
      }
    }

    method FreeHeld(h: nat, sp: Space)
      requires pmm.Valid() && h % PAGE_SIZE == sp.directory % PAGE_SIZE == 0 && h / PAGE_SIZE in pmm.usable
      requires sp.directory / PAGE_SIZE in pmm.usable
      requires forall d ::
                 0 <= d < ENTRIES && sp.owned[d] != 0 ==>
                   sp.owned[d] % PAGE_SIZE == 0 && sp.owned[d] / PAGE_SIZE in pmm.usable
      modifies pmm`used, pmm.words
      ensures pmm.Valid() && pmm.Free() == old(pmm.Free()) + Held(h, sp)
    {
      hide FreeIn, Counted, OwnedPages, Held;
      HeldParts(pmm.Free(), h, sp);
      FreeTables(sp.owned);
      pmm.FreePage(sp.directory);
      pmm.FreePage(h);
    }

    /** `paging_destroy_address_space`: every page the space holds goes back, and no other. */
    method DestroySpace(h: nat)
      requires Valid() && (h == 0 || h == kernelSpace || h in spaces)
      modifies this`spaces, this`owner, this`current, pmm`used, pmm.words
      ensures Valid() && SameViews(old(Snap()), Snap())
      ensures owner.Keys <= old(owner.Keys)
      ensures if h in old(spaces) then spaces == old(spaces) - {h}
                && pmm.Free() == old(pmm.Free()) + Held(h, old(spaces[h]))
              else spaces == old(spaces) && pmm.Free() == old(pmm.Free())
    {
      hide FreeIn, Sound, View, Translate, Counted, PagesOk, SameViews, OwnedPages, Held;
      NotASpace(Snap(), pmm.usable, pmm.Free(), kernelSpace);
      SameRefl(Snap());
      if h == 0 || h == kernelSpace {
        return;
      }
      if current == h {
        SwitchSpace(kernelSpace);
      }
      ghost var p, free := Snap(), pmm.Free();
      DestroySound(p, h);
      PagesReturned(p, pmm.usable, free, h);
      var sp := spaces[h];
      FreeHeld(h, sp);
      spaces := spaces - {h};
      owner := AfterDestroy(p, h).owner;
      assert Snap() == AfterDestroy(p, h);
    }
  }

  /** Handles are allocator memory. */
  lemma NotASpace(p: Paged, usable: set<nat>, free: set<nat>, a: nat)
    requires Sound(p) && PagesOk(p.owner, p.shared, usable, free) && a / PAGE_SIZE !in usable
    ensures a !in p.spaces && 0 !in p.spaces
  {
  }

  /** The pages of a space can go back: nobody else has them. */
  lemma PagesReturned(p: Paged, usable: set<nat>, free: set<nat>, h: nat)
    requires Sound(p) && PagesOk(p.owner, p.shared, usable, free) && h in p.spaces
    ensures var sp := p.spaces[h];
            && PagesOk(AfterDestroy(p, h).owner, p.shared, usable, free + Held(h, sp))
            && h % PAGE_SIZE == sp.directory % PAGE_SIZE == 0 && h / PAGE_SIZE in usable
            && sp.directory / PAGE_SIZE in usable
            && forall d :: 0 <= d < ENTRIES && sp.owned[d] != 0 ==>
               sp.owned[d] % PAGE_SIZE == 0 && sp.owned[d] / PAGE_SIZE in usable
  {
    hide Sound, SlotOk, OwnedPages, Held;
    var sp := p.spaces[h];
    SlotAt(p, h, 0);
    forall d | 0 <= d < ENTRIES && sp.owned[d] != 0
      ensures sp.owned[d] % PAGE_SIZE == 0 && sp.owned[d] / PAGE_SIZE in usable
    {
      OwnedRole(p, h, d);
    }
    forall a | a in AfterDestroy(p, h).owner ensures a / PAGE_SIZE !in Held(h, sp) {
      if a / PAGE_SIZE in Held(h, sp) {
        var b := HeldRole(p, usable, free, h, a / PAGE_SIZE);
      }
    }
  }

  lemma HeldParts(free: set<nat>, h: nat, sp: Space)
    ensures free + Held(h, sp) == free + OwnedPages(sp.owned, ENTRIES) + {sp.directory / PAGE_SIZE} + {h / PAGE_SIZE}
  {
  }

  lemma WiderAccess(p: Paged, h: nat, slot: nat, e: nat, flags: nat)
    requires Sound(p) && h in p.spaces && slot < ENTRIES && p.spaces[h].owned[slot] != 0
    requires p.spaces[h].directory in p.tables && e == p.tables[p.spaces[h].directory][slot]
    requires var w := Or(e, AccessBits(flags)); Present(w) && Frame(w) == p.spaces[h].owned[slot]
    ensures var q := AfterFlags(p, h, slot, Or(e, AccessBits(flags)));
            && KeepsRights(p, q, flags) && KeepsAccess(p, q, 2)
            && forall k :: (k == 1 || k == 2) && Bit(flags, k) ==> SlotAllows(q, h, slot, k)
  {
    hide Sound, Frame, Present, Bit, KeepsAccess, AccessBits;
    var w := Or(e, AccessBits(flags));
    forall k | k == 1 || k == 2 ensures Bit(w, k) <==> Bit(e, k) || Bit(flags, k) {
      OrBits(e, AccessBits(flags), k);
      SmallBits(k);
    }
    FlagsAccess(p, h, slot, w, 1);
    FlagsAccess(p, h, slot, w, 2);
  }

  /** The mapping gives the slot a table of its own, with flags that shut user code out. */
  ghost predicate ShutsSlot(p: Paged, h: nat, va: Address, flags: nat)
    requires h in p.spaces
  {
    p.spaces[h].owned[Slot(va)] == 0 && !Bit(flags, 2)
  }

  /** A mapped page has exactly the rights its flags ask for. No other page loses any, unless the mapping shuts the
      slot; then no page of the slot is left to user code. */
  ghost predicate MapAccess(p: Paged, q: Paged, h: nat, va: Address, flags: nat)
  {
    && h in p.spaces && h in q.spaces
    && (forall x: Address, k :: x / PAGE_SIZE == va / PAGE_SIZE && (k == 1 || k == 2) ==>
          (Allows(q, h, x, k) <==> Bit(flags, k)))
    && (forall g, x: Address, k ::
          g in p.spaces && g in q.spaces && (k == 1 || (k == 2 && !ShutsSlot(p, h, va, flags))) ==>
            (g != h || x / PAGE_SIZE != va / PAGE_SIZE) && Allows(p, g, x, k) ==> Allows(q, g, x, k))
    && (ShutsSlot(p, h, va, flags) ==> forall x: Address :: Slot(x) == Slot(va) ==> !Allows(q, h, x, 2))
  }

  lemma AllowsSlot(p: Paged, h: nat, va: Address, k: nat)
    requires h in p.spaces && Allows(p, h, va, k)
    ensures SlotAllows(p, h, Slot(va), k)
  {
  }

  lemma StoreMapAccess(p: Paged, m: Paged, h: nat, va: Address, physical: nat, flags: nat)
    requires Sound(m) && KeepsRights(p, m, flags) && h in m.spaces && h in p.spaces
    requires p.spaces[h].owned[Slot(va)] != 0 ==> KeepsAccess(p, m, 2)
    requires ShutsSlot(p, h, va, flags) ==> !SlotAllows(m, h, Slot(va), 2)
    requires m.spaces[h].owned[Slot(va)] != 0 && m.spaces[h].owned[Slot(va)] in m.tables
    requires forall k :: (k == 1 || k == 2) && Bit(flags, k) ==> SlotAllows(m, h, Slot(va), k)
    ensures MapAccess(p, AfterStore(m, h, Slot(va), Index(va), PageEntry(physical, flags)), h, va, flags)
  {
    hide Sound, Bit, Slot, Index, PageEntry, Allows, SlotAllows;
    var e := PageEntry(physical, flags);
    var q := AfterStore(m, h, Slot(va), Index(va), e);
    forall g, x: Address, k | g in m.spaces && (k == 1 || k == 2)
      ensures Allows(q, g, x, k) <==>
                if g == h && x / PAGE_SIZE == va / PAGE_SIZE then SlotAllows(m, h, Slot(va), k) && Bit(flags, k)
                else Allows(m, g, x, k)
    {
      StoreAccess(m, h, Slot(va), Index(va), e, g, x, k);
      PageEntryBits(physical, flags, k);
      SamePage(x, va);
    }
    forall x: Address | Slot(x) == Slot(va) && Allows(m, h, x, 2) ensures SlotAllows(m, h, Slot(va), 2) {
      AllowsSlot(m, h, x, 2);
    }
  }

  lemma HeldGrows(h: nat, sp: Space, slot: nat, t: nat)
    requires slot < ENTRIES && t != 0
    ensures sp.owned[slot] == 0 ==> Held(h, WithTable(sp, slot, t)) == Held(h, sp) + {t / PAGE_SIZE}
    ensures sp.owned[slot] == t ==> WithTable(sp, slot, t) == sp
  {
    if sp.owned[slot] == 0 {
      OwnedUpdate(sp.owned, slot, t, ENTRIES);
    }
  }

  /** With flags below the page offset, a mapped page translates to the frame it was given. */
  lemma MapExact(p: Paged, q: Paged, h: nat, va: Address, physical: nat, flags: nat, x: Address)
    requires h in p.spaces && OnlyPage(p, q, h, va, PageEntry(physical, flags)) && x / PAGE_SIZE == va / PAGE_SIZE
    ensures h in q.spaces
    ensures View(q, h, x) == Physical(Frame(physical) + x % PAGE_SIZE) <==>
              Or(physical / PAGE_SIZE, flags / PAGE_SIZE) == physical / PAGE_SIZE
    ensures flags < PAGE_SIZE ==> View(q, h, x) == Physical(Frame(physical) + x % PAGE_SIZE)
  {
    hide View, PageEntry, Frame, Present;
    PageEntryFrame(physical, flags);
  }

  lemma HeldNew(h: nat, sp: Space)
    requires forall i :: 0 <= i < ENTRIES ==> sp.owned[i] == 0
    ensures Held(h, sp) == {h / PAGE_SIZE, sp.directory / PAGE_SIZE}
  {
    OwnedNone(sp.owned, ENTRIES);
  }

  /** The contents of a page with no role do not matter. */
  lemma JunkSound(p: Paged, t: nat, contents: Table)
    requires Sound(p) && t !in p.owner && t !in p.shared
    ensures Sound(p.(tables := p.tables[t := contents])) && SameViews(p, p.(tables := p.tables[t := contents]))
  {
    hide SlotOk, Translate, View;
    var q := p.(tables := p.tables[t := contents]);
    KernelIsShared(p);
    KernelKept(p, q, t);
    forall g | g in q.spaces ensures SpaceOk(q, g) {
      assert SpaceOk(p, g);
      forall d | 0 <= d < ENTRIES ensures SlotOk(q, g, d) {
        JunkSlot(p, t, contents, g, d);
      }
    }
    forall g, va: Address | g in p.spaces ensures View(q, g, va) == View(p, g, va) {
      JunkView(p, t, contents, g, va);
    }
    forall va: Address ensures Translate(q.tables, q.kernel, va) == Translate(p.tables, p.kernel, va) {
      DirectoryKernel(p, t, q.tables, va);
    }
  }

  lemma SameTrans(a: Paged, b: Paged, c: Paged)
    requires SameViews(a, b) && SameViews(b, c) && a.spaces.Keys <= b.spaces.Keys
    ensures SameViews(a, c)
  {
  }

  lemma JunkSlot(p: Paged, t: nat, contents: Table, g: nat, d: nat)
    requires Sound(p) && t !in p.owner && t !in p.shared && g in p.spaces && d < ENTRIES
    ensures var q := p.(tables := p.tables[t := contents]);
            q.spaces[g].directory in q.tables && q.kernel in q.tables && SlotOk(q, g, d)
  {
    hide Sound, Frame, Present;
    SlotAt(p, g, d);
    KernelFrame(p, d);
  }

  lemma JunkView(p: Paged, t: nat, contents: Table, g: nat, va: Address)
    requires Sound(p) && t !in p.owner && t !in p.shared && g in p.spaces
    ensures View(p.(tables := p.tables[t := contents]), g, va) == View(p, g, va)
  {
    hide Sound, Frame, Present, Leaf, Slot, Index;
    SlotAt(p, g, Slot(va));
    KernelFrame(p, Slot(va));
  }
}

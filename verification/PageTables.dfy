/** Two-level page tables as values: what an address translates to, who owns which
    page, and how each kind of store changes that. */
module PageTables {
  import opened Bits
  import opened Pmm

  const ENTRIES: nat := 1024

  type Table = t: seq<nat> | |t| == 1024 witness seq(1024, _ => 0)
  /** The page-table pages of physical memory, by address. */
  type Tables = map<nat, Table>
  type Address = x: nat | x < 0x1_0000_0000

  /** `struct address_space` */
  datatype Space = Space(directory: nat, owned: Table)
  /** What a page held by the paging code is for. */
  datatype Role = Handle(space: nat) | Directory(space: nat) | Owned(space: nat, slot: nat)
  datatype Target = Nowhere | Physical(address: nat)

  predicate Present(e: nat)
  {
    e % 2 == 1
  }

  function Frame(e: nat): (r: nat)
    ensures r <= e < r + PAGE_SIZE && r % PAGE_SIZE == 0
  {
    e / PAGE_SIZE * PAGE_SIZE
  }

  function Slot(va: Address): (r: nat)
    ensures r < ENTRIES
  {
    va / 0x40_0000
  }

  function Index(va: Address): (r: nat)
    ensures r < ENTRIES
  {
    va / PAGE_SIZE % ENTRIES
  }

  /** Slot, index and offset make up the address. */
  lemma AddressParts(va: Address)
    ensures va == Slot(va) * 0x40_0000 + Index(va) * 0x1000 + va % 0x1000
  {
    assert va / 0x40_0000 == va / PAGE_SIZE / ENTRIES;
  }

  /** Two addresses share a page exactly when they use the same slot and index. */
  lemma SamePage(a: Address, b: Address)
    ensures a / PAGE_SIZE == b / PAGE_SIZE <==> Slot(a) == Slot(b) && Index(a) == Index(b)
  {
    assert a / 0x40_0000 == a / PAGE_SIZE / ENTRIES && b / 0x40_0000 == b / PAGE_SIZE / ENTRIES;
  }

  /** The two-level walk that the processor does. */
  function Translate(tables: Tables, directory: nat, va: Address): (r: Target)
  {
    if directory !in tables then Nowhere else Walk(tables, tables[directory][Slot(va)], va)
  }

  function Walk(tables: Tables, e: nat, va: Address): (r: Target)
  {
    if !Present(e) || Frame(e) !in tables then Nowhere else Leaf(tables[Frame(e)][Index(va)], va)
  }

  function Leaf(e: nat, va: Address): (r: Target)
  {
    if Present(e) then Physical(Frame(e) + va % PAGE_SIZE) else Nowhere
  }

  // ---------------------------------------------------------------- entries

  lemma {:induction false} OrHalf(a: nat, b: nat)
    ensures Or(a, b) / 2 == Or(a / 2, b / 2) && (Or(a, b) % 2 == 1 <==> a % 2 == 1 || b % 2 == 1)
  {
  }

  function Shift(x: nat, k: nat): (r: nat)
  {
    if k == 0 then x else Shift(x / 2, k - 1)
  }

  lemma {:induction false} OrShift(a: nat, b: nat, k: nat)
    ensures Shift(Or(a, b), k) == Or(Shift(a, k), Shift(b, k))
  {
    if k > 0 {
      OrHalf(a, b);
      OrShift(a / 2, b / 2, k - 1);
    }
  }

  lemma ShiftFour(x: nat, k: nat)
    ensures Shift(x, k + 4) == Shift(x / 16, k)
  {
    assert Shift(x, k + 4) == Shift(x / 2, k + 3);
    assert Shift(x / 2, k + 3) == Shift(x / 2 / 2, k + 2);
    assert Shift(x / 2 / 2, k + 2) == Shift(x / 2 / 2 / 2, k + 1);
    assert x / 2 / 2 / 2 / 2 == x / 16;
  }

  lemma Shift12(x: nat)
    ensures Shift(x, 12) == x / PAGE_SIZE
  {
    ShiftFour(x, 8);
    ShiftFour(x / 16, 4);
    ShiftFour(x / 16 / 16, 0);
    assert x / 16 / 16 / 16 == x / PAGE_SIZE;
  }

  /** The frame of an or is the or of the frames, and its low bit the or of the low bits. */
  lemma FrameOr(a: nat, b: nat)
    ensures Frame(Or(a, b)) == Or(a / PAGE_SIZE, b / PAGE_SIZE) * PAGE_SIZE
    ensures Present(Or(a, b)) <==> Present(a) || Present(b)
  {
    OrShift(a, b, 12);
    Shift12(a);
    Shift12(b);
    Shift12(Or(a, b));
    OrHalf(a, b);
  }

  /** Flag bits leave the frame alone. */
  lemma FrameFlags(a: nat, flags: nat)
    requires flags < PAGE_SIZE
    ensures Frame(Or(a, flags)) == Frame(a) && (Present(Or(a, flags)) <==> Present(a) || Present(flags))
  {
    FrameOr(a, flags);
  }

  /** `physical | PAGE_PRESENT | flags` */
  function PageEntry(physical: nat, flags: nat): (r: nat)
  {
    Or(Or(Frame(physical), 1), flags)
  }

  /** The stored entry names the frame exactly when the flags set no bit above the offset that the frame lacks. */
  lemma PageEntryFrame(physical: nat, flags: nat)
    ensures Present(PageEntry(physical, flags))
    ensures Frame(PageEntry(physical, flags)) == Frame(physical) <==>
              Or(physical / PAGE_SIZE, flags / PAGE_SIZE) == physical / PAGE_SIZE
    ensures flags < PAGE_SIZE ==> Frame(PageEntry(physical, flags)) == Frame(physical)
  {
    FrameFlags(Frame(physical), 1);
    FrameOr(Or(Frame(physical), 1), flags);
    assert Or(Frame(physical), 1) / PAGE_SIZE == physical / PAGE_SIZE;
  }

  /** `table | PAGE_PRESENT | PAGE_WRITABLE | (flags & PAGE_USER)` */
  function TableEntry(table: nat, flags: nat): (r: nat)
  {
    Or(Or(Or(table, 1), 2), if Bit(flags, 2) then 4 else 0)
  }

  lemma TableEntryFrame(table: nat, flags: nat)
    requires table % PAGE_SIZE == 0
    ensures Present(TableEntry(table, flags)) && Frame(TableEntry(table, flags)) == table
  {
    FrameFlags(table, 1);
    FrameFlags(Or(table, 1), 2);
    FrameFlags(Or(Or(table, 1), 2), if Bit(flags, 2) then 4 else 0);
  }

  /** `flags & (PAGE_WRITABLE | PAGE_USER)` */
  function AccessBits(flags: nat): (r: nat)
    ensures r < 8 && r % 2 == 0
  {
    (if Bit(flags, 1) then 2 else 0) + (if Bit(flags, 2) then 4 else 0)
  }

  // ---------------------------------------------------------------- all spaces together

  datatype Paged = Paged(tables: Tables, spaces: map<nat, Space>, kernel: nat, shared: set<nat>, owner: map<nat, Role>)

  ghost function Kernel(p: Paged): (r: Table)
    requires p.kernel in p.tables
  {
    p.tables[p.kernel]
  }

  /** The boot-time tables: the kernel directory and everything it points at. They belong to no space. */
  ghost predicate KernelOk(p: Paged)
  {
    && p.kernel in p.shared && p.shared <= p.tables.Keys && p.shared !! p.owner.Keys
    && forall d :: 0 <= d < ENTRIES && Present(Kernel(p)[d]) ==> Frame(Kernel(p)[d]) in p.shared
  }

  /** A slot is the kernel's, or leads to a table that this slot of this space owns. */
  ghost predicate SlotOk(p: Paged, h: nat, d: nat)
    requires h in p.spaces && p.spaces[h].directory in p.tables && p.kernel in p.tables && d < ENTRIES
  {
    var e, o := p.tables[p.spaces[h].directory][d], p.spaces[h].owned[d];
    if o == 0 then e == Kernel(p)[d]
    else Present(e) && Frame(e) == o && o in p.tables && o in p.owner && p.owner[o] == Owned(h, d)
  }

  ghost predicate SpaceOk(p: Paged, h: nat)
    requires h in p.spaces && p.kernel in p.tables
  {
    var dir := p.spaces[h].directory;
    && h in p.owner && p.owner[h] == Handle(h)
    && dir in p.tables && dir in p.owner && p.owner[dir] == Directory(h)
    && forall d :: 0 <= d < ENTRIES ==> SlotOk(p, h, d)
  }

  /** Since a page has one role, directories, tables and handles are pairwise distinct. */
  ghost predicate Sound(p: Paged)
  {
    && KernelOk(p)
    && forall h :: h in p.spaces ==> SpaceOk(p, h)
  }

  ghost function View(p: Paged, h: nat, va: Address): (r: Target)
    requires h in p.spaces
  {
    Translate(p.tables, p.spaces[h].directory, va)
  }

  lemma SlotAt(p: Paged, h: nat, d: nat)
    requires Sound(p) && h in p.spaces && d < ENTRIES
    ensures p.kernel in p.tables && p.spaces[h].directory in p.tables && SlotOk(p, h, d)
    ensures h in p.owner && p.owner[h] == Handle(h) && p.spaces[h].directory in p.owner
    ensures p.owner[p.spaces[h].directory] == Directory(h)
  {
  }

  lemma KernelSlot(p: Paged, d: nat)
    requires KernelOk(p) && d < ENTRIES
    ensures Present(Kernel(p)[d]) ==>
              Frame(Kernel(p)[d]) in p.shared && Frame(Kernel(p)[d]) in p.tables && Frame(Kernel(p)[d]) !in p.owner
  {
  }

  // ---------------------------------------------------------------- one step at a time

  /** Nothing translates differently. */
  ghost predicate SameViews(p: Paged, q: Paged)
  {
    && (forall h, va: Address :: h in p.spaces && h in q.spaces ==> View(q, h, va) == View(p, h, va))
    && (forall va: Address :: Translate(q.tables, q.kernel, va) == Translate(p.tables, p.kernel, va))
  }

  /** Store `e` in a table that the space owns. */
  ghost function AfterStore(p: Paged, h: nat, slot: nat, index: nat, e: nat): (r: Paged)
    requires h in p.spaces && slot < ENTRIES && index < ENTRIES && p.spaces[h].owned[slot] in p.tables
  {
    var t := p.spaces[h].owned[slot];
    p.(tables := p.tables[t := p.tables[t][index := e]])
  }

  lemma StoreSound(p: Paged, h: nat, slot: nat, index: nat, e: nat)
    requires Sound(p) && h in p.spaces && slot < ENTRIES && index < ENTRIES && p.spaces[h].owned[slot] != 0
    ensures p.spaces[h].owned[slot] in p.tables && Sound(AfterStore(p, h, slot, index, e))
  {
    hide SlotOk;
    SlotAt(p, h, slot);
    OwnedRole(p, h, slot);
    var q := AfterStore(p, h, slot, index, e);
    KernelKept(p, q, p.spaces[h].owned[slot]);
    forall g | g in q.spaces ensures SpaceOk(q, g) {
      assert SpaceOk(p, g);
      forall d | 0 <= d < ENTRIES ensures SlotOk(q, g, d) {
        StoreSlot(p, h, slot, index, e, g, d);
      }
    }
  }

  lemma OwnedRole(p: Paged, h: nat, slot: nat)
    requires Sound(p) && h in p.spaces && slot < ENTRIES && p.spaces[h].owned[slot] != 0
    ensures p.spaces[h].owned[slot] in p.tables && p.spaces[h].owned[slot] in p.owner
    ensures p.owner[p.spaces[h].owned[slot]] == Owned(h, slot) && p.spaces[h].owned[slot] !in p.shared
  {
    SlotAt(p, h, slot);
  }

  /** Changing one table that is not shared keeps the boot-time tables. */
  lemma KernelKept(p: Paged, q: Paged, t: nat)
    requires KernelOk(p) && t !in p.shared && q.kernel == p.kernel && q.shared == p.shared && p.shared !! q.owner.Keys
    requires p.tables.Keys <= q.tables.Keys && forall a :: a in p.tables && a != t ==> q.tables[a] == p.tables[a]
    ensures KernelOk(q)
  {
    assert Kernel(q) == Kernel(p);
  }

  lemma StoreSlot(p: Paged, h: nat, slot: nat, index: nat, e: nat, g: nat, d: nat)
    requires Sound(p) && h in p.spaces && slot < ENTRIES && index < ENTRIES && p.spaces[h].owned[slot] != 0
    requires p.spaces[h].owned[slot] in p.tables && g in p.spaces && d < ENTRIES
    requires p.spaces[g].directory in p.tables && p.kernel in p.tables
    ensures SlotOk(AfterStore(p, h, slot, index, e), g, d)
  {
    hide Sound, Frame, Present;
    SlotAt(p, g, d);
    OwnedRole(p, h, slot);
    KernelIsShared(p);
  }

  lemma KernelIsShared(p: Paged)
    requires Sound(p)
    ensures p.kernel in p.shared && p.kernel in p.tables && p.kernel !in p.owner
  {
  }

  /** A store shows at the addresses of its own page and nowhere else. */
  lemma StoreView(p: Paged, h: nat, slot: nat, index: nat, e: nat, g: nat, va: Address)
    requires Sound(p) && h in p.spaces && slot < ENTRIES && index < ENTRIES && p.spaces[h].owned[slot] != 0
    requires p.spaces[h].owned[slot] in p.tables && g in p.spaces
    ensures var q := AfterStore(p, h, slot, index, e);
            View(q, g, va) == if g == h && Slot(va) == slot && Index(va) == index then Leaf(e, va) else View(p, g, va)
  {
    hide Sound, Frame, Present, Leaf, Slot, Index;
    SlotAt(p, g, Slot(va));
    OwnedRole(p, h, slot);
    KernelFrame(p, Slot(va));
  }

  lemma KernelFrame(p: Paged, d: nat)
    requires Sound(p) && d < ENTRIES
    ensures p.kernel in p.tables && p.kernel !in p.owner && p.kernel in p.shared
    ensures Present(Kernel(p)[d]) ==>
              Frame(Kernel(p)[d]) in p.tables && Frame(Kernel(p)[d]) !in p.owner && Frame(Kernel(p)[d]) in p.shared
  {
  }

  lemma StoreKernel(p: Paged, h: nat, slot: nat, index: nat, e: nat, va: Address)
    requires Sound(p) && h in p.spaces && slot < ENTRIES && index < ENTRIES && p.spaces[h].owned[slot] != 0
    requires p.spaces[h].owned[slot] in p.tables
    ensures var q := AfterStore(p, h, slot, index, e);
            Translate(q.tables, q.kernel, va) == Translate(p.tables, p.kernel, va)
  {
    hide Sound, Frame, Present, Leaf, Slot, Index;
    OwnedRole(p, h, slot);
    KernelFrame(p, Slot(va));
  }

  /** The directory entry of an owned slot gets more access bits. */
  ghost function AfterFlags(p: Paged, h: nat, slot: nat, e: nat): (r: Paged)
    requires h in p.spaces && slot < ENTRIES && p.spaces[h].directory in p.tables
  {
    var dir := p.spaces[h].directory;
    p.(tables := p.tables[dir := p.tables[dir][slot := e]])
  }

  lemma FlagsSound(p: Paged, h: nat, slot: nat, e: nat)
    requires Sound(p) && h in p.spaces && slot < ENTRIES && p.spaces[h].owned[slot] != 0
    requires Present(e) && Frame(e) == p.spaces[h].owned[slot]
    ensures p.spaces[h].directory in p.tables && Sound(AfterFlags(p, h, slot, e))
    ensures SameViews(p, AfterFlags(p, h, slot, e))
  {
    hide SlotOk, Frame, Present, View, Translate;
    SlotAt(p, h, slot);
    KernelIsShared(p);
    var q, dir := AfterFlags(p, h, slot, e), p.spaces[h].directory;
    KernelKept(p, q, dir);
    forall g | g in q.spaces ensures SpaceOk(q, g) {
      assert SpaceOk(p, g);
      forall d | 0 <= d < ENTRIES ensures SlotOk(q, g, d) {
        FlagsSlot(p, h, slot, e, g, d);
      }
    }
    forall g, va: Address | g in p.spaces ensures View(q, g, va) == View(p, g, va) {
      FlagsView(p, h, slot, e, g, va);
    }
    forall va: Address ensures Translate(q.tables, q.kernel, va) == Translate(p.tables, p.kernel, va) {
      DirectoryKernel(p, dir, q.tables, va);
    }
  }

  lemma FlagsSlot(p: Paged, h: nat, slot: nat, e: nat, g: nat, d: nat)
    requires Sound(p) && h in p.spaces && slot < ENTRIES && p.spaces[h].owned[slot] != 0
    requires Present(e) && Frame(e) == p.spaces[h].owned[slot] && g in p.spaces && d < ENTRIES
    requires p.spaces[h].directory in p.tables && p.spaces[g].directory in p.tables && p.kernel in p.tables
    ensures SlotOk(AfterFlags(p, h, slot, e), g, d)
  {
    hide Sound, Frame, Present;
    SlotAt(p, g, d);
    SlotAt(p, h, slot);
    KernelIsShared(p);
  }

  lemma FlagsView(p: Paged, h: nat, slot: nat, e: nat, g: nat, va: Address)
    requires Sound(p) && h in p.spaces && slot < ENTRIES && p.spaces[h].owned[slot] != 0
    requires Present(e) && Frame(e) == p.spaces[h].owned[slot] && g in p.spaces && p.spaces[h].directory in p.tables
    ensures View(AfterFlags(p, h, slot, e), g, va) == View(p, g, va)
  {
    hide Sound, Frame, Present, Leaf, Slot, Index;
    SlotAt(p, g, Slot(va));
    SlotAt(p, h, slot);
    KernelFrame(p, Slot(va));
  }

  /** The kernel's translations survive any change to pages that spaces hold. */
  lemma DirectoryKernel(p: Paged, held: nat, tables: Tables, va: Address)
    requires Sound(p) && held !in p.shared && p.tables.Keys <= tables.Keys
    requires forall a :: a in p.tables && a != held ==> tables[a] == p.tables[a]
    ensures Translate(tables, p.kernel, va) == Translate(p.tables, p.kernel, va)
  {
    hide Leaf, Slot, Index;
    KernelSlot(p, Slot(va));
  }

  /** An unowned slot gets a table `t` with the given contents, reached through entry `e`. */
  ghost function AfterAdopt(p: Paged, h: nat, slot: nat, t: nat, contents: Table, e: nat): (r: Paged)
    requires h in p.spaces && slot < ENTRIES && p.spaces[h].directory in p.tables
  {
    var sp := p.spaces[h];
    p.(tables := p.tables[t := contents][sp.directory := p.tables[sp.directory][slot := e]],
       spaces := p.spaces[h := sp.(owned := sp.owned[slot := t])],
       owner := p.owner[t := Owned(h, slot)])
  }

  /** The new table reads as the slot did: a copy of the shared table, or nothing at all. */
  ghost predicate ReadsAs(p: Paged, e: nat, contents: Table)
  {
    if Present(e) then Frame(e) in p.tables && contents == p.tables[Frame(e)]
    else forall i :: 0 <= i < ENTRIES ==> !Present(contents[i])
  }

  ghost predicate Adoptable(p: Paged, h: nat, slot: nat, t: nat, contents: Table, e: nat)
  {
    && h in p.spaces && slot < ENTRIES && p.spaces[h].owned[slot] == 0 && p.spaces[h].directory in p.tables
    && t != 0 && t !in p.owner && t !in p.shared && Present(e) && Frame(e) == t
    && ReadsAs(p, p.tables[p.spaces[h].directory][slot], contents)
  }

  lemma AdoptSound(p: Paged, h: nat, slot: nat, t: nat, contents: Table, e: nat)
    requires Sound(p) && Adoptable(p, h, slot, t, contents, e)
    ensures Sound(AfterAdopt(p, h, slot, t, contents, e)) && SameViews(p, AfterAdopt(p, h, slot, t, contents, e))
  {
    hide SlotOk, Frame, Present, View, Translate, ReadsAs;
    SlotAt(p, h, slot);
    KernelIsShared(p);
    var q, dir := AfterAdopt(p, h, slot, t, contents, e), p.spaces[h].directory;
    var m := p.(tables := p.tables[t := contents]);
    KernelKept(p, m, t);
    KernelKept(m, q, dir);
    forall g | g in q.spaces ensures SpaceOk(q, g) {
      assert SpaceOk(p, g);
      AdoptDirectory(p, h, slot, t, contents, e, g);
      forall d | 0 <= d < ENTRIES ensures SlotOk(q, g, d) {
        AdoptSlot(p, h, slot, t, contents, e, g, d);
      }
    }
    forall g, va: Address | g in p.spaces ensures View(q, g, va) == View(p, g, va) {
      AdoptView(p, h, slot, t, contents, e, g, va);
    }
    forall va: Address ensures Translate(q.tables, q.kernel, va) == Translate(p.tables, p.kernel, va) {
      AdoptKernel(p, h, slot, t, contents, e, va);
    }
  }

  lemma AdoptDirectory(p: Paged, h: nat, slot: nat, t: nat, contents: Table, e: nat, g: nat)
    requires Sound(p) && Adoptable(p, h, slot, t, contents, e) && g in p.spaces
    ensures var q := AfterAdopt(p, h, slot, t, contents, e);
            && q.spaces[g].directory == p.spaces[g].directory && p.spaces[g].directory in q.tables
            && g in q.owner && q.owner[g] == Handle(g) && p.spaces[g].directory in q.owner
            && q.owner[p.spaces[g].directory] == Directory(g)
            && q.kernel in q.tables && q.tables[q.kernel] == p.tables[p.kernel]
  {
  }

  lemma AdoptSlot(p: Paged, h: nat, slot: nat, t: nat, contents: Table, e: nat, g: nat, d: nat)
    requires Sound(p) && Adoptable(p, h, slot, t, contents, e) && g in p.spaces && d < ENTRIES
    ensures var q := AfterAdopt(p, h, slot, t, contents, e);
            q.spaces[g].directory in q.tables && q.kernel in q.tables && SlotOk(q, g, d)
  {
    hide Sound, Frame, Present, ReadsAs;
    SlotAt(p, g, d);
    SlotAt(p, h, slot);
    AdoptDirectory(p, h, slot, t, contents, e, g);
  }

  lemma AdoptView(p: Paged, h: nat, slot: nat, t: nat, contents: Table, e: nat, g: nat, va: Address)
    requires Sound(p) && Adoptable(p, h, slot, t, contents, e) && g in p.spaces
    ensures View(AfterAdopt(p, h, slot, t, contents, e), g, va) == View(p, g, va)
  {
    hide Sound, Frame, Present, Slot, Index;
    SlotAt(p, g, Slot(va));
    SlotAt(p, h, slot);
    KernelFrame(p, Slot(va));
  }

  lemma AdoptKernel(p: Paged, h: nat, slot: nat, t: nat, contents: Table, e: nat, va: Address)
    requires Sound(p) && Adoptable(p, h, slot, t, contents, e)
    ensures var q := AfterAdopt(p, h, slot, t, contents, e);
            Translate(q.tables, q.kernel, va) == Translate(p.tables, p.kernel, va)
  {
    hide Sound, Frame, Present, Leaf, Slot, Index, ReadsAs;
    SlotAt(p, h, slot);
    KernelFrame(p, Slot(va));
  }

  /** A new space: a copy of the kernel directory. */
  ghost function AfterCreate(p: Paged, h: nat, dir: nat, zeros: Table): (r: Paged)
    requires p.kernel in p.tables
  {
    p.(tables := p.tables[dir := Kernel(p)], spaces := p.spaces[h := Space(dir, zeros)], owner :=
        p.owner[h := Handle(h)][dir := Directory(h)])
  }

  lemma CreateSound(p: Paged, h: nat, dir: nat, zeros: Table)
    requires Sound(p) && h != dir && h !in p.owner && dir !in p.owner && h !in p.shared && dir !in p.shared
    requires forall i :: 0 <= i < ENTRIES ==> zeros[i] == 0
    ensures p.kernel in p.tables && h !in p.spaces
    ensures var q := AfterCreate(p, h, dir, zeros);
            Sound(q) && SameViews(p, q) && forall va: Address :: View(q, h, va) == Translate(p.tables, p.kernel, va)
  {
    hide SlotOk, Frame, Present, Translate;
    KernelIsShared(p);
    assert h !in p.spaces by {
      if h in p.spaces {
        SlotAt(p, h, 0);
      }
    }
    var q := AfterCreate(p, h, dir, zeros);
    KernelKept(p, q, dir);
    forall g | g in q.spaces ensures SpaceOk(q, g) {
      if g != h {
        SlotAt(p, g, 0);
      }
      forall d | 0 <= d < ENTRIES ensures SlotOk(q, g, d) {
        CreateSlot(p, h, dir, zeros, g, d);
      }
    }
    forall va: Address ensures Translate(q.tables, q.kernel, va) == Translate(p.tables, p.kernel, va) ==
        View(q, h, va) {
      DirectoryKernel(p, dir, q.tables, va);
      SameTable(q.tables, q.kernel, dir, va);
    }
    forall g, va: Address | g in p.spaces ensures View(q, g, va) == View(p, g, va) {
      CreateView(p, h, dir, zeros, g, va);
    }
  }

  lemma SameTable(tables: Tables, a: nat, b: nat, va: Address)
    requires a in tables && b in tables && tables[a] == tables[b]
    ensures Translate(tables, a, va) == Translate(tables, b, va)
  {
  }

  lemma CreateSlot(p: Paged, h: nat, dir: nat, zeros: Table, g: nat, d: nat)
    requires Sound(p) && h != dir && h !in p.owner && dir !in p.owner && h !in p.shared && dir !in p.shared
    requires h !in p.spaces
    requires forall i :: 0 <= i < ENTRIES ==> zeros[i] == 0
    requires (g in p.spaces || g == h) && d < ENTRIES && p.kernel in p.tables
    ensures var q := AfterCreate(p, h, dir, zeros);
            q.spaces[g].directory in q.tables && q.kernel in q.tables && SlotOk(q, g, d)
  {
    hide Sound, Frame, Present;
    KernelIsShared(p);
    if g != h {
      SlotAt(p, g, d);
    }
  }

  lemma CreateView(p: Paged, h: nat, dir: nat, zeros: Table, g: nat, va: Address)
    requires Sound(p) && h != dir && h !in p.owner && dir !in p.owner && h !in p.shared && dir !in p.shared
    requires h !in p.spaces
    requires g in p.spaces && p.kernel in p.tables
    ensures View(AfterCreate(p, h, dir, zeros), g, va) == View(p, g, va)
  {
    hide Sound, Frame, Present, Leaf, Slot, Index;
    SlotAt(p, g, Slot(va));
    KernelFrame(p, Slot(va));
  }

  /** A space goes, and with it the roles of its pages. */
  ghost function AfterDestroy(p: Paged, h: nat): (r: Paged)
  {
    p.(spaces := p.spaces - {h}, owner := map a | a in p.owner && p.owner[a].space != h :: p.owner[a])
  }

  lemma DestroySound(p: Paged, h: nat)
    requires Sound(p)
    ensures Sound(AfterDestroy(p, h)) && SameViews(p, AfterDestroy(p, h))
  {
    hide SlotOk;
    var q := AfterDestroy(p, h);
    KernelIsShared(p);
    assert Kernel(q) == Kernel(p);
    forall g | g in q.spaces ensures SpaceOk(q, g) {
      assert SpaceOk(p, g);
      forall d | 0 <= d < ENTRIES ensures SlotOk(q, g, d) {
        DestroySlot(p, h, g, d);
      }
    }
  }

  lemma DestroySlot(p: Paged, h: nat, g: nat, d: nat)
    requires Sound(p) && g in p.spaces && g != h && d < ENTRIES && p.spaces[g].directory in p.tables
    requires p.kernel in p.tables
    ensures SlotOk(AfterDestroy(p, h), g, d)
  {
    hide Sound, Frame, Present;
    SlotAt(p, g, d);
  }

  // ---------------------------------------------------------------- access

  /** Both entries on the way to `va` have bit `k`: 1 lets user code write, 2 lets it in at all. */
  ghost predicate Allows(p: Paged, h: nat, va: Address, k: nat)
    requires h in p.spaces
  {
    && p.spaces[h].directory in p.tables
    && var e := p.tables[p.spaces[h].directory][Slot(va)];
       Present(e) && Frame(e) in p.tables && Bit(e, k) && Bit(p.tables[Frame(e)][Index(va)], k)
  }

  /** The directory entry of a slot has bit `k`. */
  ghost predicate SlotAllows(p: Paged, h: nat, slot: nat, k: nat)
    requires h in p.spaces && slot < ENTRIES
  {
    p.spaces[h].directory in p.tables && Bit(p.tables[p.spaces[h].directory][slot], k)
  }

  /** Whatever was allowed still is. */
  ghost predicate KeepsAccess(p: Paged, q: Paged, k: nat)
  {
    forall g, va: Address :: g in p.spaces && g in q.spaces && Allows(p, g, va, k) ==> Allows(q, g, va, k)
  }

  /** Mapping with these flags takes no access away: user access to a slot that is copied needs the user flag. */
  ghost predicate KeepsRights(p: Paged, q: Paged, flags: nat)
  {
    p.spaces.Keys == q.spaces.Keys && KeepsAccess(p, q, 1) && (Bit(flags, 2) ==> KeepsAccess(p, q, 2))
  }

  lemma KeepsRefl(p: Paged, flags: nat)
    ensures KeepsRights(p, p, flags)
  {
  }

  lemma KeepsTrans(p: Paged, m: Paged, q: Paged, flags: nat)
    requires KeepsRights(p, m, flags) && KeepsRights(m, q, flags)
    ensures KeepsRights(p, q, flags)
  {
    hide Allows;
  }

  /** An entry holds the frame's bits, the present bit and the flags, and no other bit. */
  lemma PageEntryBits(physical: nat, flags: nat, k: nat)
    ensures Bit(PageEntry(physical, flags), k) <==> k == 0 || Bit(flags, k) || (k >= 12 && Bit(physical, k))
  {
    hide Or, Bit;
    OrBits(Or(Frame(physical), 1), flags, k);
    OrBits(Frame(physical), 1, k);
    assert Pow2(12) == PAGE_SIZE && Pow2(0) == 1;
    HighBits(physical, Frame(physical), physical / PAGE_SIZE, 12, k);
    OneBit(0, k);
  }

  /** Clearing the low `n` bits clears those and no other. */
  lemma {:induction false} HighBits(x: nat, y: nat, q: nat, n: nat, k: nat)
    requires y == q * Pow2(n) && y <= x < y + Pow2(n)
    ensures Bit(y, k) <==> k >= n && Bit(x, k)
  {
    if n > 0 {
      assert y == 2 * (q * Pow2(n - 1));
      if k > 0 {
        HighBits(x / 2, y / 2, q, n - 1, k - 1);
      }
    }
  }

  lemma {:induction false} OneBit(n: nat, k: nat)
    ensures Bit(Pow2(n), k) <==> k == n
  {
    if n > 0 && k > 0 {
      OneBit(n - 1, k - 1);
    } else if k > 0 {
      NoBits(k - 1);
    }
  }

  lemma SmallBits(k: nat)
    requires k == 1 || k == 2
    ensures forall flags: nat :: Bit(AccessBits(flags), k) <==> Bit(flags, k)
  {
    assert !Bit(0, k) && Bit(6, 1) && Bit(6, 2) && (Bit(2, k) <==> k == 1) && (Bit(4, k) <==> k == 2);
  }

  /** A directory entry holds the table's bits, present, writable and, when the flags do, user. */
  lemma TableEntryBits(table: nat, flags: nat, k: nat)
    requires table % PAGE_SIZE == 0
    ensures Bit(TableEntry(table, flags), k) <==> k <= 1 || (k == 2 && Bit(flags, 2)) || (k >= 12 && Bit(table, k))
  {
    hide Or, Bit;
    var last := if Bit(flags, 2) then 4 else 0;
    OrBits(Or(Or(table, 1), 2), last, k);
    OrBits(Or(table, 1), 2, k);
    OrBits(table, 1, k);
    assert Pow2(12) == PAGE_SIZE && Pow2(0) == 1 && Pow2(1) == 2 && Pow2(2) == 4;
    assert table == table / PAGE_SIZE * PAGE_SIZE;
    HighBits(table, table, table / PAGE_SIZE, 12, k);
    OneBit(0, k);
    OneBit(1, k);
    OneBit(2, k);
    NoBits(k);
  }

  lemma StoreAccess(p: Paged, h: nat, slot: nat, index: nat, e: nat, g: nat, va: Address, k: nat)
    requires Sound(p) && h in p.spaces && slot < ENTRIES && index < ENTRIES && p.spaces[h].owned[slot] != 0
    requires p.spaces[h].owned[slot] in p.tables && g in p.spaces
    ensures Allows(AfterStore(p, h, slot, index, e), g, va, k) <==>
              if g == h && Slot(va) == slot && Index(va) == index then SlotAllows(p, h, slot, k) && Bit(e, k)
              else Allows(p, g, va, k)
  {
    hide Sound, Frame, Present, Bit, Slot, Index;
    SlotAt(p, g, Slot(va));
    SlotAt(p, h, slot);
    OwnedRole(p, h, slot);
    KernelFrame(p, Slot(va));
  }

  lemma FlagsAccess(p: Paged, h: nat, slot: nat, e: nat, k: nat)
    requires Sound(p) && h in p.spaces && slot < ENTRIES && p.spaces[h].owned[slot] != 0
    requires Present(e) && Frame(e) == p.spaces[h].owned[slot]
    requires SlotAllows(p, h, slot, k) ==> Bit(e, k)
    ensures p.spaces[h].directory in p.tables && KeepsAccess(p, AfterFlags(p, h, slot, e), k)
  {
    hide Sound, Frame, Present, Bit, Slot, Index;
    SlotAt(p, h, slot);
    var q := AfterFlags(p, h, slot, e);
    forall g, va: Address | g in p.spaces && Allows(p, g, va, k) ensures Allows(q, g, va, k) {
      SlotAt(p, g, Slot(va));
      KernelFrame(p, Slot(va));
    }
  }

  lemma AdoptAccess(p: Paged, h: nat, slot: nat, t: nat, contents: Table, e: nat, k: nat)
    requires Sound(p) && Adoptable(p, h, slot, t, contents, e) && Bit(e, k)
    ensures KeepsAccess(p, AfterAdopt(p, h, slot, t, contents, e), k)
  {
    hide Sound, Frame, Present, Bit, Slot, Index;
    SlotAt(p, h, slot);
    var q := AfterAdopt(p, h, slot, t, contents, e);
    forall g, va: Address | g in p.spaces && Allows(p, g, va, k) ensures Allows(q, g, va, k) {
      AdoptAccessAt(p, h, slot, t, contents, e, g, va, k);
    }
  }

  lemma AdoptAccessAt(p: Paged, h: nat, slot: nat, t: nat, contents: Table, e: nat, g: nat, va: Address, k: nat)
    requires Sound(p) && Adoptable(p, h, slot, t, contents, e) && Bit(e, k) && g in p.spaces && Allows(p, g, va, k)
    ensures Allows(AfterAdopt(p, h, slot, t, contents, e), g, va, k)
  {
    hide Sound, Frame, Present, Bit, Slot, Index;
    SlotAt(p, g, Slot(va));
    SlotAt(p, h, slot);
    KernelFrame(p, Slot(va));
  }

  lemma JunkAccess(p: Paged, t: nat, contents: Table, k: nat)
    requires Sound(p) && t !in p.owner && t !in p.shared
    ensures KeepsAccess(p, p.(tables := p.tables[t := contents]), k)
  {
    hide Sound, Frame, Present, Bit, Slot, Index;
    var q := p.(tables := p.tables[t := contents]);
    forall g, va: Address | g in p.spaces && Allows(p, g, va, k) ensures Allows(q, g, va, k) {
      SlotAt(p, g, Slot(va));
      KernelFrame(p, Slot(va));
    }
  }
}

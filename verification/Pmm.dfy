/** The physical page allocator: one bit per page, first fit. */
module Pmm {
  import opened Bits

  const PAGE_SIZE: nat := 4096
  /** Memory the kernel maps one to one, and the only memory it manages. */
  const LIMIT: nat := 0x0800_0000
  const MAX_PAGES: nat := 32768
  const WORD_BITS: nat := 32
  const WORDS: nat := 1024
  const E820_MAX_ENTRIES: nat := 32

  // ---------------------------------------------------------------- sets of pages

  predicate Taken(words: seq<nat>, page: nat)
    requires |words| == WORDS && page < MAX_PAGES
  {
    Get(words, WORD_BITS, page)
  }

  function Run(first: nat, count: nat): (r: set<nat>)
    ensures forall p :: p in r <==> first <= p < first + count
  {
    if count == 0 then {} else Run(first, count - 1) + {first + count - 1}
  }

  lemma RunStep(first: nat, count: nat)
    ensures Run(first, count + 1) == Run(first, count) + {first + count} && Run(first, 0) == {}
  {
  }

  lemma RunGrows(before: set<nat>, first: nat, count: nat)
    ensures before + Run(first, count) + {first + count} == before + Run(first, count + 1)
  {
  }

  lemma {:induction false} RunSize(first: nat, count: nat)
    ensures |Run(first, count)| == count
  {
    if count > 0 {
      RunSize(first, count - 1);
    }
  }

  lemma {:induction false} SubsetSize(a: set<nat>, b: set<nat>)
    requires a <= b
    ensures |a| <= |b| && |b - a| == |b| - |a|
  {
  }

  lemma Returned(free: set<nat>, page: nat, count: nat)
    requires free !! Run(page, count)
    ensures |free + Run(page, count)| == |free| + count
  {
  }

  lemma NotAllFree(free: set<nat>, usable: set<nat>, page: nat)
    requires free <= usable && page in usable && page !in free
    ensures |free| < |usable|
  {
    SubsetSize(free + {page}, usable);
  }

  lemma PageOf(page: nat)
    ensures page * PAGE_SIZE / PAGE_SIZE == page && page * PAGE_SIZE % PAGE_SIZE == 0
  {
  }

  ghost function FreeIn(words: seq<nat>, first: nat, last: nat): (r: set<nat>)
    requires |words| == WORDS && last <= MAX_PAGES
    ensures forall p :: p in r <==> first <= p < last && !Taken(words, p)
  {
    set p | first <= p < last && !Taken(words, p)
  }

  lemma FreeAfterPut(words: seq<nat>, page: nat, taken: bool, first: nat, last: nat)
    requires |words| == WORDS && page < MAX_PAGES && last <= MAX_PAGES
    ensures FreeIn(Put(words, WORD_BITS, page, taken), first, last)
            == if taken then FreeIn(words, first, last) - {page}
               else if first <= page < last then FreeIn(words, first, last) + {page} else FreeIn(words, first, last)
  {
    forall p | 0 <= p < MAX_PAGES
      ensures Taken(Put(words, WORD_BITS, page, taken), p) == if p == page then taken else Taken(words, p)
    {
      PutGet(words, WORD_BITS, page, taken, p);
    }
  }

  /** Only usable pages are free, and the counters count. */
  ghost predicate Counted(usable: set<nat>, free: set<nat>, first: nat, last: nat, total: nat, used: nat)
  {
    && (forall p :: p in usable ==> first <= p < last)
    && free <= usable && total == |usable| && used + |free| == |usable|
  }

  lemma CountClaim(usable: set<nat>, free: set<nat>, first: nat, last: nat, total: nat, used: nat, page: nat,
                   count: nat)
    requires Counted(usable, free, first, last, total, used) && Run(page, count) <= free
    ensures Counted(usable, free - Run(page, count), first, last, total, used + count)
  {
  }

  lemma CountReturn(usable: set<nat>, free: set<nat>, first: nat, last: nat, total: nat, used: nat, page: nat)
    requires Counted(usable, free, first, last, total, used) && page in usable && page !in free
    ensures used > 0 && Counted(usable, free + {page}, first, last, total, used - 1)
  {
    NotAllFree(free, usable, page);
  }

  /** `count` free pages from `page` on, below page `last`. */
  ghost predicate FreeRun(free: set<nat>, last: nat, page: nat, count: nat)
  {
    page + count <= last && Run(page, count) <= free
  }

  lemma OneRun(free: set<nat>, last: nat, q: nat)
    ensures FreeRun(free, last, q, 1) <==> q < last && q in free
  {
  }

  // ---------------------------------------------------------------- the firmware map

  datatype Entry = Entry(base: nat, length: nat, usable: bool)

  function Capped(end: nat): (r: nat)
  {
    if end > LIMIT then LIMIT else end
  }

  /** One past the last usable byte of an entry; base and length are 64-bit and their sum wraps. */
  function EntryEnd(e: Entry): (r: nat)
  {
    Capped(EntrySum(e))
  }

  predicate Counts(e: Entry)
  {
    e.usable && e.length != 0 && e.base < LIMIT
  }

  /** The whole page lies in [start, end) and is not below the managed area. */
  predicate PageIn(page: nat, managedStart: nat, start: nat, end: nat)
  {
    managedStart <= page * PAGE_SIZE && start <= page * PAGE_SIZE && (page + 1) * PAGE_SIZE <= end
  }

  /** The union of the usable entries, cut to whole managed pages. */
  ghost predicate UsablePage(entries: seq<Entry>, managedStart: nat, page: nat)
  {
    exists i ::
      && 0 <= i < |entries| && i < E820_MAX_ENTRIES && entries[i].usable
      && managedStart <= page * PAGE_SIZE && entries[i].base <= page * PAGE_SIZE
      && (page + 1) * PAGE_SIZE <= (entries[i].base + entries[i].length) % 0x1_0000_0000_0000_0000
      && (page + 1) * PAGE_SIZE <= LIMIT
  }

  function AlignUp(x: nat): (r: nat)
    ensures r % PAGE_SIZE == 0 && x <= r < x + PAGE_SIZE
  {
    (x + PAGE_SIZE - 1) / PAGE_SIZE * PAGE_SIZE
  }

  function FirstPage(managedStart: nat, start: nat): (r: nat)
  {
    (if AlignUp(start) < managedStart then managedStart else AlignUp(start)) / PAGE_SIZE
  }

  function EndPage(end: nat): (r: nat)
    ensures r <= MAX_PAGES
  {
    Capped(end - end % PAGE_SIZE) / PAGE_SIZE
  }

  /** The whole managed pages of [start, end). */
  ghost function Region(managedStart: nat, start: nat, end: nat): (r: set<nat>)
    requires managedStart % PAGE_SIZE == 0
    ensures forall p: nat :: p in r <==> PageIn(p, managedStart, start, Capped(end))
  {
    var first, last := FirstPage(managedStart, start), EndPage(end);
    assert forall p: nat :: p in Run(first, if last < first then 0 else last - first) <==>
           PageIn(p, managedStart, start, Capped(end)) by {
      forall p: nat ensures first <= p < last <==> PageIn(p, managedStart, start, Capped(end)) {
        RegionPage(managedStart, start, end, p);
      }
    }
    Run(first, if last < first then 0 else last - first)
  }

  /** The page numbers between the rounded bounds are the whole pages of the region. */
  lemma RegionPage(managedStart: nat, start: nat, end: nat, p: nat)
    requires managedStart % PAGE_SIZE == 0
    ensures FirstPage(managedStart, start) <= p < EndPage(end) <==> PageIn(p, managedStart, start, Capped(end))
  {
  }

  /** The pages of the first `n` entries that count. */
  ghost function Union(entries: seq<Entry>, n: nat, managedStart: nat): (r: set<nat>)
    requires n <= |entries| && managedStart % PAGE_SIZE == 0
  {
    if n == 0 then {}
    else
      var e := entries[n - 1];
      Union(entries, n - 1, managedStart) + if Counts(e) then Region(managedStart, e.base, EntrySum(e)) else {}
  }

  lemma UnionUsable(entries: seq<Entry>, n: nat, managedStart: nat, p: nat)
    requires managedStart % PAGE_SIZE == 0
    requires n == if |entries| < E820_MAX_ENTRIES then |entries| else E820_MAX_ENTRIES
    ensures p in Union(entries, n, managedStart) <==> UsablePage(entries, managedStart, p)
  {
    UnionPages(entries, n, managedStart, p);
  }

  function EntrySum(e: Entry): (r: nat)
  {
    (e.base + e.length) % 0x1_0000_0000_0000_0000
  }

  lemma {:induction false} UnionPages(entries: seq<Entry>, n: nat, managedStart: nat, p: nat)
    requires n <= |entries| && n <= E820_MAX_ENTRIES && managedStart % PAGE_SIZE == 0
    ensures p in Union(entries, n, managedStart) <==>
            exists i ::
              && 0 <= i < n && Counts(entries[i])
              && PageIn(p, managedStart, entries[i].base, EntryEnd(entries[i]))
  {
    if n > 0 {
      UnionPages(entries, n - 1, managedStart, p);
    }
  }

  lemma RegionIsRun(managedStart: nat, start: nat, end: nat)
    requires managedStart % PAGE_SIZE == 0
    ensures Region(managedStart, start, end)
            == Run(FirstPage(managedStart, start), if EndPage(end) < FirstPage(managedStart, start) then 0
                else EndPage(end) - FirstPage(managedStart, start))
  {
  }

  ghost predicate Tally(total: nat, usable: set<nat>)
  {
    total == |usable|
  }

  /** A page's bit is clear exactly when the page is usable. */
  ghost predicate Accounted(words: seq<nat>, usable: set<nat>)
  {
    |words| == WORDS && forall p :: 0 <= p < MAX_PAGES ==> (Taken(words, p) <==> p !in usable)
  }

  /** The usable pages lie between `first` and `last`, and reach `last`. */
  ghost predicate Spans(usable: set<nat>, first: nat, last: nat)
  {
    (forall p :: p in usable ==> first <= p < last) && (if usable == {} then last == first else last - 1 in usable)
  }

  lemma SpansMore(usable: set<nat>, first: nat, last: nat, from: nat, to: nat)
    requires Spans(usable, first, last) && first <= from < to && first <= last
    ensures Spans(usable + Run(from, to - from), first, if to > last then to else last)
  {
  }

  lemma AccountMore(words: seq<nat>, usable: set<nat>, page: nat)
    requires Accounted(words, usable) && page < MAX_PAGES
    ensures Taken(words, page) <==> page !in usable
    ensures Accounted(Put(words, WORD_BITS, page, false), usable + {page})
    ensures page in usable ==> usable + {page} == usable
  {
    forall p | 0 <= p < MAX_PAGES ensures Taken(Put(words, WORD_BITS, page, false), p) <==> p !in usable + {page} {
      TakenAfter(words, page, false, p);
    }
  }

  lemma AccountedFree(words: seq<nat>, usable: set<nat>, first: nat, last: nat)
    requires Accounted(words, usable) && Spans(usable, first, last) && last <= MAX_PAGES
    ensures FreeIn(words, first, last) == usable
  {
  }

  // ---------------------------------------------------------------- the allocator

  class Allocator {
    const words: array<nat>
    var managedStart: nat
    var managedEnd: nat
    var total: nat
    var used: nat
    /** The pages that are memory at all. */
    ghost var usable: set<nat>

    constructor (start: nat)
      requires 0 < start <= LIMIT && start % PAGE_SIZE == 0
      ensures Shape() && managedStart == managedEnd == start && fresh(words)
    {
      words := new nat[WORDS](_ => 0xFFFF_FFFF);
      managedStart, managedEnd := start, start;
      total, used, usable := 0, 0, {};
    }

    ghost function First(): nat reads this { managedStart / PAGE_SIZE }
    ghost function Last(): nat reads this { managedEnd / PAGE_SIZE }

    ghost predicate Shape()
      reads this
    {
      && words.Length == WORDS && 0 < managedStart <= managedEnd <= LIMIT
      && managedStart % PAGE_SIZE == 0 && managedEnd % PAGE_SIZE == 0
    }

    ghost function Free(): (r: set<nat>)
      requires Shape()
      reads this, words
    {
      FreeIn(words[..], First(), Last())
    }

    ghost predicate Valid()
      reads this, words
    {
      Shape() && Counted(usable, Free(), First(), Last(), total, used)
    }

    /** `bitmap_set` and `bitmap_clear` */
    method SetTaken(page: nat, taken: bool)
      requires Shape() && page < MAX_PAGES
      modifies words
      ensures words[..] == Put(old(words[..]), WORD_BITS, page, taken)
      ensures Free() ==
                if taken then old(Free()) - {page} else if First() <= page < Last() then old(Free()) + {page}
                else old(Free())
    {
      FreeAfterPut(words[..], page, taken, First(), Last());
      var w := words[page / WORD_BITS];
      words[page / WORD_BITS] := if taken then SetBit(w, page % WORD_BITS) else ClearBit(w, page % WORD_BITS);
    }

    /** The free pages determine the used count. */
    twostate lemma SameFree()
      requires old(Valid()) && Valid() && usable == old(usable) && total == old(total) && Free() == old(Free())
      ensures used == old(used)
    {
    }

    lemma FreeIsUsable()
      requires Valid()
      ensures Free() <= usable && used <= total && forall p :: p in usable ==> First() <= p < Last()
    {
    }

    /** The used count is the number of usable pages whose bit is set. */
    lemma UsedIsTaken()
      requires Valid()
      ensures used == |usable - Free()|
    {
    }

    /** No run of free pages is longer than the number of usable pages. */
    lemma RunFits(page: nat, count: nat)
      requires Valid() && FreeRun(Free(), Last(), page, count)
      ensures count <= total
    {
      RunSize(page, count);
      SubsetSize(Run(page, count), usable);
    }

    /** How far the free pages reach from `page`, up to `count`. */
    method Measure(page: nat, count: nat) returns (run: nat)
      requires Valid() && First() <= page < Last()
      ensures run <= count && page + run <= Last() && Run(page, run) <= Free()
      ensures run < count ==> page + run == Last() || page + run !in Free()
    {
      hide FreeIn, Taken;
      run := 0;
      while page + run < managedEnd / PAGE_SIZE && !Taken(words[..], page + run) && run < count
        invariant run <= count && page + run <= Last() && Run(page, run) <= Free()
        decreases count - run
      {
        run := run + 1;
      }
    }

    /** `pmm_alloc_pages`: the address of the lowest run of free pages, or 0. */
    method AllocPages(count: nat) returns (address: nat, ghost page: nat)
      requires Valid()
      modifies this`used, words
      ensures Valid()
      ensures address == 0 ==>
                && Free() == old(Free()) && used == old(used)
                && (count == 0 || forall q :: First() <= q ==> !FreeRun(Free(), Last(), q, count))
      ensures address != 0 ==>
                && address == page * PAGE_SIZE && count > 0 && First() <= page
                && FreeRun(old(Free()), Last(), page, count)
                && (forall q :: First() <= q < page ==> !FreeRun(old(Free()), Last(), q, count))
                && Free() == old(Free()) - Run(page, count) && used == old(used) + count
    {
      hide FreeIn, Taken, Put, Run;
      page := 0;
      if count == 0 || count > total {
        if count > 0 {
          forall q | First() <= q ensures !FreeRun(Free(), Last(), q, count) {
            if FreeRun(Free(), Last(), q, count) {
              RunFits(q, count);
            }
          }
        }
        return 0, 0;
      }
      var at := managedStart / PAGE_SIZE;
      while at < managedEnd / PAGE_SIZE
        invariant First() <= at && Valid() && words[..] == old(words[..]) && used == old(used)
        invariant forall q :: First() <= q < at ==> !FreeRun(Free(), Last(), q, count)
      {
        var run := Measure(at, count);
        if run == count {
          Claim(at, count);
          return at * PAGE_SIZE, at;
        }
        NoRunAcross(at, run, count);
        if run > 0 {
          at := at + run;
        }
        at := at + 1;
      }
      address := 0;
    }

    /** A run that stops short blocks every start up to and including the page it stopped at. */
    lemma NoRunAcross(page: nat, run: nat, count: nat)
      requires Valid() && run < count && (page + run >= Last() || page + run !in Free())
      ensures forall q :: page <= q <= page + run ==> !FreeRun(Free(), Last(), q, count)
    {
    }

    /** Mark a free run as taken. */
    method Claim(page: nat, count: nat)
      requires Valid() && count > 0 && First() <= page && FreeRun(Free(), Last(), page, count)
      modifies this`used, words
      ensures Valid()
      ensures Free() == old(Free()) - Run(page, count) && used == old(used) + count
    {
      hide FreeIn, Taken, Put, Counted, Run;
      CountClaim(usable, Free(), First(), Last(), total, used, page, count);
      MarkRun(page, count);
      used := used + count;
    }

    method MarkRun(page: nat, count: nat)
      requires Shape() && page + count <= MAX_PAGES
      modifies words
      ensures Free() == old(Free()) - Run(page, count)
    {
      hide FreeIn, Taken, Put, Run;
      ghost var free := Free();
      RunStep(page, 0);
      var i := 0;
      while i < count
        invariant i <= count && Free() == free - Run(page, i)
      {
        RunStep(page, i);
        SetTaken(page + i, true);
        i := i + 1;
      }
    }

    /** The address and count describe managed pages. */
    predicate GivesBack(address: nat, count: nat)
      reads this
    {
      count > 0 && managedStart <= address && address % PAGE_SIZE == 0 && address + count * PAGE_SIZE <= managedEnd
    }

    /** `pmm_free_pages_block`: pages that were handed out come back; a pointer outside the managed area is ignored. */
    method FreePages(address: nat, count: nat)
      requires Valid()
      requires managedStart <= address < managedEnd && address % PAGE_SIZE == 0 ==>
                 address + count * PAGE_SIZE < 0x1_0000_0000
      requires GivesBack(address, count) ==> Run(address / PAGE_SIZE, count) <= usable
      modifies this`used, words
      ensures Valid()
      ensures Free() ==
                if old(GivesBack(address, count)) then old(Free()) + Run(address / PAGE_SIZE, count) else old(Free())
      ensures old(GivesBack(address, count)) && old(Free()) !! Run(address / PAGE_SIZE, count) ==>
                used == old(used) - count
      ensures !old(GivesBack(address, count)) ==> used == old(used)
    {
      if count == 0 || address < managedStart || address >= managedEnd || address % PAGE_SIZE != 0 {
        return;
      }
      if address + count * PAGE_SIZE > managedEnd {
        return;
      }
      ghost var free := Free();
      Return(address / PAGE_SIZE, count);
      if free !! Run(address / PAGE_SIZE, count) {
        Returned(free, address / PAGE_SIZE, count);
      }
    }

    method Return(page: nat, count: nat)
      requires Valid() && First() <= page && page + count <= Last() && Run(page, count) <= usable
      modifies this`used, words
      ensures Valid() && Free() == old(Free()) + Run(page, count)
    {
      hide FreeIn, Taken, Put, Counted;
      ghost var free := Free();
      var i := 0;
      while i < count
        invariant i <= count && Valid() && Free() == free + Run(page, i)
      {
        ReturnOne(page + i);
        i := i + 1;
      }
    }

    method ReturnOne(page: nat)
      requires Valid() && First() <= page < Last() && page in usable
      modifies this`used, words
      ensures Valid() && Free() == old(Free()) + {page}
    {
      hide FreeIn, Put, Counted, Taken;
      if Taken(words[..], page) {
        CountReturn(usable, Free(), First(), Last(), total, used, page);
        SetTaken(page, false);
        used := used - 1;
      } else {
        assert Free() + {page} == Free();
      }
    }

    /** `pmm_alloc_page` */
    method AllocPage() returns (address: nat)
      requires Valid()
      modifies this`used, words
      ensures Valid()
      ensures address == 0 ==> Free() == old(Free()) && Free() == {} && used == old(used) == total
      ensures address != 0 ==> used == old(used) + 1 <= total
      ensures address != 0 ==>
                && address % PAGE_SIZE == 0 && address / PAGE_SIZE in old(Free())
                && Free() == old(Free()) - {address / PAGE_SIZE}
    {
      hide FreeIn, Counted, FreeRun, Run;
      ghost var page;
      address, page := AllocPages(1);
      if address == 0 {
        NoneFree();
      } else {
        FreeIsUsable();
        OneRun(old(Free()), Last(), page);
        RunStep(page, 0);
        PageOf(page);
      }
    }

    lemma NoneFree()
      requires Valid() && forall q :: First() <= q ==> !FreeRun(Free(), Last(), q, 1)
      ensures Free() == {} && used == total
    {
      hide FreeIn, FreeRun, Run;
      forall q: nat ensures FreeRun(Free(), Last(), q, 1) <==> q < Last() && q in Free() {
        OneRun(Free(), Last(), q);
      }
      assert Free() == {};
    }

    /** `pmm_free_page` */
    method FreePage(address: nat)
      requires Valid() && (GivesBack(address, 1) ==> address / PAGE_SIZE in usable)
      modifies this`used, words
      ensures Valid()
      ensures Free() == if old(GivesBack(address, 1)) then old(Free()) + {address / PAGE_SIZE} else old(Free())
      ensures address % PAGE_SIZE == 0 && address / PAGE_SIZE in usable ==> old(GivesBack(address, 1))
      ensures used ==
                if old(GivesBack(address, 1)) && address / PAGE_SIZE !in old(Free()) then old(used) - 1 else old(used)
    {
      hide FreeIn;
      ghost var page, free := address / PAGE_SIZE, Free();
      RunStep(page, 0);
      FreePages(address, 1);
      if page in free {
        assert free + {page} == free;
      }
    }

    // -------------------------------------------------------------- start-up

    /** While regions are being added every usable page is free and every other page, managed or not, is taken. */
    ghost predicate Starting()
      reads this, words
    {
      Shape() && used == 0 && Tally(total, usable) && Accounted(words[..], usable) && Spans(usable, First(), Last())
    }

    lemma StartedIsValid()
      requires Starting()
      ensures Valid() && Free() == usable
    {
      AccountedFree(words[..], usable, First(), Last());
    }

    /** `mark_usable_region` */
    method MarkUsable(start: nat, end: nat)
      requires Starting()
      modifies this`managedEnd, this`total, this`usable, words
      ensures Starting() && usable == old(usable) + Region(managedStart, start, end)
    {
      hide Accounted, PageIn, Spans, Run, Region, FirstPage, EndPage, Tally;
      var first, last := Bounds(start, end);
      RegionIsRun(managedStart, start, end);
      RunStep(first, 0);
      if last <= first {
        return;
      }
      SpansMore(usable, First(), Last(), first, last);
      Widen(last * PAGE_SIZE);
      MarkPages(first, last);
    }

    /** The rounding and clipping at the head of `mark_usable_region`, as page numbers. */
    method Bounds(start: nat, end: nat) returns (first: nat, last: nat)
      requires Shape()
      ensures first == FirstPage(managedStart, start) && last == EndPage(end) && First() <= first && last <= MAX_PAGES
    {
      var s := AlignUp(start);
      var e := end - end % PAGE_SIZE;
      if s < managedStart {
        s := managedStart;
      }
      if e > LIMIT {
        e := LIMIT;
      }
      first, last := s / PAGE_SIZE, e / PAGE_SIZE;
    }

    method Widen(e: nat)
      requires Shape() && e % PAGE_SIZE == 0 && e <= LIMIT
      modifies this`managedEnd
      ensures Shape() && managedEnd == if e > old(managedEnd) then e else old(managedEnd)
    {
      if e > managedEnd {
        managedEnd := e;
      }
    }

    /** The loop of `mark_usable_region`: each page is counted the first time it is seen. */
    method MarkPages(first: nat, last: nat)
      requires Shape() && Tally(total, usable) && first <= last <= MAX_PAGES && Accounted(words[..], usable)
      modifies this`total, this`usable, words
      ensures Tally(total, usable) && Accounted(words[..], usable) && usable == old(usable) + Run(first, last - first)
    {
      hide Accounted, Run, FreeIn, Put, Tally;
      var page := first;
      ghost var n, before := 0, usable;
      RunStep(first, 0);
      while page < last
        invariant page == first + n && page <= last && Tally(total, usable) && Accounted(words[..], usable)
        invariant usable == before + Run(first, n)
      {
        RunGrows(before, first, n);
        MarkPage(page);
        page := page + 1;
        n := n + 1;
      }
    }

    method MarkPage(page: nat)
      requires Shape() && Tally(total, usable) && page < MAX_PAGES && Accounted(words[..], usable)
      modifies this`total, this`usable, words
      ensures Tally(total, usable) && Accounted(words[..], usable) && usable == old(usable) + {page}
    {
      hide Accounted, Taken, FreeIn, Put;
      AccountMore(words[..], usable, page);
      if Taken(words[..], page) {
        SetTaken(page, false);
        total := total + 1;
        usable := usable + {page};
      }
    }

    /** The loop over the firmware map. */
    method MarkEntries(entries: seq<Entry>)
      requires Starting() && usable == {}
      modifies this`managedEnd, this`total, this`usable, words
      ensures Starting() && forall p: nat :: p in usable <==> UsablePage(entries, managedStart, p)
    {
      hide Accounted, UsablePage, Region, Tally, Spans;
      var i := 0;
      while i < |entries| && i < E820_MAX_ENTRIES
        invariant 0 <= i <= |entries| && i <= E820_MAX_ENTRIES && Starting()
        invariant usable == Union(entries, i, managedStart)
      {
        if Counts(entries[i]) {
          MarkUsable(entries[i].base, EntrySum(entries[i]));
        }
        i := i + 1;
      }
      forall p: nat ensures p in usable <==> UsablePage(entries, managedStart, p) {
        UnionUsable(entries, i, managedStart, p);
      }
    }

    /** `pmm_initialize` */
    method Initialize(kernelEnd: nat, entries: seq<Entry>)
      requires words.Length == WORDS && 0 < kernelEnd <= LIMIT
      modifies this, words
      ensures Valid() && managedStart == AlignUp(kernelEnd) && Free() == usable && used == 0
      ensures total == |usable|
      ensures forall p: nat :: p in usable <==>
                if exists q: nat :: UsablePage(entries, managedStart, q) then UsablePage(entries, managedStart, p)
                else PageIn(p, managedStart, managedStart, Capped(0x0040_0000))
    {
      hide Accounted, UsablePage, Region;
      AllTaken();
      managedStart := AlignUp(kernelEnd);
      managedEnd := managedStart;
      total, used, usable := 0, 0, {};
      MarkEntries(entries);
      if total == 0 {
        MarkUsable(managedStart, 0x0040_0000);
      }
      StartedIsValid();
    }

    method AllTaken()
      requires words.Length == WORDS
      modifies words
      ensures Accounted(words[..], {})
    {
      var i := 0;
      while i < WORDS
        invariant i <= WORDS && forall j :: 0 <= j < i ==> words[j] == 0xFFFF_FFFF
      {
        words[i] := 0xFFFF_FFFF;
        i := i + 1;
      }
      forall p | 0 <= p < MAX_PAGES ensures Taken(words[..], p) {
        FullWord(p % WORD_BITS);
      }
    }
  }

  lemma FullWord(k: nat)
    requires k < WORD_BITS
    ensures Bit(0xFFFF_FFFF, k)
  {
    Pow2Of32();
    AllOnes(32, k);
  }

  lemma Pow2Of32()
    ensures Pow2(32) == 0x1_0000_0000
  {
    assert Pow2(8) == 0x100;
    assert Pow2(16) == 0x1_0000;
    assert Pow2(24) == 0x100_0000;
  }

  lemma TakenAfter(words: seq<nat>, page: nat, taken: bool, p: nat)
    requires |words| == WORDS && page < MAX_PAGES && p < MAX_PAGES
    ensures Taken(Put(words, WORD_BITS, page, taken), p) == if p == page then taken else Taken(words, p)
  {
    PutGet(words, WORD_BITS, page, taken, p);
  }
}

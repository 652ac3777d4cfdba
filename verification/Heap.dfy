/** The kernel heap: a doubly linked list of blocks carved out of pages, first fit, split on
    allocation and merged on free. Addresses stay below 2^27, so address sums never wrap;
    sizes that callers pass in are 32-bit and their sums do. */
module Heap {
  import opened Bits
  import opened Pmm
  import opened HeapBlocks
  import opened HeapMemory
  import opened HeapState

  const WORD: nat := 0x1_0000_0000
  const MIN_ALIGNMENT: nat := 4
  const ALIGNED_HEADER: nat := 8

  /** `align_up_size(size, 8)` in 32 bits. */
  function Rounded(size: nat): (r: nat)
  {
    (size + 7) % WORD / 8 * 8
  }

  /** The pages `kmalloc` asks for, in 32 bits. */
  function PagesNeeded(n: nat): (r: nat)
  {
    (n + HEADER + PAGE_SIZE - 1) % WORD / PAGE_SIZE
  }

  /** The rounded size is the least multiple of 8 that holds the request exactly when the rounding does not wrap. */
  lemma RoundedHolds(size: nat)
    requires 0 < size < WORD
    ensures size <= Rounded(size) < size + 8 <==> size <= WORD - 8
    ensures Rounded(size) >= size <==> size <= WORD - 8
    ensures Rounded(size) % 8 == 0 && Rounded(size) < WORD
  {
  }

  /** `count` pages hold `bytes` bytes, and one page less does not. */
  predicate LeastPages(count: nat, bytes: nat)
  {
    count > 0 && (count - 1) * PAGE_SIZE < bytes <= count * PAGE_SIZE
  }

  /** A region of the computed length is the least that holds the request exactly when the sum does not wrap. */
  lemma PagesHold(n: nat)
    requires n < WORD && n % 8 == 0
    ensures LeastPages(PagesNeeded(n), n + HEADER) <==> n + HEADER + PAGE_SIZE - 1 < WORD
    ensures PagesNeeded(n) * PAGE_SIZE >= n + HEADER <==> n + HEADER + PAGE_SIZE - 1 < WORD
    ensures PagesNeeded(n) < 0x10_0000
  {
  }

  /** Rounding to 8 changes neither the number of pages nor which blocks are large enough. */
  lemma RoundedPages(size: nat, count: nat)
    requires 0 < size <= WORD - PAGE_SIZE - HEADER && LeastPages(count, size + HEADER)
    ensures count == PagesNeeded(Rounded(size))
  {
    hide Rounded, PagesNeeded, LeastPages;
    RoundedHolds(size);
    SameFit(WORD - PAGE_SIZE - HEADER + 8, size, Rounded(size));
    PagesHold(Rounded(size));
    RoundedLeast(count, size, Rounded(size));
    LeastUnique(count, PagesNeeded(Rounded(size)), Rounded(size) + HEADER);
  }

  lemma RoundedPagesAll(size: nat, bytes: nat)
    requires 0 < size <= WORD - PAGE_SIZE - HEADER && bytes == size + HEADER
    ensures forall count: nat :: LeastPages(count, bytes) ==> count == PagesNeeded(Rounded(size))
  {
    hide LeastPages, PagesNeeded, Rounded;
    forall count: nat | LeastPages(count, bytes) ensures count == PagesNeeded(Rounded(size)) {
      RoundedPages(size, count);
    }
  }

  lemma RoundedLeast(count: nat, size: nat, rounded: nat)
    requires LeastPages(count, size + HEADER) && rounded % 8 == 0 && size <= rounded < size + 8
    ensures LeastPages(count, rounded + HEADER)
  {
  }

  lemma LeastUnique(c: nat, d: nat, bytes: nat)
    requires LeastPages(c, bytes) && LeastPages(d, bytes)
    ensures c == d
  {
  }

  ghost predicate EightFold(bs: seq<Block>)
  {
    forall i :: 0 <= i < |bs| ==> bs[i].size % 8 == 0
  }

  lemma ApartEightFold(bs: seq<Block>)
    requires Apart(bs)
    ensures EightFold(bs)
  {
  }

  lemma GoodEightFold(h: HeapState.Heap)
    requires Good(h)
    ensures EightFold(h.bs)
  {
  }

  lemma RoundedFits(bs: seq<Block>, size: nat)
    requires 0 < size <= WORD - 8 && EightFold(bs)
    ensures NoFit(bs, Rounded(size)) <==> NoFit(bs, size)
    ensures forall i: nat :: FirstFit(bs, i, Rounded(size)) <==> FirstFit(bs, i, size)
  {
    hide Rounded;
    RoundedHolds(size);
    forall i | 0 <= i < |bs| ensures bs[i].size < Rounded(size) <==> bs[i].size < size {
      SameFit(bs[i].size, size, Rounded(size));
    }
  }

  lemma SameFit(block: nat, size: nat, rounded: nat)
    requires block % 8 == 0 && rounded % 8 == 0 && size <= rounded < size + 8
    ensures block < rounded <==> block < size
  {
  }

  function AtLeastMinimum(alignment: nat): (r: nat)
    ensures r >= MIN_ALIGNMENT && r >= alignment && (r == MIN_ALIGNMENT || r == alignment)
  {
    if alignment < MIN_ALIGNMENT then MIN_ALIGNMENT else alignment
  }

  /** What `kmalloc_aligned` asks `kmalloc` for. */
  function AlignedTotal(size: nat, alignment: nat): (r: nat)
  {
    (size + alignment + ALIGNED_HEADER) % WORD
  }

  /** Rounding up with the mask of a power of two. */
  function AlignedFrom(raw: nat, alignment: nat): (r: nat)
    requires alignment > 0
  {
    var end := raw + ALIGNED_HEADER + alignment - 1;
    end - end % alignment
  }

  /** The hidden header and the requested bytes lie in the raw bytes exactly when the total does not wrap. */
  lemma AlignedFits(raw: nat, size: nat, alignment: nat)
    requires 0 < alignment < WORD && size < WORD
    ensures AlignedFrom(raw, alignment) % alignment == 0 && raw <= AlignedFrom(raw, alignment) - ALIGNED_HEADER
    ensures AlignedFrom(raw, alignment) < raw + ALIGNED_HEADER + alignment
    ensures AlignedFrom(raw, alignment) + size <= raw + AlignedTotal(size, alignment) <==>
              size + alignment + ALIGNED_HEADER < WORD
  {
    var end := raw + ALIGNED_HEADER + alignment - 1;
    assert end == end / alignment * alignment + end % alignment;
    Remainder(end - end % alignment, end / alignment, 0, alignment);
  }

  /** They lie in what `kmalloc` grants, the rounded total, exactly when the rounded total does not wrap. */
  lemma AlignedGranted(raw: nat, size: nat, alignment: nat)
    requires 0 < alignment <= 0x8000_0000 && size < WORD
    ensures AlignedFrom(raw, alignment) + size <= raw + Rounded(AlignedTotal(size, alignment)) <==>
              size + alignment + ALIGNED_HEADER <= WORD - 8
  {
    hide AlignedFrom;
    var total := size + alignment + ALIGNED_HEADER;
    AlignedFits(raw, size, alignment);
    if total < WORD {
      assert AlignedTotal(size, alignment) == total;
      RoundedHolds(total);
    } else {
      assert AlignedTotal(size, alignment) == total - WORD;
      assert Rounded(total - WORD) <= total - WORD + 7;
    }
  }

  lemma Remainder(x: nat, q: nat, r: nat, n: nat)
    requires x == q * n + r && r < n
    ensures x % n == r
  {
    var d := x / n - q;
    assert d * n == r - x % n by {
      assert x == x / n * n + x % n;
    }
    Multiple(d, n);
  }

  lemma PowerAligned(k: nat, p: nat)
    requires Pow2(k) >= 4 && p % Pow2(k) == 0
    ensures p % 4 == 0
  {
    assert Pow2(k) == 4 * Pow2(k - 2);
    FourDivides(p, Pow2(k - 2));
  }

  lemma FourDivides(p: nat, n: nat)
    requires n > 0 && p % (4 * n) == 0
    ensures p % 4 == 0
  {
    Exact(p, 4 * n);
    FourTimes(p / (4 * n), n);
  }

  lemma Exact(p: nat, d: nat)
    requires d > 0 && p % d == 0
    ensures p == p / d * d
  {
  }

  lemma FourTimes(m: nat, n: nat)
    ensures m * (4 * n) == 4 * (m * n)
  {
  }

  /** The release test compares 32-bit values: when it passes, the block is as long as the count says exactly when the
      count is below 2^20. */
  lemma ReleaseTest(count: nat, size: nat)
    requires 0 < count < WORD && size < LIMIT && (count * PAGE_SIZE - HEADER) % WORD == size
    ensures size + HEADER == count * PAGE_SIZE <==> count < 0x10_0000
  {
  }

  /** A count that `split_block` left behind can pass the test without measuring the block. */
  lemma ReleaseTestFooled()
    ensures (0x10_0001 * PAGE_SIZE - HEADER) % WORD == PAGE_SIZE - HEADER
  {
  }

  ghost predicate NoFit(bs: seq<Block>, size: nat)
  {
    forall j :: 0 <= j < |bs| && bs[j].free ==> bs[j].size < size
  }

  /** `i` is the first block that serves a request of `size` bytes. */
  ghost predicate FirstFit(bs: seq<Block>, i: nat, size: nat)
  {
    i < |bs| && bs[i].free && size <= bs[i].size && forall j :: 0 <= j < i && bs[j].free ==> bs[j].size < size
  }

  /** The list once block `i` has served a request of `n` bytes: cut if the rest is worth a block, and taken. */
  ghost predicate Served(bs: seq<Block>, i: nat, n: nat, after: seq<Block>)
  {
    && i < |bs| && n <= bs[i].size
    && if bs[i].size < n + HEADER + MIN_SPLIT then after == bs[i := bs[i].(free := false)]
       else
         && |after| == |bs| + 1 && after[i + 1] == Rest(bs[i], n, after[i + 1].pages)
         && after == Replace(bs, i, 1, [Front(bs[i], n).(free := false), after[i + 1]])
  }

  /** The list and the free pages after `grown` regions of `count` pages were added. */
  ghost predicate Grown(bs: seq<Block>, free: set<nat>, after: seq<Block>, left: set<nat>, count: nat, grown: nat)
  {
    if grown == 0 then after == bs && left == free
    else if grown == 1 then
      exists page: nat :: count > 0 && AddsRegion(bs, free, after, left, page, count)
    else true
  }

  ghost predicate AddsRegion(bs: seq<Block>, free: set<nat>, after: seq<Block>, left: set<nat>, page: nat, count: nat)
    requires count > 0
  {
    after == bs + [RegionBlock(page, count)] && Run(page, count) <= free && left == free - Run(page, count)
  }

  lemma CutAndTaken(bs: seq<Block>, i: nat, n: nat, cut: seq<Block>, after: seq<Block>)
    requires i < |bs| && i < |cut| && n <= bs[i].size && after == cut[i := cut[i].(free := false)]
    requires bs[i].size < n + HEADER + MIN_SPLIT ==> cut == bs
    requires bs[i].size >= n + HEADER + MIN_SPLIT ==>
               exists stale: nat :: cut == Replace(bs, i, 1, [Front(bs[i], n), Rest(bs[i], n, stale)])
    ensures Served(bs, i, n, after)
  {
  }

  /** The list after `coalesce_next` of block `i`. */
  ghost function Coalesced(bs: seq<Block>, i: nat): (r: seq<Block>)
    requires i < |bs|
    ensures i < |r| && r[i].addr == bs[i].addr && r[i].free == bs[i].free && forall j :: 0 <= j < i ==> r[j] == bs[j]
  {
    if i + 1 < |bs| && bs[i + 1].free && End(bs[i]) == bs[i + 1].addr
    then Replace(bs, i, 2, [Merged(bs[i], bs[i + 1])])
    else bs
  }

  /** A free block that is as long as the pages it was carved from. */
  ghost predicate Whole(b: Block)
  {
    b.free && 0 < b.pages && End(b) == b.addr + b.pages * PAGE_SIZE
  }

  /** The list after `release_whole_region_if_possible` of block `i`. */
  ghost function Released(bs: seq<Block>, i: nat): (r: seq<Block>)
    requires i < |bs|
  {
    if Whole(bs[i]) then Replace(bs, i, 1, []) else bs
  }

  /** The pages that go back with block `b`: its exact extent if it is whole and starts on a page, otherwise none. */
  ghost predicate PagesBack(b: Block, before: set<nat>, after: set<nat>)
  {
    if Whole(b) && b.addr % PAGE_SIZE == 0 then FreesBlock(b, before, after) else after == before
  }

  /** Block `i` became free and is joined with a free successor, then with a free predecessor. */
  ghost function Joined(bs: seq<Block>, i: nat): (r: seq<Block>)
    requires i < |bs|
    ensures JoinedAt(bs, i) < |r|
  {
    var a := Coalesced(bs, i);
    if i > 0 && a[i - 1].free then Coalesced(a, i - 1) else a
  }

  /** Where the joined block is. */
  ghost function JoinedAt(bs: seq<Block>, i: nat): (r: nat)
    requires i < |bs|
  {
    if i > 0 && Coalesced(bs, i)[i - 1].free then i - 1 else i
  }

  /** Some free block of the list covers both. */
  ghost predicate Together(bs: seq<Block>, a: Block, b: Block)
  {
    exists j :: 0 <= j < |bs| && bs[j].free && bs[j].addr <= a.addr && End(b) <= End(bs[j])
  }

  /** A freed block and the free neighbours it touches become one block, and no byte is lost. */
  lemma JoinsNeighbours(bs: seq<Block>, i: nat)
    requires i < |bs| && bs[i].free
    ensures i + 1 < |bs| && bs[i + 1].free && End(bs[i]) == bs[i + 1].addr ==> Together(Joined(bs, i), bs[i], bs[i + 1])
    ensures i > 0 && bs[i - 1].free && End(bs[i - 1]) == bs[i].addr ==> Together(Joined(bs, i), bs[i - 1], bs[i])
    ensures SumSize(Joined(bs, i)) + HEADER * |Joined(bs, i)| == SumSize(bs) + HEADER * |bs|
  {
    hide SumSize, Replace;
    var a, b := Coalesced(bs, i), Joined(bs, i);
    CoalescedSums(bs, i);
    CoalescedAt(bs, i);
    if i > 0 && a[i - 1].free {
      CoalescedSums(a, i - 1);
      CoalescedAt(a, i - 1);
    }
  }

  lemma CoalescedAt(bs: seq<Block>, i: nat)
    requires i < |bs|
    ensures var a := Coalesced(bs, i);
            && i < |a| && a[i].addr == bs[i].addr && a[i].free == bs[i].free && End(bs[i]) <= End(a[i])
            && (i + 1 < |bs| && bs[i + 1].free && End(bs[i]) == bs[i + 1].addr ==> End(a[i]) == End(bs[i + 1]))
  {
  }

  lemma CoalescedSums(bs: seq<Block>, i: nat)
    requires i < |bs| && bs[i].free
    ensures SumSize(Coalesced(bs, i)) + HEADER * |Coalesced(bs, i)| == SumSize(bs) + HEADER * |bs|
  {
    if i + 1 < |bs| && bs[i + 1].free {
      MergeSums(bs, i);
    }
  }

  /** The list and the free pages after block `i` became free. */
  ghost predicate FreedAt(bs: seq<Block>, i: nat, after: seq<Block>, before: set<nat>, free: set<nat>)
  {
    && i < |bs| && after == Released(Joined(bs, i), JoinedAt(bs, i))
    && PagesBack(Joined(bs, i)[JoinedAt(bs, i)], before, free)
  }

  /** Freeing a block that has just served a request puts the list back as it was, unless a free neighbour joins in. */
  lemma FreeUndoes(bs: seq<Block>, i: nat, n: nat, taken: seq<Block>, after: seq<Block>, before: set<nat>,
                   free: set<nat>)
    requires Served(bs, i, n, taken) && bs[i].free && (i > 0 ==> !bs[i - 1].free)
    requires i + 1 < |bs| && bs[i + 1].free ==> End(bs[i]) != bs[i + 1].addr
    requires FreedAt(taken[i := taken[i].(free := true)], i, after, before, free)
    ensures after == Released(bs, i) && PagesBack(bs[i], before, free)
  {
    var freed := taken[i := taken[i].(free := true)];
    if bs[i].size < n + HEADER + MIN_SPLIT {
      assert freed == bs;
    } else {
      assert Merged(freed[i], freed[i + 1]) == bs[i];
      assert Coalesced(freed, i) == bs;
    }
  }

  /** A request that had to grow the heap, freed again, leaves neither a block nor a page behind, unless the block that
      was last is free. */
  lemma GrowthUndone(bs: seq<Block>, n: nat, page: nat, count: nat, grown: seq<Block>, taken: seq<Block>,
                     after: seq<Block>, free: set<nat>, left: set<nat>, back: set<nat>)
    requires count > 0 && AddsRegion(bs, free, grown, left, page, count) && Served(grown, |bs|, n, taken)
    requires bs != [] ==> !bs[|bs| - 1].free
    requires FreedAt(taken[|bs| := taken[|bs|].(free := true)], |bs|, after, left, back)
    ensures after == bs && back == free
  {
    hide Served, FreedAt, Run;
    FreeUndoes(grown, |bs|, n, taken, after, left, back);
    assert grown[|bs|] == RegionBlock(page, count);
  }

  /** The list and the free pages after the block of a live pointer was freed. */
  ghost predicate Freed(bs: seq<Block>, b: Block, after: seq<Block>, before: set<nat>, free: set<nat>)
  {
    exists i :: 0 <= i < |bs| && bs[i] == b && FreedAt(bs[i := b.(free := true)], i, after, before, free)
  }

  /** Blocks lie in managed memory. */
  lemma BlockBound(h: HeapState.Heap, i: nat, last: nat)
    requires Backed(h.bs, h.usable, h.free) && i < |h.bs| && forall p :: p in h.usable ==> p < last
    ensures End(h.bs[i]) <= last * PAGE_SIZE
  {
    var q := (End(h.bs[i]) - 1) / PAGE_SIZE;
    assert Touches(h.bs[i], q);
    assert q in h.usable;
    assert q < last;
  }

  /** The `next` field is null or a multiple of 8, so it is never the odd tag. */
  lemma NextIsNoTag(mem: Memory, head: nat, bs: seq<Block>, i: nat)
    requires Rep(mem, head, bs) && Apart(bs) && i < |bs|
    ensures At(mem, bs[i].addr + 16) != ALIGN_MAGIC
  {
  }

  lemma RepHeaderMem(mem: Memory, head: nat, bs: seq<Block>, b: Block)
    requires Rep(mem, head, bs) && Apart(bs + [b])
    ensures Rep(HeaderMem(mem, b, 0, 0), head, bs) && Apart(bs)
  {
    hide Header, HeaderMem, Rep;
    HeadOf(mem, head, bs);
    var r := bs + [b];
    assert forall j :: 0 <= j < |bs| ==> bs[j] == r[j];
    forall j | 0 <= j < |bs| ensures Header(HeaderMem(mem, b, 0, 0), bs[j], AddrOf(bs, j + 1), AddrOf(bs, j - 1)) {
      RepAt(mem, head, bs, j);
      assert Disjoint(r[j], r[|bs|]);
      HeaderMemKeeps(mem, b, 0, 0, bs[j], AddrOf(bs, j + 1), AddrOf(bs, j - 1));
    }
    RepIntro(HeaderMem(mem, b, 0, 0), head, bs);
    forall j, k | 0 <= j < k < |bs| ensures Disjoint(bs[j], bs[k]) {
      assert Disjoint(r[j], r[k]);
    }
  }

  lemma RepIntro(mem: Memory, head: nat, bs: seq<Block>)
    requires && head == AddrOf(bs, 0)
             && forall j :: 0 <= j < |bs| ==> Header(mem, bs[j], AddrOf(bs, j + 1), AddrOf(bs, j - 1))
    ensures Rep(mem, head, bs)
  {
  }

  lemma HeadOf(mem: Memory, head: nat, bs: seq<Block>)
    requires Rep(mem, head, bs)
    ensures head == AddrOf(bs, 0)
  {
  }

  /** The head is null exactly when the list is empty. */
  lemma HeadNull(mem: Memory, head: nat, bs: seq<Block>)
    requires Rep(mem, head, bs) && Apart(bs)
    ensures head == 0 <==> bs == []
  {
  }

  lemma NextNull(mem: Memory, bs: seq<Block>, i: nat)
    requires Apart(bs) && i < |bs|
    ensures AddrOf(bs, i + 1) == 0 <==> i + 1 == |bs|
  {
  }

  lemma ApartShaped(bs: seq<Block>, i: nat)
    requires Apart(bs) && i < |bs|
    ensures Shaped(bs[i])
  {
  }

  lemma InRun(page: nat, count: nat)
    requires count > 0
    ensures page in Run(page, count)
  {
  }

  lemma FreesExtent(b: Block, page: nat, count: nat, before: set<nat>)
    requires b.addr == page * PAGE_SIZE && End(b) == (page + count) * PAGE_SIZE
    ensures FreesBlock(b, before, before + Run(page, count))
  {
  }

  lemma IntactTrans(live: map<nat, Grant>, a: Memory, b: Memory, c: Memory)
    requires Intact(live, a, b) && Intact(live, b, c)
    ensures Intact(live, a, c)
  {
  }

  /** The first block of at least `size` bytes has served `n` bytes at `p`. */
  ghost predicate ServedFirst(bs: seq<Block>, size: nat, n: nat, p: nat, after: seq<Block>)
  {
    exists i: nat :: FirstFit(bs, i, size) && bs[i].addr + HEADER == p && Served(bs, i, n, after)
  }

  lemma NotGrown(bs: seq<Block>, free: set<nat>, count: nat)
    ensures Grown(bs, free, bs, free, count, 0)
  {
  }

  lemma GrownMore(first: seq<Block>, start: set<nat>, bs: seq<Block>, free: set<nat>, after: seq<Block>, left: set<nat>,
                  page: nat, count: nat, grown: nat)
    requires Grown(first, start, bs, free, count, grown) && count > 0
    requires AddsRegion(bs, free, after, left, page, count)
    ensures Grown(first, start, after, left, count, grown + 1)
  {
    hide AddsRegion;
  }

  /** A region of the computed length serves the request. */
  lemma RegionServes(bs: seq<Block>, free: set<nat>, after: seq<Block>, left: set<nat>, page: nat, n: nat)
    requires n + HEADER + PAGE_SIZE - 1 < WORD && PagesNeeded(n) > 0
    requires AddsRegion(bs, free, after, left, page, PagesNeeded(n))
    ensures !NoFit(after, n)
  {
    assert after[|bs|] == RegionBlock(page, PagesNeeded(n));
  }

  lemma SmallPower(k: nat)
    ensures Pow2(k) >= 1 && Pow2(2) == 4 && (Pow2(k) < 4 ==> Pow2(k) == 1 || Pow2(k) == 2)
  {
  }

  lemma SmallAligned(alignment: nat, p: nat)
    requires p % 4 == 0 && (alignment == 1 || alignment == 2)
    ensures p % alignment == 0
  {
    if alignment == 1 {
      assert p % 1 == 0;
    } else {
      assert p % 2 == 0;
    }
  }

  /** Where `kmalloc_aligned` puts the pointer inside the raw bytes. */
  lemma AlignedPlan(k: nat, raw: nat, size: nat)
    requires size + AtLeastMinimum(Pow2(k)) + ALIGNED_HEADER <= WORD - 8
    ensures var alignment := Pow2(k);
            var p := AlignedFrom(raw, AtLeastMinimum(alignment));
            && p % alignment == 0 && p % 4 == 0 && raw + ALIGNED_HEADER <= p
            && p + size <= raw + Rounded(AlignedTotal(size, AtLeastMinimum(alignment)))
            && p < raw + ALIGNED_HEADER + AtLeastMinimum(alignment)
  {
    hide AlignedFrom, Rounded, AlignedTotal, Pow2, AtLeastMinimum;
    var a := AtLeastMinimum(Pow2(k));
    TotalFits(size, a);
    RoundedHolds(AlignedTotal(size, a));
    AlignedFits(raw, size, a);
    PointerAligned(k, AlignedFrom(raw, a));
  }

  lemma TotalFits(size: nat, alignment: nat)
    requires size + alignment + ALIGNED_HEADER <= WORD - 8
    ensures AlignedTotal(size, alignment) == size + alignment + ALIGNED_HEADER
  {
  }

  lemma PointerAligned(k: nat, p: nat)
    requires p % AtLeastMinimum(Pow2(k)) == 0
    ensures p % Pow2(k) == 0 && p % 4 == 0
  {
    hide Pow2;
    SmallPower(k);
    if Pow2(k) < MIN_ALIGNMENT {
      SmallAligned(Pow2(k), p);
    } else {
      PowerAligned(k, p);
    }
  }

  lemma GrantIs(h: HeapState.Heap, p: nat)
    requires LiveOk(h.mem, h.bs, h.live) && p in h.live
    ensures GrantOk(h.mem, h.bs, p, h.live[p])
  {
  }

  lemma EmptyGood(h: HeapState.Heap)
    requires h.head == 0 && h.bs == [] && h.live == map[] && h.total == h.used == 0 && h.free <= h.usable
    ensures Good(h)
  {
  }

  lemma IntactLess(live: map<nat, Grant>, p: nat, a: Memory, b: Memory)
    requires Intact(live, a, b)
    ensures Intact(live - {p}, a, b)
  {
  }

  /** How `kfree` reads the words below a live pointer. */
  lemma LiveMarks(h: HeapState.Heap, p: nat)
    requires Good(h) && p in h.live
    ensures p >= HEADER + 8
    ensures var b := h.live[p].block;
            if p == b.addr + HEADER
            then At(h.mem, p - 8) != ALIGN_MAGIC && At(h.mem, p - HEADER) == MAGIC && At(h.mem, p - HEADER + 12) == 0
            else At(h.mem, p - 8) == ALIGN_MAGIC && At(h.mem, p - 4) == b.addr + HEADER
  {
    hide Rep, Apart, Backed, AllOwned, SumSize, SumUsed;
    var i := GrantBlock(h, p);
    ApartShaped(h.bs, i);
    RepAt(h.mem, h.head, h.bs, i);
    NextIsNoTag(h.mem, h.head, h.bs, i);
    GrantIs(h, p);
  }

  lemma SameIsIntact(live: map<nat, Grant>, mem: Memory)
    ensures Intact(live, mem, mem)
  {
  }

  class KernelHeap {
    const pmm: Allocator
    var mem: Memory
    var head: nat
    var total: nat
    var used: nat
    var invalidFrees: nat
    var doubleFrees: nat
    ghost var bs: seq<Block>
    ghost var live: map<nat, Grant>

    ghost function Snap(): HeapState.Heap
      requires pmm.Shape()
      reads this, pmm, pmm.words
    {
      HeapState.Heap(mem, head, bs, live, total, used, pmm.usable, pmm.Free())
    }

    ghost predicate Valid()
      reads this, pmm, pmm.words
    {
      pmm.Valid() && Good(Snap())
    }

    constructor (pmm: Allocator)
      requires pmm.Valid()
      ensures Valid() && this.pmm == pmm && live == map[] && bs == []
    {
      this.pmm := pmm;
      mem, head, total, used, invalidFrees, doubleFrees := map[], 0, 0, 0, 0, 0;
      bs, live := [], map[];
    }

    /** `find_free_block` */
    method FindFreeBlock(size: nat) returns (block: nat, ghost i: nat)
      requires Rep(mem, head, bs) && Apart(bs)
      ensures block == 0 ==> NoFit(bs, size)
      ensures block != 0 ==> FirstFit(bs, i, size) && block == bs[i].addr
    {
      hide Apart, Rep;
      HeadOf(mem, head, bs);
      block, i := head, 0;
      while block != 0
        invariant i <= |bs| && block == AddrOf(bs, i)
        invariant forall j :: 0 <= j < i && bs[j].free ==> bs[j].size < size
        decreases |bs| - i
      {
        RepAt(mem, head, bs, i);
        if At(mem, block + 12) != 0 && At(mem, block + 4) >= size {
          return;
        }
        block := At(mem, block + 16);
        i := i + 1;
      }
      if i < |bs| {
        Addresses(bs, i, i);
      }
    }

    /** The last block of a list that is not empty. */
    method FindTail() returns (tail: nat)
      requires Rep(mem, head, bs) && Apart(bs) && bs != []
      ensures tail == bs[|bs| - 1].addr
    {
      hide Apart, Rep;
      tail := head;
      ghost var i := 0;
      HeadOf(mem, head, bs);
      RepAt(mem, head, bs, 0);
      while At(mem, tail + 16) != 0
        invariant i < |bs| && tail == bs[i].addr && Header(mem, bs[i], AddrOf(bs, i + 1), AddrOf(bs, i - 1))
        decreases |bs| - i
      {
        tail := At(mem, tail + 16);
        i := i + 1;
        RepAt(mem, head, bs, i);
      }
      if i + 1 < |bs| {
        Addresses(bs, i + 1, i);
      }
    }

    /** The stores of `block_from_pages`, in its order. */
    method LinkRegion(address: nat, size: nat, count: nat, ghost b: Block)
      requires b == Block(address, size, count, true) && Rep(mem, head, bs) && Apart(bs + [b])
      modifies this`mem, this`head
      ensures mem == RegionMem(old(mem), bs, b)
      ensures head == if bs == [] then address else old(head)
    {
      hide Rep, Apart;
      RepHeaderMem(mem, head, bs, b);
      HeadNull(mem, head, bs);
      mem := mem[address := MAGIC][address + 4 := size][address + 8 := count][address + 12 := 1][address + 16 := 0]
          [address + 20 := 0];
      if head == 0 {
        head := address;
      } else {
        var tail := FindTail();
        mem := mem[tail + 16 := address];
        mem := mem[address + 20 := tail];
      }
    }

    /** `block_from_pages`, called with pages that have just left the page allocator's free set `free`. */
    method BlockFromPages(address: nat, count: nat, ghost page: nat, ghost free: set<nat>)
      requires pmm.Valid() && Good(Snap().(free := free)) && Run(page, count) <= free
      requires pmm.Free() == free - Run(page, count)
      requires 0 < count < 0x10_0000 && page > 0 && address == page * PAGE_SIZE
      modifies this`mem, this`head, this`total, this`bs
      ensures Valid() && Intact(live, old(mem), mem)
      ensures bs == old(bs) + [RegionBlock(page, count)]
    {
      hide Rep, Apart, Backed, LiveOk, AllOwned, Intact, SumSize, SumUsed, Run, FreeIn, RegionMem;
      ghost var h := Snap().(free := free);
      ghost var b := RegionBlock(page, count);
      GoodRegion(h, page, count);
      RegionApart(bs, pmm.usable, free, page, count);
      var size := count * PAGE_SIZE - HEADER;
      LinkRegion(address, size, count, b);
      total := total + size;
      bs := bs + [b];
      assert Snap() == AfterRegion(h, page, count);
    }

    /** The stores of `split_block`, in its order. */
    method LinkRest(block: nat, size: nat, stale: nat, ghost b: Block)
      requires block == b.addr && size + HEADER <= b.size && At(mem, block + 4) == b.size
      modifies this`mem
      ensures mem == SplitMem(old(mem), b, At(old(mem), block + 16), size, stale)
    {
      hide At;
      var next := block + HEADER + size;
      var after, whole := At(mem, block + 16), At(mem, block + 4);
      mem := mem[next := MAGIC][next + 4 := whole - size - HEADER][next + 8 := stale][next + 12 := 1]
          [next + 16 := after][next + 20 := block];
      assert mem == HeaderMem(old(mem), Rest(b, size, stale), after, block);
      if after != 0 {
        mem := mem[after + 20 := next];
      }
      mem := mem[block + 16 := next];
      mem := mem[block + 4 := size];
    }

    /** `split_block`. The page count of the new header is whatever the memory held: any value below 2^20 is allowed
        for. */
    method SplitBlock(block: nat, size: nat, ghost i: nat)
      requires Valid() && i < |bs| && bs[i].addr == block && bs[i].free && size % 8 == 0 && size <= bs[i].size
      modifies this`mem, this`total, this`bs
      ensures Valid() && Intact(live, old(mem), mem)
      ensures i < |bs| && bs[i].addr == block && bs[i].free && size <= bs[i].size < size + HEADER + MIN_SPLIT
      ensures old(bs[i].size) < size + HEADER + MIN_SPLIT ==> bs == old(bs)
      ensures old(bs[i].size) >= size + HEADER + MIN_SPLIT ==> exists stale: nat ::
                bs == Replace(old(bs), i, 1, [Front(old(bs[i]), size), Rest(old(bs[i]), size, stale)])
    {
      hide Rep, Apart, Backed, LiveOk, AllOwned, Intact, SumSize, SumUsed, FreeIn, SplitMem, Replace;
      RepAt(mem, head, bs, i);
      SameIsIntact(live, mem);
      if At(mem, block + 4) < size + HEADER + MIN_SPLIT {
        return;
      }
      ghost var h := Snap();
      var stale: nat :| stale < 0x10_0000;
      GoodSplit(h, i, size, stale);
      LinkRest(block, size, stale, bs[i]);
      total := total - HEADER;
      bs := Replace(bs, i, 1, [Front(bs[i], size), Rest(bs[i], size, stale)]);
      Replaced(h.bs, i, 1, [Front(h.bs[i], size), Rest(h.bs[i], size, stale)], i);
      assert Snap() == AfterSplit(h, i, size, stale);
    }

    /** The stores of `coalesce_next`, in its order. */
    method LinkMerged(block: nat, next: nat, ghost a: Block, ghost b: Block)
      requires block == a.addr && next == b.addr && At(mem, block + 4) == a.size && At(mem, next + 4) == b.size
      requires block + HEADER <= next
      modifies this`mem
      ensures mem == MergeMem(old(mem), a, b, At(old(mem), next + 16))
    {
      mem := mem[block + 4 := At(mem, block + 4) + HEADER + At(mem, next + 4)];
      mem := mem[block + 16 := At(mem, next + 16)];
      if At(mem, block + 16) != 0 {
        mem := mem[At(mem, block + 16) + 20 := block];
      }
    }

    /** `coalesce_next` */
    method CoalesceNext(block: nat, ghost i: nat)
      requires Valid() && i < |bs| && bs[i].addr == block && bs[i].free
      modifies this`mem, this`total, this`bs
      ensures Valid() && Intact(live, old(mem), mem)
      ensures bs == Coalesced(old(bs), i) && i < |bs| && bs[i].addr == block && bs[i].free
    {
      hide Rep, Apart, Backed, LiveOk, AllOwned, Intact, SumSize, SumUsed, FreeIn, MergeMem, Replace;
      RepAt(mem, head, bs, i);
      SameIsIntact(live, mem);
      var next := At(mem, block + 16);
      if next != 0 {
        RepAt(mem, head, bs, i + 1);
      }
      if next == 0 || At(mem, next + 12) == 0 {
        NextNull(mem, bs, i);
        return;
      }
      if block + HEADER + At(mem, block + 4) != next {
        return;
      }
      ghost var h := Snap();
      GoodMerge(h, i);
      LinkMerged(block, next, bs[i], bs[i + 1]);
      total := total + HEADER;
      bs := Replace(bs, i, 2, [Merged(bs[i], bs[i + 1])]);
      assert Snap() == AfterMerge(h, i);
    }

    /** `unlink_block`: only links change. */
    method UnlinkBlock(block: nat, ghost i: nat)
      requires Rep(mem, head, bs) && Apart(bs) && i < |bs| && bs[i].addr == block
      modifies this`mem, this`head
      ensures mem == UnlinkMem(old(mem), AddrOf(bs, i - 1), AddrOf(bs, i + 1))
      ensures head == if i == 0 then AddrOf(bs, 1) else old(head)
      ensures Rep(mem, head, Replace(bs, i, 1, []))
    {
      hide Rep, Apart;
      RepAt(mem, head, bs, i);
      RepUnlink(mem, head, bs, i);
      if i > 0 {
        Addresses(bs, i - 1, i - 1);
      }
      var prev, next := At(mem, block + 20), At(mem, block + 16);
      if prev != 0 {
        mem := mem[prev + 16 := next];
      } else {
        head := next;
      }
      if next != 0 {
        mem := mem[next + 20 := prev];
      }
    }

    /** `release_whole_region_if_possible`: pages go back only as the exact extent of one free block. */
    method ReleaseWholeRegion(block: nat, ghost i: nat)
      requires Valid() && i < |bs| && bs[i].addr == block
      modifies this`mem, this`head, this`total, this`bs, pmm`used, pmm.words
      ensures Valid() && Intact(live, old(mem), mem)
      ensures bs == Released(old(bs), i) && PagesBack(old(bs)[i], old(pmm.Free()), pmm.Free())
    {
      hide Rep, Apart, Backed, LiveOk, AllOwned, Intact, SumSize, SumUsed, FreeIn, FreesBlock, UnlinkMem, Replace, Run;
      RepAt(mem, head, bs, i);
      SameIsIntact(live, mem);
      ApartShaped(bs, i);
      var count, size := At(mem, block + 8), At(mem, block + 4);
      if At(mem, block + 12) == 0 || count == 0 {
        return;
      }
      if size != (count * PAGE_SIZE - HEADER) % WORD {
        return;
      }
      Release(block, size, count, i);
    }

    /** The tail of `release_whole_region_if_possible`, after its tests. */
    method Release(block: nat, size: nat, count: nat, ghost i: nat)
      requires Valid() && i < |bs| && bs[i] == Block(block, size, count, true) && size + HEADER == count * PAGE_SIZE
      requires count > 0
      modifies this`mem, this`head, this`total, this`bs, pmm`used, pmm.words
      ensures Valid() && Intact(live, old(mem), mem) && bs == Replace(old(bs), i, 1, [])
      ensures PagesBack(old(bs)[i], old(pmm.Free()), pmm.Free())
    {
      hide Rep, Apart, Backed, LiveOk, AllOwned, Intact, SumSize, SumUsed, FreeIn, FreesBlock, UnlinkMem, Replace, Run;
      ghost var h := Snap();
      UnlinkBlock(block, i);
      GiveBack(block, count, h, i);
      GoodUnlink(h, i, pmm.Free());
      total := total - size;
      bs := Replace(bs, i, 1, []);
      assert Snap() == AfterUnlink(h, i, pmm.Free());
    }

    /** The page allocator takes the block's pages, or ignores a block that does not start on a page. */
    method GiveBack(block: nat, count: nat, ghost h: HeapState.Heap, ghost i: nat)
      requires pmm.Valid() && h.usable == pmm.usable && h.free == pmm.Free() && Apart(h.bs)
      requires Backed(h.bs, h.usable, h.free)
      requires i < |h.bs| && h.bs[i].addr == block && End(h.bs[i]) == block + count * PAGE_SIZE && count > 0
      modifies pmm`used, pmm.words
      ensures pmm.Valid()
      ensures if block % PAGE_SIZE == 0 then FreesBlock(h.bs[i], h.free, pmm.Free()) else pmm.Free() == h.free
    {
      hide Apart, Backed, FreeIn, Run, FreesBlock;
      BlockBound(h, i, pmm.Last());
      if block % PAGE_SIZE == 0 {
        ghost var page := block / PAGE_SIZE;
        ReleaseBacked(h.bs, i, h.usable, h.free, page, count);
        FreesExtent(h.bs[i], page, count, h.free);
        InRun(page, count);
        assert page in pmm.usable;
        assert pmm.First() * PAGE_SIZE <= block;
      }
      pmm.FreePages(block, count);
    }

    /** The page allocator has no run of the needed length. */
    ghost predicate NoRun(count: nat)
      requires pmm.Shape()
      reads this, pmm, pmm.words
    {
      count == 0 || forall q :: pmm.First() <= q ==> !FreeRun(pmm.Free(), pmm.Last(), q, count)
    }

    /** Pages from the page allocator become a block at the end of the list. */
    method AddRegion(count: nat) returns (ok: bool, ghost page: nat)
      requires Valid() && count < 0x10_0000
      modifies this`mem, this`head, this`total, this`bs, pmm`used, pmm.words
      ensures Valid() && Intact(live, old(mem), mem)
      ensures !ok ==> Snap() == old(Snap()) && NoRun(count)
      ensures ok ==> pmm.used > old(pmm.used) && count > 0
      ensures ok ==> AddsRegion(old(bs), old(pmm.Free()), bs, pmm.Free(), page, count)
    {
      hide Good, Intact, FreeIn, Run;
      SameIsIntact(live, mem);
      ghost var free := pmm.Free();
      var address: nat;
      address, page := pmm.AllocPages(count);
      if address == 0 {
        return false, page;
      }
      BlockFromPages(address, count, page, free);
      return true, page;
    }

    /** Mark a free block as taken and hand it out. */
    method Take(block: nat, n: nat, ghost i: nat) returns (p: nat)
      requires Valid() && i < |bs| && bs[i].addr == block && bs[i].free && n <= bs[i].size
      modifies this`mem, this`used, this`bs, this`live
      ensures Valid() && Intact(old(live), old(mem), mem)
      ensures p == block + HEADER && p !in old(live) && p % 8 == 0
      ensures live == old(live)[p := Grant(old(bs)[i].(free := false), n)] && used == old(used) + old(bs)[i].size
      ensures bs == old(bs)[i := old(bs)[i].(free := false)]
    {
      hide Rep, Apart, Backed, LiveOk, AllOwned, Intact, SumSize, SumUsed, FreeIn;
      ghost var h := Snap();
      GoodTake(h, i, n);
      RepAt(mem, head, bs, i);
      ApartShaped(bs, i);
      used := used + At(mem, block + 4);
      mem := mem[block + 12 := 0];
      bs := bs[i := bs[i].(free := false)];
      p := block + HEADER;
      live := live[p := Grant(bs[i], n)];
      assert Snap() == AfterTake(h, i, n);
    }

    /** `kmalloc` once the size is rounded. `grown` counts the regions it adds; `from` is the list it serves from. */
    method Obtain(n: nat) returns (p: nat, ghost grown: nat, ghost from: seq<Block>)
      requires Valid() && n < WORD && n % 8 == 0
      modifies this`mem, this`head, this`total, this`used, this`bs, this`live, pmm`used, pmm.words
      ensures Valid() && Intact(old(live), old(mem), mem) && EightFold(from)
      ensures p == 0 ==> live == old(live) && used == old(used) && NoFit(bs, n) && NoRun(PagesNeeded(n))
      ensures p != 0 ==>
                && p !in old(live) && p % 8 == 0 && p in live && live[p].block.addr + HEADER == p && live[p].size == n
                && live == old(live)[p := live[p]] && used == old(used) + live[p].block.size
                && live[p].block.size < n + HEADER + MIN_SPLIT && ServedFirst(from, n, n, p, bs)
      ensures Grown(old(bs), old(pmm.Free()), from, pmm.Free(), PagesNeeded(n), grown)
      ensures n + HEADER + PAGE_SIZE - 1 < WORD ==> grown <= 1 && (p == 0 ==> Snap() == old(Snap()))
    {
      hide Rep, Apart, Backed, LiveOk, AllOwned, Intact, SumSize, SumUsed, FreeIn, NoFit, FreeRun, PagesNeeded, Served;
      hide Grown, AddsRegion, EightFold;
      grown, from := 0, bs;
      ApartEightFold(bs);
      NotGrown(bs, pmm.Free(), PagesNeeded(n));
      SameIsIntact(live, mem);
      PagesHold(n);
      var block: nat;
      ghost var i: nat;
      block, i := FindFreeBlock(n);
      while block == 0
        invariant Valid() && live == old(live) && used == old(used) && Intact(live, old(mem), mem)
        invariant from == bs && EightFold(from)
        invariant if block == 0 then NoFit(bs, n) else i < |bs| && FirstFit(bs, i, n) && block == bs[i].addr
        invariant grown == 0 ==> Snap() == old(Snap())
        invariant Grown(old(bs), old(pmm.Free()), bs, pmm.Free(), PagesNeeded(n), grown)
        invariant n + HEADER + PAGE_SIZE - 1 < WORD ==> grown == 0 || (grown == 1 && block != 0)
        decreases pmm.total - pmm.used
      {
        ghost var before, m, free := bs, mem, pmm.Free();
        var ok, page := AddRegion(PagesNeeded(n));
        IntactTrans(live, old(mem), m, mem);
        if !ok {
          return 0, grown, from;
        }
        GrownMore(old(bs), old(pmm.Free()), before, free, bs, pmm.Free(), page, PagesNeeded(n), grown);
        ApartEightFold(bs);
        block, i := FindFreeBlock(n);
        grown, from := grown + 1, bs;
        if n + HEADER + PAGE_SIZE - 1 < WORD {
          RegionServes(before, free, bs, pmm.Free(), page, n);
        }
      }
      p := Serve(block, n, i, old(mem));
      assert FirstFit(from, i, n) && from[i].addr + HEADER == p && Served(from, i, n, bs);
    }

    /** `kmalloc`. Sizes up to 2^32 - 8 are served as they are asked for; larger ones wrap in the rounding. */
    method Kmalloc(size: nat) returns (p: nat, ghost grown: nat, ghost from: seq<Block>)
      requires Valid() && size < WORD
      modifies this`mem, this`head, this`total, this`used, this`bs, this`live, pmm`used, pmm.words
      ensures Valid() && Intact(old(live), old(mem), mem)
      ensures size == 0 ==> p == 0
      ensures p == 0 ==> live == old(live) && used == old(used)
      ensures p != 0 ==>
                && p !in old(live) && p % 8 == 0 && p in live && live[p].block.addr + HEADER == p
                && live[p].size == Rounded(size) && live[p].block.size < Rounded(size) + HEADER + MIN_SPLIT
                && live == old(live)[p := live[p]] && used == old(used) + live[p].block.size
                && ServedFirst(from, Rounded(size), Rounded(size), p, bs)
      ensures p == 0 && size > 0 ==> NoFit(bs, Rounded(size)) && NoRun(PagesNeeded(Rounded(size)))
      ensures size > 0 ==> Grown(old(bs), old(pmm.Free()), from, pmm.Free(), PagesNeeded(Rounded(size)), grown)
      ensures p != 0 && size <= WORD - 8 ==>
                && size <= live[p].size < size + 8 && live[p].block.size < size + 8 + HEADER + MIN_SPLIT
                && ServedFirst(from, size, live[p].size, p, bs)
      ensures p == 0 && 0 < size <= WORD - 8 ==> NoFit(bs, size)
      ensures 0 < size <= WORD - PAGE_SIZE - HEADER ==>
                && grown <= 1 && (p == 0 ==> Snap() == old(Snap()))
                && forall count: nat :: LeastPages(count, size + HEADER) ==>
                     && Grown(old(bs), old(pmm.Free()), from, pmm.Free(), count, grown)
                     && (p == 0 ==> NoRun(count))
    {
      hide Good, Intact, FreeIn, NoFit, FreeRun, PagesNeeded, Served, Rounded, Grown, LeastPages, EightFold, NoRun;
      SameIsIntact(live, mem);
      if size == 0 {
        return 0, 0, bs;
      }
      RoundedHolds(size);
      p, grown, from := Obtain(Rounded(size));
      GoodEightFold(Snap());
      if size <= WORD - 8 {
        RoundedFits(bs, size);
        RoundedFits(from, size);
      }
      if size <= WORD - PAGE_SIZE - HEADER {
        SameFit(WORD - PAGE_SIZE - HEADER + 8, size, Rounded(size));
        RoundedPagesAll(size, size + HEADER);
      }
    }

    /** Split the block that was found and hand out its front. */
    method Serve(block: nat, n: nat, ghost i: nat, ghost before: Memory) returns (p: nat)
      requires Valid() && FirstFit(bs, i, n) && block == bs[i].addr && n % 8 == 0 && Intact(live, before, mem)
      modifies this`mem, this`total, this`used, this`bs, this`live
      ensures Valid() && Intact(old(live), before, mem)
      ensures p == block + HEADER && p !in old(live) && p % 8 == 0 && p in live && live[p].block.addr == block
      ensures live[p].size == n
      ensures live[p].block.size < n + HEADER + MIN_SPLIT
      ensures live == old(live)[p := live[p]] && used == old(used) + live[p].block.size
      ensures Served(old(bs), i, n, bs)
    {
      hide Rep, Apart, Backed, LiveOk, AllOwned, Intact, SumSize, SumUsed, FreeIn, Replace, Served;
      SplitBlock(block, n, i);
      IntactTrans(live, before, old(mem), mem);
      ghost var m, cut := mem, bs;
      p := Take(block, n, i);
      IntactTrans(old(live), before, m, mem);
      CutAndTaken(old(bs), i, n, cut, bs);
    }

    /** `kmalloc_aligned` for a power of two, with a total that fits in 32 bits. */
    method KmallocAligned(size: nat, alignment: nat, ghost k: nat) returns (p: nat)
      requires Valid() && alignment == Pow2(k) && size + AtLeastMinimum(alignment) + ALIGNED_HEADER <= WORD - 8
      modifies this`mem, this`head, this`total, this`used, this`bs, this`live, pmm`used, pmm.words
      ensures Valid() && Intact(old(live), old(mem), mem)
      ensures p == 0 ==> live == old(live) && used == old(used)
      ensures p == 0 ==> NoFit(bs, size + AtLeastMinimum(alignment) + ALIGNED_HEADER)
      ensures p == 0 ==>
                var n := Rounded(AlignedTotal(size, AtLeastMinimum(alignment))); NoFit(bs, n) && NoRun(PagesNeeded(n))
      ensures p != 0 ==>
                p % alignment == 0 && p % MIN_ALIGNMENT == 0 && p !in old(live) && p in live && live[p].size == size
      ensures p != 0 ==> live == old(live)[p := live[p]] && used == old(used) + live[p].block.size
      ensures p != 0 ==>
                && live[p].block.addr + HEADER + ALIGNED_HEADER <= p && p + size <= End(live[p].block)
                && p < live[p].block.addr + HEADER + ALIGNED_HEADER + AtLeastMinimum(alignment)
                && live[p].block.size < size + AtLeastMinimum(alignment) + ALIGNED_HEADER + 8 + HEADER + MIN_SPLIT
    {
      hide Good, Intact, FreeIn, NoFit, FirstFit, FreeRun, PagesNeeded, AlignedFrom, Rounded, Pow2;
      var a := AtLeastMinimum(alignment);
      TotalFits(size, a);
      var raw, _, _ := Kmalloc(AlignedTotal(size, a));
      if raw == 0 {
        return 0;
      }
      AlignedPlan(k, raw, size);
      p := AlignedFrom(raw, a);
      Tag(raw, p, size, old(live), old(mem));
    }

    /** Write the hidden header below `p` and pass the grant on from `raw` to `p`. */
    method Tag(raw: nat, p: nat, size: nat, ghost before: map<nat, Grant>, ghost memory: Memory)
      requires Valid() && raw in live && raw == live[raw].block.addr + HEADER && raw + ALIGNED_HEADER <= p && p % 4 == 0
      requires p + size <= raw + live[raw].size && raw !in before && live == before[raw := live[raw]]
      requires Intact(before, memory, mem)
      modifies this`mem, this`live
      ensures Valid() && Intact(before, memory, mem)
      ensures p !in before && live == before[p := Grant(old(live)[raw].block, size)] && p + size <= End(live[p].block)
    {
      hide Rep, Apart, Backed, LiveOk, AllOwned, Intact, SumSize, SumUsed, FreeIn;
      ghost var h, b := Snap(), live[raw].block;
      ghost var i := GrantBlock(h, raw);
      mem := mem[p - 8 := ALIGN_MAGIC];
      mem := mem[p - 4 := raw];
      assert WritesIn(b, h.mem, mem);
      assert Tagged(mem, p, b);
      GoodRegrant(h, raw, p, Grant(b, size), mem);
      live := (live - {raw})[p := Grant(b, size)];
      assert h.live - {raw} == before;
      IntactTrans(before, memory, h.mem, mem);
      assert Snap() == Regrant(h, raw, p, Grant(b, size), mem);
    }

    /** The flag and counter updates of `kfree`. */
    method Give(block: nat, ghost i: nat)
      requires Valid() && i < |bs| && bs[i].addr == block && block + HEADER in live
      requires live[block + HEADER].block == bs[i]
      modifies this`mem, this`used, this`bs, this`live
      ensures Valid() && live == old(live) - {block + HEADER} && Intact(live, old(mem), mem)
      ensures bs == old(bs)[i := old(bs)[i].(free := true)] && used == old(used) - old(bs)[i].size
    {
      hide Rep, Apart, Backed, LiveOk, AllOwned, Intact, SumSize, SumUsed, FreeIn;
      ghost var h := Snap();
      GoodGive(h, i);
      RepAt(mem, head, bs, i);
      mem := mem[block + 12 := 1];
      IntactLess(live, block + HEADER, h.mem, mem);
      used := used - At(mem, block + 4);
      bs := bs[i := bs[i].(free := true)];
      live := live - {block + HEADER};
      assert Snap() == AfterGive(h, i);
    }

    /** The tail of `kfree`: a freed block joins its free neighbours, and a whole region goes back. */
    method JoinNeighbours(block: nat, ghost i: nat)
      requires Valid() && i < |bs| && bs[i].addr == block && bs[i].free
      modifies this`mem, this`head, this`total, this`bs, pmm`used, pmm.words
      ensures Valid() && Intact(live, old(mem), mem) && FreedAt(old(bs), i, bs, old(pmm.Free()), pmm.Free())
    {
      hide Rep, Apart, Backed, LiveOk, AllOwned, Intact, SumSize, SumUsed, FreeIn, Coalesced, Released, Run;
      CoalesceNext(block, i);
      var at := block;
      ghost var k, m := i, mem;
      RepAt(mem, head, bs, i);
      if i > 0 {
        Addresses(bs, i - 1, i - 1);
      }
      var prev := At(mem, block + 20);
      if prev != 0 {
        RepAt(mem, head, bs, i - 1);
        if At(mem, prev + 12) != 0 {
          at, k := prev, i - 1;
          CoalesceNext(prev, k);
          IntactTrans(live, old(mem), m, mem);
        }
      }
      m := mem;
      ReleaseWholeRegion(at, k);
      IntactTrans(live, old(mem), m, mem);
    }

    /** A pointer that is not a caller's: it carries no heap marks, or names a block that is free already. */
    ghost predicate Stray(p: nat)
      reads this
    {
      && p !in live && p >= HEADER && At(mem, p - 8) != ALIGN_MAGIC
      && (At(mem, p - HEADER) == MAGIC ==> exists i :: 0 <= i < |bs| && bs[i].addr == p - HEADER && bs[i].free)
    }

    /** `kfree` of null, of a live pointer, or of a stray one. */
    method Kfree(p: nat)
      requires Valid() && (p == 0 || p in live || Stray(p))
      modifies this, pmm`used, pmm.words
      ensures Valid() && Intact(live, old(mem), mem)
      ensures old(p in live) ==> live == old(live) - {p} && used == old(used) - old(live)[p].block.size
      ensures old(p in live) ==> Freed(old(bs), old(live)[p].block, bs, old(pmm.Free()), pmm.Free())
      ensures old(p !in live) ==> Snap() == old(Snap())
      ensures invalidFrees ==
                if p == 0 || old(p in live) || old(At(mem, p - HEADER)) == MAGIC
                then old(invalidFrees) else (old(invalidFrees) + 1) % WORD
      ensures doubleFrees ==
                if p == 0 || old(p in live) || old(At(mem, p - HEADER)) != MAGIC
                then old(doubleFrees) else (old(doubleFrees) + 1) % WORD
      decreases p in live && p != live[p].block.addr + HEADER
    {
      hide Rep, Apart, Backed, LiveOk, AllOwned, Intact, SumSize, SumUsed, FreeIn, Run;
      SameIsIntact(live, mem);
      if p in live {
        LiveMarks(Snap(), p);
      }
      if p == 0 {
        return;
      }
      if At(mem, p - 8) == ALIGN_MAGIC {
        var raw := At(mem, p - 4);
        ghost var size := live[p].block.size;
        Untag(p, raw);
        ghost var m, rest := mem, old(live) - {p};
        Kfree(raw);
        assert live == rest;
        IntactTrans(live, old(mem), m, mem);
        return;
      }
      FreePlain(p);
    }

    /** `kfree` below its test for the tag. */
    method FreePlain(p: nat)
      requires Valid() && p >= HEADER && At(mem, p - 8) != ALIGN_MAGIC && (p in live || Stray(p))
      modifies this, pmm`used, pmm.words
      ensures Valid() && Intact(live, old(mem), mem)
      ensures old(p in live) ==> live == old(live) - {p} && used == old(used) - old(live)[p].block.size
      ensures old(p in live) ==> Freed(old(bs), old(live)[p].block, bs, old(pmm.Free()), pmm.Free())
      ensures old(p !in live) ==> Snap() == old(Snap())
      ensures invalidFrees ==
                if old(p in live) || old(At(mem, p - HEADER)) == MAGIC
                then old(invalidFrees) else (old(invalidFrees) + 1) % WORD
      ensures doubleFrees ==
                if old(p in live) || old(At(mem, p - HEADER)) != MAGIC
                then old(doubleFrees) else (old(doubleFrees) + 1) % WORD
    {
      hide Rep, Apart, Backed, LiveOk, AllOwned, Intact, SumSize, SumUsed, FreeIn, Run;
      SameIsIntact(live, mem);
      var block := p - HEADER;
      if p in live {
        LiveMarks(Snap(), p);
      }
      if At(mem, block) != MAGIC {
        invalidFrees := (invalidFrees + 1) % WORD;
        return;
      }
      ghost var i: nat;
      if p in live {
        i := GrantBlock(Snap(), p);
      } else {
        i :| i < |bs| && bs[i].addr == block && bs[i].free;
      }
      RepAt(mem, head, bs, i);
      if At(mem, block + 12) != 0 {
        doubleFrees := (doubleFrees + 1) % WORD;
        return;
      }
      Give(block, i);
      ghost var m := mem;
      JoinNeighbours(block, i);
      IntactTrans(live, old(mem), m, mem);
    }

    /** Clear the tag below `p`; the block is then freed under its own payload pointer. */
    method Untag(p: nat, raw: nat)
      requires Valid() && p in live && raw == live[p].block.addr + HEADER && p != raw
      modifies this`mem, this`live
      ensures Valid() && Intact(old(live) - {p}, old(mem), mem)
      ensures raw !in old(live) && live == (old(live) - {p})[raw := Grant(old(live)[p].block, 0)]
    {
      hide Rep, Apart, Backed, LiveOk, AllOwned, Intact, SumSize, SumUsed, FreeIn;
      ghost var h, b := Snap(), live[p].block;
      ghost var i := GrantBlock(h, p);
      GrantIs(h, p);
      mem := mem[p - 8 := 0];
      assert WritesIn(b, h.mem, mem);
      GoodRegrant(h, p, raw, Grant(b, 0), mem);
      live := (live - {p})[raw := Grant(b, 0)];
      assert Snap() == Regrant(h, p, raw, Grant(b, 0), mem);
    }

    /** A caller stores a word in memory it was given. */
    method Store(p: nat, offset: nat, word: nat)
      requires Valid() && p in live && offset % 4 == 0 && offset + 4 <= live[p].size
      modifies this`mem
      ensures Valid() && mem == old(mem)[p + offset := word] && Intact(live - {p}, old(mem), mem)
    {
      hide Rep, Apart, Backed, LiveOk, AllOwned, Intact, SumSize, SumUsed, FreeIn;
      ghost var h, g := Snap(), live[p];
      ghost var i := GrantBlock(h, p);
      mem := mem[p + offset := word];
      assert WritesIn(g.block, h.mem, mem);
      GrantIs(h, p);
      GoodRegrant(h, p, p, g, mem);
      assert (live - {p})[p := g] == live;
      assert Snap() == Regrant(h, p, p, g, mem);
    }

    /** `heap_initialize`: whatever the list was is forgotten, and one page is put under a new one. */
    method Initialize()
      requires pmm.Valid()
      modifies this, pmm`used, pmm.words
      ensures Valid() && live == map[] && used == 0 && invalidFrees == doubleFrees == 0
      ensures bs == [] ==> pmm.Free() == old(pmm.Free()) && NoRun(1)
      ensures bs != [] ==> exists page: nat :: AddsRegion([], old(pmm.Free()), bs, pmm.Free(), page, 1)
    {
      hide Good, FreeIn, FreeRun, Run, Intact, NoRun;
      head, total, used, invalidFrees, doubleFrees := 0, 0, 0, 0, 0;
      bs, live := [], map[];
      EmptyGood(Snap());
      var ok, page := AddRegion(1);
    }
  }
}

/** The whole heap as a value: the list in memory, its counters, the pages under it,
    and the pointers that callers hold. Each lemma is one step of an operation. */
module HeapState {
  import opened Pmm
  import opened HeapBlocks
  import opened HeapMemory

  const ALIGN_MAGIC: nat := 0xA11A_11A1

  /** What a caller got: `size` bytes inside an allocated block. */
  datatype Grant = Grant(block: Block, size: nat)

  datatype Heap = Heap(mem: Memory, head: nat, bs: seq<Block>, live: map<nat, Grant>, total: nat, used: nat,
      usable: set<nat>, free: set<nat>)

  /** A pointer that is not at the start of a payload is preceded by a tag that names the payload. */
  ghost predicate Tagged(mem: Memory, p: nat, b: Block)
  {
    b.addr + HEADER + 8 <= p && p % 4 == 0 && At(mem, p - 8) == ALIGN_MAGIC && At(mem, p - 4) == b.addr + HEADER
  }

  ghost predicate GrantOk(mem: Memory, bs: seq<Block>, p: nat, g: Grant)
  {
    && g.block in bs && !g.block.free
    && g.block.addr + HEADER <= p && p + g.size <= End(g.block)
    && (p == g.block.addr + HEADER || Tagged(mem, p, g.block))
  }

  ghost predicate LiveOk(mem: Memory, bs: seq<Block>, live: map<nat, Grant>)
  {
    && (forall p :: p in live ==> GrantOk(mem, bs, p, live[p]))
    && (forall p, q :: p in live && q in live && p != q ==> live[p].block.addr != live[q].block.addr)
  }

  /** Every allocated block is some caller's. */
  ghost predicate AllOwned(bs: seq<Block>, live: map<nat, Grant>)
  {
    forall i :: 0 <= i < |bs| && !bs[i].free ==> Owned(bs[i], live)
  }

  ghost predicate Owned(b: Block, live: map<nat, Grant>)
  {
    exists p :: p in live && live[p].block == b
  }

  ghost predicate Good(h: Heap)
  {
    && Rep(h.mem, h.head, h.bs) && Apart(h.bs) && Backed(h.bs, h.usable, h.free) && h.free <= h.usable
    && h.total == SumSize(h.bs) && h.used == SumUsed(h.bs)
    && LiveOk(h.mem, h.bs, h.live) && AllOwned(h.bs, h.live)
  }

  // ---------------------------------------------------------------- what goodness means to callers

  /** The block behind a live pointer. */
  lemma GrantBlock(h: Heap, p: nat) returns (i: nat)
    requires LiveOk(h.mem, h.bs, h.live) && p in h.live
    ensures i < |h.bs| && h.bs[i] == h.live[p].block && !h.bs[i].free && h.bs[i].addr + HEADER <= p
    ensures p + h.live[p].size <= End(h.bs[i])
  {
    assert GrantOk(h.mem, h.bs, p, h.live[p]);
    i :| 0 <= i < |h.bs| && h.bs[i] == h.live[p].block;
  }

  /** Words of an allocated payload are in no header and in no other block. */
  predicate InPayload(b: Block, x: nat)
  {
    b.addr + HEADER <= x < End(b)
  }

  lemma PayloadElsewhere(bs: seq<Block>, k: nat, i: nat, x: nat)
    requires Apart(bs) && k < |bs| && i < |bs| && InPayload(bs[k], x)
    ensures !InHeader(bs[i], x) && (i != k ==> !(bs[i].addr <= x < End(bs[i])))
  {
  }

  /** No byte of a live payload belongs to another live payload, to any header, or to a page the page allocator may hand
      out. */
  lemma LivePayloads(h: Heap, p: nat, x: nat)
    requires Good(h) && p in h.live && p <= x < p + h.live[p].size
    ensures forall q :: q in h.live && q != p ==> !(q <= x < q + h.live[q].size)
    ensures forall j :: 0 <= j < |h.bs| ==> !InHeader(h.bs[j], x)
    ensures x / PAGE_SIZE in h.usable && x / PAGE_SIZE !in h.free
  {
    hide Rep, Apart, AllOwned, SumSize, SumUsed, GrantOk;
    var i := GrantBlock(h, p);
    forall j | 0 <= j < |h.bs| ensures !InHeader(h.bs[j], x) {
      PayloadElsewhere(h.bs, i, j, x);
    }
    forall q | q in h.live && q != p ensures !(q <= x < q + h.live[q].size) {
      var k := GrantBlock(h, q);
      PayloadElsewhere(h.bs, i, k, x);
    }
    assert Touches(h.bs[i], x / PAGE_SIZE);
  }

  /** A block that is not free is not the block being changed. */
  lemma OtherBlock(bs: seq<Block>, i: nat, n: nat, ns: seq<Block>, b: Block)
    requires i + n <= |bs| && b in bs && forall j :: i <= j < i + n ==> bs[j] != b
    ensures b in Replace(bs, i, n, ns)
  {
  }

  /** Grants survive a change of the list that keeps allocated blocks and the words before tagged pointers. */
  lemma LiveKept(mem: Memory, bs: seq<Block>, live: map<nat, Grant>, mem': Memory, bs': seq<Block>)
    requires LiveOk(mem, bs, live)
    requires forall p :: p in live ==> live[p].block in bs'
    requires forall p :: p in live && Tagged(mem, p, live[p].block) ==> Tagged(mem', p, live[p].block)
    ensures LiveOk(mem', bs', live)
  {
  }

  /** The bytes the callers in `live` own read the same. */
  ghost predicate Intact(live: map<nat, Grant>, mem: Memory, mem': Memory)
  {
    forall p, x :: p in live && p <= x < p + live[p].size ==> At(mem', x) == At(mem, x)
  }

  /** No allocated payload is written. */
  ghost predicate PayloadsKept(bs: seq<Block>, mem: Memory, mem': Memory)
  {
    forall k, x :: 0 <= k < |bs| && !bs[k].free && InPayload(bs[k], x) ==> At(mem', x) == At(mem, x)
  }

  lemma KeptIsIntact(h: Heap, mem': Memory)
    requires LiveOk(h.mem, h.bs, h.live) && PayloadsKept(h.bs, h.mem, mem')
    ensures Intact(h.live, h.mem, mem')
  {
  }

  lemma TagKept(h: Heap, p: nat, mem': Memory)
    requires LiveOk(h.mem, h.bs, h.live) && PayloadsKept(h.bs, h.mem, mem') && p in h.live
    requires Tagged(h.mem, p, h.live[p].block)
    ensures Tagged(mem', p, h.live[p].block)
  {
  }

  // ---------------------------------------------------------------- lists of free blocks change, grants stay

  /** The blocks from `i` on that a step touches are free, so every grant keeps its block. */
  lemma GrantsKept(h: Heap, i: nat, n: nat, ns: seq<Block>, mem': Memory)
    requires LiveOk(h.mem, h.bs, h.live) && AllOwned(h.bs, h.live) && Apart(h.bs) && i + n <= |h.bs|
    requires forall j :: i <= j < i + n ==> h.bs[j].free
    requires forall j :: 0 <= j < |ns| ==> ns[j].free
    requires PayloadsKept(h.bs, h.mem, mem')
    ensures LiveOk(mem', Replace(h.bs, i, n, ns), h.live) && AllOwned(Replace(h.bs, i, n, ns), h.live)
    ensures Intact(h.live, h.mem, mem')
  {
    hide Apart, Replace, PayloadsKept, Tagged, Intact;
    KeptIsIntact(h, mem');
    var bs' := Replace(h.bs, i, n, ns);
    forall p | p in h.live
      ensures h.live[p].block in bs'
      ensures Tagged(h.mem, p, h.live[p].block) ==> Tagged(mem', p, h.live[p].block)
    {
      var k := GrantBlock(h, p);
      OtherBlock(h.bs, i, n, ns, h.bs[k]);
      if Tagged(h.mem, p, h.live[p].block) {
        TagKept(h, p, mem');
      }
    }
    LiveKept(h.mem, h.bs, h.live, mem', bs');
    forall j | 0 <= j < |bs'| && !bs'[j].free ensures Owned(bs'[j], h.live) {
      Replaced(h.bs, i, n, ns, j);
    }
  }

  // ---------------------------------------------------------------- split

  lemma SplitPayload(mem: Memory, bs: seq<Block>, i: nat, size: nat, stale: nat, k: nat, x: nat)
    requires Apart(bs) && i < |bs| && size + HEADER <= bs[i].size && k < |bs| && k != i && InPayload(bs[k], x)
    ensures At(SplitMem(mem, bs[i], AddrOf(bs, i + 1), size, stale), x) == At(mem, x)
  {
    PayloadElsewhere(bs, k, i, x);
    if i + 1 < |bs| {
      PayloadElsewhere(bs, k, i + 1, x);
    }
  }

  ghost function AfterSplit(h: Heap, i: nat, size: nat, stale: nat): (r: Heap)
    requires i < |h.bs| && size + HEADER <= h.bs[i].size && h.total >= HEADER
  {
    h.(mem := SplitMem(h.mem, h.bs[i], AddrOf(h.bs, i + 1), size, stale),
       bs := Replace(h.bs, i, 1, [Front(h.bs[i], size), Rest(h.bs[i], size, stale)]),
       total := h.total - HEADER)
  }

  lemma GoodSplit(h: Heap, i: nat, size: nat, stale: nat)
    requires Good(h) && i < |h.bs| && h.bs[i].free && size % 8 == 0 && size + HEADER <= h.bs[i].size
    requires stale < 0x10_0000
    ensures h.total >= HEADER && Good(AfterSplit(h, i, size, stale))
    ensures Intact(h.live, h.mem, AfterSplit(h, i, size, stale).mem)
  {
    hide Rep, Apart, Backed, LiveOk, AllOwned, SplitMem, Intact;
    var b := h.bs[i];
    var ns := [Front(b, size), Rest(b, size, stale)];
    SplitSums(h.bs, i, size, stale);
    RepSplit(h.mem, h.head, h.bs, i, size, stale);
    SplitApart(h.bs, i, size, stale);
    SplitBacked(h.bs, i, size, stale, h.usable, h.free);
    var mem' := SplitMem(h.mem, b, AddrOf(h.bs, i + 1), size, stale);
    forall k, x | 0 <= k < |h.bs| && !h.bs[k].free && InPayload(h.bs[k], x) ensures At(mem', x) == At(h.mem, x) {
      SplitPayload(h.mem, h.bs, i, size, stale, k, x);
    }
    GrantsKept(h, i, 1, ns, mem');
  }

  lemma SplitSums(bs: seq<Block>, i: nat, size: nat, stale: nat)
    requires i < |bs| && size + HEADER <= bs[i].size && bs[i].free
    ensures var r := Replace(bs, i, 1, [Front(bs[i], size), Rest(bs[i], size, stale)]);
            SumSize(r) == SumSize(bs) - HEADER && SumUsed(r) == SumUsed(bs)
  {
    var f, r := Front(bs[i], size), Rest(bs[i], size, stale);
    ReplaceSums(bs, i, 1, [f, r]);
    assert bs[i..i + 1] == [bs[i]] && [f, r] == [f] + [r];
    SumConcat([f], [r]);
    SumOne(bs[i]);
    SumOne(f);
    SumOne(r);
  }

  // ---------------------------------------------------------------- merge

  lemma MergePayload(mem: Memory, bs: seq<Block>, i: nat, k: nat, x: nat)
    requires Apart(bs) && i + 1 < |bs| && k < |bs| && InPayload(bs[k], x)
    ensures At(MergeMem(mem, bs[i], bs[i + 1], AddrOf(bs, i + 2)), x) == At(mem, x)
  {
    PayloadElsewhere(bs, k, i, x);
    if i + 2 < |bs| {
      PayloadElsewhere(bs, k, i + 2, x);
    }
  }

  ghost function AfterMerge(h: Heap, i: nat): (r: Heap)
    requires i + 1 < |h.bs|
  {
    h.(mem := MergeMem(h.mem, h.bs[i], h.bs[i + 1], AddrOf(h.bs, i + 2)),
       bs := Replace(h.bs, i, 2, [Merged(h.bs[i], h.bs[i + 1])]),
       total := h.total + HEADER)
  }

  lemma GoodMerge(h: Heap, i: nat)
    requires Good(h) && i + 1 < |h.bs| && h.bs[i].free && h.bs[i + 1].free && End(h.bs[i]) == h.bs[i + 1].addr
    ensures Good(AfterMerge(h, i)) && Intact(h.live, h.mem, AfterMerge(h, i).mem)
  {
    hide Rep, Apart, Backed, LiveOk, AllOwned, MergeMem, Intact;
    var ns := [Merged(h.bs[i], h.bs[i + 1])];
    MergeSums(h.bs, i);
    RepMerge(h.mem, h.head, h.bs, i);
    MergeApart(h.bs, i);
    MergeBacked(h.bs, i, h.usable, h.free);
    var mem' := MergeMem(h.mem, h.bs[i], h.bs[i + 1], AddrOf(h.bs, i + 2));
    forall k, x | 0 <= k < |h.bs| && !h.bs[k].free && InPayload(h.bs[k], x) ensures At(mem', x) == At(h.mem, x) {
      MergePayload(h.mem, h.bs, i, k, x);
    }
    GrantsKept(h, i, 2, ns, mem');
  }

  lemma MergeSums(bs: seq<Block>, i: nat)
    requires i + 1 < |bs| && bs[i].free && bs[i + 1].free
    ensures var r := Replace(bs, i, 2, [Merged(bs[i], bs[i + 1])]);
            SumSize(r) == SumSize(bs) + HEADER && SumUsed(r) == SumUsed(bs)
  {
    ReplaceSums(bs, i, 2, [Merged(bs[i], bs[i + 1])]);
    assert bs[i..i + 2] == [bs[i]] + [bs[i + 1]];
    SumConcat([bs[i]], [bs[i + 1]]);
    SumOne(bs[i]);
    SumOne(bs[i + 1]);
    SumOne(Merged(bs[i], bs[i + 1]));
  }

  // ---------------------------------------------------------------- unlink and release

  lemma UnlinkPayload(mem: Memory, bs: seq<Block>, i: nat, k: nat, x: nat)
    requires Apart(bs) && i < |bs| && k < |bs| && InPayload(bs[k], x)
    ensures At(UnlinkMem(mem, AddrOf(bs, i - 1), AddrOf(bs, i + 1)), x) == At(mem, x)
  {
  }

  ghost function AfterUnlink(h: Heap, i: nat, free: set<nat>): (r: Heap)
    requires i < |h.bs| && h.total >= h.bs[i].size
  {
    h.(mem := UnlinkMem(h.mem, AddrOf(h.bs, i - 1), AddrOf(h.bs, i + 1)),
       head := if i == 0 then AddrOf(h.bs, 1) else h.head,
       bs := Replace(h.bs, i, 1, []),
       total := h.total - h.bs[i].size,
       free := free)
  }

  /** A free block leaves the list; its pages go back when it fills them exactly, and otherwise stay with nobody. */
  lemma GoodUnlink(h: Heap, i: nat, free: set<nat>)
    requires Good(h) && i < |h.bs| && h.bs[i].free && free <= h.usable
    requires free == h.free || FreesBlock(h.bs[i], h.free, free)
    ensures h.total >= h.bs[i].size && Good(AfterUnlink(h, i, free))
    ensures Intact(h.live, h.mem, AfterUnlink(h, i, free).mem)
  {
    hide Rep, Apart, Backed, LiveOk, AllOwned, UnlinkMem, FreesBlock, Intact;
    UnlinkSums(h.bs, i);
    RepUnlink(h.mem, h.head, h.bs, i);
    RemoveApart(h.bs, i);
    UnlinkBacked(h, i, free);
    var mem' := UnlinkMem(h.mem, AddrOf(h.bs, i - 1), AddrOf(h.bs, i + 1));
    forall k, x | 0 <= k < |h.bs| && !h.bs[k].free && InPayload(h.bs[k], x) ensures At(mem', x) == At(h.mem, x) {
      UnlinkPayload(h.mem, h.bs, i, k, x);
    }
    GrantsKept(h, i, 1, [], mem');
  }

  /** The pages given back are exactly the block's extent. */
  ghost predicate FreesBlock(b: Block, before: set<nat>, after: set<nat>)
  {
    exists page: nat, count: nat ::
      b.addr == page * PAGE_SIZE && End(b) == (page + count) * PAGE_SIZE && after == before + Run(page, count)
  }

  lemma UnlinkBacked(h: Heap, i: nat, free: set<nat>)
    requires Apart(h.bs) && Backed(h.bs, h.usable, h.free) && i < |h.bs|
    requires free == h.free || FreesBlock(h.bs[i], h.free, free)
    ensures Backed(Replace(h.bs, i, 1, []), h.usable, free)
  {
  }

  lemma UnlinkSums(bs: seq<Block>, i: nat)
    requires i < |bs| && bs[i].free
    ensures SumSize(bs) >= bs[i].size
    ensures SumSize(Replace(bs, i, 1, [])) == SumSize(bs) - bs[i].size && SumUsed(Replace(bs, i, 1, [])) == SumUsed(bs)
  {
    hide Replace;
    ReplaceSums(bs, i, 1, []);
    assert bs[i..i + 1] == [bs[i]];
    SumOne(bs[i]);
  }

  // ---------------------------------------------------------------- a region from the page allocator

  function RegionBlock(page: nat, count: nat): (b: Block)
    requires count > 0
  {
    Block(page * PAGE_SIZE, count * PAGE_SIZE - HEADER, count, true)
  }

  function RegionMem(mem: Memory, bs: seq<Block>, b: Block): (r: Memory)
  {
    if bs == [] then HeaderMem(mem, b, 0, 0) else AppendMem(mem, bs[|bs| - 1].addr, b)
  }

  lemma RegionPayload(mem: Memory, bs: seq<Block>, b: Block, k: nat, x: nat)
    requires Apart(bs + [b]) && k < |bs| && InPayload(bs[k], x)
    ensures At(RegionMem(mem, bs, b), x) == At(mem, x)
  {
    var r := bs + [b];
    assert r[k] == bs[k] && r[|bs|] == b && r[|bs| - 1] == bs[|bs| - 1];
    PayloadElsewhere(r, k, |bs|, x);
    PayloadElsewhere(r, k, |bs| - 1, x);
  }

  ghost function AfterRegion(h: Heap, page: nat, count: nat): (r: Heap)
    requires count > 0
  {
    var b := RegionBlock(page, count);
    h.(mem := RegionMem(h.mem, h.bs, b), head := if h.bs == [] then b.addr else h.head, bs := h.bs + [b],
       total := h.total + b.size, free := h.free - Run(page, count))
  }

  lemma GoodRegion(h: Heap, page: nat, count: nat)
    requires Good(h) && Run(page, count) <= h.free && 0 < count < 0x10_0000 && page > 0
    ensures Good(AfterRegion(h, page, count)) && Intact(h.live, h.mem, AfterRegion(h, page, count).mem)
  {
    hide Rep, Apart, Backed, LiveOk, AllOwned, RegionMem, Intact, Run;
    var b := RegionBlock(page, count);
    RegionApart(h.bs, h.usable, h.free, page, count);
    RegionBacked(h.bs, h.usable, h.free, page, count);
    RegionRep(h, b);
    SumConcat(h.bs, [b]);
    SumOne(b);
    var mem' := RegionMem(h.mem, h.bs, b);
    forall k, x | 0 <= k < |h.bs| && !h.bs[k].free && InPayload(h.bs[k], x) ensures At(mem', x) == At(h.mem, x) {
      RegionPayload(h.mem, h.bs, b, k, x);
    }
    assert Replace(h.bs, |h.bs|, 0, [b]) == h.bs + [b];
    GrantsKept(h, |h.bs|, 0, [b], mem');
  }

  lemma RegionRep(h: Heap, b: Block)
    requires Rep(h.mem, h.head, h.bs) && Apart(h.bs + [b])
    ensures Rep(RegionMem(h.mem, h.bs, b), if h.bs == [] then b.addr else h.head, h.bs + [b])
  {
    hide Header, Apart, HeaderMem, AppendMem;
    if h.bs == [] {
      RepAppendEmpty(h.mem, b);
    } else {
      RepAppend(h.mem, h.head, h.bs, b);
    }
  }

  // ---------------------------------------------------------------- handing a block out and taking it back

  lemma FlagSums(bs: seq<Block>, i: nat, free: bool)
    requires i < |bs|
    ensures SumSize(bs[i := bs[i].(free := free)]) == SumSize(bs)
    ensures SumUsed(bs[i := bs[i].(free := free)]) ==
              SumUsed(bs) + (if free then 0 else bs[i].size) - (if bs[i].free then 0 else bs[i].size)
  {
    var b := bs[i].(free := free);
    ReplaceSums(bs, i, 1, [b]);
    assert bs[i..i + 1] == [bs[i]] && Replace(bs, i, 1, [b]) == bs[i := b];
    SumOne(bs[i]);
    SumOne(b);
  }

  lemma FlagBacked(bs: seq<Block>, i: nat, free: bool, usable: set<nat>, pages: set<nat>)
    requires i < |bs| && Backed(bs, usable, pages)
    ensures Backed(bs[i := bs[i].(free := free)], usable, pages)
  {
  }

  lemma FlagPayloads(h: Heap, i: nat, free: bool)
    requires Apart(h.bs) && i < |h.bs|
    ensures PayloadsKept(h.bs, h.mem, FlagMem(h.mem, h.bs[i].addr, free))
  {
  }

  ghost function AfterTake(h: Heap, i: nat, size: nat): (r: Heap)
    requires i < |h.bs|
  {
    var b := h.bs[i].(free := false);
    h.(mem := FlagMem(h.mem, b.addr, false), bs := h.bs[i := b], used := h.used + b.size,
       live := h.live[b.addr + HEADER := Grant(b, size)])
  }

  /** A free block is in no caller's hands, and its payload starts where no live pointer points. */
  lemma FreeIsNotLive(h: Heap, i: nat, p: nat)
    requires LiveOk(h.mem, h.bs, h.live) && Apart(h.bs) && i < |h.bs| && h.bs[i].free && p in h.live
    ensures p != h.bs[i].addr + HEADER && h.live[p].block.addr != h.bs[i].addr
    ensures h.live[p].block in h.bs[i := h.bs[i].(free := false)]
  {
    var k := GrantBlock(h, p);
    Addresses(h.bs, i, k);
    assert Disjoint(h.bs[if i < k then i else k], h.bs[if i < k then k else i]);
    assert h.bs[i := h.bs[i].(free := false)][k] == h.bs[k];
  }

  lemma GoodTake(h: Heap, i: nat, size: nat)
    requires Good(h) && i < |h.bs| && h.bs[i].free && size <= h.bs[i].size
    ensures Good(AfterTake(h, i, size)) && Intact(h.live, h.mem, AfterTake(h, i, size).mem)
    ensures h.bs[i].addr + HEADER !in h.live
  {
    hide Rep, Apart, Backed, LiveOk, AllOwned, FlagMem, Intact, PayloadsKept;
    RepFlag(h.mem, h.head, h.bs, i, false);
    FlagApart(h.bs, i, false);
    FlagBacked(h.bs, i, false, h.usable, h.free);
    FlagSums(h.bs, i, false);
    FlagPayloads(h, i, false);
    KeptIsIntact(h, FlagMem(h.mem, h.bs[i].addr, false));
    TakeLive(h, i, size);
  }

  lemma TakeLive(h: Heap, i: nat, size: nat)
    requires Apart(h.bs) && LiveOk(h.mem, h.bs, h.live) && AllOwned(h.bs, h.live) && i < |h.bs| && h.bs[i].free
    requires size <= h.bs[i].size
    requires PayloadsKept(h.bs, h.mem, FlagMem(h.mem, h.bs[i].addr, false))
    ensures h.bs[i].addr + HEADER !in h.live
    ensures var t := AfterTake(h, i, size); LiveOk(t.mem, t.bs, t.live) && AllOwned(t.bs, t.live)
  {
    hide Apart, FlagMem, PayloadsKept, Tagged;
    var t, b := AfterTake(h, i, size), h.bs[i].(free := false);
    var p0 := b.addr + HEADER;
    forall p | p in h.live ensures p != p0 && h.live[p].block.addr != b.addr && GrantOk(t.mem, t.bs, p, h.live[p]) {
      FreeIsNotLive(h, i, p);
      assert GrantOk(h.mem, h.bs, p, h.live[p]);
      if Tagged(h.mem, p, h.live[p].block) {
        TagKept(h, p, t.mem);
      }
    }
    assert t.bs[i] == b;
    TakeOwned(h, i, size);
  }

  lemma TakeOwned(h: Heap, i: nat, size: nat)
    requires AllOwned(h.bs, h.live) && i < |h.bs| && h.bs[i].addr + HEADER !in h.live
    ensures var t := AfterTake(h, i, size); AllOwned(t.bs, t.live)
  {
    hide FlagMem;
    var t, b := AfterTake(h, i, size), h.bs[i].(free := false);
    forall j | 0 <= j < |t.bs| && !t.bs[j].free ensures Owned(t.bs[j], t.live) {
      if j == i {
        assert t.live[b.addr + HEADER].block == b;
      } else {
        assert Owned(h.bs[j], h.live);
        var p :| p in h.live && h.live[p].block == h.bs[j];
        assert t.live[p] == h.live[p];
      }
    }
  }

  ghost function AfterGive(h: Heap, i: nat): (r: Heap)
    requires i < |h.bs| && h.used >= h.bs[i].size
  {
    var b := h.bs[i].(free := true);
    h.(mem := FlagMem(h.mem, b.addr, true), bs := h.bs[i := b], used := h.used - b.size,
       live := h.live - {b.addr + HEADER})
  }

  lemma GoodGive(h: Heap, i: nat)
    requires Good(h) && i < |h.bs| && h.bs[i].addr + HEADER in h.live && h.live[h.bs[i].addr + HEADER].block == h.bs[i]
    ensures h.used >= h.bs[i].size && Good(AfterGive(h, i)) && Intact(h.live, h.mem, AfterGive(h, i).mem)
  {
    hide Rep, Apart, Backed, LiveOk, AllOwned, FlagMem, Intact, PayloadsKept;
    RepFlag(h.mem, h.head, h.bs, i, true);
    FlagApart(h.bs, i, true);
    FlagBacked(h.bs, i, true, h.usable, h.free);
    FlagSums(h.bs, i, true);
    var k := GrantBlock(h, h.bs[i].addr + HEADER);
    FlagPayloads(h, i, true);
    KeptIsIntact(h, FlagMem(h.mem, h.bs[i].addr, true));
    GiveLive(h, i);
  }

  lemma GiveLive(h: Heap, i: nat)
    requires Apart(h.bs) && LiveOk(h.mem, h.bs, h.live) && AllOwned(h.bs, h.live) && i < |h.bs|
    requires h.used >= h.bs[i].size
    requires h.bs[i].addr + HEADER in h.live && h.live[h.bs[i].addr + HEADER].block == h.bs[i]
    requires PayloadsKept(h.bs, h.mem, FlagMem(h.mem, h.bs[i].addr, true))
    ensures var t := AfterGive(h, i); LiveOk(t.mem, t.bs, t.live) && AllOwned(t.bs, t.live)
  {
    hide Apart, FlagMem, PayloadsKept, Tagged;
    var t := AfterGive(h, i);
    forall p | p in t.live ensures GrantOk(t.mem, t.bs, p, t.live[p]) {
      var k := GrantBlock(h, p);
      assert t.bs[k] == h.bs[k];
      assert GrantOk(h.mem, h.bs, p, h.live[p]);
      if Tagged(h.mem, p, h.live[p].block) {
        TagKept(h, p, t.mem);
      }
    }
    forall j | 0 <= j < |t.bs| && !t.bs[j].free ensures Owned(t.bs[j], t.live) {
      assert Owned(h.bs[j], h.live);
      var p :| p in h.live && h.live[p].block == h.bs[j];
      Addresses(h.bs, i, j);
      assert p in t.live && t.live[p] == h.live[p];
    }
  }

  // ---------------------------------------------------------------- writes inside one allocated block

  /** Only the payload of `b` is written. */
  ghost predicate WritesIn(b: Block, mem: Memory, mem': Memory)
  {
    forall x: nat :: !InPayload(b, x) ==> At(mem', x) == At(mem, x)
  }

  /** The caller at `p` is now the caller at `q`, inside the same block. */
  ghost function Regrant(h: Heap, p: nat, q: nat, g: Grant, mem': Memory): (r: Heap)
  {
    h.(mem := mem', live := (h.live - {p})[q := g])
  }

  lemma GoodRegrant(h: Heap, p: nat, q: nat, g: Grant, mem': Memory)
    requires Good(h) && p in h.live && g.block == h.live[p].block && WritesIn(g.block, h.mem, mem')
    requires GrantOk(mem', h.bs, q, g)
    ensures Good(Regrant(h, p, q, g, mem')) && Intact(h.live - {p}, h.mem, mem')
    ensures q != p ==> q !in h.live
  {
    hide Rep, Apart, Backed, LiveOk, AllOwned, Intact, GrantOk, WritesIn;
    var i := GrantBlock(h, p);
    RepPayload(h.mem, h.head, h.bs, i, mem');
    forall r | r in h.live && r != p
      ensures r != q && GrantOk(mem', h.bs, r, h.live[r]) && h.live[r].block.addr != g.block.addr
    {
      OtherGrant(h, p, q, g, mem', r);
    }
    RegrantLive(h, p, q, g, mem');
    RegrantIntact(h, p, i, mem');
  }

  lemma OtherGrant(h: Heap, p: nat, q: nat, g: Grant, mem': Memory, r: nat)
    requires Apart(h.bs) && LiveOk(h.mem, h.bs, h.live) && p in h.live && r in h.live && r != p
    requires g.block == h.live[p].block && WritesIn(g.block, h.mem, mem') && GrantOk(mem', h.bs, q, g)
    ensures r != q && GrantOk(mem', h.bs, r, h.live[r]) && h.live[r].block.addr != g.block.addr
  {
  }

  lemma RegrantLive(h: Heap, p: nat, q: nat, g: Grant, mem': Memory)
    requires LiveOk(h.mem, h.bs, h.live) && AllOwned(h.bs, h.live) && p in h.live && g.block == h.live[p].block
    requires GrantOk(mem', h.bs, q, g)
    requires forall r ::
               r in h.live && r != p ==>
                 r != q && GrantOk(mem', h.bs, r, h.live[r]) && h.live[r].block.addr != g.block.addr
    ensures LiveOk(mem', h.bs, Regrant(h, p, q, g, mem').live) && AllOwned(h.bs, Regrant(h, p, q, g, mem').live)
  {
    hide GrantOk;
    var live := Regrant(h, p, q, g, mem').live;
    forall j | 0 <= j < |h.bs| && !h.bs[j].free ensures Owned(h.bs[j], live) {
      assert Owned(h.bs[j], h.live);
      var r :| r in h.live && h.live[r].block == h.bs[j];
      if r == p {
        assert live[q].block == h.bs[j];
      } else {
        assert live[r].block == h.bs[j];
      }
    }
  }

  lemma RegrantIntact(h: Heap, p: nat, i: nat, mem': Memory)
    requires LiveOk(h.mem, h.bs, h.live) && Apart(h.bs) && p in h.live && i < |h.bs| && h.bs[i] == h.live[p].block
    requires WritesIn(h.bs[i], h.mem, mem')
    ensures Intact(h.live - {p}, h.mem, mem')
  {
  }

  /** Writing outside every header keeps the list. */
  lemma RepPayload(mem: Memory, head: nat, bs: seq<Block>, i: nat, mem': Memory)
    requires Rep(mem, head, bs) && Apart(bs) && i < |bs| && WritesIn(bs[i], mem, mem')
    ensures Rep(mem', head, bs)
  {
    forall j | 0 <= j < |bs| ensures Header(mem', bs[j], AddrOf(bs, j + 1), AddrOf(bs, j - 1)) {
      assert Header(mem, bs[j], AddrOf(bs, j + 1), AddrOf(bs, j - 1));
      HeaderElsewhere(mem, bs, i, mem', j);
    }
  }

  lemma HeaderElsewhere(mem: Memory, bs: seq<Block>, i: nat, mem': Memory, j: nat)
    requires Apart(bs) && i < |bs| && j < |bs| && WritesIn(bs[i], mem, mem')
    ensures forall x :: InHeader(bs[j], x) ==> At(mem', x) == At(mem, x)
  {
  }
}

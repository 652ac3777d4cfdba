/** Runs of heap calls, as their callers see them. */
module HeapRuns {
  import opened Bits
  import opened Pmm
  import opened HeapBlocks
  import opened HeapMemory
  import opened HeapState
  import opened Heap

  datatype Call =
    | Malloc(size: nat)
    | MallocAligned(size: nat, exponent: nat)
    | Free(p: nat)
    | Put(p: nat, offset: nat, word: nat)
    | Fetch(p: nat, offset: nat)

  /** What callers know: how many bytes they hold at each pointer, and the words they have stored in them. */
  datatype Client = Client(held: map<nat, nat>, stored: map<nat, nat>)

  predicate Holds(c: Client, p: nat, x: int)
  {
    p in c.held && p <= x < p + c.held[p]
  }

  predicate InPlace(c: Client, p: nat, offset: nat)
  {
    p in c.held && offset % 4 == 0 && offset + 4 <= c.held[p]
  }

  /** Callers free and access only what they hold, and ask for sizes whose rounding does not wrap. */
  predicate Legal(c: Client, call: Call)
  {
    match call
    case Malloc(size) => size <= WORD - 8
    case MallocAligned(size, exponent) => size + AtLeastMinimum(Pow2(exponent)) + ALIGNED_HEADER <= WORD - 8
    case Free(p) => p == 0 || p in c.held
    case Put(p, offset, _) => InPlace(c, p, offset)
    case Fetch(p, offset) => InPlace(c, p, offset)
  }

  /** Null, or bytes that nobody holds. */
  ghost predicate Gets(c: Client, p: nat, size: nat, alignment: nat, c': Client)
    requires alignment > 0
  {
    if p == 0 then c' == c
    else
      && p % alignment == 0 && p !in c.held && c' == c.(held := c.held[p := size])
      && forall q: nat, x: nat :: Holds(c, q, x) ==> !(p <= x < p + size)
  }

  function Without(c: Client, p: nat): (c': Client)
  {
    Client(c.held - {p}, map x | x in c.stored && !Holds(c, p, x) :: c.stored[x])
  }

  /** What a call means to callers, with no heap in sight. Calls that are not legal are not made. */
  ghost predicate ClientStep(c: Client, call: Call, reply: nat, c': Client)
  {
    if !Legal(c, call) then reply == 0 && c' == c
    else
      match call
      case Malloc(size) => Gets(c, reply, size, 8, c')
      case MallocAligned(size, exponent) => Gets(c, reply, size, Pow2(exponent), c')
      case Free(p) => c' == Without(c, p)
      case Put(p, offset, word) => c' == c.(stored := c.stored[p + offset := word])
      case Fetch(p, offset) => c' == c && (p + offset in c.stored ==> reply == c.stored[p + offset])
  }

  ghost predicate ClientRun(clients: seq<Client>, calls: seq<Call>, replies: seq<nat>)
  {
    && |clients| == |calls| + 1 == |replies| + 1
    && forall i :: 0 <= i < |calls| ==> ClientStep(clients[i], calls[i], replies[i], clients[i + 1])
  }

  /** Nothing between calls `i` and `j` stores to `x` or frees the bytes around it. */
  ghost predicate LeftAlone(clients: seq<Client>, calls: seq<Call>, x: nat, i: nat, j: nat)
    requires |calls| < |clients| && j <= |calls|
  {
    forall k :: i < k < j ==>
      && (calls[k].Put? ==> calls[k].p + calls[k].offset != x)
      && (calls[k].Free? ==> !Holds(clients[k], calls[k].p, x))
  }

  lemma {:induction false} StoredStays(clients: seq<Client>, calls: seq<Call>, replies: seq<nat>, x: nat, i: nat,
                                       j: nat)
    requires ClientRun(clients, calls, replies) && i < j <= |calls| && x in clients[i + 1].stored
    requires LeftAlone(clients, calls, x, i, j)
    ensures x in clients[j].stored && clients[j].stored[x] == clients[i + 1].stored[x]
    decreases j
  {
    if j > i + 1 {
      StoredStays(clients, calls, replies, x, i, j - 1);
      assert ClientStep(clients[j - 1], calls[j - 1], replies[j - 1], clients[j]);
    }
  }

  /** Whatever else is allocated, freed, split or merged in between, a caller reads the word it stored. */
  lemma ReadsWhatItStored(clients: seq<Client>, calls: seq<Call>, replies: seq<nat>, i: nat, j: nat)
    requires ClientRun(clients, calls, replies) && i < j < |calls|
    requires calls[i].Put? && Legal(clients[i], calls[i]) && calls[j].Fetch? && Legal(clients[j], calls[j])
    requires calls[j].p + calls[j].offset == calls[i].p + calls[i].offset
    requires LeftAlone(clients, calls, calls[i].p + calls[i].offset, i, j)
    ensures replies[j] == calls[i].word
  {
    assert ClientStep(clients[i], calls[i], replies[i], clients[i + 1]);
    StoredStays(clients, calls, replies, calls[i].p + calls[i].offset, i, j);
    assert ClientStep(clients[j], calls[j], replies[j], clients[j + 1]);
  }

  // ---------------------------------------------------------------- the heap serves its callers

  /** The heap has granted what callers hold, and their words are in memory. */
  ghost predicate Serves(h: HeapState.Heap, c: Client)
  {
    && c.held.Keys == h.live.Keys && (forall p :: p in h.live ==> c.held[p] <= h.live[p].size)
    && (forall x :: x in c.stored ==> At(h.mem, x) == c.stored[x])
    && (forall x :: x in c.stored ==> SomeoneHolds(c, x))
  }

  ghost predicate SomeoneHolds(c: Client, x: nat)
  {
    exists p: nat :: Holds(c, p, x)
  }

  lemma WordKept(h: HeapState.Heap, c: Client, x: nat, live: map<nat, Grant>, mem': Memory)
    requires Serves(h, c) && x in c.stored && Intact(live, h.mem, mem')
    requires forall p :: Holds(c, p, x) ==> p in live && live[p] == h.live[p]
    ensures At(mem', x) == c.stored[x]
  {
  }

  /** A new grant meets nobody's bytes. */
  lemma Granted(h: HeapState.Heap, h': HeapState.Heap, c: Client, p: nat, size: nat, alignment: nat)
    requires Serves(h, c) && Good(h') && Intact(h.live, h.mem, h'.mem) && alignment > 0 && p % alignment == 0 && p != 0
    requires p !in h.live && p in h'.live && h'.live == h.live[p := h'.live[p]] && size <= h'.live[p].size
    ensures var c' := c.(held := c.held[p := size]); Gets(c, p, size, alignment, c') && Serves(h', c')
  {
    hide Good, Intact;
    var c' := c.(held := c.held[p := size]);
    forall x | x in c.stored ensures At(h'.mem, x) == c.stored[x] && SomeoneHolds(c', x) {
      WordKept(h, c, x, h.live, h'.mem);
      var q: nat :| Holds(c, q, x);
      assert Holds(c', q, x);
    }
    forall q: nat, x: nat | Holds(c, q, x) ensures !(p <= x < p + size) {
      LivePayloads(h', q, x);
    }
  }

  /** Giving one grant back leaves the words in the others. */
  lemma GivenBack(h: HeapState.Heap, h': HeapState.Heap, c: Client, p: nat)
    requires Serves(h, c) && Good(h) && p in h.live && h'.live == h.live - {p} && Intact(h'.live, h.mem, h'.mem)
    ensures Serves(h', Without(c, p))
  {
    hide Good, Intact;
    var c' := Without(c, p);
    forall x | x in c'.stored ensures At(h'.mem, x) == c'.stored[x] && SomeoneHolds(c', x) {
      WordKept(h, c, x, h'.live, h'.mem);
      var q: nat :| Holds(c, q, x);
      assert Holds(c', q, x);
    }
  }

  lemma SameServes(h: HeapState.Heap, h': HeapState.Heap, c: Client)
    requires Serves(h, c) && h'.live == h.live && Intact(h.live, h.mem, h'.mem)
    ensures Serves(h', c)
  {
  }

  lemma WordStored(h: HeapState.Heap, h': HeapState.Heap, c: Client, p: nat, offset: nat, word: nat)
    requires Serves(h, c) && InPlace(c, p, offset) && h'.live == h.live && h'.mem == h.mem[p + offset := word]
    ensures Serves(h', c.(stored := c.stored[p + offset := word]))
  {
    var c' := c.(stored := c.stored[p + offset := word]);
    assert Holds(c', p, p + offset);
    forall x | x in c.stored ensures SomeoneHolds(c', x) {
      var q: nat :| Holds(c, q, x);
      assert Holds(c', q, x);
    }
  }

  lemma NothingAtNull(h: HeapState.Heap, c: Client)
    requires Good(h) && Serves(h, c)
    ensures 0 !in h.live && Without(c, 0) == c
  {
    hide Good, At;
    if 0 in h.live {
      LiveMarks(h, 0);
    }
    assert (map x | x in c.stored && !Holds(c, 0, x) :: c.stored[x]) == c.stored;
  }

  /** Make one call on behalf of a caller, if it is legal. */
  method Perform(heap: KernelHeap, call: Call, c: Client) returns (reply: nat, c': Client)
    requires heap.Valid() && Serves(heap.Snap(), c)
    modifies heap, heap.pmm`used, heap.pmm.words
    ensures heap.Valid() && ClientStep(c, call, reply, c') && Serves(heap.Snap(), c')
  {
    hide Good, Intact, FreeIn, NoFit, FirstFit, FreeRun, PagesNeeded, Serves, Gets, Rounded, Pow2, Freed;
    ghost var h := heap.Snap();
    reply, c' := 0, c;
    if !Legal(c, call) {
      return;
    }
    match call
    case Malloc(size) =>
      reply, c' := Allocate(heap, size, c);
    case MallocAligned(size, exponent) =>
      reply, c' := AllocateAligned(heap, size, exponent, c);
    case Free(p) =>
      ServesHeld(h, c);
      NothingAtNull(h, c);
      heap.Kfree(p);
      c' := Without(c, p);
      if p != 0 {
        GivenBack(h, heap.Snap(), c, p);
      }
    case Put(p, offset, word) =>
      ServesHeld(h, c);
      heap.Store(p, offset, word);
      c' := c.(stored := c.stored[p + offset := word]);
      WordStored(h, heap.Snap(), c, p, offset, word);
    case Fetch(p, offset) =>
      reply := At(heap.mem, p + offset);
      ServesHeld(h, c);
  }

  lemma ServesHeld(h: HeapState.Heap, c: Client)
    requires Serves(h, c)
    ensures c.held.Keys == h.live.Keys && (forall p :: p in h.live ==> c.held[p] <= h.live[p].size)
    ensures forall x :: x in c.stored ==> At(h.mem, x) == c.stored[x]
  {
  }

  method Allocate(heap: KernelHeap, size: nat, c: Client) returns (p: nat, c': Client)
    requires heap.Valid() && Serves(heap.Snap(), c) && size <= WORD - 8
    modifies heap, heap.pmm`used, heap.pmm.words
    ensures heap.Valid() && Gets(c, p, size, 8, c') && Serves(heap.Snap(), c')
  {
    hide Good, Intact, FreeIn, NoFit, FirstFit, FreeRun, PagesNeeded, Serves, Rounded;
    ghost var h := heap.Snap();
    ghost var grown: nat, from: seq<Block>;
    p, grown, from := heap.Kmalloc(size);
    c' := if p == 0 then c else c.(held := c.held[p := size]);
    if p == 0 {
      SameServes(h, heap.Snap(), c);
    } else {
      RoundedHolds(size);
      Granted(h, heap.Snap(), c, p, size, 8);
    }
  }

  method AllocateAligned(heap: KernelHeap, size: nat, exponent: nat, c: Client) returns (p: nat, c': Client)
    requires heap.Valid() && Serves(heap.Snap(), c)
    requires size + AtLeastMinimum(Pow2(exponent)) + ALIGNED_HEADER <= WORD - 8
    modifies heap, heap.pmm`used, heap.pmm.words
    ensures heap.Valid() && Gets(c, p, size, Pow2(exponent), c') && Serves(heap.Snap(), c')
  {
    hide Good, Intact, FreeIn, NoFit, FirstFit, FreeRun, PagesNeeded, Serves, Rounded, Pow2;
    ghost var h := heap.Snap();
    p := heap.KmallocAligned(size, Pow2(exponent), exponent);
    c' := if p == 0 then c else c.(held := c.held[p := size]);
    if p == 0 {
      SameServes(h, heap.Snap(), c);
    } else {
      Granted(h, heap.Snap(), c, p, size, Pow2(exponent));
    }
  }

  /** Any run of calls: to its callers the heap is a store of their own words, in memory that nobody else has. */
  method RunAll(heap: KernelHeap, calls: seq<Call>) returns (replies: seq<nat>, clients: seq<Client>)
    requires heap.Valid() && heap.live == map[]
    modifies heap, heap.pmm`used, heap.pmm.words
    ensures heap.Valid() && ClientRun(clients, calls, replies) && clients[0] == Client(map[], map[])
    ensures Serves(heap.Snap(), clients[|calls|])
    ensures forall p: nat, q: nat, x: nat :: Holds(clients[|calls|], p, x) && Holds(clients[|calls|], q, x) ==> p == q
    ensures forall p: nat, x: nat ::
              Holds(clients[|calls|], p, x) ==> x / PAGE_SIZE in heap.pmm.usable && x / PAGE_SIZE !in heap.pmm.Free()
  {
    hide Good, FreeIn, ClientStep, Serves;
    var c := Client(map[], map[]);
    replies, clients := [], [c];
    NobodyYet(heap.Snap());
    for i := 0 to |calls|
      invariant heap.Valid() && ClientRun(clients, calls[..i], replies) && clients[0] == Client(map[], map[])
      invariant clients[i] == c && Serves(heap.Snap(), c)
    {
      var reply, c' := Perform(heap, calls[i], c);
      replies, clients, c := replies + [reply], clients + [c'], c';
    }
    assert calls[..|calls|] == calls;
    ServesHeld(heap.Snap(), c);
    forall p: nat, x: nat | Holds(c, p, x)
      ensures x / PAGE_SIZE in heap.pmm.usable && x / PAGE_SIZE !in heap.pmm.Free()
      ensures forall q: nat :: Holds(c, q, x) ==> p == q
    {
      LivePayloads(heap.Snap(), p, x);
    }
  }

  lemma NobodyYet(h: HeapState.Heap)
    requires h.live == map[]
    ensures Serves(h, Client(map[], map[]))
  {
  }

  // ---------------------------------------------------------------- a call and its inverse

  lemma SameBlock(bs: seq<Block>, i: nat, j: nat)
    requires Apart(bs) && i < |bs| && j < |bs| && bs[i].addr == bs[j].addr
    ensures i == j
  {
  }

  /** The block list and the free pages of a grown heap are back after the free. */
  lemma Returned(bs: seq<Block>, size: nat, n: nat, p: nat, count: nat, grown: seq<Block>, taken: seq<Block>, b: Block,
                 after: seq<Block>, free: set<nat>, left: set<nat>, back: set<nat>)
    requires NoFit(bs, size) && (bs != [] ==> !bs[|bs| - 1].free) && Apart(taken) && b.addr + HEADER == p
    requires Grown(bs, free, grown, left, count, 1) && ServedFirst(grown, size, n, p, taken)
    requires Freed(taken, b, after, left, back)
    ensures after == bs && back == free
  {
    hide Apart, Run, FreedAt, Served;
    var page: nat :| count > 0 && AddsRegion(bs, free, grown, left, page, count);
    var i: nat :| FirstFit(grown, i, size) && grown[i].addr + HEADER == p && Served(grown, i, n, taken);
    assert i == |bs|;
    var j :| 0 <= j < |taken| && taken[j] == b && FreedAt(taken[j := b.(free := true)], j, after, left, back);
    ServedAt(grown, i, n, taken);
    SameBlock(taken, i, j);
    GrowthUndone(bs, n, page, count, grown, taken, after, free, left, back);
  }

  /** A block that no listed one could serve comes from a new region. */
  lemma Needed(bs: seq<Block>, size: nat, p: nat, free: set<nat>, grown: seq<Block>, left: set<nat>, count: nat, k: nat,
               n: nat, taken: seq<Block>)
    requires NoFit(bs, size) && k <= 1 && Grown(bs, free, grown, left, count, k)
    requires ServedFirst(grown, size, n, p, taken)
    ensures k == 1
  {
  }

  lemma ServedAt(bs: seq<Block>, i: nat, n: nat, after: seq<Block>)
    requires Served(bs, i, n, after)
    ensures i < |after| && after[i].addr == bs[i].addr
  {
  }

  lemma GoodParts(h: HeapState.Heap)
    requires Good(h)
    ensures Apart(h.bs) && 0 !in h.live
  {
  }

  /** Allocating and freeing at once leaves what callers hold; where no block fits and the last one is taken, so that
      the heap has to grow, it also leaves the block list and the free pages. */
  method AllocateAndFree(h: KernelHeap, size: nat) returns (p: nat)
    requires h.Valid() && 0 < size <= WORD - PAGE_SIZE - HEADER
    modifies h, h.pmm`used, h.pmm.words
    ensures h.Valid() && h.live == old(h.live) && h.used == old(h.used) && Intact(h.live, old(h.mem), h.mem)
    ensures NoFit(old(h.bs), size) && (old(h.bs) != [] ==> !old(h.bs)[|old(h.bs)| - 1].free) ==>
              h.bs == old(h.bs) && h.pmm.Free() == old(h.pmm.Free())
  {
    hide Good, Intact, Grown, Freed, LeastPages, PagesNeeded, Rounded, Run;
    ghost var bs, free, mem := h.bs, h.pmm.Free(), h.mem;
    ghost var grown, from;
    p, grown, from := h.Kmalloc(size);
    GoodParts(h.Snap());
    ghost var given, taken, left, between := h.live, h.bs, h.pmm.Free(), h.mem;
    h.Kfree(p);
    if p != 0 {
      assert h.live == old(h.live);
      IntactTrans(old(h.live), mem, between, h.mem);
      if NoFit(bs, size) && (bs != [] ==> !bs[|bs| - 1].free) {
        Needed(bs, size, p, free, from, left, PagesNeeded(Rounded(size)), grown, given[p].size, taken);
        Returned(bs, size, given[p].size, p, PagesNeeded(Rounded(size)), from, taken, given[p].block, h.bs, free, left,
                 h.pmm.Free());
      }
    }
  }
}

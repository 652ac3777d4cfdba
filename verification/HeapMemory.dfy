/** The block list as the kernel keeps it: headers in raw memory, linked both ways. */
module HeapMemory {
  import opened HeapBlocks

  const MAGIC: nat := 0xC0DE_F00D

  /** Memory words by the address of their first byte. Headers, tags and stores use addresses that are multiples
      of 4, so no two words overlap. */
  type Memory = map<nat, nat>

  function At(mem: Memory, a: nat): (w: nat)
  {
    if a in mem then mem[a] else 0
  }

  /** The fields of a header: magic, size, page_count, free, next, prev. */
  ghost predicate Header(mem: Memory, b: Block, next: nat, prev: nat)
  {
    && At(mem, b.addr) == MAGIC && At(mem, b.addr + 4) == b.size && At(mem, b.addr + 8) == b.pages
    && (At(mem, b.addr + 12) != 0 <==> b.free)
    && At(mem, b.addr + 16) == next && At(mem, b.addr + 20) == prev
  }

  /** Address of block `i`, and 0 outside the list. */
  function AddrOf(bs: seq<Block>, i: int): (a: nat)
  {
    if 0 <= i < |bs| then bs[i].addr else 0
  }

  /** The list in memory is `bs`. */
  ghost predicate Rep(mem: Memory, head: nat, bs: seq<Block>)
  {
    && head == AddrOf(bs, 0)
    && forall i :: 0 <= i < |bs| ==> Header(mem, bs[i], AddrOf(bs, i + 1), AddrOf(bs, i - 1))
  }

  predicate InHeader(b: Block, x: nat)
  {
    b.addr <= x < b.addr + HEADER
  }

  /** A write outside a header leaves it alone. */
  lemma PokeKeeps(mem: Memory, x: nat, w: nat, b: Block, next: nat, prev: nat)
    requires Header(mem, b, next, prev) && !InHeader(b, x)
    ensures Header(mem[x := w], b, next, prev)
  {
  }

  /** A byte of one block is in no other block's header. */
  lemma Elsewhere(bs: seq<Block>, i: nat, j: nat, x: nat)
    requires Apart(bs) && i < |bs| && j < |bs| && i != j && bs[i].addr <= x < End(bs[i])
    ensures !InHeader(bs[j], x)
  {
  }

  /** Distinct blocks have distinct addresses, and none is null. */
  lemma Addresses(bs: seq<Block>, i: nat, j: nat)
    requires Apart(bs) && i < |bs| && j < |bs|
    ensures bs[i].addr > 0 && bs[j].addr > 0 && (i != j ==> bs[j].addr != bs[i].addr)
  {
  }

  /** Where block `j` of a list is in the list after a replacement. */
  lemma Replaced(bs: seq<Block>, i: nat, n: nat, ns: seq<Block>, j: nat)
    requires i + n <= |bs| && j < |bs| - n + |ns|
    ensures Replace(bs, i, n, ns)[j] == if j < i then bs[j] else if j < i + |ns| then ns[j - i] else bs[j - |ns| + n]
  {
  }

  lemma AddrReplaced(bs: seq<Block>, i: nat, n: nat, ns: seq<Block>, j: int)
    requires i + n <= |bs|
    ensures AddrOf(Replace(bs, i, n, ns), j)
            == if j < i then AddrOf(bs, j) else if j < i + |ns| then ns[j - i].addr else AddrOf(bs, j - |ns| + n)
  {
  }

  lemma RepAt(mem: Memory, head: nat, bs: seq<Block>, j: nat)
    requires Rep(mem, head, bs) && j < |bs|
    ensures Header(mem, bs[j], AddrOf(bs, j + 1), AddrOf(bs, j - 1))
  {
  }

  // ---------------------------------------------------------------- free flag

  function FlagMem(mem: Memory, addr: nat, free: bool): (r: Memory)
  {
    mem[addr + 12 := if free then 1 else 0]
  }

  lemma RepFlag(mem: Memory, head: nat, bs: seq<Block>, i: nat, free: bool)
    requires Rep(mem, head, bs) && Apart(bs) && i < |bs|
    ensures Rep(FlagMem(mem, bs[i].addr, free), head, bs[i := bs[i].(free := free)])
  {
    var bs' := bs[i := bs[i].(free := free)];
    forall j | 0 <= j < |bs'|
      ensures Header(FlagMem(mem, bs[i].addr, free), bs'[j], AddrOf(bs', j + 1), AddrOf(bs', j - 1))
    {
      RepFlagAt(mem, head, bs, i, free, j);
    }
  }

  lemma RepFlagAt(mem: Memory, head: nat, bs: seq<Block>, i: nat, free: bool, j: nat)
    requires Rep(mem, head, bs) && Apart(bs) && i < |bs| && j < |bs|
    ensures var bs' := bs[i := bs[i].(free := free)];
            Header(FlagMem(mem, bs[i].addr, free), bs'[j], AddrOf(bs', j + 1), AddrOf(bs', j - 1))
  {
    hide Apart, Header, Rep;
    RepAt(mem, head, bs, j);
    if j != i {
      Elsewhere(bs, i, j, bs[i].addr + 12);
      PokeKeeps(mem, bs[i].addr + 12, if free then 1 else 0, bs[j], AddrOf(bs, j + 1), AddrOf(bs, j - 1));
    } else {
      FlagHeader(mem, bs[i], free, AddrOf(bs, i + 1), AddrOf(bs, i - 1));
    }
  }

  lemma FlagHeader(mem: Memory, b: Block, free: bool, next: nat, prev: nat)
    requires Header(mem, b, next, prev)
    ensures Header(FlagMem(mem, b.addr, free), b.(free := free), next, prev)
  {
  }

  // ---------------------------------------------------------------- whole headers

  /** Write a header. */
  function HeaderMem(mem: Memory, b: Block, next: nat, prev: nat): (r: Memory)
  {
    mem[b.addr := MAGIC][b.addr + 4 := b.size][b.addr + 8 := b.pages][b.addr + 12 := if b.free then 1 else 0]
        [b.addr + 16 := next][b.addr + 20 := prev]
  }

  lemma HeaderMemAt(mem: Memory, b: Block, next: nat, prev: nat)
    ensures Header(HeaderMem(mem, b, next, prev), b, next, prev)
  {
  }

  lemma HeaderMemKeeps(mem: Memory, b: Block, next: nat, prev: nat, other: Block, onext: nat, oprev: nat)
    requires Header(mem, other, onext, oprev) && (b.addr + HEADER <= other.addr || other.addr + HEADER <= b.addr)
    ensures Header(HeaderMem(mem, b, next, prev), other, onext, oprev)
  {
  }

  lemma NextHeader(mem: Memory, b: Block, next: nat, prev: nat, next': nat)
    requires Header(mem, b, next, prev)
    ensures Header(mem[b.addr + 16 := next'], b, next', prev)
  {
  }

  lemma PrevHeader(mem: Memory, b: Block, next: nat, prev: nat, prev': nat)
    requires Header(mem, b, next, prev)
    ensures Header(mem[b.addr + 20 := prev'], b, next, prev')
  {
  }

  lemma SizeHeader(mem: Memory, b: Block, next: nat, prev: nat, size: nat)
    requires Header(mem, b, next, prev)
    ensures Header(mem[b.addr + 4 := size], b.(size := size), next, prev)
  {
  }

  // ---------------------------------------------------------------- appending a region

  /** The writes of `block_from_pages` behind the last block `tail`. */
  function AppendMem(mem: Memory, tail: nat, b: Block): (r: Memory)
  {
    HeaderMem(mem, b, 0, 0)[tail + 16 := b.addr][b.addr + 20 := tail]
  }

  lemma RepAppendEmpty(mem: Memory, b: Block)
    ensures Rep(HeaderMem(mem, b, 0, 0), b.addr, [b])
  {
  }

  lemma RepAppend(mem: Memory, head: nat, bs: seq<Block>, b: Block)
    requires Rep(mem, head, bs) && Apart(bs + [b]) && bs != []
    ensures Rep(AppendMem(mem, bs[|bs| - 1].addr, b), head, bs + [b])
  {
    hide Apart, Header, AppendMem;
    var bs', m := bs + [b], AppendMem(mem, bs[|bs| - 1].addr, b);
    forall j | 0 <= j < |bs'| ensures Header(m, bs'[j], AddrOf(bs', j + 1), AddrOf(bs', j - 1)) {
      RepAppendAt(mem, head, bs, b, j);
    }
  }

  lemma RepAppendAt(mem: Memory, head: nat, bs: seq<Block>, b: Block, j: nat)
    requires Rep(mem, head, bs) && Apart(bs + [b]) && bs != [] && j <= |bs|
    ensures var bs' := bs + [b];
            Header(AppendMem(mem, bs[|bs| - 1].addr, b), bs'[j], AddrOf(bs', j + 1), AddrOf(bs', j - 1))
  {
    hide Apart, Header, HeaderMem, Rep;
    var bs', last := bs + [b], |bs| - 1;
    var tail := bs[last].addr;
    var m1 := HeaderMem(mem, b, 0, 0);
    var m2 := m1[tail + 16 := b.addr];
    assert bs'[|bs|] == b && bs'[last] == bs[last];
    if j == |bs| {
      HeaderMemAt(mem, b, 0, 0);
      Elsewhere(bs', last, |bs|, tail + 16);
      PokeKeeps(m1, tail + 16, b.addr, b, 0, 0);
      PrevHeader(m2, b, 0, 0, tail);
    } else {
      assert bs'[j] == bs[j];
      RepAt(mem, head, bs, j);
      Elsewhere(bs', |bs|, j, b.addr);
      Elsewhere(bs', |bs|, j, b.addr + 23);
      HeaderMemKeeps(mem, b, 0, 0, bs[j], AddrOf(bs, j + 1), AddrOf(bs, j - 1));
      Elsewhere(bs', |bs|, j, b.addr + 20);
      if j == last {
        NextHeader(m1, bs[j], 0, AddrOf(bs, j - 1), b.addr);
      } else {
        Elsewhere(bs', last, j, tail + 16);
        PokeKeeps(m1, tail + 16, b.addr, bs[j], AddrOf(bs, j + 1), AddrOf(bs, j - 1));
      }
      PokeKeeps(m2, b.addr + 20, tail, bs[j], if j == last then b.addr else AddrOf(bs, j + 1), AddrOf(bs, j - 1));
    }
  }

  // ---------------------------------------------------------------- splitting

  /** The writes of `split_block`. The page count of the new header is never set; `stale` is what was there. */
  function SplitMem(mem: Memory, b: Block, next: nat, size: nat, stale: nat): (r: Memory)
    requires size + HEADER <= b.size
  {
    var rest := Rest(b, size, stale);
    var m := HeaderMem(mem, rest, next, b.addr);
    (if next != 0 then m[next + 20 := rest.addr] else m)[b.addr + 16 := rest.addr][b.addr + 4 := size]
  }

  lemma RepSplit(mem: Memory, head: nat, bs: seq<Block>, i: nat, size: nat, stale: nat)
    requires Rep(mem, head, bs) && Apart(bs) && i < |bs| && size + HEADER <= bs[i].size
    ensures Rep(SplitMem(mem, bs[i], AddrOf(bs, i + 1), size, stale), head,
              Replace(bs, i, 1, [Front(bs[i], size), Rest(bs[i], size, stale)]))
  {
    var ns := [Front(bs[i], size), Rest(bs[i], size, stale)];
    var bs' := Replace(bs, i, 1, ns);
    forall j | 0 <= j < |bs'|
        ensures Header(SplitMem(mem, bs[i], AddrOf(bs, i + 1), size, stale), bs'[j], AddrOf(bs', j + 1),
        AddrOf(bs', j - 1)) {
      RepSplitAt(mem, head, bs, i, size, stale, j);
    }
    AddrReplaced(bs, i, 1, ns, 0);
  }

  lemma RepSplitAt(mem: Memory, head: nat, bs: seq<Block>, i: nat, size: nat, stale: nat, j: nat)
    requires Rep(mem, head, bs) && Apart(bs) && i < |bs| && size + HEADER <= bs[i].size && j < |bs| + 1
    ensures var bs' := Replace(bs, i, 1, [Front(bs[i], size), Rest(bs[i], size, stale)]);
            Header(SplitMem(mem, bs[i], AddrOf(bs, i + 1), size, stale), bs'[j], AddrOf(bs', j + 1), AddrOf(bs', j - 1))
  {
    hide Apart, Header, SplitMem, Replace, Rep;
    var ns := [Front(bs[i], size), Rest(bs[i], size, stale)];
    Replaced(bs, i, 1, ns, j);
    AddrReplaced(bs, i, 1, ns, j + 1);
    AddrReplaced(bs, i, 1, ns, j - 1);
    var k := if j <= i then j else j - 1;
    RepAt(mem, head, bs, k);
    if j == i {
      SplitFront(mem, bs, i, size, stale);
    } else if j == i + 1 {
      SplitRest(mem, bs, i, size, stale);
    } else {
      SplitOther(mem, bs, i, size, stale, k);
    }
  }

  /** The first header after a split. */
  lemma SplitFront(mem: Memory, bs: seq<Block>, i: nat, size: nat, stale: nat)
    requires Apart(bs) && i < |bs| && size + HEADER <= bs[i].size
    requires Header(mem, bs[i], AddrOf(bs, i + 1), AddrOf(bs, i - 1))
    ensures Header(SplitMem(mem, bs[i], AddrOf(bs, i + 1), size, stale), Front(bs[i], size),
              bs[i].addr + HEADER + size, AddrOf(bs, i - 1))
  {
    hide Apart, Header, HeaderMem;
    var b, next, prev := bs[i], AddrOf(bs, i + 1), AddrOf(bs, i - 1);
    var rest := Rest(b, size, stale);
    var m := HeaderMem(mem, rest, next, b.addr);
    HeaderMemKeeps(mem, rest, next, b.addr, b, next, prev);
    var m2 := if next != 0 then m[next + 20 := rest.addr] else m;
    if next != 0 {
      Elsewhere(bs, i + 1, i, next + 20);
      PokeKeeps(m, next + 20, rest.addr, b, next, prev);
    }
    NextHeader(m2, b, next, prev, rest.addr);
    SizeHeader(m2[b.addr + 16 := rest.addr], b, rest.addr, prev, size);
  }

  /** The second header after a split. */
  lemma SplitRest(mem: Memory, bs: seq<Block>, i: nat, size: nat, stale: nat)
    requires Apart(bs) && i < |bs| && size + HEADER <= bs[i].size
    ensures Header(SplitMem(mem, bs[i], AddrOf(bs, i + 1), size, stale), Rest(bs[i], size, stale), AddrOf(bs, i + 1),
              bs[i].addr)
  {
    hide Header, HeaderMem;
    var b, next := bs[i], AddrOf(bs, i + 1);
    var rest := Rest(b, size, stale);
    var m := HeaderMem(mem, rest, next, b.addr);
    HeaderMemAt(mem, rest, next, b.addr);
    var m2 := if next != 0 then m[next + 20 := rest.addr] else m;
    if next != 0 {
      assert Disjoint(bs[i], bs[i + 1]);
      PokeKeeps(m, next + 20, rest.addr, rest, next, b.addr);
    }
    PokeKeeps(m2, b.addr + 16, rest.addr, rest, next, b.addr);
    PokeKeeps(m2[b.addr + 16 := rest.addr], b.addr + 4, size, rest, next, b.addr);
  }

  /** The headers of the other blocks after a split: only the successor's back link changes. */
  lemma SplitOther(mem: Memory, bs: seq<Block>, i: nat, size: nat, stale: nat, j: nat)
    requires Apart(bs) && i < |bs| && size + HEADER <= bs[i].size && j < |bs| && j != i
    requires Header(mem, bs[j], AddrOf(bs, j + 1), AddrOf(bs, j - 1))
    ensures Header(SplitMem(mem, bs[i], AddrOf(bs, i + 1), size, stale), bs[j], AddrOf(bs, j + 1), if j == i + 1
              then bs[i].addr + HEADER + size else AddrOf(bs, j - 1))
  {
    hide Apart, Header, HeaderMem;
    var b, next, onext, oprev := bs[i], AddrOf(bs, i + 1), AddrOf(bs, j + 1), AddrOf(bs, j - 1);
    var rest := Rest(b, size, stale);
    var m := HeaderMem(mem, rest, next, b.addr);
    Elsewhere(bs, i, j, rest.addr);
    Elsewhere(bs, i, j, rest.addr + 23);
    HeaderMemKeeps(mem, rest, next, b.addr, bs[j], onext, oprev);
    var m2 := if next != 0 then m[next + 20 := rest.addr] else m;
    var prev := if j == i + 1 then rest.addr else oprev;
    if j == i + 1 {
      Addresses(bs, i, j);
      PrevHeader(m, bs[j], onext, oprev, rest.addr);
    } else if next != 0 {
      Elsewhere(bs, i + 1, j, next + 20);
      PokeKeeps(m, next + 20, rest.addr, bs[j], onext, oprev);
    }
    Elsewhere(bs, i, j, b.addr + 16);
    Elsewhere(bs, i, j, b.addr + 4);
    PokeKeeps(m2, b.addr + 16, rest.addr, bs[j], onext, prev);
    PokeKeeps(m2[b.addr + 16 := rest.addr], b.addr + 4, size, bs[j], onext, prev);
  }

  // ---------------------------------------------------------------- merging and unlinking

  /** The writes of `coalesce_next`. */
  function MergeMem(mem: Memory, a: Block, b: Block, next: nat): (r: Memory)
  {
    var m := mem[a.addr + 4 := a.size + HEADER + b.size][a.addr + 16 := next];
    if next != 0 then m[next + 20 := a.addr] else m
  }

  lemma RepMerge(mem: Memory, head: nat, bs: seq<Block>, i: nat)
    requires Rep(mem, head, bs) && Apart(bs) && i + 1 < |bs|
    ensures Rep(MergeMem(mem, bs[i], bs[i + 1], AddrOf(bs, i + 2)), head, Replace(bs, i, 2, [Merged(bs[i], bs[i + 1])]))
  {
    var ns := [Merged(bs[i], bs[i + 1])];
    var bs' := Replace(bs, i, 2, ns);
    forall j | 0 <= j < |bs'|
        ensures Header(MergeMem(mem, bs[i], bs[i + 1], AddrOf(bs, i + 2)), bs'[j], AddrOf(bs', j + 1),
        AddrOf(bs', j - 1)) {
      RepMergeAt(mem, head, bs, i, j);
    }
    AddrReplaced(bs, i, 2, ns, 0);
  }

  lemma RepMergeAt(mem: Memory, head: nat, bs: seq<Block>, i: nat, j: nat)
    requires Rep(mem, head, bs) && Apart(bs) && i + 1 < |bs| && j < |bs| - 1
    ensures var bs' := Replace(bs, i, 2, [Merged(bs[i], bs[i + 1])]);
            Header(MergeMem(mem, bs[i], bs[i + 1], AddrOf(bs, i + 2)), bs'[j], AddrOf(bs', j + 1), AddrOf(bs', j - 1))
  {
    hide Apart, Header, Replace, MergeMem, Rep;
    var ns := [Merged(bs[i], bs[i + 1])];
    Replaced(bs, i, 2, ns, j);
    AddrReplaced(bs, i, 2, ns, j + 1);
    AddrReplaced(bs, i, 2, ns, j - 1);
    var k := if j <= i then j else j + 1;
    RepAt(mem, head, bs, k);
    MergeHeader(mem, bs, i, k);
  }

  lemma MergeHeader(mem: Memory, bs: seq<Block>, i: nat, k: nat)
    requires Apart(bs) && i + 1 < |bs| && k < |bs| && k != i + 1
    requires Header(mem, bs[k], AddrOf(bs, k + 1), AddrOf(bs, k - 1))
    ensures Header(MergeMem(mem, bs[i], bs[i + 1], AddrOf(bs, i + 2)), if k == i then Merged(bs[i], bs[i + 1])
              else bs[k],
                   AddrOf(bs, if k == i then i + 2 else k + 1), AddrOf(bs, if k == i + 2 then i else k - 1))
  {
    hide Apart, Header;
    var a, next, onext, oprev := bs[i], AddrOf(bs, i + 2), AddrOf(bs, k + 1), AddrOf(bs, k - 1);
    var size := a.size + HEADER + bs[i + 1].size;
    var m1 := mem[a.addr + 4 := size];
    var m2 := m1[a.addr + 16 := next];
    if k == i {
      SizeHeader(mem, a, onext, oprev, size);
      NextHeader(m1, a.(size := size), onext, oprev, next);
      if next != 0 {
        Elsewhere(bs, i + 2, i, next + 20);
        PokeKeeps(m2, next + 20, a.addr, a.(size := size), next, oprev);
      }
    } else {
      Elsewhere(bs, i, k, a.addr + 4);
      Elsewhere(bs, i, k, a.addr + 16);
      PokeKeeps(mem, a.addr + 4, size, bs[k], onext, oprev);
      PokeKeeps(m1, a.addr + 16, next, bs[k], onext, oprev);
      if k == i + 2 {
        Addresses(bs, i, k);
        PrevHeader(m2, bs[k], onext, oprev, a.addr);
      } else if next != 0 {
        Elsewhere(bs, i + 2, k, next + 20);
        PokeKeeps(m2, next + 20, a.addr, bs[k], onext, oprev);
      }
    }
  }

  /** The writes of `unlink_block`. */
  function UnlinkMem(mem: Memory, prev: nat, next: nat): (r: Memory)
  {
    var m := if prev != 0 then mem[prev + 16 := next] else mem;
    if next != 0 then m[next + 20 := prev] else m
  }

  lemma RepUnlink(mem: Memory, head: nat, bs: seq<Block>, i: nat)
    requires Rep(mem, head, bs) && Apart(bs) && i < |bs|
    ensures Rep(UnlinkMem(mem, AddrOf(bs, i - 1), AddrOf(bs, i + 1)), if i == 0 then AddrOf(bs, 1)
              else head, Replace(bs, i, 1, []))
  {
    var bs' := Replace(bs, i, 1, []);
    forall j | 0 <= j < |bs'|
        ensures Header(UnlinkMem(mem, AddrOf(bs, i - 1), AddrOf(bs, i + 1)), bs'[j], AddrOf(bs', j + 1),
        AddrOf(bs', j - 1)) {
      RepUnlinkAt(mem, head, bs, i, j);
    }
    AddrReplaced(bs, i, 1, [], 0);
  }

  lemma RepUnlinkAt(mem: Memory, head: nat, bs: seq<Block>, i: nat, j: nat)
    requires Rep(mem, head, bs) && Apart(bs) && i < |bs| && j < |bs| - 1
    ensures var bs' := Replace(bs, i, 1, []);
            Header(UnlinkMem(mem, AddrOf(bs, i - 1), AddrOf(bs, i + 1)), bs'[j], AddrOf(bs', j + 1), AddrOf(bs', j - 1))
  {
    hide Apart, Header, Replace, UnlinkMem, Rep;
    Replaced(bs, i, 1, [], j);
    AddrReplaced(bs, i, 1, [], j + 1);
    AddrReplaced(bs, i, 1, [], j - 1);
    var k := if j < i then j else j + 1;
    RepAt(mem, head, bs, k);
    UnlinkHeader(mem, bs, i, k);
  }

  lemma UnlinkHeader(mem: Memory, bs: seq<Block>, i: nat, k: nat)
    requires Apart(bs) && i < |bs| && k < |bs| && k != i && Header(mem, bs[k], AddrOf(bs, k + 1), AddrOf(bs, k - 1))
    ensures Header(UnlinkMem(mem, AddrOf(bs, i - 1), AddrOf(bs, i + 1)), bs[k],
                   AddrOf(bs, if k + 1 == i then i + 1 else k + 1), AddrOf(bs, if k == i + 1 then i - 1 else k - 1))
  {
    hide Apart, Header;
    var prev, next, onext, oprev := AddrOf(bs, i - 1), AddrOf(bs, i + 1), AddrOf(bs, k + 1), AddrOf(bs, k - 1);
    var m := if prev != 0 then mem[prev + 16 := next] else mem;
    var nnext := if k + 1 == i then next else onext;
    if k + 1 == i {
      Addresses(bs, k, i);
      NextHeader(mem, bs[k], onext, oprev, next);
    } else if i > 0 {
      Elsewhere(bs, i - 1, k, prev + 16);
      Addresses(bs, i - 1, k);
      PokeKeeps(mem, prev + 16, next, bs[k], onext, oprev);
    }
    if k == i + 1 {
      Addresses(bs, k, i);
      PrevHeader(m, bs[k], nnext, oprev, prev);
    } else if i + 1 < |bs| {
      Elsewhere(bs, i + 1, k, next + 20);
      PokeKeeps(m, next + 20, prev, bs[k], nnext, oprev);
    }
  }
}

/** The heap as a list of blocks: extents, sums, and the list operations. */
module HeapBlocks {
  import opened Pmm

  const HEADER: nat := 24
  const MIN_SPLIT: nat := 32

  /** A block header and the payload behind it. `pages` is the region length the header claims. */
  datatype Block = Block(addr: nat, size: nat, pages: nat, free: bool)

  function End(b: Block): (r: nat)
  {
    b.addr + HEADER + b.size
  }

  predicate Shaped(b: Block)
  {
    b.addr > 0 && b.addr % 8 == 0 && b.size % 8 == 0 && b.pages < 0x10_0000
  }

  predicate Disjoint(a: Block, b: Block)
  {
    End(a) <= b.addr || End(b) <= a.addr
  }

  /** Every block is well shaped and no two extents touch the same byte. */
  ghost predicate Apart(bs: seq<Block>)
  {
    && (forall i :: 0 <= i < |bs| ==> Shaped(bs[i]))
    && (forall i, j :: 0 <= i < j < |bs| ==> Disjoint(bs[i], bs[j]))
  }

  predicate Touches(b: Block, page: nat)
  {
    b.addr < (page + 1) * PAGE_SIZE && page * PAGE_SIZE < End(b)
  }

  /** The pages under every block are usable and not free in the page allocator. */
  ghost predicate Backed(bs: seq<Block>, usable: set<nat>, free: set<nat>)
  {
    forall i, p: nat :: 0 <= i < |bs| && Touches(bs[i], p) ==> p in usable && p !in free
  }

  // ---------------------------------------------------------------- sums

  function SumSize(bs: seq<Block>): (r: nat)
  {
    if bs == [] then 0 else SumSize(bs[..|bs| - 1]) + bs[|bs| - 1].size
  }

  function SumUsed(bs: seq<Block>): (r: nat)
  {
    if bs == [] then 0 else SumUsed(bs[..|bs| - 1]) + if bs[|bs| - 1].free then 0 else bs[|bs| - 1].size
  }

  lemma {:induction false} SumConcat(a: seq<Block>, b: seq<Block>)
    ensures SumSize(a + b) == SumSize(a) + SumSize(b) && SumUsed(a + b) == SumUsed(a) + SumUsed(b)
    decreases |b|
  {
    if b == [] {
      assert a + b == a;
    } else {
      SumConcat(a, b[..|b| - 1]);
      assert (a + b)[..|a + b| - 1] == a + b[..|b| - 1];
    }
  }

  lemma SumOne(b: Block)
    ensures SumSize([b]) == b.size && SumUsed([b]) == if b.free then 0 else b.size
  {
  }

  // ---------------------------------------------------------------- the list operations

  /** Replace blocks i .. i + n - 1 by `ns`. */
  function Replace(bs: seq<Block>, i: nat, n: nat, ns: seq<Block>): (r: seq<Block>)
    requires i + n <= |bs|
    ensures |r| == |bs| - n + |ns|
  {
    bs[..i] + ns + bs[i + n..]
  }

  lemma ReplaceSums(bs: seq<Block>, i: nat, n: nat, ns: seq<Block>)
    requires i + n <= |bs|
    ensures SumSize(Replace(bs, i, n, ns)) == SumSize(bs) - SumSize(bs[i..i + n]) + SumSize(ns)
    ensures SumUsed(Replace(bs, i, n, ns)) == SumUsed(bs) - SumUsed(bs[i..i + n]) + SumUsed(ns)
  {
    var a, m, c := bs[..i], bs[i..i + n], bs[i + n..];
    assert bs == a + m + c;
    SumConcat(a, m);
    SumConcat(a + m, c);
    SumConcat(a, ns);
    SumConcat(a + ns, c);
  }

  /** New blocks that lie inside the extents of the blocks they replace stay apart from the rest. */
  lemma ReplaceApart(bs: seq<Block>, i: nat, n: nat, ns: seq<Block>)
    requires i + n <= |bs| && Apart(bs) && Apart(ns)
    requires forall k, j :: 0 <= k < |ns| && 0 <= j < |bs| && !(i <= j < i + n) ==> Disjoint(ns[k], bs[j])
    ensures Apart(Replace(bs, i, n, ns))
  {
    var r := Replace(bs, i, n, ns);
    forall j | 0 <= j < |r| ensures Shaped(r[j]) {
    }
    forall j, k | 0 <= j < k < |r| ensures Disjoint(r[j], r[k]) {
      if j < i <= k < i + |ns| {
        assert Disjoint(ns[k - i], bs[j]);
      } else if i <= j < i + |ns| <= k {
        assert Disjoint(ns[j - i], bs[k - |ns| + n]);
      }
    }
  }

  /** Splitting block `i`: the front keeps `size` bytes, the rest becomes a free block with a header of its own. */
  function Front(b: Block, size: nat): (r: Block)
  {
    b.(size := size)
  }

  function Rest(b: Block, size: nat, stale: nat): (r: Block)
    requires size + HEADER <= b.size
    ensures r.addr == End(Front(b, size)) && End(r) == End(b)
  {
    Block(b.addr + HEADER + size, b.size - size - HEADER, stale, true)
  }

  lemma SplitApart(bs: seq<Block>, i: nat, size: nat, stale: nat)
    requires Apart(bs) && i < |bs| && size % 8 == 0 && size + HEADER <= bs[i].size && stale < 0x10_0000
    ensures Apart(Replace(bs, i, 1, [Front(bs[i], size), Rest(bs[i], size, stale)]))
  {
    var ns := [Front(bs[i], size), Rest(bs[i], size, stale)];
    assert Apart(ns);
    forall k, j | 0 <= k < |ns| && 0 <= j < |bs| && !(i <= j < i + 1) ensures Disjoint(ns[k], bs[j]) {
      assert Disjoint(bs[if j < i then j else i], bs[if j < i then i else j]);
    }
    ReplaceApart(bs, i, 1, ns);
  }

  /** Merging block `i` with its list successor, which must follow it in memory. */
  function Merged(a: Block, b: Block): (r: Block)
    ensures End(a) == b.addr ==> r.addr == a.addr && End(r) == End(b)
  {
    a.(size := a.size + HEADER + b.size)
  }

  lemma MergeApart(bs: seq<Block>, i: nat)
    requires Apart(bs) && i + 1 < |bs| && End(bs[i]) == bs[i + 1].addr
    ensures Apart(Replace(bs, i, 2, [Merged(bs[i], bs[i + 1])]))
  {
    var ns := [Merged(bs[i], bs[i + 1])];
    assert Apart(ns);
    forall k, j | 0 <= k < |ns| && 0 <= j < |bs| && !(i <= j < i + 2) ensures Disjoint(ns[k], bs[j]) {
      if j < i {
        assert Disjoint(bs[j], bs[i]) && Disjoint(bs[j], bs[i + 1]);
      } else {
        assert Disjoint(bs[i], bs[j]) && Disjoint(bs[i + 1], bs[j]);
      }
    }
    ReplaceApart(bs, i, 2, ns);
  }

  lemma FlagApart(bs: seq<Block>, i: nat, free: bool)
    requires Apart(bs) && i < |bs|
    ensures Apart(bs[i := bs[i].(free := free)])
  {
  }

  lemma RemoveApart(bs: seq<Block>, i: nat)
    requires Apart(bs) && i < |bs|
    ensures Apart(Replace(bs, i, 1, []))
  {
  }

  // ---------------------------------------------------------------- pages under the list

  lemma SplitBacked(bs: seq<Block>, i: nat, size: nat, stale: nat, usable: set<nat>, free: set<nat>)
    requires i < |bs| && size + HEADER <= bs[i].size && Backed(bs, usable, free)
    ensures Backed(Replace(bs, i, 1, [Front(bs[i], size), Rest(bs[i], size, stale)]), usable, free)
  {
  }

  lemma MergeBacked(bs: seq<Block>, i: nat, usable: set<nat>, free: set<nat>)
    requires i + 1 < |bs| && End(bs[i]) == bs[i + 1].addr && Backed(bs, usable, free)
    ensures Backed(Replace(bs, i, 2, [Merged(bs[i], bs[i + 1])]), usable, free)
  {
  }

  /** A fresh region lies on pages that were free, so it is apart from every block. */
  lemma RegionApart(bs: seq<Block>, usable: set<nat>, free: set<nat>, page: nat, count: nat)
    requires Apart(bs) && Backed(bs, usable, free) && Run(page, count) <= free && 0 < count < 0x10_0000 && page > 0
    ensures Apart(bs + [Block(page * PAGE_SIZE, count * PAGE_SIZE - HEADER, count, true)])
  {
    var n := Block(page * PAGE_SIZE, count * PAGE_SIZE - HEADER, count, true);
    forall j | 0 <= j < |bs| ensures Disjoint(bs[j], n) {
      OffRun(bs, usable, free, page, count, j);
    }
    RegionShaped(page, count);
    AppendApart(bs, n);
  }

  lemma RegionShaped(page: nat, count: nat)
    requires 0 < count < 0x10_0000 && page > 0
    ensures Shaped(Block(page * PAGE_SIZE, count * PAGE_SIZE - HEADER, count, true))
  {
    assert page * PAGE_SIZE == 8 * (512 * page);
    assert count * PAGE_SIZE - HEADER == 8 * (512 * count - 3);
  }

  lemma AppendApart(bs: seq<Block>, n: Block)
    requires Apart(bs) && Shaped(n) && forall j :: 0 <= j < |bs| ==> Disjoint(bs[j], n)
    ensures Apart(bs + [n])
  {
  }

  lemma OffRun(bs: seq<Block>, usable: set<nat>, free: set<nat>, page: nat, count: nat, j: nat)
    requires Backed(bs, usable, free) && Run(page, count) <= free && 0 < count && j < |bs|
    ensures End(bs[j]) <= page * PAGE_SIZE || (page + count) * PAGE_SIZE <= bs[j].addr
  {
  }

  lemma RegionBacked(bs: seq<Block>, usable: set<nat>, free: set<nat>, page: nat, count: nat)
    requires Backed(bs, usable, free) && Run(page, count) <= free <= usable && count > 0
    ensures Backed(bs + [Block(page * PAGE_SIZE, count * PAGE_SIZE - HEADER, count, true)], usable,
              free - Run(page, count))
  {
  }

  /** Returning the pages of one block that fills them leaves the other blocks backed. */
  lemma ReleaseBacked(bs: seq<Block>, i: nat, usable: set<nat>, free: set<nat>, page: nat, count: nat)
    requires Apart(bs) && Backed(bs, usable, free) && i < |bs|
    requires bs[i].addr == page * PAGE_SIZE && End(bs[i]) == (page + count) * PAGE_SIZE
    ensures Backed(Replace(bs, i, 1, []), usable, free + Run(page, count))
    ensures Run(page, count) <= usable && Run(page, count) !! free
  {
  }
}

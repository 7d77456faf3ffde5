/** The kernel heap together with the page allocator and the page tables that stand behind its pages. */
module MappedHeap {
  import opened Wrappers
  import opened Machine
  import opened FreeList
  import opened FreeListRelease
  import opened MergedPages
  import opened PageTree
  import opened PhysicalAllocator
  import opened PageTable
  import opened KernelMemory
  import H = Heap

  const HEAP_END := 0x6000_0000_0000

  /** The pages of block b are mapped, one after the other, to those of region r. */
  ghost predicate BackedBy(pages: map<nat, nat>, b: H.Block, r: Region) {
    && r.count * 0x1000 == H.RoundUp(b.size)
    && Extends(pages, b.start / 0x1000, r)
  }

  ghost predicate Extends(pages: map<nat, nat>, first: nat, r: Region) {
    forall n: nat {:trigger n in pages} ::
      first <= n < first + r.count ==> n in pages && pages[n] == r.start + (n - first)
  }

  /** The list is in address order, and the sentinel's pages are physical ones. */
  ghost predicate InOrder(nodes: seq<Region>) {
    Sorted(nodes) && nodes != [] && nodes[0].End() <= 0x800_0000
  }

  lemma TakenStaysInOrder(n: seq<Region>, n': seq<Region>, t: Tables, t': Tables)
    requires InOrder(n) && Taken(n, n', t, t')
    ensures InOrder(n')
  {
  }

  lemma MergeStaysInOrder(n: seq<Region>)
    requires InOrder(n) && WellFormed(n)
    ensures InOrder(Merge(n))
  {
    MergeKeepsOrder(n);
    var s := Merge(n);
    assert |s| > 1 ==> Below(s, 0, |s| - 1);
  }

  /** The pages of r are neither free nor page tables. */
  ghost predicate Owned(nodes: seq<Region>, t: Tables, r: Region) {
    forall p {:trigger r.Has(p)} :: r.Has(p) ==> 1 <= p && !Free(nodes, p) && p !in t.Values
  }

  /** No address of the heap lies under a big page. */
  ghost predicate NoBigPages(m: Memory, root: nat) {
    forall v: Word {:trigger Walk(m, root, v)} :: H.HEAP_START <= v < HEAP_END ==> !Walk(m, root, v).Huge?
  }

  lemma TablesKeepOwned(n: seq<Region>, n': seq<Region>, t: Tables, t': Tables, r: Region)
    requires Owned(n, t, r) && Taken(n, n', t, t')
    ensures Owned(n', t', r)
  {
    forall p {:trigger r.Has(p)} | r.Has(p)
      ensures !Free(n', p) && p !in t'.Values
    {
      assert Free(n, p) <==> Free(n', p) || NewTable(t, t', p);
      TableIsOldOrNew(t, t', p);
    }
  }

  /** No region but the last has this many bytes. */
  ghost predicate Short(nodes: seq<Region>, bytes: nat) {
    forall i {:trigger nodes[i]} :: 1 <= i < |nodes| - 1 ==> nodes[i].count * 0x1000 < bytes
  }

  ghost predicate AllFree(nodes: seq<Region>, r: Region) {
    forall p {:trigger r.Has(p)} :: r.Has(p) ==> Free(nodes, p)
  }

  /** A grant was free, so it is no table and shares no page with what is owned already. */
  lemma GrantIsOwned(n: seq<Region>, k: nat, count: nat, t: Tables)
    requires WellFormed(n) && 1 <= k < |n| && count <= n[k].count
    requires forall p {:trigger t[p]} :: p in t ==> !Free(n, t[p])
    ensures Owned(AfterGrant(n, k, count), t, Granted(n, k, count)) && AllFree(n, Granted(n, k, count))
  {
    forall p {:trigger Granted(n, k, count).Has(p)} | Granted(n, k, count).Has(p)
      ensures Free(n, p) && 1 <= p && !Free(AfterGrant(n, k, count), p) && p !in t.Values
    {
      GrantIsSetMinus(n, k, count, p);
    }
  }

  lemma GrantKeepsOwned(n: seq<Region>, k: nat, count: nat, t: Tables, r: Region)
    requires Owned(n, t, r) && WellFormed(n) && 1 <= k < |n| && 1 <= count <= n[k].count && r.count >= 1
    ensures Owned(AfterGrant(n, k, count), t, r) && Disjoint(r, Granted(n, k, count))
  {
    var g := Granted(n, k, count);
    forall p {:trigger r.Has(p)} | r.Has(p)
      ensures !Free(AfterGrant(n, k, count), p) && !g.Has(p)
    {
      GrantIsSetMinus(n, k, count, p);
    }
    if !Disjoint(r, g) {
      var p := if r.start <= g.start then g.start else r.start;
      assert r.Has(p) && g.Has(p);
    }
  }

  /** From pages to pages', k pages from number first on have been mapped to consecutive frames. */
  ghost predicate MappedOn(pages: map<nat, nat>, pages': map<nat, nat>, first: nat, frame: nat, k: nat) {
    forall n: nat {:trigger n in pages'} ::
      if first <= n < first + k then n in pages' && pages'[n] == frame + (n - first)
      else (n in pages' <==> n in pages) && (n in pages ==> pages'[n] == pages[n])
  }

  lemma PageOfStep(base: nat, frame: nat, k: nat)
    requires base % 0x1000 == 0 && base + k * 0x1000 < HEAP_END && frame + k < 0x800_0000
    ensures PageNumber(base + k * 0x1000) == base / 0x1000 + k
    ensures PageIndex(PageAddress(frame) + k * 0x1000) % 0x10_0000_0000 == frame + k
  {
    PageAddressIsProduct(frame);
    PageIndexIsQuotient(PageAddress(frame) + k * 0x1000);
    assert (base + k * 0x1000) / 0x1000 == base / 0x1000 + k;
  }

  lemma UnmappedOn(pages: map<nat, nat>, first: nat, frame: nat)
    ensures MappedOn(pages, pages, first, frame, 0)
  {
  }

  lemma MappedOnStep(pages: map<nat, nat>, pages1: map<nat, nat>, pages': map<nat, nat>, first: nat, frame: nat,
                     k: nat)
    requires MappedOn(pages, pages1, first, frame, k) && pages' == pages1[first + k := frame + k]
    ensures MappedOn(pages, pages', first, frame, k + 1)
  {
  }

  /** The loop of kmalloc that maps the pages of a new block; false when the kernel halts for want of a table. */
  method MapBlock(pt: PageTable, base: nat, frame: nat, count: nat) returns (ok: bool)
    requires pt.Valid() && NoBigPages(pt.ram.mem, pt.root)
    requires base % 0x1000 == 0 && H.HEAP_START <= base && base + count * 0x1000 <= HEAP_END
    requires frame + count <= 0x800_0000
    modifies pt, pt.ram, pt.allocator
    ensures pt.Valid() && NoBigPages(pt.ram.mem, pt.root)
    ensures Taken(old(pt.allocator.nodes), pt.allocator.nodes, old(pt.tables), pt.tables)
    ensures ok ==> MappedOn(old(pt.pages), pt.pages, base / 0x1000, frame, count)
    ensures !ok ==> |pt.allocator.nodes| <= 2
  {
    ghost var n0, t0, p0, first := pt.allocator.nodes, pt.tables, pt.pages, base / 0x1000;
    NothingTaken(n0, t0);
    UnmappedOn(p0, first, frame);
    for k := 0 to count
      invariant pt.Valid() && NoBigPages(pt.ram.mem, pt.root)
      invariant Taken(n0, pt.allocator.nodes, t0, pt.tables)
      invariant MappedOn(p0, pt.pages, first, frame, k)
    {
      PageOfStep(base, frame, k);
      ok := MapNext(pt, PageAddress(frame) + k * 0x1000, base + k * 0x1000, first, frame, k, n0, t0, p0);
      if !ok {
        return false;
      }
    }
    return true;
  }

  /** One round of that loop. */
  method MapNext(pt: PageTable, physical: nat, v: Word, ghost first: nat, ghost frame: nat, ghost k: nat,
                 ghost n0: seq<Region>, ghost t0: Tables, ghost p0: map<nat, nat>) returns (ok: bool)
    requires pt.Valid() && NoBigPages(pt.ram.mem, pt.root) && Taken(n0, pt.allocator.nodes, t0, pt.tables)
    requires H.HEAP_START <= v < HEAP_END && PageNumber(v) == first + k && MappedOn(p0, pt.pages, first, frame, k)
    requires PageIndex(physical) % 0x10_0000_0000 == frame + k
    modifies pt, pt.ram, pt.allocator
    ensures pt.Valid() && NoBigPages(pt.ram.mem, pt.root) && Taken(n0, pt.allocator.nodes, t0, pt.tables)
    ensures ok ==> MappedOn(p0, pt.pages, first, frame, k + 1)
    ensures !ok ==> |pt.allocator.nodes| <= 2
  {
    ghost var n, t, p := pt.allocator.nodes, pt.tables, pt.pages;
    ok := MapHeapPage(pt, physical, v, first + k, frame + k);
    TakenComposes(n0, n, pt.allocator.nodes, t0, t, pt.tables);
    if ok {
      MappedOnStep(p0, p, pt.pages, first, frame, k);
    }
  }

  method MapHeapPage(pt: PageTable, physical: nat, v: Word, ghost page: nat, ghost frame: nat) returns (ok: bool)
    requires pt.Valid() && NoBigPages(pt.ram.mem, pt.root)
    requires H.HEAP_START <= v < HEAP_END && PageNumber(v) == page && PageIndex(physical) % 0x10_0000_0000 == frame
    modifies pt, pt.ram, pt.allocator
    ensures pt.Valid() && NoBigPages(pt.ram.mem, pt.root)
    ensures Taken(old(pt.allocator.nodes), pt.allocator.nodes, old(pt.tables), pt.tables)
    ensures ok ==> pt.pages == old(pt.pages)[page := frame]
    ensures !ok ==> |pt.allocator.nodes| <= 2
  {
    ghost var m := pt.ram.mem;
    ok := pt.Map(physical, v, PageOption(true, false, false, false));
    MapKeepsNoBig(m, pt.ram.mem, pt.root, v, ok, frame);
  }

  lemma MapKeepsNoBig(m: Memory, m': Memory, root: nat, v: Word, ok: bool, frame: nat)
    requires NoBigPages(m, root) && H.HEAP_START <= v < HEAP_END
    requires forall w: Word {:trigger Walk(m', root, w)} ::
               Walk(m', root, w) == if ok && PageNumber(w) == PageNumber(v) then Small(frame) else Walk(m, root, w)
    ensures NoBigPages(m', root)
  {
  }

  /** The regions behind the list with one more block. */
  function WithRegion(rs: seq<Region>, i: nat, r: Region): (s: seq<Region>)
    requires i <= |rs|
    ensures |s| == |rs| + 1
    ensures forall k {:trigger s[k]} ::
              0 <= k < |s| ==> s[k] == if k < i then rs[k] else if k == i then r else rs[k - 1]
  {
    rs[..i] + [r] + rs[i..]
  }

  function WithoutRegion(rs: seq<Region>, i: nat): (s: seq<Region>)
    requires i < |rs|
    ensures |s| == |rs| - 1
    ensures forall k {:trigger s[k]} :: 0 <= k < |s| ==> s[k] == rs[if k < i then k else k + 1]
  {
    rs[..i] + rs[i + 1..]
  }

  /** A page-aligned block takes whole pages. */
  lemma PagesOfBlock(b: H.Block)
    requires H.PageAligned(b.start)
    ensures b.start % 0x1000 == 0 && b.Above() == b.start + H.RoundUp(b.size)
  {
    H.RoundUpIsQuotient(b.start);
    H.RoundUpAfterPage(b.start, b.size);
  }

  ghost predicate Bounded(blocks: seq<H.Block>) {
    forall i {:trigger blocks[i]} :: 0 <= i < |blocks| ==> blocks[i].Above() <= HEAP_END
  }

  /** The first address behind the blocks. */
  function HeapEnd(blocks: seq<H.Block>): nat {
    if blocks == [] then H.HEAP_START else blocks[|blocks| - 1].Above()
  }

  lemma OthersAligned(pages: map<nat, nat>, blocks: seq<H.Block>, i: nat, b: H.Block)
    requires i <= |blocks| && H.AllMapped(pages, H.Inserted(blocks, i, b))
    ensures forall k {:trigger blocks[k]} :: 0 <= k < |blocks| ==> H.PageAligned(blocks[k].start)
  {
    forall k {:trigger blocks[k]} | 0 <= k < |blocks|
      ensures H.PageAligned(blocks[k].start)
    {
      assert H.Inserted(blocks, i, b)[if k < i then k else k + 1] == blocks[k];
    }
  }

  /** Where the first fit lies. */
  lemma FitIsInside(blocks: seq<H.Block>, i: nat, b: H.Block)
    requires H.Ordered(blocks) && H.FirstFit(blocks, i, b) && H.PageAligned(b.start) && b.size > H.HEADER
    requires HeapEnd(blocks) + H.RoundUp(b.size) <= HEAP_END
    ensures H.HEAP_START <= b.start && b.Above() <= HEAP_END
  {
    PagesOfBlock(b);
    if i > 0 {
      assert blocks[i - 1].start >= H.HEAP_START;
      assert i < |blocks| ==> blocks[i - 1].Above() <= blocks[|blocks| - 1].start;
    }
  }

  /** Mapping the pages of one block leaves those of a block elsewhere. */
  lemma OtherStaysBacked(pages: map<nat, nat>, pages': map<nat, nat>, b: H.Block, r: Region, c: H.Block, frame: nat,
                         count: nat)
    requires BackedBy(pages, b, r) && MappedOn(pages, pages', c.start / 0x1000, frame, count)
    requires H.PageAligned(b.start) && H.PageAligned(c.start) && count * 0x1000 == H.RoundUp(c.size)
    requires b.Above() <= c.start || c.Above() <= b.start
    ensures BackedBy(pages', b, r)
  {
    PagesOfBlock(b);
    PagesOfBlock(c);
    assert b.start / 0x1000 + r.count <= c.start / 0x1000 || c.start / 0x1000 + count <= b.start / 0x1000;
    forall n: nat {:trigger n in pages'} | b.start / 0x1000 <= n < b.start / 0x1000 + r.count
      ensures n in pages' && pages'[n] == r.start + (n - b.start / 0x1000)
    {
      assert n in pages;
    }
  }

  /** Every block has a region of its own behind it, in use. */
  ghost predicate Backing(blocks: seq<H.Block>, behind: seq<Region>, pages: map<nat, nat>, nodes: seq<Region>,
                          t: Tables)
  {
    && |behind| == |blocks|
    && (forall i {:trigger behind[i]} {:trigger blocks[i]} :: 0 <= i < |behind| ==>
          BackedBy(pages, blocks[i], behind[i]) && Owned(nodes, t, behind[i]))
    && (forall i, j {:trigger behind[i], behind[j]} :: 0 <= i < j < |behind| ==> Disjoint(behind[i], behind[j]))
  }

  /** After the pages of a new block have been mapped. */
  lemma InsertedIsBacked(blocks: seq<H.Block>, behind: seq<Region>, n: seq<Region>, n': seq<Region>, t: Tables,
                         t': Tables, pages: map<nat, nat>, pages': map<nat, nat>, i: nat, b: H.Block, r: Region)
    requires Backing(blocks, behind, pages, n, t) && i <= |blocks| && Taken(n, n', t, t') && Owned(n, t, r)
    requires H.Ordered(H.Inserted(blocks, i, b))
    requires forall k {:trigger blocks[k]} :: 0 <= k < |blocks| ==> H.PageAligned(blocks[k].start)
    requires forall k {:trigger behind[k]} :: 0 <= k < |behind| ==> Disjoint(behind[k], r)
    requires H.PageAligned(b.start) && r.count * 0x1000 == H.RoundUp(b.size)
    requires MappedOn(pages, pages', b.start / 0x1000, r.start, r.count)
    ensures Backing(H.Inserted(blocks, i, b), WithRegion(behind, i, r), pages', n', t')
  {
    var blocks', behind' := H.Inserted(blocks, i, b), WithRegion(behind, i, r);
    forall k {:trigger behind'[k]} {:trigger blocks'[k]} | 0 <= k < |behind'|
      ensures BackedBy(pages', blocks'[k], behind'[k]) && Owned(n', t', behind'[k])
    {
      if k == i {
        NewIsBacked(pages, pages', b, r);
        TablesKeepOwned(n, n', t, t', r);
      } else {
        var o := if k < i then k else k - 1;
        assert blocks'[k] == blocks[o] && behind'[k] == behind[o] && blocks'[i] == b;
        assert k < i ==> blocks'[k].Above() <= blocks'[i].start;
        assert i < k ==> blocks'[i].Above() <= blocks'[k].start;
        OtherStaysBacked(pages, pages', blocks[o], behind[o], b, r.start, r.count);
        TablesKeepOwned(n, n', t, t', behind[o]);
      }
    }
  }

  /** The block that kmalloc has put at index i begins at a page, and so do the others. */
  lemma InsertedAreAligned(pages: map<nat, nat>, blocks: seq<H.Block>, i: nat, b: H.Block)
    requires i <= |blocks| && H.AllMapped(pages, H.Inserted(blocks, i, b))
    ensures H.PageAligned(b.start)
  {
    assert H.Inserted(blocks, i, b)[i] == b;
  }

  lemma NewIsBacked(pages: map<nat, nat>, pages': map<nat, nat>, b: H.Block, r: Region)
    requires MappedOn(pages, pages', b.start / 0x1000, r.start, r.count) && r.count * 0x1000 == H.RoundUp(b.size)
    ensures BackedBy(pages', b, r)
  {
  }

  /** The list of the heap gets a block at the first place for it. */
  method PlaceBlock(heap: H.KernelHeap, requestedSize: nat, physical: nat)
    returns (pointer: nat, b: H.Block, ghost i: nat)
    requires heap.Valid() && requestedSize + H.HEADER > 0x800
    requires HeapEnd(heap.blocks) + H.RoundUp(requestedSize + H.HEADER) <= HEAP_END
    modifies heap
    ensures heap.Valid() && i <= |old(heap.blocks)| && heap.blocks == H.Inserted(old(heap.blocks), i, b)
    ensures H.FirstFit(old(heap.blocks), i, b) && b.size == requestedSize + H.HEADER && pointer == b.start + H.HEADER
    ensures H.PageAligned(b.start) && H.HEAP_START <= b.start && b.Above() <= HEAP_END
  {
    pointer, b, i := heap.Kmalloc(requestedSize, Some(physical));
    InsertedAreAligned(heap.pages, old(heap.blocks), i, b);
    FitIsInside(old(heap.blocks), i, b);
  }

  lemma PageOfByte(base: nat, x: nat)
    requires base % 0x1000 == 0 && base <= x < HEAP_END
    ensures var v: Word := x; PageNumber(v) == x / 0x1000 && InPage(v) == x % 0x1000
    ensures x / 0x1000 - base / 0x1000 == (x - base) / 0x1000 && (x - base) % 0x1000 == x % 0x1000
  {
  }

  lemma LookupOfPage(pt: PageTable, v: Word)
    requires pt.Valid() && PageNumber(v) in pt.pages
    ensures Lookup(pt.ram.mem, pt.root, v) == 0x1000 * pt.pages[PageNumber(v)] + InPage(v)
  {
    var w := Walk(pt.ram.mem, pt.root, v);
    if w.Small? {
      SmallAddress(w.frame, v);
    }
  }

  lemma RemovedIsBacked(blocks: seq<H.Block>, behind: seq<Region>, pages: map<nat, nat>, n: seq<Region>, t: Tables,
                        i: nat)
    requires Backing(blocks, behind, pages, n, t) && i < |blocks|
    ensures Backing(H.Removed(blocks, i), WithoutRegion(behind, i), pages, n, t)
    ensures Bounded(blocks) ==> Bounded(H.Removed(blocks, i))
  {
    var blocks', behind' := H.Removed(blocks, i), WithoutRegion(behind, i);
    forall k {:trigger behind'[k]} {:trigger blocks'[k]} | 0 <= k < |behind'|
      ensures behind'[k] == behind[if k < i then k else k + 1] && blocks'[k] == blocks[if k < i then k else k + 1]
    {
    }
  }

  /** The pages that kfree names for block i: the page numbers are those of its virtual address. */
  function Named(dummy: nat, blocks: seq<H.Block>, i: nat): Region
    requires i < |blocks|
  {
    var given := H.GivenBack(blocks[i].start, blocks[i].size, H.Address(dummy, blocks, i + 1),
                             H.Address(dummy, blocks, i - 1));
    Region(PageIndex(given.0), given.1)
  }

  /** The list of the heap loses a block, if the pointer is to one of its blocks; the range that kfree computes begins
      at its virtual address. */
  method TakeBlockOut(heap: H.KernelHeap, p: nat) returns (address: nat, count: nat, ghost i: nat)
    requires heap.Valid() && p >= H.HEADER && p - H.HEADER in heap.nodes && p - H.HEADER != heap.dummy
    modifies heap
    ensures heap.Valid() && (count >= 1 <==> old(H.Live(heap.blocks, p - H.HEADER)))
    ensures count == 0 ==> heap.blocks == old(heap.blocks)
    ensures count >= 1 ==> i < |old(heap.blocks)| && heap.blocks == H.Removed(old(heap.blocks), i)
    ensures count >= 1 ==> old(heap.blocks)[i].start == p - H.HEADER == address && address >= H.HEAP_START
    ensures count >= 1 ==> Region(PageIndex(address), count) == Named(heap.dummy, old(heap.blocks), i)
  {
    ghost var blocks := heap.blocks;
    var given;
    given, i := heap.Kfree(p);
    if H.Live(blocks, p - H.HEADER) {
      GivenIsNamed(heap.dummy, blocks, i);
    }
    address, count := given.0, given.1;
  }

  lemma GivenIsNamed(dummy: nat, blocks: seq<H.Block>, i: nat)
    requires 0 < dummy < H.HEAP_START && H.Ordered(blocks) && i < |blocks|
    requires forall k {:trigger blocks[k]} :: 0 <= k < |blocks| ==> H.PageAligned(blocks[k].start)
    ensures var given := H.GivenBack(blocks[i].start, blocks[i].size, H.Address(dummy, blocks, i + 1),
                                     H.Address(dummy, blocks, i - 1));
            given.0 == blocks[i].start && given.1 >= 1
  {
    var next, prev := H.Address(dummy, blocks, i + 1), H.Address(dummy, blocks, i - 1);
    PagesOfBlock(blocks[i]);
    if i > 0 {
      assert blocks[i - 1].Above() <= blocks[i].start;
    }
    if i + 1 < |blocks| {
      assert blocks[i].Above() <= blocks[i + 1].start;
      PagesOfBlock(blocks[i + 1]);
    }
    H.GivenBackIff(blocks[i].start, blocks[i].size, next, prev);
  }

  lemma HighAddress(address: nat)
    requires address >= H.HEAP_START
    ensures PageIndex(address) > 0x800_0000
  {
    PageIndexIsQuotient(address);
  }

  /** freePhysicalMemory of a virtual address gives nothing back; it merges, unless the reserved table refuses. */
  method GiveAway(allocator: Allocator, address: nat, count: nat)
    requires allocator.Valid() && InOrder(allocator.nodes) && address >= H.HEAP_START && count >= 1
    modifies allocator.ram, allocator
    ensures allocator.Valid() && InOrder(allocator.nodes)
    ensures allocator.nodes == if old(allocator.NearReserved(Region(PageIndex(address), count)))
                               then old(allocator.nodes) else Merge(old(allocator.nodes))
    ensures OutOfReach(old(allocator.ram.mem), allocator.ram.mem, old(allocator.nodes))
  {
    ghost var r, n := Region(PageIndex(address), count), allocator.nodes;
    HighAddress(address);
    HighPagesOnlyMerge(n, r);
    MergeStaysInOrder(n);
    allocator.FreePhysicalMemory(address, count);
  }

  /** Physical pages in use, but for page 0, have been left as they were. */
  ghost predicate OutOfReach(m: Memory, m': Memory, n: seq<Region>) {
    forall p: nat {:trigger Agree(m, m', p)} :: p != 0 && !Free(n, p) && p < 0x800_0000 ==> Agree(m, m', p)
  }

  /** The free pages after kfree: the merge pass may have run. */
  lemma FreeAfterKfree(n: seq<Region>, n': seq<Region>, near: bool, p: int)
    requires WellFormed(n) && Sorted(n) && n' == (if near then n else Merge(n))
    ensures Free(n', p) && !Free(n, p) <==> !near && Gained(n, p)
  {
    GainedIff(n, p);
  }

  /** A gained page belongs to nobody of those who count on theirs being in use. */
  ghost predicate Harmless(n: seq<Region>, t: Tables, behind: seq<Region>) {
    forall p {:trigger Gained(n, p)} :: Gained(n, p) ==> p !in t.Values && !Covered(behind, p)
  }

  lemma NobodysPage(t: Tables, behind: seq<Region>, p: int)
    requires forall q {:trigger t[q]} :: q in t ==> t[q] != p
    requires forall i {:trigger behind[i]} :: 0 <= i < |behind| ==> !behind[i].Has(p)
    ensures p !in t.Values && !Covered(behind, p)
  {
  }

  /** Tables and blocks keep their pages exactly when every gained page is harmless. */
  lemma HarmlessIff(n: seq<Region>, n': seq<Region>, near: bool, t: Tables, behind: seq<Region>)
    requires WellFormed(n) && Sorted(n) && n' == (if near then n else Merge(n))
    requires forall q {:trigger t[q]} :: q in t ==> !Free(n, t[q])
    requires forall i {:trigger behind[i]} :: 0 <= i < |behind| ==> Owned(n, t, behind[i])
    ensures (forall q {:trigger t[q]} :: q in t ==> !Free(n', t[q]))
            && (forall i {:trigger behind[i]} :: 0 <= i < |behind| ==> Owned(n', t, behind[i]))
            <==> near || Harmless(n, t, behind)
  {
    forall p
      ensures Free(n', p) && !Free(n, p) <==> !near && Gained(n, p)
    {
      FreeAfterKfree(n, n', near, p);
    }
    if (forall q {:trigger t[q]} :: q in t ==> !Free(n', t[q]))
       && (forall i {:trigger behind[i]} :: 0 <= i < |behind| ==> Owned(n', t, behind[i])) && !near {
      forall p {:trigger Gained(n, p)} | Gained(n, p)
        ensures p !in t.Values && !Covered(behind, p)
      {
        assert forall q {:trigger t[q]} :: q in t ==> t[q] != p;
        assert forall i {:trigger behind[i]} :: 0 <= i < |behind| ==> !behind[i].Has(p);
        NobodysPage(t, behind, p);
      }
    }
    if near || Harmless(n, t, behind) {
      forall q {:trigger t[q]} | q in t
        ensures !Free(n', t[q])
      {
        assert t[q] in t.Values;
      }
      forall i {:trigger behind[i]} | 0 <= i < |behind|
        ensures Owned(n', t, behind[i])
      {
        assert behind[i] in behind;
      }
    }
  }

  /** The tables after kfree: they stand, unless one of their pages has become free. */
  method GiveHighPages(pt: PageTable, address: nat, count: nat)
    requires pt.Valid() && InOrder(pt.allocator.nodes) && address >= H.HEAP_START && count >= 1
    modifies pt.ram, pt.allocator
    ensures pt.allocator.Valid() && InOrder(pt.allocator.nodes)
    ensures pt.allocator.nodes == if old(pt.allocator.NearReserved(Region(PageIndex(address), count)))
                                  then old(pt.allocator.nodes) else Merge(old(pt.allocator.nodes))
    ensures OutOfReach(old(pt.ram.mem), pt.ram.mem, old(pt.allocator.nodes))
    ensures forall v: Word {:trigger Walk(pt.ram.mem, pt.root, v)} ::
              Walk(pt.ram.mem, pt.root, v) == Walk(old(pt.ram.mem), pt.root, v)
    ensures pt.Valid() <==> pt.TablesInUse()
  {
    ghost var m, n := pt.ram.mem, pt.allocator.nodes;
    GiveAway(pt.allocator, address, count);
    forall p {:trigger pt.tables[p]} | p in pt.tables
      ensures Agree(m, pt.ram.mem, pt.tables[p])
    {
      assert !Free(n, pt.tables[p]);
    }
    pt.TablesUntouched(m, pt.ram.mem);
  }

  class MappedHeap {
    const pt: PageTable
    const heap: H.KernelHeap
    /** The physical region behind each block of the list. */
    ghost var behind: seq<Region>

    constructor (pt: PageTable, heap: H.KernelHeap)
      requires pt.Valid() && heap.Valid() && heap.blocks == [] && NoBigPages(pt.ram.mem, pt.root)
      requires InOrder(pt.allocator.nodes)
      ensures this.pt == pt && this.heap == heap && Valid()
    {
      this.pt := pt;
      this.heap := heap;
      behind := [];
    }

    ghost predicate AllBacked()
      reads this, heap, pt, pt.allocator
    {
      Backing(heap.blocks, behind, pt.pages, pt.allocator.nodes, pt.tables)
    }

    ghost predicate Valid()
      reads this, heap, pt, pt.ram, pt.allocator, pt.allocator.ram
    {
      && pt.Valid() && heap.Valid() && AllBacked() && NoBigPages(pt.ram.mem, pt.root)
      && Bounded(heap.blocks) && InOrder(pt.allocator.nodes)
    }

    /** The pages for a new block: they belong to no other block, no table and not to the free ones. */
    method TakeRegion(count: nat) returns (address: Option<nat>, ghost r: Region)
      requires Valid() && count >= 1
      modifies pt.ram, pt.allocator
      ensures Valid() && (address.None? ==> Starved(old(pt.allocator.nodes), Take(count)))
      ensures address.Some? ==>
                && address.value == PageAddress(r.start) && AllFree(old(pt.allocator.nodes), r)
                && r.count == count && r.End() <= 0x800_0000 && Owned(pt.allocator.nodes, pt.tables, r)
                && (forall i {:trigger behind[i]} :: 0 <= i < |behind| ==> Disjoint(behind[i], r))
    {
      ghost var m, n := pt.ram.mem, pt.allocator.nodes;
      address := pt.allocator.AllocatePhysicalMemory(count);
      forall p | p in pt.tables
        ensures Agree(m, pt.ram.mem, pt.tables[p])
      {
      }
      pt.TablesUntouched(m, pt.ram.mem);
      r := Region(0, 0);
      if address.Some? {
        ghost var k := FirstFit(n, count, 1);
        r := Granted(n, k, count);
        GrantIsOwned(n, k, count, pt.tables);
        TablesStayInUse(n, k, count);
        GrantStaysInOrder(n, k, count);
        forall i {:trigger behind[i]} | 0 <= i < |behind|
          ensures Owned(pt.allocator.nodes, pt.tables, behind[i]) && Disjoint(behind[i], r)
        {
          RegionIsNotEmpty(heap.blocks[i], behind[i]);
          GrantKeepsOwned(n, k, count, pt.tables, behind[i]);
        }
      }
    }

    lemma RegionIsNotEmpty(b: H.Block, r: Region)
      requires BackedBy(pt.pages, b, r) && b.size > H.HEADER
      ensures r.count >= 1
    {
    }

    lemma TablesStayInUse(n: seq<Region>, k: nat, count: nat)
      requires WellFormed(n) && 1 <= k < |n| && count <= n[k].count
      requires forall p {:trigger pt.tables[p]} :: p in pt.tables ==> !Free(n, pt.tables[p])
      ensures forall p {:trigger pt.tables[p]} :: p in pt.tables ==> !Free(AfterGrant(n, k, count), pt.tables[p])
    {
      forall p {:trigger pt.tables[p]} | p in pt.tables
        ensures !Free(AfterGrant(n, k, count), pt.tables[p])
      {
        GrantIsSetMinus(n, k, count, pt.tables[p]);
      }
    }

    /** kmalloc for a request that takes more than half a page with its header. None when the kernel halts: no region
        but the last has the pages, or there is only the last one left to take a page table from. */
    method Kmalloc(requestedSize: nat) returns (p: Option<nat>, ghost i: nat, ghost b: H.Block, ghost r: Region)
      requires Valid() && requestedSize + H.HEADER > 0x800
      requires HeapEnd(heap.blocks) + H.RoundUp(requestedSize + H.HEADER) <= HEAP_END
      modifies this, heap, pt, pt.ram, pt.allocator
      ensures p.Some? ==> Valid() && i <= |old(heap.blocks)| && b.size == requestedSize + H.HEADER
      ensures p.Some? ==> H.FirstFit(old(heap.blocks), i, b) && heap.blocks == H.Inserted(old(heap.blocks), i, b)
      ensures p.Some? ==> behind == WithRegion(old(behind), i, r) && p.value == b.start + H.HEADER
      ensures p.Some? ==> AllFree(old(pt.allocator.nodes), r)
      ensures p.None? ==> Short(old(pt.allocator.nodes), H.RoundUp(requestedSize + H.HEADER))
                          || |pt.allocator.nodes| <= 2
    {
      i, b := 0, H.Block(0, 0);
      var count := H.PageCount(requestedSize + H.HEADER);
      var address;
      address, r := TakeRegion(count);
      if address.None? {
        return None, i, b, r;
      }
      p, i, b := UseRegion(requestedSize, address.value, count, r);
    }

    /** A block in the region that has been taken for it. */
    method UseRegion(requestedSize: nat, address: nat, count: nat, ghost r: Region)
      returns (p: Option<nat>, ghost i: nat, ghost b: H.Block)
      requires Valid() && requestedSize + H.HEADER > 0x800
      requires HeapEnd(heap.blocks) + H.RoundUp(requestedSize + H.HEADER) <= HEAP_END
      requires count * 0x1000 == H.RoundUp(requestedSize + H.HEADER)
      requires address == PageAddress(r.start) && r.count == count && r.End() <= 0x800_0000
      requires Owned(pt.allocator.nodes, pt.tables, r)
      requires forall k {:trigger behind[k]} :: 0 <= k < |behind| ==> Disjoint(behind[k], r)
      modifies this, heap, pt, pt.ram, pt.allocator
      ensures p.Some? ==> Valid() && i <= |old(heap.blocks)| && b.size == requestedSize + H.HEADER
      ensures p.Some? ==> H.FirstFit(old(heap.blocks), i, b) && heap.blocks == H.Inserted(old(heap.blocks), i, b)
      ensures p.Some? ==> behind == WithRegion(old(behind), i, r) && p.value == b.start + H.HEADER
      ensures p.None? ==> |pt.allocator.nodes| <= 2
    {
      ghost var blocks := heap.blocks;
      var pointer, block;
      pointer, block, i := PlaceBlock(heap, requestedSize, address);
      b := block;
      var ok := BackBlock(block, PageIndex(address), count, blocks, i, r);
      p := if ok then Some(pointer) else None;
    }

    /** The pages of the block that has just been put into the list are mapped. */
    method BackBlock(b: H.Block, frame: nat, count: nat, ghost blocks: seq<H.Block>, ghost i: nat, ghost r: Region)
      returns (ok: bool)
      requires pt.Valid() && heap.Valid() && NoBigPages(pt.ram.mem, pt.root)
      requires Backing(blocks, behind, pt.pages, pt.allocator.nodes, pt.tables) && Bounded(blocks)
      requires i <= |blocks| && heap.blocks == H.Inserted(blocks, i, b)
      requires H.PageAligned(b.start) && H.HEAP_START <= b.start && b.Above() <= HEAP_END
      requires count * 0x1000 == H.RoundUp(b.size) && r == Region(frame, count) && r.End() <= 0x800_0000
      requires Owned(pt.allocator.nodes, pt.tables, r) && InOrder(pt.allocator.nodes)
      requires forall k {:trigger behind[k]} :: 0 <= k < |behind| ==> Disjoint(behind[k], r)
      modifies this, pt, pt.ram, pt.allocator
      ensures ok ==> Valid() && behind == WithRegion(old(behind), i, r)
      ensures !ok ==> |pt.allocator.nodes| <= 2
    {
      hide Taken, Owned, MappedOn, BackedBy;
      ghost var n, t, pages := pt.allocator.nodes, pt.tables, pt.pages;
      PagesOfBlock(b);
      ok := MapBlock(pt, b.start, frame, count);
      if ok {
        TakenStaysInOrder(n, pt.allocator.nodes, t, pt.tables);
        OthersAligned(heap.pages, blocks, i, b);
        InsertedIsBacked(blocks, behind, n, pt.allocator.nodes, t, pt.tables, pages, pt.pages, i, b, r);
        behind := WithRegion(behind, i, r);
      }
    }

    /** The bytes of a block lie in the order of their addresses in its region. */
    lemma ByteOfBlock(i: nat, x: nat)
      requires Valid() && i < |heap.blocks|
      requires heap.blocks[i].start <= x < heap.blocks[i].start + heap.blocks[i].size
      ensures x < HEAP_END
      ensures Lookup(pt.ram.mem, pt.root, x) == behind[i].start * 0x1000 + (x - heap.blocks[i].start)
      ensures x - heap.blocks[i].start < behind[i].count * 0x1000
    {
      var b, r := heap.blocks[i], behind[i];
      assert H.PageAligned(b.start) && BackedBy(pt.pages, b, r);
      PagesOfBlock(b);
      var v: Word := x;
      PageOfByte(b.start, x);
      assert PageNumber(v) in pt.pages;
      LookupOfPage(pt, v);
    }

    /** No two bytes of live blocks share physical memory. */
    lemma BytesAreApart(i: nat, x: nat, j: nat, y: nat)
      requires Valid() && i < |heap.blocks| && j < |heap.blocks| && x != y
      requires heap.blocks[i].start <= x < heap.blocks[i].start + heap.blocks[i].size
      requires heap.blocks[j].start <= y < heap.blocks[j].start + heap.blocks[j].size
      ensures x < HEAP_END && y < HEAP_END
      ensures Lookup(pt.ram.mem, pt.root, x) != Lookup(pt.ram.mem, pt.root, y)
    {
      ByteOfBlock(i, x);
      ByteOfBlock(j, y);
      if i < j {
        assert Disjoint(behind[i], behind[j]);
      } else if j < i {
        assert Disjoint(behind[j], behind[i]);
      }
    }

    /** kfree. The physical allocator is given a virtual address, for which it finds no place: no page comes back. The
        merge pass that follows changes no translation, but it may take a page in use for free: everybody keeps theirs
        exactly when no page between two nodes that it joins is a table or behind one of the remaining blocks. A
        pointer whose block has been freed before is ignored. */
    method Kfree(p: nat) returns (ghost i: nat, ghost near: bool)
      requires Valid() && p >= H.HEADER && p - H.HEADER in heap.nodes && p - H.HEADER != heap.dummy
      modifies this, heap, pt.ram, pt.allocator
      ensures heap.Valid() && pt.allocator.Valid() && InOrder(pt.allocator.nodes)
      ensures forall v: Word {:trigger Walk(pt.ram.mem, pt.root, v)} ::
                Walk(pt.ram.mem, pt.root, v) == Walk(old(pt.ram.mem), pt.root, v)
      ensures OutOfReach(old(pt.ram.mem), pt.ram.mem, old(pt.allocator.nodes))
      ensures !old(H.Live(heap.blocks, p - H.HEADER)) ==>
                Valid() && heap.blocks == old(heap.blocks) && behind == old(behind)
                && pt.allocator.nodes == old(pt.allocator.nodes)
      ensures old(H.Live(heap.blocks, p - H.HEADER)) ==>
                && i < |old(heap.blocks)| == |old(behind)| && old(heap.blocks)[i].start == p - H.HEADER
                && heap.blocks == H.Removed(old(heap.blocks), i) && behind == WithoutRegion(old(behind), i)
                && (var r := Named(heap.dummy, old(heap.blocks), i); near == old(pt.allocator.NearReserved(r)))
                && pt.allocator.nodes == (if near then old(pt.allocator.nodes) else Merge(old(pt.allocator.nodes)))
                && (Valid() <==> near || Harmless(old(pt.allocator.nodes), pt.tables, behind))
    {
      ghost var blocks := heap.blocks;
      var address, count;
      address, count, i := TakeBlockOut(heap, p);
      near := false;
      if count > 0 {
        near := FreeRegion(blocks, i, address, count);
      }
    }

    /** What kfree does after it has taken block i out of the list. */
    method FreeRegion(ghost blocks: seq<H.Block>, ghost i: nat, address: nat, count: nat) returns (ghost near: bool)
      requires pt.Valid() && heap.Valid() && NoBigPages(pt.ram.mem, pt.root) && InOrder(pt.allocator.nodes)
      requires Backing(blocks, behind, pt.pages, pt.allocator.nodes, pt.tables) && Bounded(blocks)
      requires i < |blocks| && heap.blocks == H.Removed(blocks, i) && address >= H.HEAP_START && count >= 1
      modifies this, pt.ram, pt.allocator
      ensures pt.allocator.Valid() && InOrder(pt.allocator.nodes)
      ensures forall v: Word {:trigger Walk(pt.ram.mem, pt.root, v)} ::
                Walk(pt.ram.mem, pt.root, v) == Walk(old(pt.ram.mem), pt.root, v)
      ensures OutOfReach(old(pt.ram.mem), pt.ram.mem, old(pt.allocator.nodes))
      ensures i < |old(behind)| && behind == WithoutRegion(old(behind), i)
      ensures near == old(pt.allocator.NearReserved(Region(PageIndex(address), count)))
      ensures pt.allocator.nodes == (if near then old(pt.allocator.nodes) else Merge(old(pt.allocator.nodes)))
      ensures Valid() <==> near || Harmless(old(pt.allocator.nodes), pt.tables, behind)
    {
      ghost var n := pt.allocator.nodes;
      near := pt.allocator.NearReserved(Region(PageIndex(address), count));
      RemovedIsBacked(blocks, behind, pt.pages, n, pt.tables, i);
      behind := WithoutRegion(behind, i);
      GiveHighPages(pt, address, count);
      HarmlessIff(n, pt.allocator.nodes, near, pt.tables, behind);
      assert NoBigPages(pt.ram.mem, pt.root);
      BackedIff(n, pt.allocator.nodes);
    }

    /** On the new list the blocks are backed if their regions are in use. */
    lemma BackedIff(n: seq<Region>, n': seq<Region>)
      requires Backing(heap.blocks, behind, pt.pages, n, pt.tables)
      ensures Backing(heap.blocks, behind, pt.pages, n', pt.tables) <==>
              forall i {:trigger behind[i]} :: 0 <= i < |behind| ==> Owned(n', pt.tables, behind[i])
    {
    }
  }
}

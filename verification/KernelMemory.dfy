/** The page tables and the page allocator together: from boot, and over every run of allocations, client writes,
    mappings and unmappings. */
module KernelMemory {
  import opened Wrappers
  import opened Machine
  import opened FreeList
  import opened MemoryMap
  import opened AllocatorRuns
  import opened PageTree
  import opened PhysicalAllocator
  import opened PageTable

  // ----- Boot -----

  /** The tables lie in the kernel image, none of them at the start of a usable entry. */
  ghost predicate InKernel(es: seq<MemoryEntry>, kernelStart: nat, kernelEnd: nat, t: Tables) {
    forall p {:trigger t[p]} :: p in t ==>
      t[p] != 0 && Touches(t[p], kernelStart, kernelEnd) && !Starts(BootList(es), t[p])
  }

  /** main: PageTable::init on the boot tables, then readMultiboot. Afterwards the allocator owns exactly the usable
      pages outside kernel and trampoline, and the page tables translate as the boot tables did. */
  method Boot(pt: PageTable, buffer: Word, ghost boot: Tables, ghost b: nat, entries: seq<MemoryEntry>,
              kernelStart: nat, kernelEnd: nat, trampolineStart: nat, trampolineEnd: nat) returns (ok: bool)
    requires pt.allocator.ram == pt.ram
    requires IsTree(pt.ram.mem, pt.root, boot)
    requires forall p {:trigger boot[p]} :: p in boot ==> Identity(pt.ram.mem, pt.root, boot[p])
    requires !Present(Read(pt.ram.mem, pt.root, 192)) && b !in boot.Values && b < 0x800_0000
    requires CpuTranslate(pt.ram.mem, pt.root, buffer) == Some(PageAddress(b))
    requires var e := BigEntry(pt.ram.mem, pt.root, buffer);
             e.Some? ==> Frame(e.value.0) % (e.value.1 / 0x1000) == 0
    requires Sane(entries) && kernelStart <= kernelEnd && trampolineStart <= trampolineEnd
    requires InKernel(entries, kernelStart, kernelEnd, boot[Child(Root, 192) := b])
    modifies pt, pt.ram, pt.allocator
    ensures ok <==> 32 * (|ReservedRegions(entries)| + 1) <= 0x1000
    ensures ok ==> pt.Valid() && pt.tables == boot[Child(Root, 192) := b]
    ensures ok ==> pt.allocator.nodes == KernelList(entries, kernelStart, kernelEnd, trampolineStart, trampolineEnd)
    ensures ok ==> forall v: Word {:trigger Walk(pt.ram.mem, pt.root, v)} ::
              Level4(v) != 192 ==> Walk(pt.ram.mem, pt.root, v) == Walk(old(pt.ram.mem), pt.root, v)
  {
    pt.Init(buffer, boot, b);
    ghost var m := pt.ram.mem;
    ok := pt.allocator.ReadMultibootInfos(entries, kernelStart, kernelEnd, trampolineStart, trampolineEnd);
    if ok {
      forall p {:trigger pt.tables[p]} | p in pt.tables
        ensures Agree(m, pt.ram.mem, pt.tables[p])
        ensures 1 <= pt.tables[p] < 0x800_0000 && !Free(pt.allocator.nodes, pt.tables[p])
      {
        KernelPagesAreKept(entries, kernelStart, kernelEnd, trampolineStart, trampolineEnd, pt.tables[p]);
      }
      pt.TablesUntouched(m, pt.ram.mem);
    }
  }

  // ----- Runs -----

  datatype Operation =
    | Take(count: nat)
    | Put(page: nat, index: nat, word: nat)
    | MapPage(physical: nat, virtual: Word, option: PageOption)
    | UnmapPage(virtual: Word)

  /** What the mappings of a run mean: a finite map from page numbers to frames. */
  function Fold(pages: map<nat, nat>, ops: seq<Operation>): map<nat, nat>
    decreases |ops|
  {
    if ops == [] then pages else
    var before := Fold(pages, ops[..|ops| - 1]);
    match ops[|ops| - 1]
    case MapPage(physical, v, _) => before[PageNumber(v) := PageIndex(physical) % 0x10_0000_0000]
    case UnmapPage(v) => before - {PageNumber(v)}
    case _ => before
  }

  /** No mapping is asked for under a big page, and the window stays mapped. */
  ghost predicate Allowed(m: Memory, root: nat, op: Operation) {
    match op
    case MapPage(_, v, _) => !Walk(m, root, v).Huge?
    case UnmapPage(v) => Walk(m, root, v).Huge? ==> Level4(v) != 192
    case _ => true
  }

  /** The same addresses lead to big pages, to the same physical addresses. */
  ghost predicate SameHuge(m: Memory, m': Memory, root: nat) {
    forall v: Word {:trigger Walk(m', root, v)} {:trigger Walk(m, root, v)} ::
      (Walk(m, root, v).Huge? <==> Walk(m', root, v).Huge?)
      && (Walk(m, root, v).Huge? ==> Walk(m', root, v) == Walk(m, root, v))
  }

  /** Grants share no page with each other, with a table, with the free pages or with page 0, and together with the
      new tables they are what has left the free pages since start. */
  ghost predicate Shared(start: seq<Region>, t0: Tables, nodes: seq<Region>, t: Tables, granted: seq<Region>) {
    && (forall i, j {:trigger granted[i], granted[j]} :: 0 <= i < j < |granted| ==> Apart(granted[i], granted[j]))
    && (forall p {:trigger Covered(granted, p)} :: Covered(granted, p) ==>
          p > 0 && !Free(nodes, p) && p !in t.Values)
    && (forall p {:trigger Free(start, p)} {:trigger Free(nodes, p)} ::
          Free(start, p) <==> Free(nodes, p) || Covered(granted, p) || NewTable(t0, t, p))
    && (forall q {:trigger q in t} :: q in t0 ==> q in t && t[q] == t0[q])
  }

  lemma TablesShared(start: seq<Region>, t0: Tables, n: seq<Region>, n': seq<Region>, t: Tables, t': Tables,
                     granted: seq<Region>)
    requires Shared(start, t0, n, t, granted) && Taken(n, n', t, t')
    ensures Shared(start, t0, n', t', granted)
  {
    forall p
      ensures NewTable(t0, t', p) <==> NewTable(t0, t, p) || NewTable(t, t', p)
    {
      NewTableComposes(t0, t, t', p);
    }
    forall p {:trigger Covered(granted, p)} | Covered(granted, p)
      ensures p > 0 && !Free(n', p) && p !in t'.Values
    {
      assert Free(n, p) <==> Free(n', p) || NewTable(t, t', p);
      TableIsOldOrNew(t, t', p);
    }
  }

  lemma GrantShared(start: seq<Region>, t0: Tables, n: seq<Region>, k: nat, count: nat, t: Tables, granted: seq<Region>)
    requires Shared(start, t0, n, t, granted) && WellFormed(n) && 1 <= k < |n| && count <= n[k].count
    requires forall p {:trigger t[p]} :: p in t ==> !Free(n, t[p])
    ensures Shared(start, t0, AfterGrant(n, k, count), t, granted + [Granted(n, k, count)])
  {
    var g, n' := Granted(n, k, count), AfterGrant(n, k, count);
    forall p
      ensures Free(n', p) <==> Free(n, p) && !g.Has(p)
      ensures g.Has(p) ==> Free(n, p)
      ensures Covered(granted + [g], p) <==> Covered(granted, p) || g.Has(p)
    {
      GrantIsSetMinus(n, k, count, p);
      CoveredConcat(granted, [g], p);
      CoveredOne(g, p);
    }
    forall i | 0 <= i < |granted|
      ensures Apart(granted[i], g)
    {
      var h := granted[i];
      if !Apart(h, g) {
        var p := if h.start <= g.start then g.start else h.start;
        assert h.Has(p) && g.Has(p) && Covered(granted, p);
      }
    }
  }

  /** allocatePhysicalMemory beside the page tables. */
  method TakePages(pt: PageTable, count: nat, granted: seq<Region>, ghost start: seq<Region>, ghost t0: Tables)
    returns (ok: bool, granted': seq<Region>)
    requires pt.Valid() && Shared(start, t0, pt.allocator.nodes, pt.tables, granted)
    modifies pt.ram, pt.allocator
    ensures pt.Valid() && Shared(start, t0, pt.allocator.nodes, pt.tables, granted')
    ensures pt.pages == old(pt.pages) && SameHuge(old(pt.ram.mem), pt.ram.mem, pt.root)
    ensures ok ==> granted <= granted' && |granted'| == |granted| + 1 && granted'[|granted|].count == count
    ensures !ok ==> granted' == granted && Starved(pt.allocator.nodes, Take(count))
  {
    hide FirstFit, PageIndex, PageAddress;
    ghost var m, n := pt.ram.mem, pt.allocator.nodes;
    var address := pt.allocator.AllocatePhysicalMemory(count);
    forall p | p in pt.tables
      ensures Agree(m, pt.ram.mem, pt.tables[p])
    {
    }
    pt.TablesUntouched(m, pt.ram.mem);
    ok, granted' := address.Some?, granted;
    if ok {
      ghost var k := FirstFit(n, count, 1);
      granted' := granted + [Region(PageIndex(address.value), count)];
      GrantShared(start, t0, n, k, count, pt.tables, granted);
    }
  }

  /** A client writes a word of a page it was granted; it has no way to write any other. */
  method PutWord(pt: PageTable, page: nat, index: nat, word: nat, granted: seq<Region>, ghost start: seq<Region>,
                 ghost t0: Tables)
    requires pt.Valid() && Shared(start, t0, pt.allocator.nodes, pt.tables, granted)
    modifies pt.ram
    ensures pt.Valid() && SameHuge(old(pt.ram.mem), pt.ram.mem, pt.root)
    ensures pt.ram.mem == if Covered(granted, page) then Write(old(pt.ram.mem), page, index, word) else old(pt.ram.mem)
  {
    ghost var m := pt.ram.mem;
    var mine := exists i :: 0 <= i < |granted| && granted[i].Has(page);
    assert mine <==> Covered(granted, page);
    if mine {
      pt.ram.mem := Write(pt.ram.mem, page, index, word);
      forall p | p in pt.tables
        ensures Agree(m, pt.ram.mem, pt.tables[p])
      {
        assert pt.tables[p] in pt.tables.Values;
      }
      pt.TablesUntouched(m, pt.ram.mem);
      ChainFrame(m, pt.ram.mem, pt.allocator.nodes);
    }
  }

  /** The sizes of the allocations of a run. */
  function Sizes(ops: seq<Operation>): seq<nat> {
    if ops == [] then []
    else Sizes(ops[..|ops| - 1]) + match ops[|ops| - 1]
                                   case Take(count) => [count]
                                   case _ => []
  }

  ghost predicate HaveSizes(granted: seq<Region>, sizes: seq<nat>) {
    |granted| == |sizes| && forall i {:trigger granted[i]} :: 0 <= i < |granted| ==> granted[i].count == sizes[i]
  }

  /** Page tables, allocator and grants after the operations done, which began with memory m0, free list start, tables
      t0 and mapped pages p0. */
  ghost predicate Reached(pt: PageTable, granted: seq<Region>, done: seq<Operation>, m0: Memory, start: seq<Region>,
                          t0: Tables, p0: map<nat, nat>)
    reads pt, pt.ram, pt.allocator, pt.allocator.ram
  {
    && pt.Valid() && Shared(start, t0, pt.allocator.nodes, pt.tables, granted)
    && SameHuge(m0, pt.ram.mem, pt.root) && pt.pages == Fold(p0, done) && HaveSizes(granted, Sizes(done))
  }

  lemma SameHugeComposes(m: Memory, m1: Memory, m2: Memory, root: nat)
    requires SameHuge(m, m1, root) && SameHuge(m1, m2, root)
    ensures SameHuge(m, m2, root)
  {
  }

  method MapOne(pt: PageTable, physical: nat, v: Word, option: PageOption, granted: seq<Region>,
                ghost start: seq<Region>, ghost t0: Tables) returns (ok: bool)
    requires pt.Valid() && Shared(start, t0, pt.allocator.nodes, pt.tables, granted)
    requires !Walk(pt.ram.mem, pt.root, v).Huge?
    modifies pt, pt.ram, pt.allocator
    ensures pt.Valid() && Shared(start, t0, pt.allocator.nodes, pt.tables, granted)
    ensures SameHuge(old(pt.ram.mem), pt.ram.mem, pt.root)
    ensures !ok ==> |pt.allocator.nodes| <= 2
    ensures pt.pages == if ok then old(pt.pages)[PageNumber(v) := PageIndex(physical) % 0x10_0000_0000]
                        else old(pt.pages)
  {
    ghost var m, n, t := pt.ram.mem, pt.allocator.nodes, pt.tables;
    ok := pt.Map(physical, v, option);
    TablesShared(start, t0, n, pt.allocator.nodes, t, pt.tables, granted);
    SamePageSameKind(m, pt.root, v);
  }

  method UnmapOne(pt: PageTable, v: Word)
    requires pt.Valid() && (Walk(pt.ram.mem, pt.root, v).Huge? ==> Level4(v) != 192)
    modifies pt.ram, pt`pages
    ensures pt.Valid() && SameHuge(old(pt.ram.mem), pt.ram.mem, pt.root)
    ensures pt.pages == old(pt.pages) - {PageNumber(v)}
  {
    pt.Unmap(v);
  }

  /** Why the kernel halts in an operation: no region but the last has the pages, for a table not a single one. */
  ghost predicate Starved(nodes: seq<Region>, op: Operation) {
    match op
    case Take(count) => forall i {:trigger nodes[i]} :: 1 <= i < |nodes| - 1 ==> nodes[i].count < count
    case MapPage(_, _, _) => |nodes| <= 2
    case _ => false
  }

  /** One operation; false when the kernel halts in it for want of pages. */
  method Perform(pt: PageTable, op: Operation, granted: seq<Region>, ghost done: seq<Operation>, ghost m0: Memory,
                 ghost start: seq<Region>, ghost t0: Tables, ghost p0: map<nat, nat>)
    returns (ok: bool, granted': seq<Region>)
    requires Reached(pt, granted, done, m0, start, t0, p0) && Allowed(m0, pt.root, op)
    modifies pt, pt.ram, pt.allocator
    ensures ok ==> Reached(pt, granted', done + [op], m0, start, t0, p0)
    ensures !ok ==> Reached(pt, granted', done, m0, start, t0, p0) && Starved(pt.allocator.nodes, op)
  {
    hide CpuTranslate, Shared;
    ghost var m := pt.ram.mem;
    ok, granted' := true, granted;
    assert (done + [op])[..|done|] == done;
    match op {
      case Take(count) => ok, granted' := TakePages(pt, count, granted, start, t0);
      case Put(page, index, word) => PutWord(pt, page, index, word, granted, start, t0);
      case MapPage(physical, v, option) => ok := MapOne(pt, physical, v, option, granted, start, t0);
      case UnmapPage(v) => UnmapOne(pt, v);
    }
    SameHugeComposes(m0, m, pt.ram.mem, pt.root);
  }

  // ----- Whole runs -----

  /** getPhysicalAddress answers the finite map, and under big pages what it answered at the start. */
  ghost predicate Answers(m0: Memory, m: Memory, root: nat, pages: map<nat, nat>) {
    forall v: Word {:trigger Lookup(m, root, v)} ::
      Lookup(m, root, v) == if Walk(m0, root, v).Huge? then Lookup(m0, root, v)
                            else if PageNumber(v) in pages then 0x1000 * pages[PageNumber(v)] + InPage(v) else 0
  }

  lemma ImplementedIsAnswered(pt: PageTable, m0: Memory)
    requires pt.Valid() && SameHuge(m0, pt.ram.mem, pt.root)
    ensures Answers(m0, pt.ram.mem, pt.root, pt.pages)
  {
    var m := pt.ram.mem;
    forall v: Word {:trigger Lookup(m, pt.root, v)}
      ensures Lookup(m, pt.root, v) == if Walk(m0, pt.root, v).Huge? then Lookup(m0, pt.root, v)
                            else if PageNumber(v) in pt.pages then 0x1000 * pt.pages[PageNumber(v)] + InPage(v) else 0
    {
      var w := Walk(m, pt.root, v);
      assert Walk(m0, pt.root, v).Huge? <==> w.Huge?;
      if w.Small? {
        SmallAddress(w.frame, v);
      }
    }
  }

  lemma StartShared(start: seq<Region>, t: Tables)
    ensures Shared(start, t, start, t, [])
  {
    assert forall p :: !Covered([], p) && !NewTable(t, t, p);
  }

  lemma NothingDone(pt: PageTable)
    requires pt.Valid()
    ensures Reached(pt, [], [], pt.ram.mem, pt.allocator.nodes, pt.tables, pt.pages)
  {
    StartShared(pt.allocator.nodes, pt.tables);
  }

  /** Every run of operations, up to its end or to the operation in which the kernel halts. */
  method Run(pt: PageTable, ops: seq<Operation>) returns (count: nat, granted: seq<Region>)
    requires pt.Valid() && forall i {:trigger ops[i]} :: 0 <= i < |ops| ==> Allowed(pt.ram.mem, pt.root, ops[i])
    modifies pt, pt.ram, pt.allocator
    ensures count <= |ops|
    ensures Reached(pt, granted, ops[..count], old(pt.ram.mem), old(pt.allocator.nodes), old(pt.tables), old(pt.pages))
    ensures count < |ops| ==> Starved(pt.allocator.nodes, ops[count])
    ensures Answers(old(pt.ram.mem), pt.ram.mem, pt.root, Fold(old(pt.pages), ops[..count]))
  {
    hide Fold, Sizes, Shared, HaveSizes, SameHuge, Answers;
    count, granted := 0, [];
    var ok := true;
    NothingDone(pt);
    assert ops[..0] == [];
    while ok && count < |ops|
      invariant count <= |ops|
      invariant Reached(pt, granted, ops[..count], old(pt.ram.mem), old(pt.allocator.nodes), old(pt.tables),
                        old(pt.pages))
      invariant !ok ==> count < |ops| && Starved(pt.allocator.nodes, ops[count])
      decreases |ops| - count, ok
    {
      assert ops[..count + 1] == ops[..count] + [ops[count]];
      ok, granted := Perform(pt, ops[count], granted, ops[..count], old(pt.ram.mem), old(pt.allocator.nodes),
                             old(pt.tables), old(pt.pages));
      if ok {
        count := count + 1;
      }
    }
    ImplementedIsAnswered(pt, old(pt.ram.mem));
  }

  /** The pages that clients and page tables get after boot are whole usable pages, never page 0, and hold no byte of
      the kernel or the trampoline. */
  lemma TakenPagesAreSafe(es: seq<MemoryEntry>, kernelStart: nat, kernelEnd: nat, trampolineStart: nat,
                          trampolineEnd: nat, t0: Tables, nodes: seq<Region>, t: Tables, granted: seq<Region>, p: int)
    requires Sane(es) && kernelStart <= kernelEnd && trampolineStart <= trampolineEnd
    requires Shared(KernelList(es, kernelStart, kernelEnd, trampolineStart, trampolineEnd), t0, nodes, t, granted)
    requires Covered(granted, p) || NewTable(t0, t, p)
    ensures p != 0 && UsablePage(es, p)
    ensures !Touches(p, kernelStart, kernelEnd) && !Touches(p, trampolineStart, trampolineEnd)
  {
    assert Free(KernelList(es, kernelStart, kernelEnd, trampolineStart, trampolineEnd), p);
    KernelListIsSafe(es, kernelStart, kernelEnd, trampolineStart, trampolineEnd, p);
  }

  /** As Allowed, in terms of the boot tables, which do not have the window yet. */
  ghost predicate AllowedAtBoot(m: Memory, root: nat, op: Operation) {
    match op
    case MapPage(_, v, _) => Level4(v) != 192 && !Walk(m, root, v).Huge?
    case UnmapPage(v) => Level4(v) != 192
    case _ => true
  }

  /** The pages that the boot tables map, seen outside the window. */
  ghost predicate BootPages(m: Memory, root: nat, pages: map<nat, nat>) {
    forall v: Word {:trigger Walk(m, root, v)} :: Level4(v) != 192 ==>
      (PageNumber(v) in pages <==> Walk(m, root, v).Small?)
      && (PageNumber(v) in pages ==> Walk(m, root, v) == Small(pages[PageNumber(v)]))
  }

  lemma AnswersSinceBoot(m: Memory, m0: Memory, m': Memory, root: nat, pages: map<nat, nat>)
    requires Answers(m0, m', root, pages)
    requires forall v: Word {:trigger Walk(m0, root, v)} :: Level4(v) != 192 ==> Walk(m0, root, v) == Walk(m, root, v)
    ensures forall v: Word {:trigger Lookup(m', root, v)} :: Level4(v) != 192 ==>
              Lookup(m', root, v) == if Walk(m, root, v).Huge? then Lookup(m, root, v)
                                     else if PageNumber(v) in pages
                                     then 0x1000 * pages[PageNumber(v)] + InPage(v) else 0
  {
    forall v: Word {:trigger Lookup(m', root, v)} | Level4(v) != 192
      ensures Lookup(m', root, v) == if Walk(m, root, v).Huge? then Lookup(m, root, v)
                                     else if PageNumber(v) in pages
                                     then 0x1000 * pages[PageNumber(v)] + InPage(v) else 0
    {
      assert Walk(m0, root, v) == Walk(m, root, v);
    }
  }

  lemma PagesOfBoot(pt: PageTable, m: Memory)
    requires pt.Valid()
    requires forall v: Word {:trigger Walk(pt.ram.mem, pt.root, v)} ::
               Level4(v) != 192 ==> Walk(pt.ram.mem, pt.root, v) == Walk(m, pt.root, v)
    ensures BootPages(m, pt.root, pt.pages)
  {
    forall v: Word {:trigger Walk(m, pt.root, v)} | Level4(v) != 192
      ensures PageNumber(v) in pt.pages <==> Walk(m, pt.root, v).Small?
      ensures PageNumber(v) in pt.pages ==> Walk(m, pt.root, v) == Small(pt.pages[PageNumber(v)])
    {
      assert Walk(pt.ram.mem, pt.root, v) == Walk(m, pt.root, v);
    }
  }

  /** From boot on, whatever is allocated, written by clients, mapped and unmapped: the pages handed out are safe, and
      every address outside the window translates as the operations say. */
  method BootAndRun(pt: PageTable, buffer: Word, ghost boot: Tables, ghost b: nat, entries: seq<MemoryEntry>,
                    kernelStart: nat, kernelEnd: nat, trampolineStart: nat, trampolineEnd: nat, ops: seq<Operation>)
    returns (ok: bool, count: nat, granted: seq<Region>, ghost p0: map<nat, nat>)
    requires pt.allocator.ram == pt.ram
    requires IsTree(pt.ram.mem, pt.root, boot)
    requires forall p {:trigger boot[p]} :: p in boot ==> Identity(pt.ram.mem, pt.root, boot[p])
    requires !Present(Read(pt.ram.mem, pt.root, 192)) && b !in boot.Values && b < 0x800_0000
    requires CpuTranslate(pt.ram.mem, pt.root, buffer) == Some(PageAddress(b))
    requires var e := BigEntry(pt.ram.mem, pt.root, buffer);
             e.Some? ==> Frame(e.value.0) % (e.value.1 / 0x1000) == 0
    requires Sane(entries) && kernelStart <= kernelEnd && trampolineStart <= trampolineEnd
    requires InKernel(entries, kernelStart, kernelEnd, boot[Child(Root, 192) := b])
    requires forall i {:trigger ops[i]} :: 0 <= i < |ops| ==> AllowedAtBoot(pt.ram.mem, pt.root, ops[i])
    modifies pt, pt.ram, pt.allocator
    ensures ok <==> 32 * (|ReservedRegions(entries)| + 1) <= 0x1000
    ensures ok ==> pt.Valid() && count <= |ops| && (count < |ops| ==> Starved(pt.allocator.nodes, ops[count]))
    ensures ok ==> HaveSizes(granted, Sizes(ops[..count])) && BootPages(old(pt.ram.mem), pt.root, p0)
    ensures ok ==> Shared(KernelList(entries, kernelStart, kernelEnd, trampolineStart, trampolineEnd),
                          boot[Child(Root, 192) := b], pt.allocator.nodes, pt.tables, granted)
    ensures ok ==> forall v: Word {:trigger Lookup(pt.ram.mem, pt.root, v)} :: Level4(v) != 192 ==>
              var pages := Fold(p0, ops[..count]);
              Lookup(pt.ram.mem, pt.root, v) == if Walk(old(pt.ram.mem), pt.root, v).Huge?
                                                then Lookup(old(pt.ram.mem), pt.root, v)
                                                else if PageNumber(v) in pages
                                                then 0x1000 * pages[PageNumber(v)] + InPage(v) else 0
  {
    hide KernelList, Fold, Sizes, Walk, Shared;
    ghost var m := pt.ram.mem;
    count, granted, p0 := 0, [], map[];
    ok := Boot(pt, buffer, boot, b, entries, kernelStart, kernelEnd, trampolineStart, trampolineEnd);
    if ok {
      ghost var m0 := pt.ram.mem;
      p0 := pt.pages;
      PagesOfBoot(pt, m);
      forall i {:trigger ops[i]} | 0 <= i < |ops|
        ensures Allowed(m0, pt.root, ops[i])
      {
        assert AllowedAtBoot(m, pt.root, ops[i]);
      }
      count, granted := Run(pt, ops);
      AnswersSinceBoot(m, m0, pt.ram.mem, pt.root, Fold(p0, ops[..count]));
    }
  }
}

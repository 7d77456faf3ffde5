/** Runs of kmalloc and kfree on the heap with its pages behind it. */
module HeapRuns {
  import opened Wrappers
  import opened Machine
  import opened FreeList
  import opened FreeListRelease
  import opened MergedPages
  import opened PageTree
  import opened PageTable
  import opened MappedHeap
  import H = Heap

  datatype Call = Allocate(size: nat) | Release(pointer: nat)

  /** The blocks, the regions behind them and the free list between two calls. */
  datatype Snapshot = Snapshot(blocks: seq<H.Block>, behind: seq<Region>, nodes: seq<Region>)

  /** A new block over pages that were free. */
  ghost predicate Allocates(s: Snapshot, size: nat, s': Snapshot, i: nat, b: H.Block, r: Region) {
    && i <= |s.blocks| && i <= |s.behind| && b.size == size + H.HEADER && H.FirstFit(s.blocks, i, b)
    && s'.blocks == H.Inserted(s.blocks, i, b) && s'.behind == WithRegion(s.behind, i, r) && AllFree(s.nodes, r)
  }

  /** One block less; every page that the merge pass has made free is behind none of the others. */
  ghost predicate Releases(s: Snapshot, pointer: nat, s': Snapshot, i: nat) {
    && i < |s.blocks| && i < |s.behind| && s.blocks[i].start + H.HEADER == pointer
    && s'.blocks == H.Removed(s.blocks, i) && s'.behind == WithoutRegion(s.behind, i)
    && forall p {:trigger Free(s'.nodes, p)} :: Free(s'.nodes, p) && !Free(s.nodes, p) ==> !Covered(s'.behind, p)
  }

  /** What one call does. */
  ghost predicate Does(s: Snapshot, c: Call, s': Snapshot) {
    match c
    case Allocate(size) => exists i, b, r :: Allocates(s, size, s', i, b, r)
    case Release(pointer) => s' == s || exists i :: Releases(s, pointer, s', i)
  }

  /** Block b is in the list, with region r behind it. */
  ghost predicate Holds(s: Snapshot, b: H.Block, r: Region) {
    exists i {:trigger s.blocks[i]} :: 0 <= i < |s.blocks| && i < |s.behind| && s.blocks[i] == b && s.behind[i] == r
  }

  lemma AllocationKeepsOthers(s: Snapshot, size: nat, s': Snapshot, i: nat, b': H.Block, r': Region, o: nat)
    requires Allocates(s, size, s', i, b', r') && o < |s.blocks| == |s.behind|
    ensures Holds(s', s.blocks[o], s.behind[o])
  {
    var k := if o < i then o else o + 1;
    assert s'.blocks[k] == s.blocks[o];
    assert s'.behind[k] == s.behind[o];
  }

  lemma ReleaseKeepsOthers(s: Snapshot, pointer: nat, s': Snapshot, i: nat, o: nat)
    requires Releases(s, pointer, s', i) && o < |s.blocks| == |s.behind| && o != i
    ensures Holds(s', s.blocks[o], s.behind[o])
  {
    var k := if o < i then o else o - 1;
    assert s'.blocks[k] == s.blocks[o];
    assert s'.behind[k] == s.behind[o];
  }

  lemma CallKeepsOthers(s: Snapshot, c: Call, s': Snapshot, b: H.Block, r: Region)
    requires Holds(s, b, r) && Does(s, c, s') && |s.blocks| == |s.behind|
    requires c != Release(b.start + H.HEADER)
    ensures Holds(s', b, r)
  {
    var o :| 0 <= o < |s.blocks| && o < |s.behind| && s.blocks[o] == b && s.behind[o] == r;
    match c
    case Allocate(size) =>
      var i, b', r' :| Allocates(s, size, s', i, b', r');
      AllocationKeepsOthers(s, size, s', i, b', r', o);
    case Release(pointer) =>
      if s' != s {
        var i :| Releases(s, pointer, s', i);
        ReleaseKeepsOthers(s, pointer, s', i, o);
      }
  }

  /** The states between the calls of a run. */
  ghost predicate IsRun(calls: seq<Call>, states: seq<Snapshot>) {
    && |states| == |calls| + 1
    && (forall k {:trigger states[k]} :: 0 <= k < |states| ==> |states[k].blocks| == |states[k].behind|)
    && (forall k {:trigger calls[k]} :: 0 <= k < |calls| ==> Does(states[k], calls[k], states[k + 1]))
  }

  /** Whatever else is allocated and freed, a block keeps its address, its size and its pages until it is freed. */
  lemma {:induction false} BlockStays(calls: seq<Call>, states: seq<Snapshot>, j: nat, k: nat, b: H.Block, r: Region)
    requires IsRun(calls, states) && j <= k < |states| && Holds(states[j], b, r)
    requires forall i {:trigger calls[i]} :: j <= i < k ==> calls[i] != Release(b.start + H.HEADER)
    ensures Holds(states[k], b, r)
    decreases k - j
  {
    if j < k {
      BlockStays(calls, states, j, k - 1, b, r);
      CallKeepsOthers(states[k - 1], calls[k - 1], states[k], b, r);
    }
  }

  lemma RunGrows(calls: seq<Call>, states: seq<Snapshot>, c: Call, s: Snapshot)
    requires IsRun(calls, states) && Does(states[|calls|], c, s) && |s.blocks| == |s.behind|
    ensures IsRun(calls + [c], states + [s])
  {
    var calls', states' := calls + [c], states + [s];
    forall k {:trigger calls'[k]} | 0 <= k < |calls'|
      ensures Does(states'[k], calls'[k], states'[k + 1])
    {
      if k < |calls| {
        assert calls'[k] == calls[k];
      }
    }
  }

  /** One run after the other. */
  lemma RunsCompose(calls: seq<Call>, states: seq<Snapshot>, calls': seq<Call>, states': seq<Snapshot>)
    requires IsRun(calls, states) && IsRun(calls', states') && states[|calls|] == states'[0]
    ensures IsRun(calls + calls', states + states'[1..])
  {
    var cs, ss := calls + calls', states + states'[1..];
    forall k {:trigger cs[k]} | 0 <= k < |cs|
      ensures Does(ss[k], cs[k], ss[k + 1])
    {
      if k < |calls| {
        assert cs[k] == calls[k];
      } else {
        assert cs[k] == calls'[k - |calls|] && ss[k] == states'[k - |calls|];
      }
    }
  }

  /** The addresses that a call takes at most. */
  function NeedOf(c: Call): nat {
    match c
    case Allocate(size) => H.RoundUp(size + H.HEADER)
    case Release(_) => 0
  }

  function Need(calls: seq<Call>): nat {
    if calls == [] then 0 else NeedOf(calls[0]) + Need(calls[1..])
  }

  lemma EndAfterInsertion(blocks: seq<H.Block>, i: nat, b: H.Block)
    requires H.FirstFit(blocks, i, b) && b.start + H.RoundUp(b.size) == b.Above()
    ensures HeapEnd(H.Inserted(blocks, i, b)) <= HeapEnd(blocks) + H.RoundUp(b.size)
  {
    var s := H.Inserted(blocks, i, b);
    assert s[|s| - 1] == if i == |blocks| then b else blocks[|blocks| - 1];
  }

  lemma EndAfterRemoval(blocks: seq<H.Block>, i: nat)
    requires H.Ordered(blocks) && i < |blocks|
    ensures HeapEnd(H.Removed(blocks, i)) <= HeapEnd(blocks)
  {
    var s := H.Removed(blocks, i);
    if s != [] {
      assert s[|s| - 1] == blocks[if i == |blocks| - 1 then i - 1 else |blocks| - 1];
    }
  }

  /** Why a run stops: at its end, which is after its last call or after its first kfree; when the kernel halts for
      want of pages; or at a pointer that kmalloc never returned. */
  datatype End = Done | Halted | Foreign

  /** A page that the merge pass has made free is that of a table or of a block. */
  ghost predicate Steals(s: Snapshot, t: Tables, behind: seq<Region>) {
    exists p {:trigger Gained(s.nodes, p)} :: Gained(s.nodes, p) && (p in t.Values || Covered(behind, p))
  }

  ghost function Now(h: MappedHeap): Snapshot
    reads h, h.heap, h.pt, h.pt.allocator
  {
    Snapshot(h.heap.blocks, h.behind, h.pt.allocator.nodes)
  }

  /** kmalloc as a call of a run. */
  method CallKmalloc(h: MappedHeap, size: nat) returns (ok: bool)
    requires h.Valid() && size + H.HEADER > 0x800
    requires HeapEnd(h.heap.blocks) + H.RoundUp(size + H.HEADER) <= HEAP_END
    modifies h, h.heap, h.pt, h.pt.ram, h.pt.allocator
    ensures ok ==> h.Valid() && Does(old(Now(h)), Allocate(size), Now(h))
    ensures ok ==> HeapEnd(h.heap.blocks) <= HeapEnd(old(h.heap.blocks)) + H.RoundUp(size + H.HEADER)
    ensures !ok ==> Short(old(h.pt.allocator.nodes), H.RoundUp(size + H.HEADER)) || |h.pt.allocator.nodes| <= 2
  {
    ghost var s := Now(h);
    var p;
    ghost var i, b, r;
    p, i, b, r := h.Kmalloc(size);
    ok := p.Some?;
    if ok {
      assert Allocates(s, size, Now(h), i, b, r);
      InsertedAreAligned(h.heap.pages, s.blocks, i, b);
      PagesOfBlock(b);
      EndAfterInsertion(s.blocks, i, b);
    }
  }

  /** kfree as a call of a run; near: the reserved table has kept the allocator from its merge pass. */
  method CallKfree(h: MappedHeap, pointer: nat) returns (ghost near: bool)
    requires h.Valid() && !ForeignTo(h.heap, Release(pointer))
    modifies h, h.heap, h.pt.ram, h.pt.allocator
    ensures h.Valid() ==> Does(old(Now(h)), Release(pointer), Now(h))
    ensures h.Valid() ==> HeapEnd(h.heap.blocks) <= HeapEnd(old(h.heap.blocks))
    ensures !h.Valid() ==> Steals(old(Now(h)), h.pt.tables, h.behind)
    ensures old(H.Live(h.heap.blocks, pointer - H.HEADER)) && !near ==>
              (h.Valid() <==> !Steals(old(Now(h)), h.pt.tables, h.behind))
  {
    ghost var s := Now(h);
    ghost var i;
    i, near := h.Kfree(pointer);
    HarmlessOrSteals(s.nodes, h.pt.tables, h.behind, s);
    if H.Live(s.blocks, pointer - H.HEADER) {
      EndAfterRemoval(s.blocks, i);
      if near || Harmless(s.nodes, h.pt.tables, h.behind) {
        ReleasedIsHarmless(s, pointer, Now(h), i, near, h.pt.tables);
      }
    } else {
      assert Now(h) == s;
    }
  }

  lemma HarmlessOrSteals(n: seq<Region>, t: Tables, behind: seq<Region>, s: Snapshot)
    requires s.nodes == n
    ensures Harmless(n, t, behind) <==> !Steals(s, t, behind)
  {
  }

  lemma ReleasedIsHarmless(s: Snapshot, pointer: nat, s': Snapshot, i: nat, near: bool, t: Tables)
    requires i < |s.blocks| && i < |s.behind| && s.blocks[i].start + H.HEADER == pointer
    requires s'.blocks == H.Removed(s.blocks, i) && s'.behind == WithoutRegion(s.behind, i)
    requires WellFormed(s.nodes) && Sorted(s.nodes) && s'.nodes == (if near then s.nodes else Merge(s.nodes))
    requires near || Harmless(s.nodes, t, s'.behind)
    ensures Releases(s, pointer, s', i)
  {
    forall p {:trigger Free(s'.nodes, p)} | Free(s'.nodes, p) && !Free(s.nodes, p)
      ensures !Covered(s'.behind, p)
    {
      FreeAfterKfree(s.nodes, s'.nodes, near, p);
    }
  }

  lemma NeedNext(calls: seq<Call>, k: nat)
    requires k < |calls|
    ensures Need(calls[k..]) == NeedOf(calls[k]) + Need(calls[k + 1..])
  {
    assert calls[k..][0] == calls[k] && calls[k..][1..] == calls[k + 1..];
  }

  /** Every region but the last is too small, or there is no other left. */
  ghost predicate NoPages(before: seq<Region>, after: seq<Region>, c: Call) {
    c.Allocate? && (Short(before, NeedOf(c)) || |after| <= 2)
  }

  ghost predicate ForeignTo(heap: H.KernelHeap, c: Call)
    reads heap
  {
    c.Release? && (c.pointer < H.HEADER || c.pointer - H.HEADER !in heap.nodes || c.pointer - H.HEADER == heap.dummy)
  }

  /** One call. */
  method Perform(h: MappedHeap, c: Call) returns (end: End)
    requires h.Valid() && HeapEnd(h.heap.blocks) + NeedOf(c) <= HEAP_END
    requires c.Allocate? ==> c.size + H.HEADER > 0x800
    modifies h, h.heap, h.pt, h.pt.ram, h.pt.allocator
    ensures end.Done? && h.Valid() ==>
              Does(old(Now(h)), c, Now(h)) && HeapEnd(h.heap.blocks) <= HeapEnd(old(h.heap.blocks)) + NeedOf(c)
    ensures end.Done? && !h.Valid() ==> c.Release? && Steals(old(Now(h)), h.pt.tables, h.behind)
    ensures end.Halted? ==> NoPages(old(h.pt.allocator.nodes), h.pt.allocator.nodes, c)
    ensures end.Foreign? ==> h.Valid() && Now(h) == old(Now(h)) && ForeignTo(h.heap, c)
  {
    match c {
      case Allocate(size) =>
        var ok := CallKmalloc(h, size);
        end := if ok then Done else Halted;
      case Release(pointer) =>
        if pointer < H.HEADER || pointer - H.HEADER !in h.heap.nodes || pointer - H.HEADER == h.heap.dummy {
          return Foreign;
        }
        end := Done;
        ghost var near := CallKfree(h, pointer);
    }
  }

  /** What a run has done when count calls have been made and the heap is still sound. */
  ghost predicate Sound(h: MappedHeap, calls: seq<Call>, count: nat, states: seq<Snapshot>, first: Snapshot)
    reads h, h.heap, h.pt, h.pt.ram, h.pt.allocator, h.pt.allocator.ram
  {
    && count <= |calls| && h.Valid() && IsRun(calls[..count], states) && states[0] == first && states[count] == Now(h)
    && HeapEnd(h.heap.blocks) + Need(calls[count..]) <= HEAP_END
  }

  lemma SoundAtStart(h: MappedHeap, calls: seq<Call>)
    requires h.Valid() && HeapEnd(h.heap.blocks) + Need(calls) <= HEAP_END && |h.heap.blocks| == |h.behind|
    ensures Sound(h, calls, 0, [Now(h)], Now(h))
  {
    assert calls[..0] == [] && calls[0..] == calls;
  }

  lemma SoundGrows(h: MappedHeap, calls: seq<Call>, count: nat, states: seq<Snapshot>, end: nat)
    requires count < |calls| && h.Valid() && IsRun(calls[..count], states)
    requires Does(states[count], calls[count], Now(h)) && end + Need(calls[count..]) <= HEAP_END
    requires HeapEnd(h.heap.blocks) <= end + NeedOf(calls[count])
    ensures Sound(h, calls, count + 1, states + [Now(h)], states[0])
  {
    NeedNext(calls, count);
    assert calls[..count + 1] == calls[..count] + [calls[count]];
    RunGrows(calls[..count], states, calls[count], Now(h));
  }

  /** The calls up to the first kfree. Unless the kernel halts or a pointer is foreign, they are a run, and the heap is
      sound afterwards, so that the next run can begin where this one ends. Only the kfree at the end can break it, when
      its merge pass steals a page. */
  method Run(h: MappedHeap, calls: seq<Call>) returns (count: nat, end: End, ghost states: seq<Snapshot>)
    requires h.Valid() && HeapEnd(h.heap.blocks) + Need(calls) <= HEAP_END
    requires forall k {:trigger calls[k]} :: 0 <= k < |calls| && calls[k].Allocate? ==> calls[k].size + H.HEADER > 0x800
    modifies h, h.heap, h.pt, h.pt.ram, h.pt.allocator
    ensures count <= |calls| && states != [] && states[0] == old(Now(h))
    ensures end.Done? && h.Valid() ==>
              && Sound(h, calls, count, states, old(Now(h)))
              && (count == |calls| || (count > 0 && calls[count - 1].Release?))
    ensures end.Done? && !h.Valid() ==>
              && count > 0 && calls[count - 1].Release? && IsRun(calls[..count - 1], states)
              && Steals(states[count - 1], h.pt.tables, h.behind)
    ensures end.Halted? ==>
              && count < |calls| && IsRun(calls[..count], states)
              && NoPages(states[count].nodes, h.pt.allocator.nodes, calls[count])
    ensures end.Foreign? ==> count < |calls| && Sound(h, calls, count, states, old(Now(h)))
                             && ForeignTo(h.heap, calls[count])
  {
    hide Need, Does, Steals, NoPages, ForeignTo, HeapEnd;
    count, end, states := 0, Done, [Now(h)];
    SoundAtStart(h, calls);
    while count < |calls|
      invariant end.Done? && Sound(h, calls, count, states, old(Now(h)))
    {
      NeedNext(calls, count);
      ghost var before := HeapEnd(h.heap.blocks);
      end := Perform(h, calls[count]);
      if !end.Done? {
        return;
      }
      if h.Valid() {
        SoundGrows(h, calls, count, states, before);
        states := states + [Now(h)];
      }
      count := count + 1;
      if calls[count - 1].Release? {
        return;
      }
    }
  }
}

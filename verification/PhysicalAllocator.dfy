/** The physical page allocator: its methods rewrite the descriptors in physical memory. */
module PhysicalAllocator {
  import opened Wrappers
  import opened Machine
  import opened FreeList
  import opened MemoryMap
  import opened BootChain
  import opened FreeListRelease

  /** The physical memory that the allocator and the page tables share. */
  class Ram {
    var mem: Memory

    constructor (mem: Memory)
      ensures this.mem == mem
    {
      this.mem := mem;
    }
  }

  /** Only page 0, free pages and the released pages r may have been written. */
  ghost predicate WritesNear(m: Memory, m': Memory, rs: seq<Region>, r: Region) {
    forall p: nat {:trigger Agree(m, m', p)} :: p != 0 && !Free(rs, p) && !r.Has(p) ==> Agree(m, m', p)
  }

  lemma MergeWritesNear(m: Memory, m1: Memory, m2: Memory, rs: seq<Region>, rs1: seq<Region>, r: Region)
    requires WritesNear(m, m1, rs, r) && Untouched(m1, m2, rs1)
    requires rs1 == rs || exists k :: 1 <= k <= |rs| && rs1 == Insert(rs, k, r)
    ensures WritesNear(m, m2, rs, r)
  {
    forall p: nat {:trigger Agree(m, m2, p)} | p != 0 && !Free(rs, p) && !r.Has(p)
      ensures Agree(m, m2, p)
    {
      if k :| 1 <= k <= |rs| && rs1 == Insert(rs, k, r) {
        InsertIsUnion(rs, r, k, p);
      }
      assert Agree(m, m1, p) && Agree(m1, m2, p);
    }
  }

  /** The first of the pages r is not on the list. */
  ghost predicate InUse(rs: seq<Region>, r: Region) {
    !Free(rs, r.start) && (|rs| == 1 && r.start > 0 ==> !rs[0].Has(r.start))
  }

  lemma ReleaseCases(rs: seq<Region>, r: Region)
    requires WellFormed(rs) && Sorted(rs) && r.count >= 1
    ensures InUse(rs, r) ==> !AddsExactly(rs, r, rs)
    ensures InUse(rs, r) && r.start >= 1 ==> (AddsExactly(rs, r, Released(rs, r)) <==> HasPlace(rs, r))
  {
    assert r.Has(r.start);
    if InUse(rs, r) && r.start >= 1 {
      ReleaseAddsExactlyIff(rs, r);
    }
  }

  class Allocator {
    const ram: Ram
    var usedMemorySize: nat
    var unusableRegionCount: nat
    /** The regions on the chain, sentinel first. */
    ghost var nodes: seq<Region>

    constructor (ram: Ram)
      ensures this.ram == ram && usedMemorySize == 0 && unusableRegionCount == 0 && nodes == []
    {
      this.ram := ram;
      usedMemorySize := 0;
      unusableRegionCount := 0;
      nodes := [];
    }

    ghost predicate Valid()
      reads this, ram
    {
      WellFormed(nodes) && Chain(ram.mem, nodes)
    }

    /** Case 2 of setUsed: region k is linked out. */
    method Delete(ghost m0: Memory, ghost was: seq<Region>, ghost k: nat,
                  last: nat, region: nat, a1: nat, a2: nat) returns (next: nat)
      requires Carving(m0, was, ram.mem, nodes, k, a1, a2) && k < |nodes|
      requires last == nodes[k - 1].start && region == nodes[k].start
      requires Carve(nodes[k], a1, a2) == []
      modifies ram, this`nodes
      ensures nodes == Drop(old(nodes), k) && PagesFrom(nodes, k) < PagesFrom(old(nodes), k)
      ensures Carving(m0, was, ram.mem, nodes, k, a1, a2)
      ensures nodes[k - 1] == old(nodes[k - 1]) && next == PageIndex(NextAddress(nodes, k - 1))
    {
      ghost var m := ram.mem;
      ReadNode(ram.mem, nodes, k);
      ram.mem := Write(ram.mem, last, NEXT, Read(ram.mem, region, NEXT));
      StartsDiffer(nodes, k, k - 1);
      CaseDelete(m0, was, m, nodes, k, a1, a2);
      next := PageIndex(Read(ram.mem, region, NEXT));
      PagesStep(nodes, k);
      assert Drop(nodes, k)[k..] == nodes[k + 1..];
      nodes := Drop(nodes, k);
    }

    /** Case 4 of setUsed: region k ends at a1. */
    method LowerEnd(ghost m0: Memory, ghost was: seq<Region>, ghost k: nat, region: nat, a1: nat, a2: nat, b1: nat)
      requires Carving(m0, was, ram.mem, nodes, k, a1, a2) && k < |nodes|
      requires region == b1 == nodes[k].start < a1 < nodes[k].End() <= a2
      modifies ram, this`nodes
      ensures nodes == old(nodes)[k := Region(b1, a1 - b1)] && PagesFrom(nodes, k + 1) < PagesFrom(old(nodes), k)
      ensures Carving(m0, was, ram.mem, nodes, k + 1, a1, a2)
    {
      ghost var m := ram.mem;
      ram.mem := Write(ram.mem, region, COUNT, a1 - b1);
      CaseLower(m0, was, m, nodes, k, a1, a2);
      PagesStep(nodes, k);
      assert nodes[k := Region(b1, a1 - b1)][k + 1..] == nodes[k + 1..];
      nodes := nodes[k := Region(b1, a1 - b1)];
    }

    /** Case 3 of setUsed: the descriptor of region k moves up to page a2. */
    method MoveStart(ghost m0: Memory, ghost was: seq<Region>, ghost k: nat,
                     last: nat, region: nat, a1: nat, a2: nat, b2: nat) returns (newRegion: nat)
      requires Carving(m0, was, ram.mem, nodes, k, a1, a2) && k < |nodes|
      requires last == nodes[k - 1].start && region == nodes[k].start && b2 == nodes[k].End()
      requires a1 <= nodes[k].start < a2 < b2
      modifies ram, this`nodes
      ensures nodes == old(nodes)[k := Region(a2, b2 - a2)] && PagesFrom(nodes, k + 1) < PagesFrom(old(nodes), k)
          && newRegion == a2
      ensures Carving(m0, was, ram.mem, nodes, k + 1, a1, a2)
    {
      ghost var m := ram.mem;
      ReadNode(ram.mem, nodes, k);
      newRegion := a2;
      ram.mem := WriteDescriptor(ram.mem, Region(a2, b2 - a2), Read(ram.mem, region, TYPE), Read(ram.mem, region,
          NEXT));
      ram.mem := Write(ram.mem, last, NEXT, PageAddress(a2));
      CaseRaise(m0, was, m, nodes, k, a1, a2, Read(m, region, TYPE));
      PagesStep(nodes, k);
      assert nodes[k := Region(a2, b2 - a2)][k + 1..] == nodes[k + 1..];
      nodes := nodes[k := Region(a2, b2 - a2)];
    }

    /** Case 5 of setUsed: region k ends at a1 and a new region for its tail follows it. */
    method SplitRegion(ghost m0: Memory, ghost was: seq<Region>, ghost k: nat,
                       region: nat, a1: nat, a2: nat, b1: nat, b2: nat)
      requires Carving(m0, was, ram.mem, nodes, k, a1, a2) && k < |nodes|
      requires region == b1 == nodes[k].start && b2 == nodes[k].End()
      requires b1 < a1 < a2 < b2
      modifies ram, this`nodes
      ensures nodes == Insert(old(nodes)[k := Region(b1, a1 - b1)], k + 1, Region(a2, b2 - a2))
      ensures PagesFrom(nodes, k + 1) < PagesFrom(old(nodes), k)
      ensures Carving(m0, was, ram.mem, nodes, k + 1, a1, a2)
    {
      ghost var m := ram.mem;
      ReadNode(ram.mem, nodes, k);
      ram.mem := Write(ram.mem, region, COUNT, a1 - b1);
      ram.mem := WriteDescriptor(ram.mem, Region(a2, b2 - a2), Read(ram.mem, region, TYPE), Read(ram.mem, region,
          NEXT));
      ram.mem := Write(ram.mem, region, NEXT, PageAddress(a2));
      CaseSplit(m0, was, m, nodes, k, a1, a2, Read(m, region, TYPE));
      PagesStep(nodes, k);
      assert Insert(nodes[k := Region(b1, a1 - b1)], k + 1, Region(a2, b2 - a2))[k + 1..] == [Region(a2,
          b2 - a2)] + nodes[k + 1..];
      nodes := Insert(nodes[k := Region(b1, a1 - b1)], k + 1, Region(a2, b2 - a2));
    }

    /** One round of the loop of setUsed: compares region k with the pages a1 to a2 - 1 and goes on to the next one. */
    method CarveRegion(ghost m0: Memory, ghost was: seq<Region>, ghost k: nat, last: nat, region: nat,
                       a1: nat, a2: nat) returns (newLast: nat, next: nat, ghost k': nat)
      requires Carving(m0, was, ram.mem, nodes, k, a1, a2) && a1 < a2 && k < |nodes|
      requires last == nodes[k - 1].start && region == nodes[k].start
      modifies ram, this`nodes
      ensures Carving(m0, was, ram.mem, nodes, k', a1, a2)
      ensures newLast == nodes[k' - 1].start && next == PageIndex(NextAddress(nodes, k' - 1))
      ensures PagesFrom(nodes, k') < PagesFrom(old(nodes), k)
    {
      ReadNode(ram.mem, nodes, k);
      PagesStep(nodes, k);
      var b1 := Read(ram.mem, region, START);
      var b2 := Read(ram.mem, region, START) + Read(ram.mem, region, COUNT);
      newLast := region;
      if a2 <= b1 || b2 <= a1 {
        CaseOutside(m0, was, ram.mem, nodes, k, a1, a2);
        assert PagesFrom(nodes, k + 1) < PagesFrom(nodes, k);
      } else if a1 <= b1 && b2 <= a2 {
        next := Delete(m0, was, k, last, region, a1, a2);
        return last, next, k;
      } else if a1 <= b1 {
        newLast := MoveStart(m0, was, k, last, region, a1, a2, b2);
      } else if b2 <= a2 {
        LowerEnd(m0, was, k, region, a1, a2, b1);
      } else {
        SplitRegion(m0, was, k, region, a1, a2, b1, b2);
      }
      next := NextRegion(k, newLast);
      k' := k + 1;
    }

    /** The page of the node that follows node k, or 0. */
    method NextRegion(ghost k: nat, region: nat) returns (next: nat)
      requires Valid() && k < |nodes| && region == nodes[k].start
      ensures next == PageIndex(NextAddress(nodes, k))
    {
      ReadNode(ram.mem, nodes, k);
      next := PageIndex(Read(ram.mem, region, NEXT));
    }

    /** Takes the pages from start / 4096 to one page past the end out of every free region. */
    method SetUsed(start: nat, length: nat)
      requires Valid()
      modifies ram, this`nodes
      ensures Valid()
      ensures nodes == TakeOut(old(nodes), start, length)
      ensures Untouched(old(ram.mem), ram.mem, old(nodes))
      ensures OnlyMarked(old(ram.mem), ram.mem, old(nodes), UsedEnd(start, length))
      ensures AllMarked(nodes, old(nodes), UsedEnd(start, length))
    {
      ghost var m0, was, k := ram.mem, nodes, 1;
      var last := 0;
      var region := PageIndex(Read(ram.mem, last, NEXT));
      ghost var a, b := start / 0x1000, UsedEnd(start, length);
      CarvingStarts(ram.mem, nodes, a, b);
      while region != 0
        invariant Carving(m0, was, ram.mem, nodes, k, a, b)
        invariant last == nodes[k - 1].start
        invariant region == PageIndex(NextAddress(nodes, k - 1))
        decreases PagesFrom(nodes, k)
      {
        assert k < |nodes|;
        var a1 := start / 0x1000;
        var a2 := (start + length + 0xFFF) / 0x1000;
        a2 := a2 + 1;
        last, region, k := CarveRegion(m0, was, k, last, region, a1, a2);
      }
      CarvingEnds(m0, was, ram.mem, nodes, k, a, b);
    }

    /** Takes count pages from the back of region k and links the region out when none is left. */
    method Grant(ghost k: nat, last: nat, region: nat, count: nat) returns (address: nat)
      requires Valid() && 1 <= k < |nodes| && count <= nodes[k].count
      requires last == nodes[k - 1].start && region == nodes[k].start
      modifies ram, this`nodes, this`usedMemorySize
      ensures Valid() && Untouched(old(ram.mem), ram.mem, old(nodes))
      ensures nodes == AfterGrant(old(nodes), k, count) && ram.mem == GrantMemory(old(ram.mem), old(nodes), k, count)
      ensures address == PageAddress(Granted(old(nodes), k, count).start)
      ensures usedMemorySize == old(usedMemorySize) + count
    {
      ReadNode(ram.mem, nodes, k);
      StartsDiffer(nodes, k, k - 1);
      GrantKeepsChain(ram.mem, nodes, k, count);
      ram.mem := Write(ram.mem, region, COUNT, Read(ram.mem, region, COUNT) - count);
      var physicalAddress := Read(ram.mem, region, START) + Read(ram.mem, region, COUNT);
      usedMemorySize := usedMemorySize + count;
      if Read(ram.mem, region, COUNT) == 0 {
        ram.mem := Write(ram.mem, last, NEXT, Read(ram.mem, region, NEXT));
        ram.mem := Write(ram.mem, region, NEXT, 0);
      }
      nodes := AfterGrant(nodes, k, count);
      return PageAddress(physicalAddress);
    }

    /** First fit from the back of a region; None when the search runs out and the kernel halts. */
    method AllocatePhysicalMemory(count: nat) returns (address: Option<nat>)
      requires Valid()
      modifies ram, this`nodes, this`usedMemorySize
      ensures Valid() && Untouched(old(ram.mem), ram.mem, old(nodes))
      ensures address.None? <==> forall i {:trigger old(nodes[i])} :: 1 <= i < |old(nodes)| - 1 ==>
          old(nodes[i].count) < count
      ensures address.None? ==> ram.mem == old(ram.mem) && nodes == old(nodes) && usedMemorySize == old(usedMemorySize)
      ensures address.Some? ==>
                var k := FirstFit(old(nodes), count, 1);
                && k < |old(nodes)|
                && nodes == AfterGrant(old(nodes), k, count)
                    && ram.mem == GrantMemory(old(ram.mem), old(nodes), k, count)
                && address == Some(PageAddress(Granted(old(nodes), k, count).start))
                && usedMemorySize == old(usedMemorySize) + count
    {
      var region := 0;
      var last := region;
      ghost var k := 0;
      ReadNode(ram.mem, nodes, 0);
      region := PageIndex(Read(ram.mem, region, NEXT));
      k := 1;
      while Read(ram.mem, region, NEXT) != 0
        invariant ram.mem == old(ram.mem) && nodes == old(nodes) && usedMemorySize == old(usedMemorySize)
        invariant 1 <= k <= |nodes| && last == nodes[k - 1].start
        invariant region == PageIndex(NextAddress(nodes, k - 1))
        invariant k == |nodes| ==> k == 1
        invariant FirstFit(nodes, count, 1) == FirstFit(nodes, count, k)
        decreases |nodes| - k
      {
        ReadNode(ram.mem, nodes, 0);
        assert k < |nodes|;
        ReadNode(ram.mem, nodes, k);
        if Read(ram.mem, region, COUNT) >= count {
          var physicalAddress := Grant(k, last, region, count);
          return Some(physicalAddress);
        }
        last := region;
        region := PageIndex(Read(ram.mem, region, NEXT));
        k := k + 1;
      }
      if k < |nodes| {
        ReadNode(ram.mem, nodes, k);
      }
      assert k >= |nodes| - 1;
      return None;
    }

    /** Counts the entries the allocator cannot use. */
    method GetStaticData(entries: seq<MemoryEntry>)
      modifies this`usedMemorySize, this`unusableRegionCount
      ensures usedMemorySize == 0 && unusableRegionCount == |ReservedRegions(entries)|
    {
      usedMemorySize := 0;
      unusableRegionCount := 0;
      for i := 0 to |entries|
        invariant usedMemorySize == 0 && unusableRegionCount == |ReservedRegions(entries[..i])|
      {
        assert entries[..i + 1][..i] == entries[..i];
        if entries[i].kind != 1 {
          unusableRegionCount := unusableRegionCount + 1;
        }
      }
      assert entries[..|entries|] == entries;
    }

    /** Records the unusable entries behind the sentinel's descriptor in page 0. */
    method WriteReservedTable(entries: seq<MemoryEntry>)
      modifies ram
      ensures ReservedTable(ram.mem, ReservedRegions(entries))
      ensures forall p: nat, i: nat {:trigger Read(ram.mem, p, i)} ::
                p != 0 || i <= NEXT ==> Read(ram.mem, p, i) == Read(old(ram.mem), p, i)
    {
      var regions := 1;
      for e := 0 to |entries|
        invariant regions == |ReservedRegions(entries[..e])| + 1
        invariant ReservedTable(ram.mem, ReservedRegions(entries[..e]))
        invariant forall p: nat, i: nat {:trigger Read(ram.mem, p, i)} ::
                    p != 0 || i <= NEXT ==> Read(ram.mem, p, i) == Read(old(ram.mem), p, i)
      {
        assert entries[..e + 1][..e] == entries[..e];
        if entries[e].kind != 1 {
          ram.mem := Write(ram.mem, 0, 4 * regions + TYPE, if entries[e].kind == 3 then 2 else 1);
          ram.mem := Write(ram.mem, 0, 4 * regions + START, entries[e].base / 0x1000);
          ram.mem := Write(ram.mem, 0, 4 * regions + COUNT, entries[e].length / 0x1000);
          regions := regions + 1;
        }
      }
      assert entries[..|entries|] == entries;
    }

    /** Builds the chain over the usable entries; false when page 0 cannot hold the reserved table and the kernel
        halts. The chain is the list of usable regions if the memory map is sane; of any map at all it has an end unless
        its last two usable entries begin at the same page. */
    method InitMemoryInfos(entries: seq<MemoryEntry>) returns (ok: bool)
      requires Loadable(entries) && unusableRegionCount == |ReservedRegions(entries)|
      modifies ram, this`nodes
      ensures ok <==> 32 * (|ReservedRegions(entries)| + 1) <= 0x1000
      ensures ok && Sane(entries) ==>
                Valid() && nodes == BootList(entries) && ReservedTable(ram.mem, ReservedRegions(entries))
      ensures Sane(entries) ==> OnlyStarts(old(ram.mem), ram.mem, BootList(entries))
      ensures ok ==> (HasEnd(ram.mem) <==> !LastTwoCollide(UsableRegions(entries)))
    {
      if 32 * (unusableRegionCount + 1) > 0x1000 {
        return false;
      }
      ram.mem := Write(ram.mem, 0, START, 0);
      ram.mem := Write(ram.mem, 0, COUNT, 0);
      ram.mem := Write(ram.mem, 0, TYPE, 4);
      ram.mem := Write(ram.mem, 0, NEXT, 0);
      WriteReservedTable(entries);
      ghost var m := ram.mem;
      LinkUsableRegions(entries);
      nodes := BootList(entries);
      StartsBehindPage0(entries);
      BootListEndsIff(m, UsableRegions(entries));
      if Sane(entries) {
        LinkedBootList(m, entries);
        ReservedTableKept(m, ram.mem, ReservedRegions(entries));
        forall p: nat {:trigger Agree(old(ram.mem), ram.mem, p)} | p != 0 && !Starts(nodes, p)
          ensures Agree(old(ram.mem), ram.mem, p)
        {
          assert Agree(m, ram.mem, p);
        }
      }
      return true;
    }

    /** Links the usable entries one after the other behind the sentinel. */
    method LinkUsableRegions(entries: seq<MemoryEntry>)
      requires Loadable(entries)
      modifies ram
      ensures ram.mem == LinkAll(old(ram.mem), UsableRegions(entries))
    {
      var last := 0;
      for i := 0 to |entries|
        invariant ram.mem == LinkAll(old(ram.mem), UsableRegions(entries[..i]))
        invariant last == LastStart(UsableRegions(entries[..i]))
      {
        OneMoreEntry(entries, i);
        LinkOneMore(old(ram.mem), UsableRegions(entries[..i]), UsableRegion(entries[i]));
        if entries[i].kind == 1 {
          last := LinkUsable(last, entries[i]);
        }
      }
      assert entries[..|entries|] == entries;
    }

    /** Fills the descriptor of one usable entry, without page 0, and links it behind last. */
    method LinkUsable(last: nat, entry: MemoryEntry) returns (descriptor: nat)
      requires entry.base % 0x1000 == 0 && (entry.base == 0 ==> entry.length >= 0x1000)
      modifies ram
      ensures ram.mem == LinkBehind(old(ram.mem), last, UsableRegion(entry)) && descriptor == UsableRegion(entry).start
    {
      var baseAddress, length := entry.base, entry.length;
      if baseAddress == 0 {
        baseAddress := baseAddress + 0x1000;
        length := length - 0x1000;
      }
      assert UsableRegion(entry) == Region(baseAddress / 0x1000, length / 0x1000);
      PageAddressIsProduct(baseAddress / 0x1000);
      descriptor := baseAddress / 0x1000;
      ram.mem := WriteDescriptor(ram.mem, Region(descriptor, length / 0x1000), 0, 0);
      ram.mem := Write(ram.mem, last, NEXT, baseAddress);
    }

    /** Boot: read the memory map, then take out the kernel and the trampoline. */
    method ReadMultibootInfos(entries: seq<MemoryEntry>, kernelStart: nat, kernelEnd: nat,
                              trampolineStart: nat, trampolineEnd: nat) returns (ok: bool)
      requires Sane(entries) && kernelStart <= kernelEnd && trampolineStart <= trampolineEnd
      modifies this`nodes, this`usedMemorySize, this`unusableRegionCount, ram
      ensures ok <==> 32 * (|ReservedRegions(entries)| + 1) <= 0x1000
      ensures ok ==> Valid() && nodes == KernelList(entries, kernelStart, kernelEnd, trampolineStart, trampolineEnd)
      ensures ok ==> ReservedTable(ram.mem, ReservedRegions(entries))
      ensures ok ==> unusableRegionCount == |ReservedRegions(entries)|
      ensures usedMemorySize == 0
      ensures ok ==> forall p: nat {:trigger Agree(old(ram.mem), ram.mem, p)} ::
                !BootWrites(entries, kernelStart, kernelEnd, trampolineStart, trampolineEnd, p)
                ==> Agree(old(ram.mem), ram.mem, p)
      ensures ok ==> AllMarked(TakeOut(BootList(entries), kernelStart, kernelEnd - kernelStart), BootList(entries),
                               UsedEnd(kernelStart, kernelEnd - kernelStart))
    {
      hide UsableRegions, ReservedRegions, TakeOut;
      GetStaticData(entries);
      ok := InitMemoryInfos(entries);
      if ok {
        ghost var m, list := ram.mem, nodes;
        TakeOutImages(kernelStart, kernelEnd, trampolineStart, trampolineEnd);
        WritesFollow(old(ram.mem), m, ram.mem, list, kernelStart, kernelEnd, trampolineStart, trampolineEnd);
      }
    }

    /** The two calls of setUsed at the end of readMultibootInfos. */
    method TakeOutImages(kernelStart: nat, kernelEnd: nat, trampolineStart: nat, trampolineEnd: nat)
      requires Valid() && kernelStart <= kernelEnd && trampolineStart <= trampolineEnd
      modifies ram, this`nodes
      ensures Valid() && nodes == TakeOutBoth(old(nodes), kernelStart, kernelEnd, trampolineStart, trampolineEnd)
      ensures CarvedBoth(old(ram.mem), ram.mem, old(nodes), kernelStart, kernelEnd, trampolineStart, trampolineEnd)
      ensures forall i: nat {:trigger Read(ram.mem, 0, i)} :: i > NEXT ==>
          Read(ram.mem, 0, i) == Read(old(ram.mem), 0, i)
    {
      ghost var m, list := ram.mem, nodes;
      SetUsed(kernelStart, kernelEnd - kernelStart);
      ghost var m1, first := ram.mem, nodes;
      SetUsed(trampolineStart, trampolineEnd - trampolineStart);
      CarvingsCompose(m, m1, ram.mem, list, first, kernelStart, kernelEnd, trampolineStart, trampolineEnd);
    }

    /** The released pages touch or neighbour an entry of the reserved table. */
    ghost predicate NearReserved(r: Region)
      reads this, ram
    {
      exists i :: 1 <= i < unusableRegionCount + 1 && Near(ReservedEntry(ram.mem, i), r)
    }

    method IsNearReserved(pageIndex: nat, count: nat) returns (near: bool)
      ensures near <==> NearReserved(Region(pageIndex, count))
    {
      for i := 1 to unusableRegionCount + 1
        invariant forall j :: 1 <= j < i ==> !Near(ReservedEntry(ram.mem, j), Region(pageIndex, count))
      {
        if Near(ReservedEntry(ram.mem, i), Region(pageIndex, count)) {
          return true;
        }
      }
      return false;
    }

    /** Adds region k to the node before it and links it out. */
    method JoinWithLast(ghost k: nat, last: nat, region: nat) returns (next: nat)
      requires Valid() && 1 <= k < |nodes| - 1 && WellFormed(MergeAt(nodes, k))
      requires last == nodes[k - 1].start && region == nodes[k].start
      modifies ram, this`nodes
      ensures Valid() && nodes == MergeAt(old(nodes), k)
      ensures ram.mem == MergeMemory(old(ram.mem), old(nodes), k, Merged(old(nodes[k - 1]), old(nodes[k])).count)
      ensures next == nodes[k].start
    {
      ReadNode(ram.mem, nodes, k - 1);
      ReadNode(ram.mem, nodes, k);
      StartsDiffer(nodes, k, k - 1);
      ghost var m, rs := ram.mem, nodes;
      var total := Read(ram.mem, last, COUNT) + Read(ram.mem, region, COUNT);
      assert total == Merged(rs[k - 1], rs[k]).count;
      ram.mem := Write(ram.mem, last, COUNT, total);
      ram.mem := Write(ram.mem, last, NEXT, Read(ram.mem, region, NEXT));
      ram.mem := Write(ram.mem, region, NEXT, 0);
      next := PageIndex(Read(ram.mem, last, NEXT));
      nodes := MergeAt(nodes, k);
      MergeAtKeepsChain(m, rs, k, total);
    }

    /** The merge test: there is exactly one page between the two nodes. */
    method MergeTest(ghost k: nat, last: nat, region: nat) returns (join: bool)
      requires Valid() && 1 <= k < |nodes| && last == nodes[k - 1].start && region == nodes[k].start
      ensures join <==> nodes[k - 1].End() + 1 == nodes[k].start
    {
      ReadNode(ram.mem, nodes, k - 1);
      ReadNode(ram.mem, nodes, k);
      join := Read(ram.mem, last, START) + Read(ram.mem, last, COUNT) + 1 == Read(ram.mem, region, START);
    }

    /** One round of the merge pass: joins node k with the one before it, if there is one, or leaves both. */
    method MergeAtNode(ghost k: nat, last: Option<nat>, region: nat, ghost m0: Memory, ghost was: seq<Region>,
                       ghost goal: seq<Region>) returns (joined: bool, next: nat)
      requires WillBe(nodes, k, goal)
      requires Valid() && Sorted(nodes) && 0 <= k < |nodes| - 1 && region == nodes[k].start
      requires last == if k == 0 then None else Some(nodes[k - 1].start)
      requires StartsIn(nodes, was) && Untouched(m0, ram.mem, was)
      modifies ram, this`nodes
      ensures Valid() && Sorted(nodes) && StartsIn(nodes, was) && Untouched(m0, ram.mem, was)
      ensures joined ==>
                k >= 1 && |nodes| == |old(nodes)| - 1 && Some(nodes[k - 1].start) == last && next == nodes[k].start
      ensures !joined ==> nodes == old(nodes) && ram.mem == old(ram.mem) && next == region
      ensures joined ==> WillBe(nodes, k, goal)
      ensures !joined ==> WillBe(nodes, k + 1, goal)
    {
      joined, next := false, region;
      if last.None? {
        MergeStarts(nodes);
        return;
      }
      MergeRound(nodes, k);
      joined := MergeTest(k, last.value, region);
      if joined {
        MergeAtKeepsOrder(nodes, k);
        MergeStaysInside(m0, was, ram.mem, nodes, k, Merged(nodes[k - 1], nodes[k]).count);
        next := JoinWithLast(k, last.value, region);
      }
    }

    /** Joins neighbours that the merge test accepts, from the sentinel up to the last node. */
    method MergePass()
      requires Valid() && Sorted(nodes)
      modifies ram, this`nodes
      ensures Valid() && Sorted(nodes) && nodes == Merge(old(nodes))
      ensures Untouched(old(ram.mem), ram.mem, old(nodes))
    {
      hide PageIndex, PageAddress, Merge;
      ghost var k, m0, was := 0, ram.mem, nodes;
      ghost var goal := Merge(was);
      var last: Option<nat> := None;
      var region := 0;
      MergeStarts(nodes);
      NodesStartInside(nodes);
      while Read(ram.mem, region, NEXT) != 0
        invariant Valid() && Sorted(nodes) && 0 <= k < |nodes| && region == nodes[k].start
        invariant last == if k == 0 then None else Some(nodes[k - 1].start)
        invariant WillBe(nodes, k, goal)
        invariant StartsIn(nodes, was) && Untouched(m0, ram.mem, was)
        decreases |nodes| - k
      {
        ReadNode(ram.mem, nodes, k);
        var joined, next := MergeAtNode(k, last, region, m0, was, goal);
        if joined {
          region := next;
          continue;
        }
        last := Some(region);
        region := PageIndex(Read(ram.mem, region, NEXT));
        k := k + 1;
      }
      ReadNode(ram.mem, nodes, k);
      MergeEnds(nodes, k);
    }

    /** Frees count pages at address: refused near reserved or free pages, otherwise inserted between two
        neighbours when the search finds them; then the merge pass runs. */
    method FreePhysicalMemory(address: nat, count: nat)
      requires Valid() && Sorted(nodes) && count >= 1
      modifies ram, this`nodes
      ensures Valid() && Sorted(nodes)
      ensures var r := Region(PageIndex(address), count);
              nodes == if r.start == 0 || old(NearReserved(r)) then old(nodes) else Released(old(nodes), r)
      ensures PageIndex(address) == 0 || old(NearReserved(Region(PageIndex(address), count))) ==>
          ram.mem == old(ram.mem)
      ensures WritesNear(old(ram.mem), ram.mem, old(nodes), Region(PageIndex(address), count))
      ensures var r := Region(PageIndex(address), count);
              InUse(old(nodes), r) ==>
                (AddsExactly(old(nodes), r, nodes) <==>
                 r.start != 0 && !old(NearReserved(r)) && HasPlace(old(nodes), r))
    {
      ReleaseCases(nodes, Region(PageIndex(address), count));
      var pageIndex := PageIndex(address);
      if pageIndex == 0 {
        return;
      }
      var near := IsNearReserved(pageIndex, count);
      if near {
        return;
      }
      var refused := InsertPass(pageIndex, count);
      if !refused {
        ghost var m, rs := ram.mem, nodes;
        MergePass();
        MergeWritesNear(old(ram.mem), m, ram.mem, old(nodes), rs, Region(pageIndex, count));
      }
    }

    /** The two tests of the search at node k: whether it is too near, and whether the pages go before it. */
    method Examine(ghost k: nat, last: Option<nat>, region: nat, pageIndex: nat, count: nat)
      returns (near: bool, fits: bool)
      requires Valid() && k < |nodes| && region == nodes[k].start
      requires last == if k == 0 then None else Some(nodes[k - 1].start)
      ensures near <==> Near(nodes[k], Region(pageIndex, count))
      ensures fits <==> k > 0 && nodes[k - 1].End() < pageIndex && pageIndex + count < nodes[k].End()
    {
      ReadNode(ram.mem, nodes, k);
      near := pageIndex <= Read(ram.mem, region, START) + Read(ram.mem, region, COUNT)
              && Read(ram.mem, region, START) <= pageIndex + count;
      fits := false;
      if last.Some? {
        ReadNode(ram.mem, nodes, k - 1);
        fits := Read(ram.mem, last.value, START) + Read(ram.mem, last.value, COUNT) < pageIndex
                && pageIndex + count < Read(ram.mem, region, START) + Read(ram.mem, region, COUNT);
      }
    }

    /** Looks for the place of the released pages and links them there. */
    method InsertPass(pageIndex: nat, count: nat) returns (refused: bool)
      requires Valid() && Sorted(nodes) && count >= 1
      modifies ram, this`nodes
      ensures Valid() && Sorted(nodes)
      ensures var p := Place(old(nodes), Region(pageIndex, count), 0);
              && (refused <==> p.Refused?) && (p.Before? || ram.mem == old(ram.mem))
              && nodes == Inserting(old(nodes), Region(pageIndex, count), p)
      ensures WritesNear(old(ram.mem), ram.mem, old(nodes), Region(pageIndex, count))
    {
      hide PageIndex, PageAddress, Place;
      var region := 0;
      var last: Option<nat> := None;
      ghost var r, k := Region(pageIndex, count), 0;
      while Read(ram.mem, region, NEXT) != 0
        invariant ram.mem == old(ram.mem) && nodes == old(nodes)
        invariant 0 <= k < |nodes| && region == nodes[k].start
        invariant last == if k == 0 then None else Some(nodes[k - 1].start)
        invariant Place(nodes, r, 0) == Place(nodes, r, k)
        decreases |nodes| - k
      {
        ReadNode(ram.mem, nodes, k);
        PlaceStep(nodes, r, k);
        var near, fits := Examine(k, last, region, pageIndex, count);
        if near {
          return true;
        }
        if fits {
          InsertBefore(k, last.value, region, pageIndex, count);
          return false;
        }
        last := Some(region);
        region := PageIndex(Read(ram.mem, region, NEXT));
        k := k + 1;
      }
      ReadNode(ram.mem, nodes, k);
      PlaceEnds(nodes, r, k);
      return false;
    }

    /** Writes the descriptor of the released pages and links it between last and region. */
    method InsertBefore(ghost k: nat, last: nat, region: nat, pageIndex: nat, count: nat)
      requires Valid() && Sorted(nodes) && 1 <= k < |nodes| && count >= 1
      requires last == nodes[k - 1].start && region == nodes[k].start
      requires nodes[k - 1].End() < pageIndex && pageIndex + count < nodes[k].start
      modifies ram, this`nodes
      ensures Valid() && Sorted(nodes) && nodes == Insert(old(nodes), k, Region(pageIndex, count))
      ensures WritesNear(old(ram.mem), ram.mem, old(nodes), Region(pageIndex, count))
    {
      NodesStartInside(nodes);
      assert k > 1 ==> Free(nodes, nodes[k - 1].start);
      ghost var m, rs, r := ram.mem, nodes, Region(pageIndex, count);
      ram.mem := WriteDescriptor(ram.mem, Region(pageIndex, count), 0, PageAddress(region));
      ram.mem := Write(ram.mem, last, NEXT, PageAddress(pageIndex));
      nodes := Insert(nodes, k, Region(pageIndex, count));
      InsertKeepsOrder(rs, r, k);
      LinkNew(m, rs, k, r, 0);
    }
  }
}

/** The boot loader's memory map and the free list that boot builds from it. */
module MemoryMap {
  import opened Machine
  import opened FreeList

  datatype MemoryEntry = MemoryEntry(base: nat, length: nat, kind: nat)
  {
    predicate Usable() { kind == 1 }

    predicate Has(p: int) { base <= p * 0x1000 && p * 0x1000 + 0x1000 <= base + length }
  }

  /** Page-aligned usable entries below 512 GiB, each with a page left once page 0 is set aside, no two overlapping. */
  ghost predicate Sane(es: seq<MemoryEntry>) {
    && (forall i {:trigger es[i]} :: 0 <= i < |es| && es[i].Usable() ==>
          && es[i].base % 0x1000 == 0 && es[i].base + es[i].length <= 0x80_0000_0000
          && es[i].length >= (if es[i].base == 0 then 0x2000 else 0x1000))
    && (forall i, j {:trigger es[i], es[j]} :: 0 <= i < j < |es| && es[i].Usable() && es[j].Usable() ==>
          es[i].base + es[i].length <= es[j].base || es[j].base + es[j].length <= es[i].base)
  }

  /** Page 0 is kept for the sentinel. */
  function UsableRegion(e: MemoryEntry): Region {
    if e.base == 0 then Region(1, if e.length < 0x1000 then 0 else (e.length - 0x1000) / 0x1000)
    else Region(e.base / 0x1000, e.length / 0x1000)
  }

  function UsableRegions(es: seq<MemoryEntry>): seq<Region> {
    if es == [] then [] else
    var e := es[|es| - 1];
    UsableRegions(es[..|es| - 1]) + if e.Usable() then [UsableRegion(e)] else []
  }

  function ReservedRegions(es: seq<MemoryEntry>): seq<Region> {
    if es == [] then [] else
    var e := es[|es| - 1];
    ReservedRegions(es[..|es| - 1]) + if e.Usable() then [] else [Region(e.base / 0x1000, e.length / 0x1000)]
  }

  /** The descriptors that follow the sentinel's in page 0. */
  ghost predicate ReservedTable(m: Memory, us: seq<Region>) {
    forall i {:trigger us[i]} :: 0 <= i < |us| ==>
      Read(m, 0, 4 * (i + 1) + START) == us[i].start && Read(m, 0, 4 * (i + 1) + COUNT) == us[i].count
  }

  function BootList(es: seq<MemoryEntry>): seq<Region> {
    [Region(0, 0)] + UsableRegions(es)
  }

  ghost predicate ComesFrom(r: Region, es: seq<MemoryEntry>) {
    exists i {:trigger es[i]} :: 0 <= i < |es| && es[i].Usable() && r == UsableRegion(es[i])
  }

  lemma SanePrefix(es: seq<MemoryEntry>)
    requires Sane(es) && es != []
    ensures Sane(es[..|es| - 1])
  {
  }

  lemma {:induction false} RegionsComeFromEntries(es: seq<MemoryEntry>, j: nat)
    requires j < |UsableRegions(es)|
    ensures ComesFrom(UsableRegions(es)[j], es)
  {
    var n := |es| - 1;
    var before := UsableRegions(es[..n]);
    if j < |before| {
      RegionsComeFromEntries(es[..n], j);
      var i :| 0 <= i < n && es[..n][i].Usable() && before[j] == UsableRegion(es[..n][i]);
      assert es[i] == es[..n][i];
    } else {
      assert es[n].Usable() && UsableRegions(es)[j] == UsableRegion(es[n]);
    }
  }

  lemma DisjointEntries(e: MemoryEntry, f: MemoryEntry)
    requires Sane([e, f]) && e.Usable() && f.Usable()
    ensures Disjoint(UsableRegion(e), UsableRegion(f))
    ensures 1 <= UsableRegion(e).start && 1 <= UsableRegion(e).count && UsableRegion(e).End() <= 0x800_0000
  {
    assert [e, f][0] == e && [e, f][1] == f;
  }

  lemma SanePair(es: seq<MemoryEntry>, i: nat, j: nat)
    requires Sane(es) && i < j < |es| && es[i].Usable() && es[j].Usable()
    ensures Sane([es[i], es[j]])
  {
  }

  lemma DisjointFromEarlier(es: seq<MemoryEntry>, i: nat)
    requires Sane(es) && es != [] && es[|es| - 1].Usable() && 1 <= i < |BootList(es[..|es| - 1])|
    ensures Disjoint(BootList(es[..|es| - 1])[i], UsableRegion(es[|es| - 1]))
  {
    var n := |es| - 1;
    RegionsComeFromEntries(es[..n], i - 1);
    var o :| 0 <= o < n && es[..n][o].Usable() && BootList(es[..n])[i] == UsableRegion(es[..n][o]);
    assert es[o] == es[..n][o];
    SanePair(es, o, n);
    DisjointEntries(es[o], es[n]);
  }

  /** The list that boot builds is well-formed. */
  lemma {:induction false} BootListWellFormed(es: seq<MemoryEntry>)
    requires Sane(es)
    ensures WellFormed(BootList(es))
  {
    if es != [] {
      var n := |es| - 1;
      SanePrefix(es);
      BootListWellFormed(es[..n]);
      var rs, before := BootList(es), BootList(es[..n]);
      if es[n].Usable() {
        var r := UsableRegion(es[n]);
        assert rs == before + [r];
        assert 1 <= r.start && 1 <= r.count && r.End() <= 0x800_0000;
        forall i {:trigger rs[i]} | 1 <= i < |before|
          ensures Disjoint(rs[i], r)
        {
          DisjointFromEarlier(es, i);
        }
      } else {
        assert rs == before;
      }
    }
  }

  lemma OneMoreEntry(es: seq<MemoryEntry>, i: nat)
    requires i < |es|
    ensures UsableRegions(es[..i + 1])
         == if es[i].Usable() then UsableRegions(es[..i]) + [UsableRegion(es[i])] else UsableRegions(es[..i])
    ensures BootList(es[..i + 1])
         == if es[i].Usable() then BootList(es[..i]) + [UsableRegion(es[i])] else BootList(es[..i])
  {
    assert es[..i + 1][..i] == es[..i];
    assert UsableRegions(es[..i]) + [] == UsableRegions(es[..i]);
  }

  /** Appending a descriptor: fill it, then link it behind the last one. */
  lemma Append(m: Memory, rs: seq<Region>, r: Region)
    requires WellFormed(rs) && Chain(m, rs) && WellFormed(rs + [r])
    ensures Chain(Write(WriteDescriptor(m, r, 0, 0), rs[|rs| - 1].start, NEXT, PageAddress(r.start)), rs + [r])
  {
    assert Insert(rs, |rs|, r) == rs + [r];
    LinkNew(m, rs, |rs|, r, 0);
  }

  lemma {:induction false} EntriesAreListed(es: seq<MemoryEntry>, i: nat)
    requires i < |es| && es[i].Usable()
    ensures UsableRegion(es[i]) in UsableRegions(es)
  {
    var n := |es| - 1;
    if i < n {
      EntriesAreListed(es[..n], i);
      assert es[..n][i] == es[i];
    }
  }

  ghost predicate UsablePage(es: seq<MemoryEntry>, p: int) {
    exists i {:trigger es[i]} :: 0 <= i < |es| && es[i].Usable() && es[i].Has(p)
  }

  /** Boot lists exactly the whole pages of the usable entries, except page 0. */
  lemma FreePagesAreUsable(es: seq<MemoryEntry>, p: int)
    requires Sane(es)
    ensures Free(BootList(es), p) <==> p != 0 && UsablePage(es, p)
  {
    var rs := BootList(es);
    if Free(rs, p) {
      var j :| 1 <= j < |rs| && rs[j].Has(p);
      RegionsComeFromEntries(es, j - 1);
      var i :| 0 <= i < |es| && es[i].Usable() && rs[j] == UsableRegion(es[i]);
      assert es[i].Has(p);
    }
    if p != 0 && UsablePage(es, p) {
      var i :| 0 <= i < |es| && es[i].Usable() && es[i].Has(p);
      EntriesAreListed(es, i);
      var j :| 0 <= j < |UsableRegions(es)| && UsableRegions(es)[j] == UsableRegion(es[i]);
      assert rs[j + 1].Has(p);
    }
  }

  /** One past the last page that setUsed takes for [start, start + length). */
  function UsedEnd(start: nat, length: nat): nat {
    (start + length + 0xFFF) / 0x1000 + 1
  }

  function TakeOut(rs: seq<Region>, start: nat, length: nat): seq<Region>
    requires |rs| >= 1
  {
    [rs[0]] + Subtract(rs[1..], start / 0x1000, UsedEnd(start, length))
  }

  function KernelList(es: seq<MemoryEntry>, kernelStart: nat, kernelEnd: nat,
                      trampolineStart: nat, trampolineEnd: nat): seq<Region>
    requires kernelStart <= kernelEnd && trampolineStart <= trampolineEnd
  {
    TakeOutBoth(BootList(es), kernelStart, kernelEnd, trampolineStart, trampolineEnd)
  }

  /** The list without the pages of the kernel and the trampoline. */
  function TakeOutBoth(rs: seq<Region>, kernelStart: nat, kernelEnd: nat, trampolineStart: nat, trampolineEnd: nat)
    : seq<Region>
    requires kernelStart <= kernelEnd && trampolineStart <= trampolineEnd && |rs| >= 1
  {
    TakeOut(TakeOut(rs, kernelStart, kernelEnd - kernelStart), trampolineStart, trampolineEnd - trampolineStart)
  }

  /** Regions that a list may hold behind its sentinel. */
  ghost predicate Regions(rs: seq<Region>) {
    && (forall i {:trigger rs[i]} :: 0 <= i < |rs| ==>
          1 <= rs[i].start && 1 <= rs[i].count && rs[i].End() <= 0x800_0000)
    && (forall i, j {:trigger rs[i], rs[j]} :: 0 <= i < j < |rs| ==> Disjoint(rs[i], rs[j]))
  }

  predicate Within(r: Region, s: Region) { s.start <= r.start && r.End() <= s.End() }

  /** What is left after carving is part of what was there. */
  lemma {:induction false} PartOf(rs: seq<Region>, a1: nat, a2: nat, i: nat) returns (o: nat)
    requires i < |Subtract(rs, a1, a2)| && a1 < a2
    ensures o < |rs| && Within(Subtract(rs, a1, a2)[i], rs[o])
  {
    var n := |Carve(rs[0], a1, a2)|;
    if i < n {
      o := 0;
    } else {
      o := PartOf(rs[1..], a1, a2, i - n);
      o := o + 1;
    }
  }

  /** Carving leaves non-empty, disjoint regions. */
  lemma {:induction false} SubtractKeepsRegions(rs: seq<Region>, a1: nat, a2: nat)
    requires Regions(rs) && a1 < a2
    ensures Regions(Subtract(rs, a1, a2))
  {
    if rs != [] {
      var c, rest := Carve(rs[0], a1, a2), Subtract(rs[1..], a1, a2);
      assert forall i {:trigger rs[1..][i]} :: 0 <= i < |rs| - 1 ==> rs[1..][i] == rs[i + 1];
      SubtractKeepsRegions(rs[1..], a1, a2);
      assert Regions(c);
      forall i, j {:trigger c[i], rest[j]} | 0 <= i < |c| && 0 <= j < |rest|
        ensures Disjoint(c[i], rest[j])
      {
        var o := PartOf(rs[1..], a1, a2, j);
        assert Within(c[i], rs[0]) && rs[1..][o] == rs[o + 1] && Disjoint(rs[0], rs[o + 1]);
      }
      RegionsJoin(c, rest);
    }
  }

  lemma RegionsJoin(a: seq<Region>, b: seq<Region>)
    requires Regions(a) && Regions(b)
    requires forall i, j {:trigger a[i], b[j]} :: 0 <= i < |a| && 0 <= j < |b| ==> Disjoint(a[i], b[j])
    ensures Regions(a + b)
  {
    var s := a + b;
    forall i, j {:trigger s[i], s[j]} | 0 <= i < j < |s|
      ensures Disjoint(s[i], s[j])
    {
      if j < |a| {
        assert s[i] == a[i] && s[j] == a[j];
      } else if i < |a| {
        assert s[i] == a[i] && s[j] == b[j - |a|];
      } else {
        assert s[i] == b[i - |a|] && s[j] == b[j - |a|];
      }
    }
  }

  lemma TakeOutWellFormed(rs: seq<Region>, start: nat, length: nat)
    requires WellFormed(rs)
    ensures WellFormed(TakeOut(rs, start, length))
  {
    assert forall i {:trigger rs[1..][i]} :: 0 <= i < |rs| - 1 ==> rs[1..][i] == rs[i + 1];
    assert Regions(rs[1..]);
    SubtractKeepsRegions(rs[1..], start / 0x1000, UsedEnd(start, length));
    var s, rest := TakeOut(rs, start, length), Subtract(rs[1..], start / 0x1000, UsedEnd(start, length));
    assert forall i {:trigger s[i]} :: 1 <= i < |s| ==> s[i] == rest[i - 1];
  }

  /** The list that boot leaves is well-formed. */
  lemma KernelListWellFormed(es: seq<MemoryEntry>, kernelStart: nat, kernelEnd: nat, trampolineStart: nat,
                             trampolineEnd: nat)
    requires Sane(es) && kernelStart <= kernelEnd && trampolineStart <= trampolineEnd
    ensures WellFormed(KernelList(es, kernelStart, kernelEnd, trampolineStart, trampolineEnd))
  {
    BootListWellFormed(es);
    TakeOutWellFormed(BootList(es), kernelStart, kernelEnd - kernelStart);
    TakeOutWellFormed(TakeOut(BootList(es), kernelStart, kernelEnd - kernelStart), trampolineStart,
                      trampolineEnd - trampolineStart);
  }

  lemma TakeOutIsSetMinus(rs: seq<Region>, start: nat, length: nat, p: int)
    requires |rs| >= 1
    ensures Free(TakeOut(rs, start, length), p) <==> Free(rs, p) && !(start / 0x1000 <= p < UsedEnd(start, length))
  {
    var a, b := start / 0x1000, UsedEnd(start, length);
    FreeIsCovered(rs, p);
    FreeIsCovered(TakeOut(rs, start, length), p);
    assert TakeOut(rs, start, length)[1..] == Subtract(rs[1..], a, b);
    SubtractIsSetMinus(rs[1..], a, b, p);
  }

  /** Page p shares a byte with [start, end). */
  predicate Touches(p: int, start: nat, end: nat) {
    p * 0x1000 < end && start < p * 0x1000 + 0x1000
  }

  /** After boot a free page is a whole usable page, not page 0, and holds no byte of kernel or trampoline. */
  lemma KernelListIsSafe(es: seq<MemoryEntry>, kernelStart: nat, kernelEnd: nat,
                         trampolineStart: nat, trampolineEnd: nat, p: int)
    requires Sane(es) && kernelStart <= kernelEnd && trampolineStart <= trampolineEnd
    requires Free(KernelList(es, kernelStart, kernelEnd, trampolineStart, trampolineEnd), p)
    ensures p != 0 && UsablePage(es, p)
    ensures !Touches(p, kernelStart, kernelEnd) && !Touches(p, trampolineStart, trampolineEnd)
  {
    var first := TakeOut(BootList(es), kernelStart, kernelEnd - kernelStart);
    TakeOutIsSetMinus(first, trampolineStart, trampolineEnd - trampolineStart, p);
    TakeOutIsSetMinus(BootList(es), kernelStart, kernelEnd - kernelStart, p);
    FreePagesAreUsable(es, p);
  }

  // ----- Which memory boot writes -----

  /** Boot may write page 0, the first page of a usable entry, and the page behind the kernel or the trampoline where
      a free region goes on. */
  ghost predicate BootWrites(es: seq<MemoryEntry>, kernelStart: nat, kernelEnd: nat,
                             trampolineStart: nat, trampolineEnd: nat, p: nat)
    requires kernelStart <= kernelEnd && trampolineStart <= trampolineEnd
  {
    CarveWrites(BootList(es), kernelStart, kernelEnd, trampolineStart, trampolineEnd, p)
  }

  /** What the two rounds of carving may write. */
  ghost predicate CarveWrites(list: seq<Region>, kernelStart: nat, kernelEnd: nat,
                              trampolineStart: nat, trampolineEnd: nat, p: nat)
    requires kernelStart <= kernelEnd && trampolineStart <= trampolineEnd && |list| >= 1
  {
    || Marked(list, UsedEnd(kernelStart, kernelEnd - kernelStart), p)
    || Marked(TakeOut(list, kernelStart, kernelEnd - kernelStart),
              UsedEnd(trampolineStart, trampolineEnd - trampolineStart), p)
  }

  /** The effect of the two rounds on memory, and where the descriptors are after the first. */
  ghost predicate CarvedBoth(m: Memory, m': Memory, list: seq<Region>, kernelStart: nat, kernelEnd: nat,
                             trampolineStart: nat, trampolineEnd: nat)
    requires kernelStart <= kernelEnd && trampolineStart <= trampolineEnd && |list| >= 1
  {
    && (forall p: nat {:trigger Agree(m, m', p)} ::
          !CarveWrites(list, kernelStart, kernelEnd, trampolineStart, trampolineEnd, p) ==> Agree(m, m', p))
    && AllMarked(TakeOut(list, kernelStart, kernelEnd - kernelStart), list,
                 UsedEnd(kernelStart, kernelEnd - kernelStart))
  }

  lemma CarvingsCompose(m: Memory, m1: Memory, m2: Memory, list: seq<Region>, first: seq<Region>, kernelStart: nat,
                        kernelEnd: nat, trampolineStart: nat, trampolineEnd: nat)
    requires kernelStart <= kernelEnd && trampolineStart <= trampolineEnd && |list| >= 1
    requires first == TakeOut(list, kernelStart, kernelEnd - kernelStart)
    requires OnlyMarked(m, m1, list, UsedEnd(kernelStart, kernelEnd - kernelStart))
    requires OnlyMarked(m1, m2, first, UsedEnd(trampolineStart, trampolineEnd - trampolineStart))
    requires AllMarked(first, list, UsedEnd(kernelStart, kernelEnd - kernelStart))
    ensures CarvedBoth(m, m2, list, kernelStart, kernelEnd, trampolineStart, trampolineEnd)
  {
    forall p: nat {:trigger Agree(m, m2, p)} |
      !CarveWrites(list, kernelStart, kernelEnd, trampolineStart, trampolineEnd, p)
      ensures Agree(m, m2, p)
    {
      assert Agree(m, m1, p) && Agree(m1, m2, p);
    }
  }

  /** Carving after the list has been built. */
  lemma WritesFollow(m: Memory, m1: Memory, m2: Memory, list: seq<Region>, kernelStart: nat, kernelEnd: nat,
                     trampolineStart: nat, trampolineEnd: nat)
    requires kernelStart <= kernelEnd && trampolineStart <= trampolineEnd && |list| >= 1 && OnlyStarts(m, m1, list)
    requires CarvedBoth(m1, m2, list, kernelStart, kernelEnd, trampolineStart, trampolineEnd)
    ensures CarvedBoth(m, m2, list, kernelStart, kernelEnd, trampolineStart, trampolineEnd)
  {
    forall p: nat {:trigger Agree(m, m2, p)} |
      !CarveWrites(list, kernelStart, kernelEnd, trampolineStart, trampolineEnd, p)
      ensures Agree(m, m2, p)
    {
      assert Agree(m, m1, p) && Agree(m1, m2, p);
    }
  }

  lemma StartsAreMarked(rs: seq<Region>, was: seq<Region>, a2: nat, p: nat)
    requires AllMarked(rs, was, a2)
    ensures Starts(rs, p) ==> Marked(was, a2, p)
  {
  }

  /** A page that holds a byte of the kernel is written only if it is page 0 or the first page of a usable entry. */
  lemma KernelPagesAreKept(es: seq<MemoryEntry>, kernelStart: nat, kernelEnd: nat,
                           trampolineStart: nat, trampolineEnd: nat, p: nat)
    requires Sane(es) && kernelStart <= kernelEnd && trampolineStart <= trampolineEnd
    requires Touches(p, kernelStart, kernelEnd) && p != 0 && !Starts(BootList(es), p)
    requires AllMarked(TakeOut(BootList(es), kernelStart, kernelEnd - kernelStart), BootList(es),
                       UsedEnd(kernelStart, kernelEnd - kernelStart))
    ensures !BootWrites(es, kernelStart, kernelEnd, trampolineStart, trampolineEnd, p)
    ensures !Free(KernelList(es, kernelStart, kernelEnd, trampolineStart, trampolineEnd), p)
  {
    var first := TakeOut(BootList(es), kernelStart, kernelEnd - kernelStart);
    TakeOutIsSetMinus(BootList(es), kernelStart, kernelEnd - kernelStart, p);
    TakeOutIsSetMinus(first, trampolineStart, trampolineEnd - trampolineStart, p);
    StartsAreMarked(first, BootList(es), UsedEnd(kernelStart, kernelEnd - kernelStart), p);
  }
}

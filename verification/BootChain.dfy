/** The chain that boot writes into memory, from any memory map. */
module BootChain {
  import opened Machine
  import opened FreeList
  import opened MemoryMap

  /** The descriptor of r is filled and linked behind the one in page last. */
  function LinkBehind(m: Memory, last: nat, r: Region): Memory {
    Write(WriteDescriptor(m, r, 0, 0), last, NEXT, PageAddress(r.start))
  }

  function LastStart(rs: seq<Region>): nat {
    if rs == [] then 0 else rs[|rs| - 1].start
  }

  /** Memory after the descriptors have been linked, one after the other, behind page 0. */
  function LinkAll(m: Memory, rs: seq<Region>): Memory {
    if rs == [] then m
    else var n := |rs| - 1; LinkBehind(LinkAll(m, rs[..n]), LastStart(rs[..n]), rs[n])
  }

  lemma LinkOneMore(m: Memory, rs: seq<Region>, r: Region)
    ensures LinkAll(m, rs + [r]) == LinkBehind(LinkAll(m, rs), LastStart(rs), r) && LastStart(rs + [r]) == r.start
  {
    assert (rs + [r])[..|rs|] == rs;
  }

  /** What the code can read off any memory map: usable entries begin at pages. */
  ghost predicate Loadable(es: seq<MemoryEntry>) {
    forall i {:trigger es[i]} :: 0 <= i < |es| && es[i].Usable() ==>
      es[i].base % 0x1000 == 0 && (es[i].base == 0 ==> es[i].length >= 0x1000)
  }

  ghost predicate BehindPage0(rs: seq<Region>) {
    forall i {:trigger rs[i]} :: 0 <= i < |rs| ==> rs[i].start >= 1
  }

  lemma StartsBehindPage0(es: seq<MemoryEntry>)
    requires Loadable(es)
    ensures BehindPage0(UsableRegions(es))
  {
    var rs := UsableRegions(es);
    forall j {:trigger rs[j]} | 0 <= j < |rs|
      ensures rs[j].start >= 1
    {
      RegionsComeFromEntries(es, j);
    }
  }

  // ----- From a sane map -----

  lemma AppendWrites(m: Memory, rs: seq<Region>, r: Region, address: nat)
    requires WellFormed(rs + [r]) && |rs| >= 1
    ensures OnlyStarts(m, Write(WriteDescriptor(m, r, 0, 0), rs[|rs| - 1].start, NEXT, address), rs + [r])
  {
    var m' := Write(WriteDescriptor(m, r, 0, 0), rs[|rs| - 1].start, NEXT, address);
    var s := rs + [r];
    assert s[|rs|] == r && s[|rs| - 1] == rs[|rs| - 1];
    forall p: nat {:trigger Agree(m, m', p)} | p != 0 && !Starts(s, p)
      ensures Agree(m, m', p)
    {
      assert p != r.start && p != rs[|rs| - 1].start;
    }
  }

  lemma StartsGrow(m: Memory, m1: Memory, m2: Memory, rs: seq<Region>, r: Region)
    requires OnlyStarts(m, m1, rs) && OnlyStarts(m1, m2, rs + [r])
    ensures OnlyStarts(m, m2, rs + [r])
  {
    forall p: nat {:trigger Agree(m, m2, p)} | p != 0 && !Starts(rs + [r], p)
      ensures Agree(m, m2, p)
    {
      if Starts(rs, p) {
        var i :| 1 <= i < |rs| && rs[i].start == p;
        assert (rs + [r])[i].start == p;
      }
      assert Agree(m, m1, p) && Agree(m1, m2, p);
    }
  }

  lemma {:induction false} LinkedBootList(m: Memory, es: seq<MemoryEntry>)
    requires Sane(es) && Chain(m, [Region(0, 0)])
    ensures Chain(LinkAll(m, UsableRegions(es)), BootList(es)) && WellFormed(BootList(es))
    ensures OnlyStarts(m, LinkAll(m, UsableRegions(es)), BootList(es))
    ensures Above(m, LinkAll(m, UsableRegions(es)))
  {
    BootListWellFormed(es);
    if es != [] {
      var n := |es| - 1;
      SanePrefix(es);
      LinkedBootList(m, es[..n]);
      OneMoreEntry(es, n);
      assert es[..n + 1] == es;
      if es[n].Usable() {
        LinkedOneMore(m, es[..n], UsableRegion(es[n]));
      }
    } else {
      assert BootList(es) == [Region(0, 0)];
    }
  }

  /** Behind the sentinel's descriptor, page 0 is as before. */
  ghost predicate Above(m: Memory, m': Memory) {
    forall i: nat {:trigger Read(m', 0, i)} :: i > NEXT ==> Read(m', 0, i) == Read(m, 0, i)
  }

  lemma LinkedOneMore(m: Memory, es: seq<MemoryEntry>, r: Region)
    requires var m1, rs := LinkAll(m, UsableRegions(es)), BootList(es);
             && WellFormed(rs) && WellFormed(rs + [r]) && Chain(m1, rs) && OnlyStarts(m, m1, rs) && Above(m, m1)
    ensures var m', rs' := LinkAll(m, UsableRegions(es) + [r]), BootList(es) + [r];
            Chain(m', rs') && OnlyStarts(m, m', rs') && Above(m, m')
  {
    var us, rs := UsableRegions(es), BootList(es);
    var m1 := LinkAll(m, us);
    LinkOneMore(m, us, r);
    assert rs[|rs| - 1].start == LastStart(us);
    assert (rs + [r])[|rs|] == r;
    Append(m1, rs, r);
    AppendWrites(m1, rs, r, PageAddress(r.start));
    StartsGrow(m, m1, LinkBehind(m1, LastStart(us), r), rs, r);
  }

  lemma ReservedTableKept(m: Memory, m': Memory, us: seq<Region>)
    requires ReservedTable(m, us) && Above(m, m')
    ensures ReservedTable(m', us)
  {
  }

  // ----- From any map: when the chain has an end -----

  /** Following the next addresses from page p, an address of 0 is met within so many steps. */
  ghost predicate Ends(m: Memory, p: nat, steps: nat)
    decreases steps
  {
    Read(m, p, NEXT) == 0 || (steps > 0 && Ends(m, PageIndex(Read(m, p, NEXT)), steps - 1))
  }

  ghost predicate HasEnd(m: Memory) {
    exists steps :: Ends(m, 0, steps)
  }

  /** No later region begins at the same page. */
  ghost predicate Final(rs: seq<Region>, k: nat) {
    k < |rs| && forall l {:trigger rs[l]} :: k < l < |rs| ==> rs[l].start != rs[k].start
  }

  lemma {:induction false} FinalOf(rs: seq<Region>, k: nat) returns (f: nat)
    requires k < |rs|
    ensures k <= f && Final(rs, f) && rs[f].start == rs[k].start
    decreases |rs| - k
  {
    f := k;
    if !Final(rs, k) {
      var l :| k < l < |rs| && rs[l].start == rs[k].start;
      f := FinalOf(rs, l);
    }
  }

  predicate LastTwoCollide(rs: seq<Region>) {
    |rs| >= 2 && rs[|rs| - 2].start == rs[|rs| - 1].start
  }

  /** Where the descriptor of a region leads that is not overwritten by a later one. */
  lemma {:induction false} NextOf(m: Memory, rs: seq<Region>, k: nat)
    requires BehindPage0(rs) && Final(rs, k)
    ensures Read(LinkAll(m, rs), rs[k].start, NEXT)
         == if k + 1 < |rs| then PageAddress(rs[k + 1].start)
            else if LastTwoCollide(rs) then PageAddress(rs[k].start) else 0
  {
    var n := |rs| - 1;
    if k + 1 < n {
      assert rs[n].start != rs[k].start && LastStart(rs[..n]) == rs[n - 1].start != rs[k].start;
      NextOf(m, rs[..n], k);
    } else if k + 1 == n {
      assert LastStart(rs[..n]) == rs[k].start;
    }
  }

  lemma {:induction false} NextOfSentinel(m: Memory, rs: seq<Region>)
    requires BehindPage0(rs)
    ensures Read(LinkAll(m, rs), 0, NEXT) == if rs == [] then Read(m, 0, NEXT) else PageAddress(rs[0].start)
  {
    if rs != [] {
      NextOfSentinel(m, rs[..|rs| - 1]);
    }
  }

  lemma {:induction false} EndsLater(m: Memory, p: nat, steps: nat, more: nat)
    requires Ends(m, p, steps) && steps <= more
    ensures Ends(m, p, more)
    decreases steps
  {
    if Read(m, p, NEXT) != 0 {
      EndsLater(m, PageIndex(Read(m, p, NEXT)), steps - 1, more - 1);
    }
  }

  lemma {:induction false} EndsFrom(m: Memory, rs: seq<Region>, k: nat)
    requires BehindPage0(rs) && !LastTwoCollide(rs) && Final(rs, k)
    ensures Ends(LinkAll(m, rs), rs[k].start, |rs| - k)
    decreases |rs| - k
  {
    NextOf(m, rs, k);
    if k + 1 < |rs| {
      var f := FinalOf(rs, k + 1);
      EndsFrom(m, rs, f);
      EndsLater(LinkAll(m, rs), rs[f].start, |rs| - f, |rs| - k - 1);
    }
  }

  lemma {:induction false} NeverEndsFrom(m: Memory, rs: seq<Region>, k: nat, steps: nat)
    requires BehindPage0(rs) && LastTwoCollide(rs) && Final(rs, k)
    ensures !Ends(LinkAll(m, rs), rs[k].start, steps)
    decreases steps
  {
    NextOf(m, rs, k);
    if steps > 0 {
      var f := if k + 1 < |rs| then k + 1 else k;
      f := FinalOf(rs, f);
      NeverEndsFrom(m, rs, f, steps - 1);
    }
  }

  /** The chain ends unless the last two regions begin at the same page. */
  lemma BootListEndsIff(m: Memory, rs: seq<Region>)
    requires BehindPage0(rs) && Read(m, 0, NEXT) == 0
    ensures HasEnd(LinkAll(m, rs)) <==> !LastTwoCollide(rs)
  {
    var m' := LinkAll(m, rs);
    NextOfSentinel(m, rs);
    if rs == [] {
      assert Ends(m', 0, 0);
    } else {
      var f := FinalOf(rs, 0);
      if !LastTwoCollide(rs) {
        EndsFrom(m, rs, f);
        assert Ends(m', 0, |rs| - f + 1);
      } else {
        forall steps: nat ensures !Ends(m', 0, steps) {
          if steps > 0 {
            NeverEndsFrom(m, rs, f, steps - 1);
          }
        }
      }
    }
  }

  /** Such a map: a usable entry that consists of page 0 alone, and then the last usable entry, in page 1. */
  lemma NullPageEntryLoops(m: Memory, count: nat)
    requires Read(m, 0, NEXT) == 0
    ensures var es := [MemoryEntry(0, 0x1000, 1), MemoryEntry(0x1000, count * 0x1000, 1)];
            Loadable(es) && !HasEnd(LinkAll(m, UsableRegions(es)))
  {
    var e, f := MemoryEntry(0, 0x1000, 1), MemoryEntry(0x1000, count * 0x1000, 1);
    var es := [e, f];
    assert es[..1] == [e] && [e][..0] == [];
    assert UsableRegions([e]) == [Region(1, 0)];
    assert UsableRegions(es) == [Region(1, 0), Region(1, count)];
    BootListEndsIff(m, UsableRegions(es));
  }
}

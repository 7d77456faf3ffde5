/** Giving pages back: where the insertion pass puts them and what the merge pass does to the list. */
module FreeListRelease {
  import opened Machine
  import opened FreeList
  import opened MemoryMap

  /** Regions in address order, the sentinel's pages first. */
  ghost predicate Sorted(rs: seq<Region>) {
    forall i, j {:trigger Below(rs, i, j)} :: 0 <= i < j < |rs| ==> Below(rs, i, j)
  }

  predicate Below(rs: seq<Region>, i: nat, j: nat)
    requires i < |rs| && j < |rs|
  {
    rs[i].End() <= rs[j].start
  }

  /** Entry i of the static info page; the unusable regions start at 1. */
  function ReservedEntry(m: Memory, i: nat): Region {
    Region(Read(m, 0, 4 * i + START), Read(m, 0, 4 * i + COUNT))
  }

  /** The overlap test of freePhysicalMemory, which also fires on neighbours. */
  predicate Near(r: Region, s: Region) {
    s.start <= r.End() && r.start <= s.End()
  }

  datatype Placement = Refused | Before(k: nat) | Nowhere

  /** The insertion pass from node i on: the last node is never examined. */
  function Place(rs: seq<Region>, r: Region, i: nat): (p: Placement)
    requires i < |rs|
    ensures p.Before? ==> i <= p.k < |rs|
    decreases |rs| - i
  {
    if i + 1 == |rs| then Nowhere
    else if Near(rs[i], r) then Refused
    else if i > 0 && rs[i - 1].End() < r.start && r.End() < rs[i].End() then Before(i)
    else Place(rs, r, i + 1)
  }

  lemma PlaceStep(rs: seq<Region>, r: Region, k: nat)
    requires k + 1 < |rs|
    ensures Place(rs, r, k) == if Near(rs[k], r) then Refused
                               else if k > 0 && rs[k - 1].End() < r.start && r.End() < rs[k].End() then Before(k)
                               else Place(rs, r, k + 1)
  {
  }

  lemma PlaceEnds(rs: seq<Region>, r: Region, k: nat)
    requires k + 1 == |rs|
    ensures Place(rs, r, k) == Nowhere
  {
  }

  /** The list after the insertion pass. */
  function Inserting(rs: seq<Region>, r: Region, p: Placement): seq<Region> {
    if p.Before? && p.k <= |rs| then Insert(rs, p.k, r) else rs
  }

  /** An accepted region lies strictly between two neighbours, with a page to spare on both sides. */
  lemma {:induction false} PlacedBetween(rs: seq<Region>, r: Region, i: nat)
    requires i < |rs|
    ensures var p := Place(rs, r, i);
            p.Before? ==>
              1 <= p.k && i <= p.k && p.k + 1 < |rs| && rs[p.k - 1].End() < r.start && r.End() < rs[p.k].start
    decreases |rs| - i
  {
    if i + 1 < |rs| {
      PlacedBetween(rs, r, i + 1);
    }
  }

  lemma InsertKeepsOrder(rs: seq<Region>, r: Region, k: nat)
    requires WellFormed(rs) && Sorted(rs) && 1 <= k < |rs| && r.count >= 1
    requires rs[k - 1].End() < r.start && r.End() < rs[k].start
    ensures WellFormed(Insert(rs, k, r)) && Sorted(Insert(rs, k, r))
  {
    var s := Insert(rs, k, r);
    forall i, j {:trigger Below(s, i, j)} | 0 <= i < j < |s|
      ensures Below(s, i, j)
    {
      if j < k {
        assert Below(rs, i, j);
      } else if j == k {
        assert i < k - 1 ==> Below(rs, i, k - 1);
      } else if i == k {
        assert k < j - 1 ==> Below(rs, k, j - 1);
      } else {
        assert Below(rs, if i < k then i else i - 1, j - 1);
      }
    }
    assert rs[k].End() <= 0x800_0000;
    forall i, j {:trigger s[i], s[j]} | 1 <= i < j < |s|
      ensures Disjoint(s[i], s[j])
    {
      assert Below(s, i, j);
    }
  }

  /** The insertion adds exactly the released pages. */
  lemma InsertIsUnion(rs: seq<Region>, r: Region, k: nat, p: int)
    requires 1 <= k <= |rs|
    ensures Free(Insert(rs, k, r), p) <==> Free(rs, p) || r.Has(p)
  {
    var s := Insert(rs, k, r);
    if Free(s, p) {
      var i :| 1 <= i < |s| && s[i].Has(p);
      if i != k {
        assert rs[if i < k then i else i - 1].Has(p);
      }
    }
    if Free(rs, p) {
      var o :| 1 <= o < |rs| && rs[o].Has(p);
      assert s[if o < k then o else o + 1].Has(p);
    }
    if r.Has(p) {
      assert s[k].Has(p);
    }
  }

  // ----- The merge pass -----

  function Merged(r: Region, s: Region): Region {
    Region(r.start, r.count + s.count)
  }

  /** The pass from the head on: it stops at the last node and joins neighbours that are one page apart. */
  function Merge(rs: seq<Region>): (s: seq<Region>)
    ensures |s| <= |rs| && (rs != [] ==> s != [])
    decreases |rs|
  {
    if |rs| < 3 then rs
    else if rs[0].End() + 1 == rs[1].start then Merge([Merged(rs[0], rs[1])] + rs[2..])
    else [rs[0]] + Merge(rs[1..])
  }

  /** The pass keeps the sum of the counts, the sentinel's included. */
  lemma {:induction false} MergeConservesPages(rs: seq<Region>)
    ensures Pages(Merge(rs)) == Pages(rs)
    decreases |rs|
  {
    if |rs| >= 3 {
      if rs[0].End() + 1 == rs[1].start {
        var t := [Merged(rs[0], rs[1])] + rs[2..];
        MergeConservesPages(t);
        assert t[1..] == rs[1..][1..];
      } else {
        MergeConservesPages(rs[1..]);
      }
    }
  }

  /** Two neighbours before the last node are exactly one page apart. */
  ghost predicate HasGapOfOne(rs: seq<Region>) {
    exists i :: GapAt(rs, i)
  }

  predicate GapAt(rs: seq<Region>, i: int) {
    0 <= i < |rs| - 2 && rs[i].End() + 1 == rs[i + 1].start
  }

  lemma TailGap(rs: seq<Region>)
    requires |rs| >= 3 && rs[0].End() + 1 != rs[1].start
    ensures HasGapOfOne(rs[1..]) <==> HasGapOfOne(rs)
  {
    if HasGapOfOne(rs) {
      var i :| GapAt(rs, i);
      assert GapAt(rs[1..], i - 1);
    }
    if HasGapOfOne(rs[1..]) {
      var i :| GapAt(rs[1..], i);
      assert GapAt(rs, i + 1);
    }
  }

  /** The list gets shorter exactly when a merge fires, and is otherwise unchanged. */
  lemma {:induction false} MergeShortens(rs: seq<Region>)
    ensures |Merge(rs)| < |rs| <==> HasGapOfOne(rs)
    ensures !HasGapOfOne(rs) ==> Merge(rs) == rs
    decreases |rs|
  {
    if |rs| >= 3 {
      if rs[0].End() + 1 == rs[1].start {
        assert GapAt(rs, 0);
      } else {
        TailGap(rs);
        MergeShortens(rs[1..]);
        assert rs == [rs[0]] + rs[1..];
      }
    }
  }

  lemma SortedTail(rs: seq<Region>)
    requires Sorted(rs) && rs != []
    ensures Sorted(rs[1..])
  {
    forall i, j {:trigger Below(rs[1..], i, j)} | 0 <= i < j < |rs| - 1
      ensures Below(rs[1..], i, j)
    {
      assert Below(rs, i + 1, j + 1);
    }
  }

  lemma SortedMerged(rs: seq<Region>)
    requires Sorted(rs) && |rs| >= 3 && rs[0].End() + 1 == rs[1].start
    ensures Sorted([Merged(rs[0], rs[1])] + rs[2..])
  {
    var t := [Merged(rs[0], rs[1])] + rs[2..];
    forall i, j {:trigger Below(t, i, j)} | 0 <= i < j < |t|
      ensures Below(t, i, j)
    {
      assert t[j] == rs[j + 1];
      if i == 0 {
        assert Below(rs, 1, j + 1);
      } else {
        assert t[i] == rs[i + 1] && Below(rs, i + 1, j + 1);
      }
    }
  }

  lemma SortedCons(r: Region, u: seq<Region>)
    requires Sorted(u) && u != [] && r.End() <= u[0].start
    ensures Sorted([r] + u)
    ensures forall i {:trigger ([r] + u)[i]} ::
              1 <= i < |[r] + u| ==> ([r] + u)[i] == u[i - 1] && u[i - 1].start >= u[0].start
  {
    var s := [r] + u;
    forall i, j {:trigger Below(s, i, j)} | 0 <= i < j < |s|
      ensures Below(s, i, j)
    {
      assert s[j] == u[j - 1];
      assert j > 1 ==> Below(u, 0, j - 1);
      assert i > 0 ==> s[i] == u[i - 1] && Below(u, i - 1, j - 1);
    }
    forall i {:trigger s[i]} | 1 <= i < |s|
      ensures s[i] == u[i - 1] && u[i - 1].start >= u[0].start
    {
      assert i > 1 ==> Below(u, 0, i - 1);
    }
  }

  ghost predicate NonEmptyBehindFirst(rs: seq<Region>) {
    forall i {:trigger rs[i]} :: 1 <= i < |rs| ==> rs[i].count >= 1
  }

  /** The head keeps its start and never shrinks; later nodes stay behind the second one; order is kept. */
  ghost predicate OrderKept(rs: seq<Region>, s: seq<Region>)
    requires rs != []
  {
    && s != [] && Sorted(s) && s[0].start == rs[0].start && s[0].count >= rs[0].count
    && s[|s| - 1].End() <= rs[|rs| - 1].End()
    && (forall i {:trigger s[i]} :: 1 <= i < |s| ==> s[i].count >= 1 && |rs| > 1 && s[i].start >= rs[1].start)
  }

  lemma OrderKeptByJoining(rs: seq<Region>, s: seq<Region>)
    requires Sorted(rs) && |rs| >= 3 && OrderKept([Merged(rs[0], rs[1])] + rs[2..], s)
    ensures OrderKept(rs, s)
  {
    assert Below(rs, 1, 2);
    var t := [Merged(rs[0], rs[1])] + rs[2..];
    assert t[|t| - 1] == rs[|rs| - 1];
    assert |t| > 1 ==> t[1] == rs[2];
  }

  lemma OrderKeptByKeeping(rs: seq<Region>, u: seq<Region>)
    requires Sorted(rs) && |rs| >= 3 && rs[1].count >= 1 && OrderKept(rs[1..], u)
    ensures OrderKept(rs, [rs[0]] + u)
  {
    assert Below(rs, 0, 1);
    SortedCons(rs[0], u);
    var s := [rs[0]] + u;
    assert s[|s| - 1] == u[|u| - 1] && rs[1..][|rs| - 2] == rs[|rs| - 1];
  }

  lemma {:induction false} MergeKeepsOrder(rs: seq<Region>)
    requires Sorted(rs) && rs != [] && NonEmptyBehindFirst(rs)
    ensures OrderKept(rs, Merge(rs)) && NonEmptyBehindFirst(Merge(rs))
    decreases |rs|
  {
    if |rs| >= 3 {
      if rs[0].End() + 1 == rs[1].start {
        SortedMerged(rs);
        var t := [Merged(rs[0], rs[1])] + rs[2..];
        assert forall i {:trigger t[i]} :: 1 <= i < |t| ==> t[i] == rs[i + 1];
        MergeKeepsOrder(t);
        OrderKeptByJoining(rs, Merge(t));
      } else {
        SortedTail(rs);
        MergeKeepsOrder(rs[1..]);
        OrderKeptByKeeping(rs, Merge(rs[1..]));
      }
    }
  }

  lemma CoveredCons(r: Region, u: seq<Region>, p: int)
    ensures Covered([r] + u, p) <==> r.Has(p) || Covered(u, p)
  {
    CoveredConcat([r], u, p);
    assert forall s :: s in [r] <==> s == r;
  }

  lemma HeadGapIsUncovered(rs: seq<Region>)
    requires Sorted(rs) && |rs| >= 2 && rs[0].End() < rs[1].start
    ensures !Covered(rs, rs[0].End())
  {
    forall r | r in rs
      ensures !r.Has(rs[0].End())
    {
      var i :| 0 <= i < |rs| && rs[i] == r;
      assert i >= 2 ==> Below(rs, 1, i);
    }
  }

  /** Every merge makes a page free that was not: the one in the gap. */
  lemma {:induction false} GapPageBecomesCovered(rs: seq<Region>) returns (p: nat)
    requires Sorted(rs) && HasGapOfOne(rs)
    requires forall i {:trigger rs[i]} :: 1 <= i < |rs| ==> rs[i].count >= 1
    ensures Covered(Merge(rs), p) && !Covered(rs, p) && p >= rs[0].start
    decreases |rs|
  {
    if rs[0].End() + 1 == rs[1].start {
      p := rs[0].End();
      var t := [Merged(rs[0], rs[1])] + rs[2..];
      SortedMerged(rs);
      assert forall i {:trigger t[i]} :: 1 <= i < |t| ==> t[i] == rs[i + 1];
      MergeKeepsOrder(t);
      assert Merge(t)[0].Has(p) && Merge(t)[0] in Merge(t);
      HeadGapIsUncovered(rs);
    } else {
      TailGap(rs);
      SortedTail(rs);
      p := GapPageBecomesCovered(rs[1..]);
      assert Below(rs, 0, 1);
      assert rs == [rs[0]] + rs[1..];
      CoveredCons(rs[0], rs[1..], p);
      CoveredCons(rs[0], Merge(rs[1..]), p);
    }
  }

  /** Merging with the sentinel loses the first region. */
  lemma SentinelMergeLosesPages(rs: seq<Region>)
    requires Sorted(rs) && |rs| >= 3 && rs[0].End() + 1 == rs[1].start
    requires forall i {:trigger rs[i]} :: 1 <= i < |rs| ==> rs[i].count >= 1
    ensures Free(rs, rs[1].start) && !Free(Merge(rs), rs[1].start)
  {
    var t := [Merged(rs[0], rs[1])] + rs[2..];
    SortedMerged(rs);
    assert forall i {:trigger t[i]} :: 1 <= i < |t| ==> t[i] == rs[i + 1];
    MergeKeepsOrder(t);
    assert rs[1].Has(rs[1].start);
    assert Below(rs, 1, 2);
  }

  /** Some page is free before or after the pass but not both. */
  lemma GapChangesFreeSet(rs: seq<Region>) returns (p: int)
    requires Sorted(rs) && HasGapOfOne(rs)
    requires forall i {:trigger rs[i]} :: 1 <= i < |rs| ==> rs[i].count >= 1
    ensures Free(Merge(rs), p) != Free(rs, p)
  {
    if rs[0].End() + 1 == rs[1].start {
      SentinelMergeLosesPages(rs);
      p := rs[1].start;
    } else {
      TailGap(rs);
      SortedTail(rs);
      p := GapPageBecomesCovered(rs[1..]);
      FreeIsCovered(rs, p);
      FreeIsCovered(Merge(rs), p);
      assert Merge(rs)[1..] == Merge(rs[1..]);
    }
  }

  ghost predicate SameFreePages(rs: seq<Region>, s: seq<Region>) {
    forall p {:trigger Free(s, p)} :: Free(s, p) <==> Free(rs, p)
  }

  /** The merge pass keeps the set of free pages exactly when it merges nothing. */
  lemma MergeKeepsFreeSetIff(rs: seq<Region>)
    requires Sorted(rs) && rs != []
    requires forall i {:trigger rs[i]} :: 1 <= i < |rs| ==> rs[i].count >= 1
    ensures SameFreePages(rs, Merge(rs)) <==> !HasGapOfOne(rs)
  {
    if HasGapOfOne(rs) {
      var p := GapChangesFreeSet(rs);
    } else {
      MergeShortens(rs);
    }
  }

  // ----- The assignments of the two passes -----

  lemma SortedIsWellFormed(rs: seq<Region>)
    requires Sorted(rs) && rs != [] && rs[0].start == 0
    requires forall i {:trigger rs[i]} ::
               1 <= i < |rs| ==> rs[i].count >= 1 && rs[i].start >= 1 && rs[i].End() <= 0x800_0000
    ensures WellFormed(rs)
  {
    forall i, j {:trigger rs[i], rs[j]} | 1 <= i < j < |rs|
      ensures Disjoint(rs[i], rs[j])
    {
      assert Below(rs, i, j);
    }
  }

  function MergeAt(rs: seq<Region>, k: nat): (s: seq<Region>)
    requires 1 <= k < |rs|
    ensures |s| == |rs| - 1
    ensures forall i {:trigger s[i]} :: 0 <= i < |s| ==>
              s[i] == if i < k - 1 then rs[i] else if i == k - 1 then Merged(rs[k - 1], rs[k]) else rs[i + 1]
  {
    rs[..k - 1] + [Merged(rs[k - 1], rs[k])] + rs[k + 1..]
  }

  /** The assignments that give node k - 1 the count total and link node k out. */
  function MergeMemory(m: Memory, rs: seq<Region>, k: nat, total: nat): Memory
    requires 1 <= k < |rs|
  {
    Write(Write(Write(m, rs[k - 1].start, COUNT, total), rs[k - 1].start, NEXT, NextAddress(rs, k)), rs[k].start,
        NEXT, 0)
  }

  lemma MergeAtKeepsChain(m: Memory, rs: seq<Region>, k: nat, total: nat)
    requires WellFormed(rs) && Chain(m, rs) && 1 <= k < |rs| && total == Merged(rs[k - 1], rs[k]).count
    ensures Chain(MergeMemory(m, rs, k, total), MergeAt(rs, k))
  {
    var s, m' := MergeAt(rs, k), MergeMemory(m, rs, k, total);
    forall i: nat {:trigger NextAddress(s, i)} | i < |s|
      ensures Describes(m', s[i], NextAddress(s, i))
    {
      var o := if i < k then i else i + 1;
      assert Describes(m, rs[o], NextAddress(rs, o));
      StartsDiffer(rs, o, k);
      if o != k - 1 {
        StartsDiffer(rs, o, k - 1);
      }
    }
  }

  lemma MergeAtKeepsOrder(rs: seq<Region>, k: nat)
    requires WellFormed(rs) && Sorted(rs) && 1 <= k < |rs| - 1 && rs[k - 1].End() + 1 == rs[k].start
    ensures WellFormed(MergeAt(rs, k)) && Sorted(MergeAt(rs, k))
  {
    var s := MergeAt(rs, k);
    forall i, j {:trigger Below(s, i, j)} | 0 <= i < j < |s|
      ensures Below(s, i, j)
    {
      var o := if j < k then j else j + 1;
      if i == k - 1 {
        assert Below(rs, k, o);
      } else {
        assert Below(rs, if i < k then i else i + 1, o);
      }
    }
    SortedIsWellFormed(s);
  }

  /** What the pass returns when node k is looked at next. */
  function MergeSoFar(rs: seq<Region>, k: nat): seq<Region>
    requires k < |rs|
  {
    if k == 0 then Merge(rs) else rs[..k - 1] + Merge(rs[k - 1..])
  }

  /** From node k on, the pass will turn the list into goal. */
  ghost predicate WillBe(rs: seq<Region>, k: nat, goal: seq<Region>) {
    k < |rs| && MergeSoFar(rs, k) == goal
  }

  lemma MergeStarts(rs: seq<Region>)
    requires rs != []
    ensures WillBe(rs, 0, Merge(rs)) && (|rs| >= 2 ==> WillBe(rs, 1, Merge(rs)))
  {
    if |rs| >= 2 {
      assert rs[..0] + Merge(rs[0..]) == Merge(rs) && rs[0..] == rs;
    }
  }

  lemma NodesStartInside(rs: seq<Region>)
    requires WellFormed(rs)
    ensures StartsIn(rs, rs)
  {
    forall i {:trigger Free(rs, rs[i].start)} | 1 <= i < |rs|
      ensures Free(rs, rs[i].start)
    {
      assert rs[i].Has(rs[i].start);
    }
  }

  /** One round of the merge loop at node k keeps what the pass will return. */
  lemma MergeRound(rs: seq<Region>, k: nat)
    requires 1 <= k < |rs| - 1
    ensures if rs[k - 1].End() + 1 == rs[k].start
            then MergeSoFar(MergeAt(rs, k), k) == MergeSoFar(rs, k)
            else MergeSoFar(rs, k + 1) == MergeSoFar(rs, k)
  {
    var t := rs[k - 1..];
    assert t[0] == rs[k - 1] && t[1] == rs[k] && t[1..] == rs[k..] && t[2..] == rs[k + 1..];
    if rs[k - 1].End() + 1 == rs[k].start {
      assert MergeAt(rs, k)[..k - 1] == rs[..k - 1];
      assert MergeAt(rs, k)[k - 1..] == [Merged(t[0], t[1])] + t[2..];
    } else {
      assert rs[..k] == rs[..k - 1] + [rs[k - 1]];
      assert rs[..k - 1] + ([rs[k - 1]] + Merge(rs[k..])) == rs[..k] + Merge(rs[k..]);
    }
  }

  lemma MergeEnds(rs: seq<Region>, k: nat)
    requires k == |rs| - 1
    ensures MergeSoFar(rs, k) == rs
  {
    if k > 0 {
      assert rs == rs[..k - 1] + rs[k - 1..];
    }
  }

  /** Every node starts at a page that is free in was. */
  ghost predicate StartsIn(rs: seq<Region>, was: seq<Region>) {
    forall i {:trigger Free(was, rs[i].start)} :: 1 <= i < |rs| ==> Free(was, rs[i].start)
  }

  lemma MergeStaysInside(m0: Memory, was: seq<Region>, m: Memory, rs: seq<Region>, k: nat, total: nat)
    requires WellFormed(rs) && StartsIn(rs, was) && Untouched(m0, m, was) && 1 <= k < |rs|
    ensures StartsIn(MergeAt(rs, k), was) && Untouched(m0, MergeMemory(m, rs, k, total), was)
  {
    var s, m' := MergeAt(rs, k), MergeMemory(m, rs, k, total);
    forall i {:trigger Free(was, s[i].start)} | 1 <= i < |s|
      ensures Free(was, s[i].start)
    {
      assert Free(was, rs[if i < k then i else i + 1].start);
    }
    assert Free(was, rs[k].start) && (k > 1 ==> Free(was, rs[k - 1].start));
    forall p: nat {:trigger Agree(m0, m', p)} | p != 0 && !Free(was, p)
      ensures Agree(m0, m', p)
    {
      assert Agree(m0, m, p);
    }
  }

  /** The list after freePhysicalMemory has accepted or refused the pages r. */
  function Released(rs: seq<Region>, r: Region): seq<Region>
    requires rs != []
  {
    match Place(rs, r, 0)
    case Refused => rs
    case Before(k) => Merge(Insert(rs, k, r))
    case Nowhere => Merge(rs)
  }

  /** p is a page of node i or the page right behind it; the last node counts its own pages only. */
  ghost predicate Reaches(rs: seq<Region>, p: int) {
    exists i {:trigger rs[i]} :: 0 <= i < |rs| && rs[i].start <= p && (rs[i].Has(p) || (i + 1 < |rs|
        && p == rs[i].End()))
  }

  /** Merging covers nothing beyond the old pages and the pages right behind them. */
  lemma {:induction false} MergeReach(rs: seq<Region>, p: int)
    requires Covered(Merge(rs), p)
    ensures Reaches(rs, p)
    decreases |rs|
  {
    if |rs| >= 3 {
      if rs[0].End() + 1 == rs[1].start {
        var t := [Merged(rs[0], rs[1])] + rs[2..];
        MergeReach(t, p);
        var i :| 0 <= i < |t| && t[i].start <= p && (t[i].Has(p) || (i + 1 < |t| && p == t[i].End()));
        if i > 0 {
          assert t[i] == rs[i + 1];
        } else {
          assert rs[0].start <= p <= rs[0].End() || rs[1].Has(p);
        }
      } else {
        CoveredCons(rs[0], Merge(rs[1..]), p);
        if !rs[0].Has(p) {
          MergeReach(rs[1..], p);
          var u := rs[1..];
          var i :| 0 <= i < |u| && u[i].start <= p && (u[i].Has(p) || (i + 1 < |u| && p == u[i].End()));
          assert u[i] == rs[i + 1];
        } else {
          assert rs[0].start <= p;
        }
      }
    } else {
      var r :| r in rs && r.Has(p);
      var i :| 0 <= i < |rs| && rs[i] == r;
      assert rs[i].start <= p;
    }
  }

  /** When no place is found, no examined node is near the released pages. */
  lemma {:induction false} NowhereIsFar(rs: seq<Region>, r: Region, i: nat, j: nat)
    requires i <= j < |rs| - 1 && Place(rs, r, i) == Nowhere
    ensures !Near(rs[j], r)
    decreases j - i
  {
    if i < j {
      NowhereIsFar(rs, r, i + 1, j);
    }
  }

  lemma NowherePageStaysOut(rs: seq<Region>, r: Region)
    requires WellFormed(rs) && Place(rs, r, 0) == Nowhere && !Free(rs, r.start) && r.start >= 1
    requires |rs| == 1 ==> !rs[0].Has(r.start)
    ensures !Free(Merge(rs), r.start)
  {
    var s := Merge(rs);
    if Free(s, r.start) {
      var j :| 1 <= j < |s| && s[j].Has(r.start);
      assert s[j] in s && Covered(s, r.start);
      MergeReach(rs, r.start);
      var i :| 0 <= i < |rs| && rs[i].start <= r.start && (rs[i].Has(r.start) || (i + 1 < |rs|
          && r.start == rs[i].End()));
      if i < |rs| - 1 {
        NowhereIsFar(rs, r, 0, i);
      }
    }
  }

  ghost predicate AddsExactly(rs: seq<Region>, r: Region, s: seq<Region>) {
    forall p {:trigger Free(s, p)} :: Free(s, p) <==> Free(rs, p) || r.Has(p)
  }

  /** r lies between two nodes before the last, with a page to spare on both sides. */
  predicate FitsAt(rs: seq<Region>, r: Region, k: nat) {
    1 <= k < |rs| - 1 && rs[k - 1].End() < r.start && r.End() < rs[k].start
  }

  /** The search finds exactly such places. */
  lemma {:induction false} PlacedFrom(rs: seq<Region>, r: Region, i: nat, k: nat)
    requires Sorted(rs) && FitsAt(rs, r, k) && i <= k
    ensures Place(rs, r, i) == Before(k)
    decreases k - i
  {
    if i < k {
      assert Below(rs, i, k);
      if i < k - 1 {
        assert Below(rs, i, k - 1);
      }
      PlacedFrom(rs, r, i + 1, k);
    }
  }

  lemma PlacedIff(rs: seq<Region>, r: Region, k: nat)
    requires Sorted(rs) && rs != []
    ensures Place(rs, r, 0) == Before(k) <==> FitsAt(rs, r, k)
  {
    PlacedBetween(rs, r, 0);
    if FitsAt(rs, r, k) {
      PlacedFrom(rs, r, 0, k);
    }
  }

  /** Of the list with r at place k, no two nodes before the last are one page apart. */
  ghost predicate NothingToJoin(rs: seq<Region>, r: Region, k: nat) {
    && k < |rs| && (k > 0 ==> rs[k - 1].End() + 1 != r.start) && r.End() + 1 != rs[k].start
    && (forall i {:trigger GapAt(rs, i)} :: GapAt(rs, i) ==> i == k - 1)
  }

  lemma NothingToJoinIff(rs: seq<Region>, r: Region, k: nat)
    requires 1 <= k < |rs| - 1
    ensures NothingToJoin(rs, r, k) <==> !HasGapOfOne(Insert(rs, k, r))
  {
    var s := Insert(rs, k, r);
    assert s[k] == r && s[k - 1] == rs[k - 1] && s[k + 1] == rs[k];
    if !HasGapOfOne(s) {
      assert !GapAt(s, k - 1) && !GapAt(s, k);
      forall i {:trigger GapAt(rs, i)} | GapAt(rs, i)
        ensures i == k - 1
      {
        assert !GapAt(s, if i < k - 1 then i else i + 1);
      }
    }
    if HasGapOfOne(s) {
      var i :| GapAt(s, i);
      GapOfInserted(rs, r, k, i);
    }
  }

  lemma GapOfInserted(rs: seq<Region>, r: Region, k: nat, i: nat)
    requires 1 <= k < |rs| - 1 && GapAt(Insert(rs, k, r), i)
    ensures || (i < k - 1 && GapAt(rs, i)) || (i > k && GapAt(rs, i - 1))
            || (i == k - 1 && rs[k - 1].End() + 1 == r.start) || (i == k && r.End() + 1 == rs[k].start)
  {
  }

  /** There is a place for r at which nothing is joined. */
  ghost predicate HasPlace(rs: seq<Region>, r: Region) {
    exists k :: FitsAt(rs, r, k) && NothingToJoin(rs, r, k)
  }

  /** Releasing pages that are in use adds exactly them to the free pages if and only if they lie between two nodes
      before the last, with a page to spare on both sides, and then no two nodes before the last are one page apart. */
  lemma ReleaseAddsExactlyIff(rs: seq<Region>, r: Region)
    requires WellFormed(rs) && Sorted(rs) && r.start >= 1 && r.count >= 1
    requires !Free(rs, r.start) && (|rs| == 1 ==> !rs[0].Has(r.start))
    ensures AddsExactly(rs, r, Released(rs, r)) <==> HasPlace(rs, r)
  {
    PlacementAddsExactlyIff(rs, r);
    match Place(rs, r, 0) {
      case Before(k) =>
        PlacedIff(rs, r, k);
        NothingToJoinIff(rs, r, k);
      case _ =>
    }
    if k :| FitsAt(rs, r, k) && NothingToJoin(rs, r, k) {
      PlacedIff(rs, r, k);
      NothingToJoinIff(rs, r, k);
    }
  }

  /** The same in terms of the search. */
  lemma PlacementAddsExactlyIff(rs: seq<Region>, r: Region)
    requires WellFormed(rs) && Sorted(rs) && r.start >= 1 && r.count >= 1
    requires !Free(rs, r.start) && (|rs| == 1 ==> !rs[0].Has(r.start))
    ensures var p := Place(rs, r, 0);
            AddsExactly(rs, r, Released(rs, r)) <==> p.Before? && !HasGapOfOne(Insert(rs, p.k, r))
  {
    assert r.Has(r.start);
    match Place(rs, r, 0)
    case Refused =>
    case Nowhere => NowherePageStaysOut(rs, r);
    case Before(k) =>
      PlacedBetween(rs, r, 0);
      InsertKeepsOrder(rs, r, k);
      var t := Insert(rs, k, r);
      forall p ensures Free(t, p) <==> Free(rs, p) || r.Has(p) {
        InsertIsUnion(rs, r, k, p);
      }
      MergeKeepsFreeSetIff(t);
      if AddsExactly(rs, r, Merge(t)) {
        assert SameFreePages(t, Merge(t));
      }
      if SameFreePages(t, Merge(t)) {
        assert AddsExactly(rs, r, Merge(t));
      }
  }

  /** On a list whose first region begins one page behind the sentinel, as it does when page 1 is free after boot,
      releasing pages in use never adds exactly them: the pass joins the first region with the sentinel. */
  lemma NothingComesBackExactly(rs: seq<Region>, r: Region)
    requires WellFormed(rs) && Sorted(rs) && |rs| >= 3 && rs[0].End() + 1 == rs[1].start
    requires r.start >= rs[1].start && r.count >= 1 && !Free(rs, r.start)
    ensures !HasPlace(rs, r) && !AddsExactly(rs, r, Released(rs, r))
  {
    assert GapAt(rs, 0);
    ReleaseAddsExactlyIff(rs, r);
  }

  /** Page numbers above all of physical memory, such as those of virtual addresses, find no place and no neighbour. */
  lemma {:induction false} HighPagesFindNoPlace(rs: seq<Region>, r: Region, i: nat)
    requires WellFormed(rs) && i < |rs| && r.start > 0x800_0000 && rs[0].End() <= 0x800_0000
    ensures Place(rs, r, i) == Nowhere
    decreases |rs| - i
  {
    if i + 1 < |rs| {
      assert rs[i].End() <= 0x800_0000;
      HighPagesFindNoPlace(rs, r, i + 1);
    }
  }

  /** Releasing them gives nothing back: only the merge pass runs. */
  lemma HighPagesOnlyMerge(rs: seq<Region>, r: Region)
    requires WellFormed(rs) && r.start > 0x800_0000 && rs[0].End() <= 0x800_0000
    ensures Released(rs, r) == Merge(rs)
  {
    HighPagesFindNoPlace(rs, r, 0);
  }

  // ----- Lists in address order -----

  lemma SortedConcat(a: seq<Region>, b: seq<Region>, mid: nat)
    requires Sorted(a) && Sorted(b)
    requires forall i {:trigger a[i]} :: 0 <= i < |a| ==> a[i].End() <= mid
    requires forall i {:trigger b[i]} :: 0 <= i < |b| ==> mid <= b[i].start
    ensures Sorted(a + b)
  {
    forall i, j {:trigger Below(a + b, i, j)} | 0 <= i < j < |a + b|
      ensures Below(a + b, i, j)
    {
      if j < |a| {
        assert Below(a, i, j);
      } else if i >= |a| {
        assert Below(b, i - |a|, j - |a|);
      }
    }
  }

  lemma SortedStarts(rs: seq<Region>)
    requires Sorted(rs) && rs != []
    ensures forall i {:trigger rs[1..][i]} :: 0 <= i < |rs| - 1 ==> rs[0].End() <= rs[1..][i].start
  {
    forall i {:trigger rs[1..][i]} | 0 <= i < |rs| - 1
      ensures rs[0].End() <= rs[1..][i].start
    {
      assert Below(rs, 0, i + 1);
    }
  }

  lemma {:induction false} SubtractFrom(rs: seq<Region>, a1: nat, a2: nat, low: nat)
    requires a1 < a2 && forall i {:trigger rs[i]} :: 0 <= i < |rs| ==> low <= rs[i].start
    ensures forall i {:trigger Subtract(rs, a1, a2)[i]} :: 0 <= i < |Subtract(rs, a1, a2)| ==>
              low <= Subtract(rs, a1, a2)[i].start
  {
    if rs != [] {
      SubtractFrom(rs[1..], a1, a2, low);
    }
  }

  /** Carving keeps the address order. */
  lemma {:induction false} SubtractKeepsOrder(rs: seq<Region>, a1: nat, a2: nat)
    requires Sorted(rs) && a1 < a2
    ensures Sorted(Subtract(rs, a1, a2))
  {
    if rs != [] {
      SortedTail(rs);
      SubtractKeepsOrder(rs[1..], a1, a2);
      SortedStarts(rs);
      SubtractFrom(rs[1..], a1, a2, rs[0].End());
      SortedConcat(Carve(rs[0], a1, a2), Subtract(rs[1..], a1, a2), rs[0].End());
    }
  }

  lemma TakeOutKeepsOrder(rs: seq<Region>, start: nat, length: nat)
    requires Sorted(rs) && rs != []
    ensures Sorted(TakeOut(rs, start, length))
  {
    SortedTail(rs);
    SubtractKeepsOrder(rs[1..], start / 0x1000, UsedEnd(start, length));
    SortedStarts(rs);
    SubtractFrom(rs[1..], start / 0x1000, UsedEnd(start, length), rs[0].End());
    assert Sorted([rs[0]]);
    SortedConcat([rs[0]], Subtract(rs[1..], start / 0x1000, UsedEnd(start, length)), rs[0].End());
  }

  /** Granting pages keeps the address order. */
  lemma GrantKeepsOrder(rs: seq<Region>, k: nat, count: nat)
    requires Sorted(rs) && 1 <= k < |rs| && count <= rs[k].count
    ensures Sorted(AfterGrant(rs, k, count))
  {
    var s := AfterGrant(rs, k, count);
    forall i, j {:trigger Below(s, i, j)} | 0 <= i < j < |s|
      ensures Below(s, i, j)
    {
      if count == rs[k].count {
        assert Below(rs, if i < k then i else i + 1, if j < k then j else j + 1);
      } else {
        assert Below(rs, i, j);
      }
    }
  }

  /** The sentinel is kept, and an order by address with it. */
  ghost predicate StaysInOrder(rs: seq<Region>, s: seq<Region>) {
    (rs != [] ==> s != [] && s[0] == rs[0]) && (Sorted(rs) ==> Sorted(s))
  }

  lemma GrantStaysInOrder(rs: seq<Region>, k: nat, count: nat)
    requires 1 <= k < |rs| && count <= rs[k].count
    ensures StaysInOrder(rs, AfterGrant(rs, k, count))
  {
    if Sorted(rs) {
      GrantKeepsOrder(rs, k, count);
    }
  }

  /** The boot loader lists its usable entries in address order. */
  ghost predicate Ascending(es: seq<MemoryEntry>) {
    forall i, j {:trigger es[i], es[j]} :: 0 <= i < j < |es| && es[i].Usable() && es[j].Usable() ==>
      es[i].base + es[i].length <= es[j].base
  }

  lemma EndsBeforeLater(es: seq<MemoryEntry>, i: nat)
    requires Sane(es) && Ascending(es) && es != [] && es[|es| - 1].Usable() && 1 <= i < |BootList(es[..|es| - 1])|
    ensures BootList(es[..|es| - 1])[i].End() <= UsableRegion(es[|es| - 1]).start
  {
    var n := |es| - 1;
    RegionsComeFromEntries(es[..n], i - 1);
    var o :| 0 <= o < n && es[..n][o].Usable() && BootList(es[..n])[i] == UsableRegion(es[..n][o]);
    assert es[o] == es[..n][o];
    assert es[o].base + es[o].length <= es[n].base;
  }

  lemma {:induction false} BootListInOrder(es: seq<MemoryEntry>)
    requires Sane(es) && Ascending(es)
    ensures Sorted(BootList(es))
  {
    if es != [] {
      var n := |es| - 1;
      BootListInOrder(es[..n]);
      var rs, before := BootList(es), BootList(es[..n]);
      if es[n].Usable() {
        var r := UsableRegion(es[n]);
        assert rs == before + [r];
        forall i {:trigger before[i]} | 0 <= i < |before|
          ensures before[i].End() <= r.start
        {
          if i > 0 {
            EndsBeforeLater(es, i);
          }
        }
        assert Sorted([r]);
        SortedConcat(before, [r], r.start);
      } else {
        assert rs == before;
      }
    } else {
      assert BootList(es) == [Region(0, 0)];
    }
  }

  /** From a memory map in address order, boot builds a list in address order. */
  lemma KernelListInOrder(es: seq<MemoryEntry>, kernelStart: nat, kernelEnd: nat, trampolineStart: nat,
                          trampolineEnd: nat)
    requires Sane(es) && Ascending(es) && kernelStart <= kernelEnd && trampolineStart <= trampolineEnd
    ensures Sorted(KernelList(es, kernelStart, kernelEnd, trampolineStart, trampolineEnd))
  {
    BootListInOrder(es);
    TakeOutKeepsOrder(BootList(es), kernelStart, kernelEnd - kernelStart);
    TakeOutKeepsOrder(TakeOut(BootList(es), kernelStart, kernelEnd - kernelStart), trampolineStart,
                      trampolineEnd - trampolineStart);
  }
}

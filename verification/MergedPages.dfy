/** Which pages the merge pass makes free and which it loses, page by page. */
module MergedPages {
  import opened Machine
  import opened FreeList
  import opened FreeListRelease

  /** The pass joins node i + 1 to node i: one page lies between them, or none if node i has been joined itself, since
      a joined node ends one page too early. */
  predicate Joins(rs: seq<Region>, i: int)
    decreases i
  {
    0 <= i < |rs| - 2 && rs[i].End() + (if Joins(rs, i - 1) then 0 else 1) == rs[i + 1].start
  }

  /** How many pages the joins with its neighbours move the end of node k. */
  function Shift(rs: seq<Region>, k: int): int {
    (if Joins(rs, k) then 1 else 0) - (if Joins(rs, k - 1) then 1 else 0)
  }

  /** What is left of node k after the pass. */
  ghost predicate Left(rs: seq<Region>, k: int, p: int)
    requires 0 <= k < |rs|
  {
    rs[k].start <= p < rs[k].End() + Shift(rs, k)
  }

  ghost predicate LeftBehind(rs: seq<Region>, i: int, p: int) {
    exists k {:trigger Left(rs, k, p)} :: 0 <= i < k < |rs| && Left(rs, k, p)
  }

  /** Node k has been joined with the sentinel, directly or through the nodes between. */
  ghost predicate Headed(rs: seq<Region>, k: int) {
    forall i {:trigger Joins(rs, i)} :: 0 <= i < k ==> Joins(rs, i)
  }

  /** The end of node i moves by one when the next node is joined to it. */
  ghost predicate InHead(rs: seq<Region>, i: int, h: Region, p: int) {
    h.start <= p < h.End() + (if Joins(rs, i) then 1 else 0)
  }

  lemma NextLeftBehind(rs: seq<Region>, i: nat, p: int)
    requires i + 1 < |rs|
    ensures LeftBehind(rs, i, p) <==> Left(rs, i + 1, p) || LeftBehind(rs, i + 1, p)
  {
  }

  /** Joining turns the head h and node i + 1 into one region without a hole. */
  lemma JoinedHead(rs: seq<Region>, i: nat, h: Region, p: int)
    requires Joins(rs, i) && rs[i + 1].count >= 1
    requires h.End() == rs[i].End() - (if Joins(rs, i - 1) then 1 else 0)
    ensures Merged(h, rs[i + 1]).End() == rs[i + 1].End() - 1
    ensures InHead(rs, i + 1, Merged(h, rs[i + 1]), p) <==> InHead(rs, i, h, p) || Left(rs, i + 1, p)
  {
    assert h.End() + 1 == rs[i + 1].start;
  }

  lemma MergeEndsAt(rs: seq<Region>, i: nat, h: Region, p: int)
    requires i < |rs| <= i + 2
    ensures Covered(Merge([h] + rs[i + 1..]), p) <==> InHead(rs, i, h, p) || LeftBehind(rs, i, p)
  {
    CoveredCons(h, rs[i + 1..], p);
    if i + 1 < |rs| {
      assert rs[i + 1..] == [rs[i + 1]];
      OneRegion(rs[i + 1], p);
      assert !Joins(rs, i) && !Joins(rs, i + 1);
      NextLeftBehind(rs, i, p);
    }
  }

  /** The pass from node i on, when h is what the nodes joined so far have become. */
  lemma {:induction false} MergeFrom(rs: seq<Region>, i: nat, h: Region, p: int)
    requires i < |rs| && NonEmptyBehindFirst(rs)
    requires h.End() == rs[i].End() - (if Joins(rs, i - 1) then 1 else 0)
    ensures Covered(Merge([h] + rs[i + 1..]), p) <==> InHead(rs, i, h, p) || LeftBehind(rs, i, p)
    decreases |rs| - i
  {
    if i + 2 >= |rs| {
      MergeEndsAt(rs, i, h, p);
    } else {
      NextLeftBehind(rs, i, p);
      HeadSteps(rs, i, h);
      if Joins(rs, i) {
        JoinedHead(rs, i, h, p);
        MergeFrom(rs, i + 1, Merged(h, rs[i + 1]), p);
      } else {
        CoveredCons(h, Merge([rs[i + 1]] + rs[i + 2..]), p);
        MergeFrom(rs, i + 1, rs[i + 1], p);
        assert InHead(rs, i + 1, rs[i + 1], p) <==> Left(rs, i + 1, p);
      }
    }
  }

  /** One step of the pass behind the head h. */
  lemma HeadSteps(rs: seq<Region>, i: nat, h: Region)
    requires i + 2 < |rs| && h.End() == rs[i].End() - (if Joins(rs, i - 1) then 1 else 0)
    ensures Merge([h] + rs[i + 1..]) == if Joins(rs, i) then Merge([Merged(h, rs[i + 1])] + rs[i + 2..])
                                        else [h] + Merge([rs[i + 1]] + rs[i + 2..])
  {
    var s := [h] + rs[i + 1..];
    assert s[1] == rs[i + 1] && s[1..] == [rs[i + 1]] + rs[i + 2..] && s[2..] == rs[i + 2..];
  }

  lemma OneRegion(r: Region, p: int)
    ensures Covered([r], p) <==> r.Has(p)
  {
    assert forall s :: s in [r] <==> s == r;
  }

  /** p is left of a node that has not been joined with the sentinel. */
  ghost predicate LeftFree(rs: seq<Region>, i: int, p: int) {
    exists k {:trigger Left(rs, k, p)} :: 0 <= i < k < |rs| && !Headed(rs, k) && Left(rs, k, p)
  }

  /** The pass has reached the last two nodes. */
  lemma MergeEndsFree(rs: seq<Region>, i: nat, h: Region, p: int)
    requires i < |rs| <= i + 2
    ensures Free(Merge([h] + rs[i + 1..]), p) <==> LeftFree(rs, i, p)
  {
    FreeIsCovered(Merge([h] + rs[i + 1..]), p);
    assert Merge([h] + rs[i + 1..])[1..] == rs[i + 1..];
    if i + 1 < |rs| {
      assert rs[i + 1..] == [rs[i + 1]] && !Joins(rs, i) && !Joins(rs, i + 1);
      OneRegion(rs[i + 1], p);
      assert Left(rs, i + 1, p) <==> rs[i + 1].Has(p);
    }
  }

  /** Nothing more is joined with the sentinel. */
  lemma SentinelStands(rs: seq<Region>, i: nat, h: Region, p: int)
    requires i + 2 < |rs| && NonEmptyBehindFirst(rs) && !Joins(rs, i)
    ensures Free([h] + Merge([rs[i + 1]] + rs[i + 2..]), p) <==> LeftFree(rs, i, p)
  {
    var u := Merge([rs[i + 1]] + rs[i + 2..]);
    FreeIsCovered([h] + u, p);
    assert ([h] + u)[1..] == u;
    MergeFrom(rs, i + 1, rs[i + 1], p);
    NextLeftBehind(rs, i, p);
    assert InHead(rs, i + 1, rs[i + 1], p) <==> Left(rs, i + 1, p);
    assert forall k :: i < k ==> !Headed(rs, k);
  }

  lemma {:induction false} MergeFromSentinel(rs: seq<Region>, i: nat, h: Region, p: int)
    requires i < |rs| && NonEmptyBehindFirst(rs) && Headed(rs, i)
    requires h.End() == rs[i].End() - (if Joins(rs, i - 1) then 1 else 0)
    ensures Free(Merge([h] + rs[i + 1..]), p) <==> LeftFree(rs, i, p)
    decreases |rs| - i
  {
    if i + 2 >= |rs| {
      MergeEndsFree(rs, i, h, p);
    } else {
      HeadSteps(rs, i, h);
      if Joins(rs, i) {
        JoinedHead(rs, i, h, p);
        MergeFromSentinel(rs, i + 1, Merged(h, rs[i + 1]), p);
      } else {
        SentinelStands(rs, i, h, p);
      }
    }
  }

  /** The free pages after the pass: what is left of each node that has not been joined with the sentinel. */
  lemma FreeAfterMerge(rs: seq<Region>, p: int)
    requires rs != [] && NonEmptyBehindFirst(rs)
    ensures Free(Merge(rs), p) <==> LeftFree(rs, 0, p)
  {
    assert rs == [rs[0]] + rs[1..];
    MergeFromSentinel(rs, 0, rs[0], p);
  }

  /** p is the page between a node other than the sentinel and the first one joined to it. */
  ghost predicate Gained(rs: seq<Region>, p: int) {
    exists k {:trigger rs[k]} :: 1 <= k < |rs| && Joins(rs, k) && !Joins(rs, k - 1) && p == rs[k].End()
  }

  /** p lies in a node that has been joined with the sentinel, or is the last page of the last of joined nodes. */
  ghost predicate Lost(rs: seq<Region>, p: int) {
    exists k {:trigger rs[k]} :: 1 <= k < |rs| && rs[k].Has(p) &&
      (Headed(rs, k) || (Joins(rs, k - 1) && !Joins(rs, k) && p == rs[k].End() - 1))
  }

  lemma NotInGap(rs: seq<Region>, k: nat, i: nat)
    requires Sorted(rs) && k < |rs| - 1 && rs[k].End() < rs[k + 1].start && i < |rs|
    ensures !rs[i].Has(rs[k].End())
  {
    if i < k {
      assert Below(rs, i, k);
    } else if i > k + 1 {
      assert Below(rs, k + 1, i);
    }
  }

  lemma GapIsInUse(rs: seq<Region>, k: nat)
    requires Sorted(rs) && k < |rs| - 1 && rs[k].End() < rs[k + 1].start
    ensures !Free(rs, rs[k].End())
  {
    if Free(rs, rs[k].End()) {
      var i :| 1 <= i < |rs| && rs[i].Has(rs[k].End());
      NotInGap(rs, k, i);
    }
  }

  /** The pages of a node are left of no other node. */
  lemma LeftOfOneNode(rs: seq<Region>, k: nat, i: nat, p: int)
    requires Sorted(rs) && i < |rs| && k < |rs| && i != k && rs[k].Has(p)
    ensures !Left(rs, i, p)
  {
    if i < k {
      assert Below(rs, i, k);
      assert i + 1 < k ==> Below(rs, i + 1, k);
      assert Shift(rs, i) == 1 ==> rs[i].End() < rs[i + 1].start;
      assert Shift(rs, i) <= 1;
    } else {
      assert Below(rs, k, i);
    }
  }

  /** On a sorted list the pass makes exactly the gained pages free. */
  lemma GainedIff(rs: seq<Region>, p: int)
    requires Sorted(rs) && rs != [] && NonEmptyBehindFirst(rs)
    ensures Free(Merge(rs), p) && !Free(rs, p) <==> Gained(rs, p)
  {
    FreeAfterMerge(rs, p);
    if k :| 1 <= k < |rs| && Joins(rs, k) && !Joins(rs, k - 1) && p == rs[k].End() {
      assert Left(rs, k, p) && !Headed(rs, k);
      GapIsInUse(rs, k);
    }
    if LeftFree(rs, 0, p) && !Free(rs, p) {
      var k :| 0 < k < |rs| && !Headed(rs, k) && Left(rs, k, p);
      assert !rs[k].Has(p);
    }
  }

  /** On a sorted list the pass loses exactly these pages. */
  lemma LostIff(rs: seq<Region>, p: int)
    requires Sorted(rs) && rs != [] && NonEmptyBehindFirst(rs)
    ensures Free(rs, p) && !Free(Merge(rs), p) <==> Lost(rs, p)
  {
    FreeAfterMerge(rs, p);
    if Free(rs, p) {
      var k :| 1 <= k < |rs| && rs[k].Has(p);
      forall i {:trigger rs[i]} {:trigger Left(rs, i, p)} | 0 <= i < |rs| && i != k
        ensures !Left(rs, i, p) && !rs[i].Has(p)
      {
        LeftOfOneNode(rs, k, i, p);
        assert if i < k then Below(rs, i, k) else Below(rs, k, i);
      }
      assert LeftFree(rs, 0, p) <==> !Headed(rs, k) && Left(rs, k, p);
      assert Left(rs, k, p) <==> !(Joins(rs, k - 1) && !Joins(rs, k) && p == rs[k].End() - 1);
    }
  }

  /** A page granted from the back of a region that touches the next one lies in a gap of one page: unless the region
      itself is joined to the one before it, the next merge pass takes the page for free. */
  lemma TouchingGrantIsGained(rs: seq<Region>, k: nat)
    requires 1 <= k < |rs| - 2 && rs[k].count >= 2 && rs[k].End() == rs[k + 1].start
    requires !Joins(AfterGrant(rs, k, 1), k - 1)
    ensures Gained(AfterGrant(rs, k, 1), Granted(rs, k, 1).start)
  {
    var s := AfterGrant(rs, k, 1);
    assert s[k].End() + 1 == s[k + 1].start && Joins(s, k);
  }

  lemma {:induction false} MergeKeepsLast(rs: seq<Region>)
    requires rs != []
    ensures Merge(rs)[|Merge(rs)| - 1] == rs[|rs| - 1]
    decreases |rs|
  {
    if |rs| >= 3 {
      if rs[0].End() + 1 == rs[1].start {
        MergeKeepsLast([Merged(rs[0], rs[1])] + rs[2..]);
      } else {
        MergeKeepsLast(rs[1..]);
      }
    }
  }

  /** p is free in a region that allocations consider. */
  ghost predicate InnerFree(rs: seq<Region>, p: int) {
    exists i {:trigger rs[i]} :: 1 <= i < |rs| - 1 && rs[i].Has(p)
  }

  lemma GainedIsInner(rs: seq<Region>, p: int)
    requires Sorted(rs) && rs != [] && NonEmptyBehindFirst(rs) && Gained(rs, p)
    ensures InnerFree(Merge(rs), p)
  {
    GainedIff(rs, p);
    MergeKeepsLast(rs);
    var s := Merge(rs);
    var i :| 1 <= i < |s| && s[i].Has(p);
    assert |rs| > 1 ==> rs[|rs| - 1].Has(p) ==> Free(rs, p);
  }

  lemma MergeOfThree(r: Region, u: Region, last: Region)
    requires r.End() + 1 == u.start
    ensures Merge([r, u, last]) == [Merged(r, u), last]
  {
    assert [r, u, last][2..] == [last];
    assert [Merged(r, u)] + [last] == [Merged(r, u), last];
  }

  lemma MergePassesHead(r: Region, u: seq<Region>)
    requires |u| >= 2 && r.End() + 1 != u[0].start
    ensures Merge([r] + u) == [r] + Merge(u)
  {
    assert ([r] + u)[1..] == u;
  }

  lemma FitsInFirst(rs: seq<Region>, count: nat)
    requires |rs| >= 3 && rs[1].count >= count
    ensures FirstFit(rs, count, 1) == 1
  {
  }

  /** Of two regions that touch, the first grant of one page takes the page between; after the next merge pass a grant
      of as many pages as the second region has takes it again. */
  lemma SamePageTwice(r: Region, u: Region, last: Region)
    requires var rs := [Region(0, 0), r, u, last]; WellFormed(rs) && Sorted(rs)
    requires r.start > 1 && r.count >= 2 && r.End() == u.start
    ensures var rs := [Region(0, 0), r, u, last];
            && FirstFit(rs, 1, 1) == 1 && var g := Granted(rs, 1, 1); var s := Merge(AfterGrant(rs, 1, 1));
            && Free(s, g.start) && FirstFit(s, u.count, 1) == 1 && Granted(s, 1, u.count).Has(g.start)
  {
    hide Merge, FirstFit;
    var rs, r' := [Region(0, 0), r, u, last], Region(r.start, r.count - 1);
    var n, s := [Region(0, 0), r', u, last], [Region(0, 0), Merged(r', u), last];
    assert rs[1] == r && rs[2] == u && u.count >= 1 && AfterGrant(rs, 1, 1) == n;
    FitsInFirst(rs, 1);
    MergeOfThree(r', u, last);
    assert n == [Region(0, 0)] + [r', u, last] && s == [Region(0, 0)] + [Merged(r', u), last];
    MergePassesHead(Region(0, 0), [r', u, last]);
    FitsInFirst(s, u.count);
    assert s[1] == Merged(r', u) && s[1].Has(r.End() - 1);
  }
}

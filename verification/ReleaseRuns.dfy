/** Runs in which pages are granted and given back: when a page is granted that is in use. */
module ReleaseRuns {
  import opened Machine
  import opened FreeList
  import opened FreeListRelease
  import opened MergedPages
  import Runs = AllocatorRuns

  datatype Event = Allocate(count: nat) | Release(index: nat)

  /** The free list, and what has been granted and not given back. */
  datatype State = State(nodes: seq<Region>, granted: seq<Region>)

  /** The released pages touch or neighbour an unusable entry. */
  ghost predicate Refused(reserved: seq<Region>, r: Region) {
    exists i {:trigger reserved[i]} :: 0 <= i < |reserved| && Near(reserved[i], r)
  }

  function Without(rs: seq<Region>, i: nat): (s: seq<Region>)
    requires i < |rs|
    ensures |s| == |rs| - 1
    ensures forall k {:trigger s[k]} :: 0 <= k < |s| ==> s[k] == rs[if k < i then k else k + 1]
  {
    rs[..i] + rs[i + 1..]
  }

  /** An allocation that finds no region halts and changes nothing. A grant without pages cannot be given back. */
  ghost function Step(reserved: seq<Region>, s: State, e: Event): State
    requires |s.nodes| >= 1
  {
    match e
    case Allocate(count) =>
      var k := FirstFit(s.nodes, count, 1);
      if k < |s.nodes| then State(AfterGrant(s.nodes, k, count), s.granted + [Granted(s.nodes, k, count)]) else s
    case Release(i) =>
      if i < |s.granted| && s.granted[i].count >= 1 then
        State(if Refused(reserved, s.granted[i]) then s.nodes else Released(s.nodes, s.granted[i]),
              Without(s.granted, i))
      else s
  }

  /** The list is in order, no page is granted twice, and no granted page is free. */
  ghost predicate Exclusive(s: State) {
    && WellFormed(s.nodes) && Sorted(s.nodes)
    && (forall i, j {:trigger s.granted[i], s.granted[j]} :: 0 <= i < j < |s.granted| ==>
          Runs.Apart(s.granted[i], s.granted[j]))
    && (forall i, p {:trigger s.granted[i].Has(p)} :: 0 <= i < |s.granted| && s.granted[i].Has(p) ==>
          p >= 1 && !Free(s.nodes, p))
  }

  /** Giving back r joins two regions over page p, which is neither free nor one of r. */
  ghost predicate JoinsOver(rs: seq<Region>, r: Region, p: int)
    requires rs != []
  {
    !Place(rs, r, 0).Refused? && Gained(Inserting(rs, r, Place(rs, r, 0)), p)
  }

  lemma JoinedOver(rs: seq<Region>, r: Region, p: int)
    requires WellFormed(rs) && Sorted(rs) && r.count >= 1
    ensures WellFormed(Released(rs, r)) && Sorted(Released(rs, r))
    ensures Free(Released(rs, r), p) && !Free(rs, p) && !r.Has(p) <==> JoinsOver(rs, r, p)
  {
    match Place(rs, r, 0)
    case Refused =>
    case Nowhere =>
      MergedOver(rs, p);
      NowhereIsNoGap(rs, r, p);
    case Before(k) =>
      PlacedBetween(rs, r, 0);
      InsertKeepsOrder(rs, r, k);
      InsertIsUnion(rs, r, k, p);
      MergedOver(Insert(rs, k, r), p);
  }

  lemma NowhereIsNoGap(rs: seq<Region>, r: Region, p: int)
    requires rs != [] && Place(rs, r, 0) == Nowhere
    ensures Gained(rs, p) ==> !r.Has(p)
  {
    if k :| 1 <= k < |rs| && Joins(rs, k) && !Joins(rs, k - 1) && p == rs[k].End() {
      NowhereIsFar(rs, r, 0, k);
    }
  }

  lemma MergedOver(rs: seq<Region>, p: int)
    requires WellFormed(rs) && Sorted(rs)
    ensures WellFormed(Merge(rs)) && Sorted(Merge(rs))
    ensures Free(Merge(rs), p) && !Free(rs, p) <==> Gained(rs, p)
  {
    GainedIff(rs, p);
    MergeKeepsOrder(rs);
    MergeIsWellFormed(rs);
  }

  lemma MergeStaysBelow(rs: seq<Region>, s: seq<Region>, i: nat)
    requires WellFormed(rs) && OrderKept(rs, s) && 1 <= i < |s|
    ensures s[i].End() <= 0x800_0000
  {
    if i < |s| - 1 {
      assert Below(s, i, |s| - 1);
    }
    assert rs[|rs| - 1].End() <= 0x800_0000;
  }

  lemma MergeIsWellFormed(rs: seq<Region>)
    requires WellFormed(rs) && Sorted(rs)
    ensures WellFormed(Merge(rs))
  {
    MergeKeepsOrder(rs);
    var s := Merge(rs);
    forall i {:trigger s[i]} | 1 <= i < |s|
      ensures s[i].count >= 1 && s[i].start >= 1 && s[i].End() <= 0x800_0000
    {
      MergeStaysBelow(rs, s, i);
    }
    SortedIsWellFormed(s);
  }

  /** Giving back grant i takes p for free. */
  ghost predicate TakesForFree(reserved: seq<Region>, s: State, i: nat, p: int)
    requires s.nodes != [] && i < |s.granted|
  {
    s.granted[i].count >= 1 && !Refused(reserved, s.granted[i]) && JoinsOver(s.nodes, s.granted[i], p)
  }

  /** Giving back grant i takes a page of another grant for free. */
  ghost predicate Steals(reserved: seq<Region>, s: State, i: nat)
    requires s.nodes != []
  {
    && i < |s.granted|
    && exists j, p {:trigger s.granted[j].Has(p)} ::
         0 <= j < |s.granted| && j != i && s.granted[j].Has(p) && TakesForFree(reserved, s, i, p)
  }

  /** A granted page lies in one grant only. */
  lemma GrantsShareNoPage(s: State, i: nat, j: nat, p: int)
    requires Exclusive(s) && i < |s.granted| && j < |s.granted| && i != j && s.granted[i].Has(p)
    ensures !s.granted[j].Has(p)
  {
    assert Runs.Apart(s.granted[if i < j then i else j], s.granted[if i < j then j else i]);
  }

  lemma AllocationIsSafe(reserved: seq<Region>, s: State, count: nat)
    requires Exclusive(s)
    ensures Exclusive(Step(reserved, s, Allocate(count)))
  {
    var k := FirstFit(s.nodes, count, 1);
    if k < |s.nodes| {
      var g, s' := Granted(s.nodes, k, count), Step(reserved, s, Allocate(count));
      GrantKeepsOrder(s.nodes, k, count);
      GrantIsWellFormed(s.nodes, k, count);
      forall p
        ensures Free(s'.nodes, p) <==> Free(s.nodes, p) && !g.Has(p)
        ensures g.Has(p) ==> Free(s.nodes, p)
      {
        GrantIsSetMinus(s.nodes, k, count, p);
      }
      forall i | 0 <= i < |s.granted|
        ensures Runs.Apart(s.granted[i], g)
      {
        DisjointIsApart(s.granted[i], g);
      }
    }
  }

  lemma DisjointIsApart(r: Region, g: Region)
    requires forall p {:trigger r.Has(p)} :: r.Has(p) ==> !g.Has(p)
    ensures Runs.Apart(r, g)
  {
    if !Runs.Apart(r, g) {
      var p := if r.start <= g.start then g.start else r.start;
      assert r.Has(p) && g.Has(p);
    }
  }

  lemma GrantIsWellFormed(rs: seq<Region>, k: nat, count: nat)
    requires WellFormed(rs) && 1 <= k < |rs| && count <= rs[k].count
    ensures WellFormed(AfterGrant(rs, k, count))
  {
    if count == rs[k].count {
      DropWellFormed(rs, k);
    } else {
      PartWellFormed(rs, k, Region(rs[k].start, rs[k].count - count));
    }
  }

  lemma GrantAfterRelease(reserved: seq<Region>, s: State, i: nat, j: nat, p: int)
    requires Exclusive(s) && i < |s.granted| && s.granted[i].count >= 1
    requires j < |s.granted| && j != i && s.granted[j].Has(p)
    ensures p >= 1 && (Free(Step(reserved, s, Release(i)).nodes, p) <==> TakesForFree(reserved, s, i, p))
  {
    GrantsShareNoPage(s, j, i, p);
    JoinedOver(s.nodes, s.granted[i], p);
  }

  lemma OtherGrantStays(reserved: seq<Region>, s: State, i: nat, j: nat, p: int)
    requires |s.nodes| >= 1 && i < |s.granted| && s.granted[i].count >= 1
    requires j < |s.granted| && j != i && s.granted[j].Has(p)
    ensures var s', o := Step(reserved, s, Release(i)), if j < i then j else j - 1;
            0 <= o < |s'.granted| && s'.granted[o].Has(p)
  {
  }

  lemma StolenPageIsFree(reserved: seq<Region>, s: State, i: nat, j: nat, p: int)
    requires Exclusive(s) && i < |s.granted| && s.granted[i].count >= 1
    requires j < |s.granted| && j != i && s.granted[j].Has(p) && TakesForFree(reserved, s, i, p)
    ensures var s', o := Step(reserved, s, Release(i)), if j < i then j else j - 1;
            0 <= o < |s'.granted| && s'.granted[o].Has(p) && Free(s'.nodes, p)
  {
    GrantAfterRelease(reserved, s, i, j, p);
    OtherGrantStays(reserved, s, i, j, p);
  }

  lemma StealingBreaks(reserved: seq<Region>, s: State, i: nat)
    requires Exclusive(s) && Steals(reserved, s, i)
    ensures !Exclusive(Step(reserved, s, Release(i)))
  {
    var j, p :| 0 <= j < |s.granted| && j != i && s.granted[j].Has(p) && TakesForFree(reserved, s, i, p);
    StolenPageIsFree(reserved, s, i, j, p);
  }

  lemma NotStealingKeeps(reserved: seq<Region>, s: State, i: nat)
    requires Exclusive(s) && !Steals(reserved, s, i)
    ensures Exclusive(Step(reserved, s, Release(i)))
  {
    if i < |s.granted| && s.granted[i].count >= 1 {
      var s' := Step(reserved, s, Release(i));
      ReleaseKeepsList(reserved, s, i);
      forall j, p {:trigger s'.granted[j].Has(p)} | 0 <= j < |s'.granted| && s'.granted[j].Has(p)
        ensures p >= 1 && !Free(s'.nodes, p)
      {
        var o := if j < i then j else j + 1;
        assert s.granted[o].Has(p);
        GrantAfterRelease(reserved, s, i, o, p);
      }
    }
  }

  /** Giving a grant back leaves all others alone exactly when it steals no page. */
  lemma ReleaseIsSafeIff(reserved: seq<Region>, s: State, i: nat)
    requires Exclusive(s)
    ensures Exclusive(Step(reserved, s, Release(i))) <==> !Steals(reserved, s, i)
  {
    if Steals(reserved, s, i) {
      StealingBreaks(reserved, s, i);
    } else {
      NotStealingKeeps(reserved, s, i);
    }
  }

  lemma ReleaseKeepsList(reserved: seq<Region>, s: State, i: nat)
    requires Exclusive(s) && i < |s.granted| && s.granted[i].count >= 1
    ensures var s' := Step(reserved, s, Release(i));
            && WellFormed(s'.nodes) && Sorted(s'.nodes)
            && (forall j, k {:trigger s'.granted[j], s'.granted[k]} :: 0 <= j < k < |s'.granted| ==>
                  Runs.Apart(s'.granted[j], s'.granted[k]))
  {
    JoinedOver(s.nodes, s.granted[i], 0);
  }

  ghost function Run(reserved: seq<Region>, s: State, events: seq<Event>): (s': State)
    requires |s.nodes| >= 1
    ensures |s'.nodes| >= 1
    decreases |events|
  {
    if events == [] then s else
    var before := Run(reserved, s, events[..|events| - 1]);
    StepKeepsSentinel(reserved, before, events[|events| - 1]);
    Step(reserved, before, events[|events| - 1])
  }

  lemma StepKeepsSentinel(reserved: seq<Region>, s: State, e: Event)
    requires |s.nodes| >= 1
    ensures |Step(reserved, s, e).nodes| >= 1
  {
  }

  /** The state before event n of a run. */
  ghost function At(reserved: seq<Region>, s: State, events: seq<Event>, n: nat): (s': State)
    requires |s.nodes| >= 1 && n <= |events|
    ensures |s'.nodes| >= 1
  {
    Run(reserved, s, events[..n])
  }

  lemma AtNext(reserved: seq<Region>, s: State, events: seq<Event>, n: nat)
    requires |s.nodes| >= 1 && n < |events|
    ensures At(reserved, s, events, n + 1) == Step(reserved, At(reserved, s, events, n), events[n])
  {
    assert events[..n + 1][..n] == events[..n];
  }

  ghost predicate NeverSteals(reserved: seq<Region>, s: State, events: seq<Event>, n: nat)
    requires |s.nodes| >= 1 && n <= |events|
  {
    forall k {:trigger events[k]} :: 0 <= k < n ==> !StealsIn(reserved, At(reserved, s, events, k), events[k])
  }

  ghost predicate AlwaysExclusive(reserved: seq<Region>, s: State, events: seq<Event>, n: nat)
    requires |s.nodes| >= 1 && n <= |events|
  {
    forall k {:trigger At(reserved, s, events, k)} :: 0 <= k <= n ==> Exclusive(At(reserved, s, events, k))
  }

  ghost predicate StealsIn(reserved: seq<Region>, s: State, e: Event)
    requires s.nodes != []
  {
    e.Release? && Steals(reserved, s, e.index)
  }

  lemma StepIsSafeIff(reserved: seq<Region>, s: State, e: Event)
    requires Exclusive(s)
    ensures Exclusive(Step(reserved, s, e)) <==> !StealsIn(reserved, s, e)
  {
    match e
    case Allocate(count) => AllocationIsSafe(reserved, s, count);
    case Release(i) => ReleaseIsSafeIff(reserved, s, i);
  }

  /** In every run of allocations and releases, all grants are exclusive all the time if and only if no release steals a
      page. */
  lemma {:induction false} RunIsSafeIff(reserved: seq<Region>, s: State, events: seq<Event>, n: nat)
    requires Exclusive(s) && n <= |events|
    ensures AlwaysExclusive(reserved, s, events, n) <==> NeverSteals(reserved, s, events, n)
  {
    if n == 0 {
      assert events[..0] == [];
      assert At(reserved, s, events, 0) == s;
    } else {
      RunIsSafeIff(reserved, s, events, n - 1);
      var before := At(reserved, s, events, n - 1);
      AtNext(reserved, s, events, n - 1);
      AlwaysNext(reserved, s, events, n);
      NeverNext(reserved, s, events, n);
      if Exclusive(before) {
        StepIsSafeIff(reserved, before, events[n - 1]);
      }
    }
  }

  lemma AlwaysNext(reserved: seq<Region>, s: State, events: seq<Event>, n: nat)
    requires |s.nodes| >= 1 && 1 <= n <= |events|
    ensures AlwaysExclusive(reserved, s, events, n) <==>
            AlwaysExclusive(reserved, s, events, n - 1) && Exclusive(At(reserved, s, events, n))
    ensures AlwaysExclusive(reserved, s, events, n - 1) ==> Exclusive(At(reserved, s, events, n - 1))
  {
  }

  lemma NeverNext(reserved: seq<Region>, s: State, events: seq<Event>, n: nat)
    requires |s.nodes| >= 1 && 1 <= n <= |events|
    ensures NeverSteals(reserved, s, events, n) <==>
            NeverSteals(reserved, s, events, n - 1)
            && !StealsIn(reserved, At(reserved, s, events, n - 1), events[n - 1])
  {
  }

  // ----- After a page has been stolen -----

  function Singles(n: nat): (events: seq<Event>)
    ensures |events| == n
    ensures n > 0 ==> events[..n - 1] == Singles(n - 1) && events[n - 1] == Allocate(1)
  {
    if n == 0 then [] else Singles(n - 1) + [Allocate(1)]
  }

  /** A grant that s did not have covers p; those of s are still there. */
  ghost predicate GrantedSince(s: State, t: State, p: int) {
    && s.granted <= t.granted
    && exists j {:trigger t.granted[j]} :: |s.granted| <= j < |t.granted| && t.granted[j].Has(p)
  }

  lemma OneMore(reserved: seq<Region>, s: State, t: State, p: int)
    requires WellFormed(t.nodes) && InnerFree(t.nodes, p) && s.granted <= t.granted
    ensures var t' := Step(reserved, t, Allocate(1));
            && WellFormed(t'.nodes) && s.granted <= t'.granted && Pages(t'.nodes) + 1 == Pages(t.nodes)
            && (GrantedSince(s, t', p) || InnerFree(t'.nodes, p))
  {
    assert FirstFit(t.nodes, 1, 1) == 1;
    var t', g := Step(reserved, t, Allocate(1)), Granted(t.nodes, 1, 1);
    GrantIsWellFormed(t.nodes, 1, 1);
    GrantConservesPages(t.nodes, 1, 1);
    assert t'.granted[|t.granted|] == g;
    if !g.Has(p) {
      var i :| 1 <= i < |t.nodes| - 1 && t.nodes[i].Has(p);
      assert t'.nodes[if t.nodes[1].count == 1 then i - 1 else i].Has(p);
    }
  }

  lemma GrantedStays(reserved: seq<Region>, s: State, t: State, p: int, e: Event)
    requires GrantedSince(s, t, p) && |t.nodes| >= 1 && e.Allocate?
    ensures GrantedSince(s, Step(reserved, t, e), p)
  {
    var t' := Step(reserved, t, e);
    var j :| |s.granted| <= j < |t.granted| && t.granted[j].Has(p);
    assert t'.granted[j] == t.granted[j];
  }

  /** Allocating page by page, every page before the last region is granted in the end. */
  lemma {:induction false} SinglesGrant(reserved: seq<Region>, s: State, p: int, n: nat)
    requires WellFormed(s.nodes) && InnerFree(s.nodes, p)
    ensures var t := Run(reserved, s, Singles(n));
            || GrantedSince(s, t, p)
            || (&& WellFormed(t.nodes) && InnerFree(t.nodes, p)
                && s.granted <= t.granted && Pages(t.nodes) + n == Pages(s.nodes))
  {
    if n > 0 {
      SinglesGrant(reserved, s, p, n - 1);
      var t := Run(reserved, s, Singles(n - 1));
      if GrantedSince(s, t, p) {
        GrantedStays(reserved, s, t, p, Allocate(1));
      } else {
        OneMore(reserved, s, t, p);
      }
    }
  }

  lemma {:induction false} SomePages(rs: seq<Region>, i: nat)
    requires i < |rs|
    ensures Pages(rs) >= rs[i].count
  {
    if i > 0 {
      SomePages(rs[1..], i - 1);
    }
  }

  lemma EveryPageIsGranted(reserved: seq<Region>, s: State, p: int)
    requires WellFormed(s.nodes) && InnerFree(s.nodes, p)
    ensures GrantedSince(s, Run(reserved, s, Singles(Pages(s.nodes))), p)
  {
    var n := Pages(s.nodes);
    SinglesGrant(reserved, s, p, n);
    var t := Run(reserved, s, Singles(n));
    if !GrantedSince(s, t, p) {
      var i :| 1 <= i < |t.nodes| - 1 && t.nodes[i].Has(p);
      SomePages(t.nodes, i);
    }
  }

  ghost predicate GrantedTwice(s: State) {
    exists i, j {:trigger s.granted[i], s.granted[j]} ::
      0 <= i < j < |s.granted| && !Runs.Apart(s.granted[i], s.granted[j])
  }

  /** What the merge pass of a release begins with. */
  lemma InsertedInOrder(rs: seq<Region>, r: Region)
    requires WellFormed(rs) && Sorted(rs) && r.count >= 1 && !Place(rs, r, 0).Refused?
    ensures var t := Inserting(rs, r, Place(rs, r, 0));
            WellFormed(t) && Sorted(t) && Released(rs, r) == Merge(t)
  {
    if Place(rs, r, 0).Before? {
      PlacedBetween(rs, r, 0);
      InsertKeepsOrder(rs, r, Place(rs, r, 0).k);
    }
  }

  lemma StolenIsInner(reserved: seq<Region>, s: State, i: nat, p: int)
    requires Exclusive(s) && i < |s.granted| && TakesForFree(reserved, s, i, p)
    ensures InnerFree(Step(reserved, s, Release(i)).nodes, p)
  {
    var rs, r := s.nodes, s.granted[i];
    InsertedInOrder(rs, r);
    GainedIsInner(Inserting(rs, r, Place(rs, r, 0)), p);
  }

  lemma SinceIsTwice(s: State, t: State, o: nat, p: int)
    requires GrantedSince(s, t, p) && o < |s.granted| && s.granted[o].Has(p)
    ensures GrantedTwice(t)
  {
    var k :| |s.granted| <= k < |t.granted| && t.granted[k].Has(p);
    assert t.granted[o] == s.granted[o];
    assert !Runs.Apart(t.granted[o], t.granted[k]);
  }

  /** After a release has stolen a page, enough allocations of one page grant it again, while it is in use. */
  lemma StolenPageIsGrantedTwice(reserved: seq<Region>, s: State, i: nat)
    requires Exclusive(s) && Steals(reserved, s, i)
    ensures var s' := Step(reserved, s, Release(i));
            GrantedTwice(Run(reserved, s', Singles(Pages(s'.nodes))))
  {
    var j, p :| 0 <= j < |s.granted| && j != i && s.granted[j].Has(p) && TakesForFree(reserved, s, i, p);
    var s' := Step(reserved, s, Release(i));
    ReleaseKeepsList(reserved, s, i);
    StolenIsInner(reserved, s, i, p);
    EveryPageIsGranted(reserved, s', p);
    OtherGrantStays(reserved, s, i, j, p);
    SinceIsTwice(s', Run(reserved, s', Singles(Pages(s'.nodes))), if j < i then j else j - 1, p);
  }

  lemma RunNext(reserved: seq<Region>, s: State, events: seq<Event>, e: Event)
    requires |s.nodes| >= 1
    ensures Run(reserved, s, events + [e]) == Step(reserved, Run(reserved, s, events), e)
  {
    assert (events + [e])[..|events|] == events;
  }

  lemma RunOfThree(reserved: seq<Region>, s: State, e: Event, e': Event, e'': Event)
    requires |s.nodes| >= 1
    ensures Run(reserved, s, [e, e', e'']) == Step(reserved, Run(reserved, s, [e, e']), e'')
    ensures Run(reserved, s, [e, e']) == Step(reserved, Run(reserved, s, [e]), e')
    ensures Run(reserved, s, [e]) == Step(reserved, s, e)
  {
    RunNext(reserved, s, [], e);
    RunNext(reserved, s, [e], e');
    RunNext(reserved, s, [e, e'], e'');
    assert [] + [e] == [e] && [e] + [e'] == [e, e'] && [e, e'] + [e''] == [e, e', e''];
  }

  lemma GrantFromFirst(reserved: seq<Region>, s: State, count: nat)
    requires |s.nodes| >= 3 && count < s.nodes[1].count
    ensures Step(reserved, s, Allocate(count))
         == State(s.nodes[1 := Region(s.nodes[1].start, s.nodes[1].count - count)],
                  s.granted + [Region(s.nodes[1].End() - count, count)])
  {
    assert FirstFit(s.nodes, count, 1) == 1;
  }

  /** When the first region is too small, the pages are granted from the back of the second. */
  lemma GrantFromSecond(reserved: seq<Region>, s: State, count: nat)
    requires |s.nodes| >= 4 && s.nodes[1].count < count < s.nodes[2].count
    ensures Step(reserved, s, Allocate(count))
         == State(s.nodes[2 := Region(s.nodes[2].start, s.nodes[2].count - count)],
                  s.granted + [Region(s.nodes[2].End() - count, count)])
  {
    assert FirstFit(s.nodes, count, 2) == 2 && FirstFit(s.nodes, count, 1) == 2;
  }

  lemma SeparateIsExclusive(s: State)
    requires s.granted == [] && Sorted(s.nodes) && s.nodes != [] && s.nodes[0].start == 0
    requires forall i {:trigger s.nodes[i]} ::
               1 <= i < |s.nodes| ==> s.nodes[i].count >= 1 && s.nodes[i].start >= 1 && s.nodes[i].End() <= 0x800_0000
    ensures Exclusive(s)
  {
    SortedIsWellFormed(s.nodes);
  }

  lemma TwoFromSecond(reserved: seq<Region>, s: State, count: nat)
    requires |s.nodes| >= 4 && s.nodes[1].count < count && 2 * count < s.nodes[2].count
    ensures |Step(reserved, s, Allocate(count)).nodes| >= 1
    ensures Step(reserved, Step(reserved, s, Allocate(count)), Allocate(count))
         == State(s.nodes[2 := Region(s.nodes[2].start, s.nodes[2].count - 2 * count)],
                  s.granted + [Region(s.nodes[2].End() - count, count)] + [Region(s.nodes[2].End() - 2 * count, count)])
  {
    GrantFromSecond(reserved, s, count);
    var t := State(s.nodes[2 := Region(s.nodes[2].start, s.nodes[2].count - count)],
                   s.granted + [Region(s.nodes[2].End() - count, count)]);
    GrantFromSecond(reserved, t, count);
    var left := Region(s.nodes[2].start, s.nodes[2].count - 2 * count);
    assert t.nodes[2 := left] == s.nodes[2 := left];
  }

  lemma ThreeGrants(s: State, e: Event, e': Event)
    requires |s.nodes| >= 4 && s.nodes[1].count == 2 && s.nodes[2].count == 30
    requires e == Allocate(1) && e' == Allocate(4)
    ensures Run([], s, [e, e', e'])
         == State(s.nodes[1 := Region(s.nodes[1].start, 1)][2 := Region(s.nodes[2].start, 22)],
                  s.granted + [Region(s.nodes[1].start + 1, 1)] + [Region(s.nodes[2].start + 26, 4)]
                  + [Region(s.nodes[2].start + 22, 4)])
  {
    hide Run, Step;
    RunOfThree([], s, e, e', e');
    GrantFromFirst([], s, 1);
    var t := State(s.nodes[1 := Region(s.nodes[1].start, 1)], s.granted + [Region(s.nodes[1].start + 1, 1)]);
    assert Step([], s, e) == t;
    TwoFromSecond([], t, 4);
  }

  /** Such a run: three grants, and the second is given back. The page of the first one lies between two regions. */
  lemma UsedPageIsStolen(s: State, e: Event, e': Event)
    requires s == State([Region(0, 0), Region(16, 2), Region(18, 30), Region(100, 50), Region(200, 50)], [])
    requires e == Allocate(1) && e' == Allocate(4)
    ensures Exclusive(s)
    ensures var t := Run([], s, [e, e', e']);
            t.granted == [Region(17, 1), Region(44, 4), Region(40, 4)] && Steals([], t, 1)
  {
    hide Run, Step;
    SeparateIsExclusive(s);
    ThreeGrants(s, e, e');
    NodesAfterGrants(s.nodes);
    MiddleReleaseSteals(Run([], s, [e, e', e']));
  }

  lemma NodesAfterGrants(rs: seq<Region>)
    requires rs == [Region(0, 0), Region(16, 2), Region(18, 30), Region(100, 50), Region(200, 50)]
    ensures rs[1 := Region(16, 1)][2 := Region(18, 22)]
         == [Region(0, 0), Region(16, 1), Region(18, 22), Region(100, 50), Region(200, 50)]
  {
  }

  lemma MiddleReleaseSteals(s: State)
    requires s.nodes == [Region(0, 0), Region(16, 1), Region(18, 22), Region(100, 50), Region(200, 50)]
    requires s.granted == [Region(17, 1), Region(44, 4), Region(40, 4)]
    ensures Steals([], s, 1)
  {
    var r := Region(44, 4);
    assert FitsAt(s.nodes, r, 3);
    PlacedIff(s.nodes, r, 3);
    var t := Insert(s.nodes, 3, r);
    assert t[0] == Region(0, 0) && t[1] == Region(16, 1) && t[2] == Region(18, 22);
    assert !Joins(t, 0) && Joins(t, 1);
    assert Gained(t, 17);
    assert s.granted[0].Has(17) && TakesForFree([], s, 1, 17);
  }
}

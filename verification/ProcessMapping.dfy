/** The list of memory mappings of a process: merging neighbouring entries, and writing them into and out of the
    page table. */
module ProcessMapping {
  datatype Entry = Entry(virtAddr: nat, physAddr: nat, size: nat, writable: bool, executable: bool)

  /** One call of PageTable::map. */
  datatype Call = Call(virtPage: nat, physPage: nat, writable: bool)

  datatype Leaf = Leaf(frame: nat, writable: bool)

  /** From page numbers to what they are mapped to. */
  type Table = map<nat, Leaf>

  // ----- What load does -----

  function CallAt(e: Entry, i: nat): Call {
    Call((e.virtAddr + i * 0x1000) / 0x1000, (e.physAddr + i * 0x1000) / 0x1000, e.writable)
  }

  /** The calls for one entry: one for each page begun. */
  function EntryCalls(e: Entry): (calls: seq<Call>)
    ensures |calls| == (e.size + 0xFFF) / 0x1000
  {
    seq((e.size + 0xFFF) / 0x1000, i requires 0 <= i => CallAt(e, i))
  }

  /** The calls for a list, entry by entry. */
  function Calls(l: seq<Entry>): seq<Call> {
    if l == [] then [] else EntryCalls(l[0]) + Calls(l[1..])
  }

  /** The table after the calls; later ones win. */
  function Apply(t: Table, calls: seq<Call>): Table {
    if calls == [] then t
    else
      var c := calls[|calls| - 1];
      Apply(t, calls[..|calls| - 1])[c.virtPage := Leaf(c.physPage, c.writable)]
  }

  lemma ApplyOne(t: Table, calls: seq<Call>, c: Call)
    ensures Apply(t, calls + [c]) == Apply(t, calls)[c.virtPage := Leaf(c.physPage, c.writable)]
  {
    assert (calls + [c])[..|calls|] == calls;
  }

  function PagesOf(calls: seq<Call>): set<nat> {
    set c | c in calls :: c.virtPage
  }

  lemma PagesOfBoth(a: seq<Call>, b: seq<Call>)
    ensures PagesOf(a + b) == PagesOf(a) + PagesOf(b)
  {
    forall p | p in PagesOf(a) + PagesOf(b)
      ensures p in PagesOf(a + b)
    {
      var c :| (c in a || c in b) && c.virtPage == p;
      assert c in a + b;
    }
  }

  lemma {:induction false} ApplyChangesOnlyPages(t: Table, calls: seq<Call>)
    ensures Apply(t, calls).Keys == t.Keys + PagesOf(calls)
    ensures forall p :: p in t && p !in PagesOf(calls) ==> Apply(t, calls)[p] == t[p]
  {
    if calls != [] {
      var front, c := calls[..|calls| - 1], calls[|calls| - 1];
      ApplyChangesOnlyPages(t, front);
      assert PagesOf(calls) == PagesOf(front) + {c.virtPage} by {
        assert calls == front + [c];
      }
    }
  }

  /** Loading and then unloading leaves no page of the list mapped and every other page as it was. */
  lemma LoadThenUnload(t: Table, l: seq<Entry>)
    ensures Apply(t, Calls(l)) - PagesOf(Calls(l)) == t - PagesOf(Calls(l))
  {
    ApplyChangesOnlyPages(t, Calls(l));
  }

  lemma {:induction false} ApplyBoth(t: Table, a: seq<Call>, b: seq<Call>)
    ensures Apply(t, a + b) == Apply(Apply(t, a), b)
  {
    if b == [] {
      assert a + b == a;
    } else {
      var n := |b| - 1;
      assert a + b == (a + b[..n]) + [b[n]];
      ApplyBoth(t, a, b[..n]);
      ApplyOne(t, a + b[..n], b[n]);
    }
  }

  /** What the calls map does not depend on what was mapped before. */
  lemma {:induction false} ApplyOverrides(t: Table, t': Table, calls: seq<Call>, p: nat)
    requires p in PagesOf(calls)
    ensures p in Apply(t, calls) && p in Apply(t', calls) && Apply(t, calls)[p] == Apply(t', calls)[p]
  {
    ApplyChangesOnlyPages(t, calls);
    ApplyChangesOnlyPages(t', calls);
    var front, c := calls[..|calls| - 1], calls[|calls| - 1];
    if p != c.virtPage {
      var d :| d in calls && d.virtPage == p;
      assert d in front;
      ApplyOverrides(t, t', front, p);
    }
  }

  /** A new mapping comes first in the list, so that load lets every older mapping of a page win over it: the page
      tables change on the pages that only the new entry has. */
  lemma OlderMappingWins(t: Table, e: Entry, l: seq<Entry>, p: nat)
    ensures var was, now := Apply(t, Calls(l)), Apply(t, Calls([e] + l));
            if p in PagesOf(Calls(l)) then p in was && p in now && now[p] == was[p]
            else (p in now <==> p in Apply(t, EntryCalls(e))) && (p in now ==> now[p] == Apply(t, EntryCalls(e))[p])
  {
    assert ([e] + l)[1..] == l;
    ApplyBoth(t, EntryCalls(e), Calls(l));
    if p in PagesOf(Calls(l)) {
      ApplyOverrides(t, Apply(t, EntryCalls(e)), Calls(l), p);
    } else {
      ApplyChangesOnlyPages(Apply(t, EntryCalls(e)), Calls(l));
    }
  }

  // ----- Merging -----

  predicate Mergeable(e: Entry, f: Entry) {
    e.virtAddr + e.size == f.virtAddr && e.physAddr + e.size == f.physAddr
  }

  /** The flags of the second entry are lost. */
  function Merge(e: Entry, f: Entry): Entry { e.(size := e.size + f.size) }

  /** Every maximal run of mergeable entries as one entry. */
  function Compacted(l: seq<Entry>): (r: seq<Entry>)
    ensures |r| <= |l| && (l != [] ==> r != [] && r[0] == l[0].(size := r[0].size))
  {
    if |l| <= 1 then l
    else
      var r := Compacted(l[1..]);
      if Mergeable(l[0], l[1]) then [Merge(l[0], r[0])] + r[1..] else [l[0]] + r
  }

  ghost predicate NothingToMerge(l: seq<Entry>) {
    forall k {:trigger l[k]} :: 0 <= k < |l| - 1 ==> !Mergeable(l[k], l[k + 1])
  }

  function MergedAt(l: seq<Entry>, k: nat): seq<Entry>
    requires k + 1 < |l|
  {
    l[..k] + [Merge(l[k], l[k + 1])] + l[k + 2..]
  }

  /** Merging any mergeable pair first makes no difference to the final list. */
  lemma {:induction false} MergeIsConfluent(l: seq<Entry>, k: nat)
    requires k + 1 < |l| && Mergeable(l[k], l[k + 1])
    ensures Compacted(MergedAt(l, k)) == Compacted(l)
  {
    var m := MergedAt(l, k);
    if k > 0 {
      assert m[1..] == MergedAt(l[1..], k - 1);
      MergeIsConfluent(l[1..], k - 1);
    } else {
      assert m[1..] == l[2..];
      var r := Compacted(l[1..]);
      if |l| > 2 {
        assert l[1..][1..] == l[2..];
        var q := Compacted(l[2..]);
        if Mergeable(l[1], l[2]) {
          assert r == [Merge(l[1], q[0])] + q[1..];
          assert Mergeable(m[0], m[1]);
        } else {
          assert r == [l[1]] + q;
          assert !Mergeable(m[0], m[1]);
        }
      }
    }
  }

  lemma {:induction false} CompactedIsFixed(l: seq<Entry>)
    requires NothingToMerge(l)
    ensures Compacted(l) == l
  {
    if |l| > 1 {
      assert !Mergeable(l[0], l[0 + 1]);
      assert NothingToMerge(l[1..]) by {
        forall k | 0 <= k < |l[1..]| - 1
          ensures !Mergeable(l[1..][k], l[1..][k + 1])
        {
          assert !Mergeable(l[k + 1], l[k + 1 + 1]);
        }
      }
      CompactedIsFixed(l[1..]);
    }
  }

  /** The end of a run is the end of its last entry, so nothing is left to merge. */
  lemma {:induction false} NothingLeftToMerge(l: seq<Entry>)
    ensures NothingToMerge(Compacted(l))
  {
    if |l| > 1 {
      NothingLeftToMerge(l[1..]);
      var r, q := Compacted(l[1..]), Compacted(l);
      forall k | 0 <= k < |q| - 1
        ensures !Mergeable(q[k], q[k + 1])
      {
        if Mergeable(l[0], l[1]) {
          assert !Mergeable(r[k], r[k + 1]);
        } else if k > 0 {
          assert !Mergeable(r[k - 1], r[k - 1 + 1]);
        }
      }
    }
  }

  // ----- Merging and loading -----

  /** Every size is a multiple of the page size. */
  ghost predicate WholePages(l: seq<Entry>) {
    forall k {:trigger l[k]} :: 0 <= k < |l| ==> l[k].size % 0x1000 == 0
  }

  lemma MergedCalls(e: Entry, f: Entry)
    requires Mergeable(e, f) && e.size % 0x1000 == 0 && e.writable == f.writable
    ensures EntryCalls(Merge(e, f)) == EntryCalls(e) + EntryCalls(f)
  {
    var n := e.size / 0x1000;
    assert |EntryCalls(e)| == n;
    assert |EntryCalls(Merge(e, f))| == n + |EntryCalls(f)|;
    forall i: nat | i < |EntryCalls(f)|
      ensures CallAt(Merge(e, f), n + i) == CallAt(f, i)
    {
      assert e.virtAddr + (n + i) * 0x1000 == f.virtAddr + i * 0x1000;
      assert e.physAddr + (n + i) * 0x1000 == f.physAddr + i * 0x1000;
    }
  }

  lemma CallsOfFirst(e: Entry, l: seq<Entry>)
    ensures Calls([e] + l) == EntryCalls(e) + Calls(l)
  {
    assert ([e] + l)[1..] == l;
  }

  /** The flag of the entry that comes after l[0], if l[0] has flag w: entries of one run share the first one's. */
  function NextFlag(w: bool, l: seq<Entry>): bool {
    if |l| <= 1 || Mergeable(l[0], l[1]) then w else l[1].writable
  }

  /** Every entry with the flag of the first entry of its run, the first run with w. */
  function Spread(w: bool, l: seq<Entry>): (r: seq<Entry>)
    ensures |r| == |l|
    decreases l
  {
    if l == [] then [] else [l[0].(writable := w)] + Spread(NextFlag(w, l), l[1..])
  }

  /** The list whose first entry has flag w. */
  function Flagged(w: bool, l: seq<Entry>): seq<Entry> {
    if l == [] then [] else [l[0].(writable := w)] + l[1..]
  }

  /** The first entry takes in a run r of which f is the first entry. */
  lemma MergedRunCalls(w: bool, e: Entry, f: Entry, r: seq<Entry>)
    requires r != [] && Mergeable(e, f) && r[0] == f.(size := r[0].size) && e.size % 0x1000 == 0
    ensures Calls(Flagged(w, [Merge(e, r[0])] + r[1..])) == EntryCalls(e.(writable := w)) + Calls(Flagged(w, r))
  {
    var e', f' := e.(writable := w), r[0].(writable := w);
    assert ([Merge(e, r[0])] + r[1..])[1..] == r[1..];
    MergedCalls(e', f');
    CallsOfFirst(Merge(e', f'), r[1..]);
    CallsOfFirst(f', r[1..]);
  }

  lemma SeparateRunCalls(w: bool, e: Entry, r: seq<Entry>)
    requires r != []
    ensures Calls(Flagged(w, [e] + r)) == EntryCalls(e.(writable := w)) + Calls(Flagged(r[0].writable, r))
  {
    assert ([e] + r)[1..] == r && Flagged(r[0].writable, r) == r;
    CallsOfFirst(e.(writable := w), r);
  }

  /** Loading the compacted list makes the calls of the list in which each run has its first entry's flag. */
  lemma {:induction false} CompactedCalls(w: bool, l: seq<Entry>)
    requires WholePages(l)
    ensures Calls(Flagged(w, Compacted(l))) == Calls(Spread(w, l))
    decreases l
  {
    if |l| > 1 {
      var r := Compacted(l[1..]);
      assert forall k :: 0 <= k < |l[1..]| ==> l[1..][k] == l[k + 1];
      CompactedCalls(NextFlag(w, l), l[1..]);
      CallsOfFirst(l[0].(writable := w), Spread(NextFlag(w, l), l[1..]));
      if Mergeable(l[0], l[1]) {
        MergedRunCalls(w, l[0], l[1], r);
      } else {
        SeparateRunCalls(w, l[0], r);
      }
    }
  }

  /** Each non-empty entry has the flag of the first entry of its run, the first run that of w. */
  predicate FlagsSpread(w: bool, l: seq<Entry>)
    decreases l
  {
    l == [] || ((l[0].size > 0 ==> l[0].writable == w) && FlagsSpread(NextFlag(w, l), l[1..]))
  }

  lemma {:induction false} SpreadCallsIff(w: bool, l: seq<Entry>)
    ensures Calls(Spread(w, l)) == Calls(l) <==> FlagsSpread(w, l)
    decreases l
  {
    if l != [] {
      var e, rest := l[0].(writable := w), Spread(NextFlag(w, l), l[1..]);
      SpreadCallsIff(NextFlag(w, l), l[1..]);
      CallsOfFirst(e, rest);
      var a, b := EntryCalls(e), EntryCalls(l[0]);
      assert a == b <==> (l[0].size > 0 ==> l[0].writable == w) by {
        if a == b && l[0].size > 0 {
          assert a[0] == b[0];
        }
      }
      if a + Calls(rest) == b + Calls(l[1..]) {
        assert a == (a + Calls(rest))[..|a|] == b;
        assert Calls(rest) == (a + Calls(rest))[|a|..] == Calls(l[1..]);
      }
    }
  }

  /** The first entry of the run that entry k belongs to. */
  function Leader(l: seq<Entry>, k: nat): (i: nat)
    requires k < |l|
    ensures i <= k
  {
    if k > 0 && Mergeable(l[k - 1], l[k]) then Leader(l, k - 1) else k
  }

  /** Every non-empty entry has the flag of the first entry of its run. */
  ghost predicate RunsAgree(l: seq<Entry>) {
    forall k {:trigger Leader(l, k)} :: 0 <= k < |l| && l[k].size > 0 ==> l[k].writable == l[Leader(l, k)].writable
  }

  /** The leader of a later entry is that of the rest of the list, unless the first run goes on. */
  lemma {:induction false} LeaderInRest(l: seq<Entry>, k: nat)
    requires |l| > 1 && k < |l| - 1
    ensures var i := Leader(l[1..], k);
            Leader(l, k + 1) == if i == 0 && Mergeable(l[0], l[1]) then 0 else i + 1
  {
    if k > 0 {
      LeaderInRest(l, k - 1);
    }
  }

  /** Flag w, if the first run is that of an earlier entry, and otherwise the flag of the first entry. */
  ghost predicate RunsAgreeWith(w: bool, l: seq<Entry>) {
    forall k {:trigger Leader(l, k)} :: 0 <= k < |l| && l[k].size > 0 ==>
      l[k].writable == if Leader(l, k) == 0 then w else l[Leader(l, k)].writable
  }

  lemma {:induction false} FlagsSpreadIff(w: bool, l: seq<Entry>)
    ensures FlagsSpread(w, l) <==> RunsAgreeWith(w, l)
    decreases l
  {
    if l != [] {
      var rest, v := l[1..], NextFlag(w, l);
      FlagsSpreadIff(v, rest);
      forall k | 0 <= k < |rest|
        ensures (if Leader(rest, k) == 0 then v else rest[Leader(rest, k)].writable)
             == (if Leader(l, k + 1) == 0 then w else l[Leader(l, k + 1)].writable)
      {
        LeaderInRest(l, k);
      }
      assert Leader(l, 0) == 0;
      if RunsAgreeWith(v, rest) && (l[0].size > 0 ==> l[0].writable == w) {
        forall k {:trigger Leader(l, k)} | 0 <= k < |l| && l[k].size > 0
          ensures l[k].writable == if Leader(l, k) == 0 then w else l[Leader(l, k)].writable
        {
          assert k > 0 ==> l[k] == rest[k - 1] && Leader(rest, k - 1) <= k - 1;
        }
      }
      if RunsAgreeWith(w, l) {
        forall k {:trigger Leader(rest, k)} | 0 <= k < |rest| && rest[k].size > 0
          ensures rest[k].writable == if Leader(rest, k) == 0 then v else rest[Leader(rest, k)].writable
        {
          assert l[k + 1] == rest[k] && Leader(l, k + 1) <= k + 1;
        }
      }
    }
  }

  /** For page-multiple entries, loading the compacted list makes the same calls in the same order exactly if every
      non-empty entry agrees with the first entry of its run on being writable. */
  lemma CompactKeepsCallsIff(l: seq<Entry>)
    requires WholePages(l)
    ensures Calls(Compacted(l)) == Calls(l) <==> RunsAgree(l)
  {
    if l != [] {
      var w := l[0].writable;
      CompactedCalls(w, l);
      assert Flagged(w, Compacted(l)) == Compacted(l);
      SpreadCallsIff(w, l);
      FlagsSpreadIff(w, l);
    }
  }

  /** The same keys, mapped to the same memory. */
  ghost predicate SameFrames(t: Table, t': Table) {
    t'.Keys == t.Keys && forall p {:trigger t'[p]} :: p in t ==> t'[p].frame == t[p].frame
  }

  ghost predicate SamePages(a: seq<Call>, b: seq<Call>) {
    |a| == |b| && forall i {:trigger a[i]} {:trigger b[i]} :: 0 <= i < |a| ==>
      a[i].virtPage == b[i].virtPage && a[i].physPage == b[i].physPage
  }

  lemma {:induction false} SamePagesSameFrames(t: Table, a: seq<Call>, b: seq<Call>)
    requires SamePages(a, b)
    ensures SameFrames(Apply(t, a), Apply(t, b))
  {
    if a != [] {
      var n := |a| - 1;
      assert a[n].virtPage == b[n].virtPage && a[n].physPage == b[n].physPage;
      SamePagesSameFrames(t, a[..n], b[..n]);
    }
  }

  lemma {:induction false} SpreadKeepsPages(w: bool, l: seq<Entry>)
    ensures SamePages(Calls(l), Calls(Spread(w, l)))
    decreases l
  {
    if l != [] {
      SpreadKeepsPages(NextFlag(w, l), l[1..]);
      CallsOfFirst(l[0].(writable := w), Spread(NextFlag(w, l), l[1..]));
    }
  }

  /** Whatever the flags, loading the compacted list instead of the list leaves the same pages mapped to the same
      memory: where entries overlap, the last one in list order still wins. */
  lemma CompactKeepsTranslation(t: Table, l: seq<Entry>)
    requires WholePages(l)
    ensures SameFrames(Apply(t, Calls(l)), Apply(t, Calls(Compacted(l))))
  {
    if l != [] {
      var w := l[0].writable;
      CompactedCalls(w, l);
      assert Flagged(w, Compacted(l)) == Compacted(l);
      SpreadKeepsPages(w, l);
      SamePagesSameFrames(t, Calls(l), Calls(Spread(w, l)));
    }
  }

  // ----- The operations -----

  class Mapping {
    var entries: seq<Entry>

    constructor ()
      ensures entries == []
    {
      entries := [];
    }

    /** The newest entry comes first. */
    method Map(virtAddr: nat, physAddr: nat, size: nat, writable: bool, executable: bool)
      modifies this
      ensures entries == [Entry(virtAddr, physAddr, size, writable, executable)] + old(entries)
    {
      entries := [Entry(virtAddr, physAddr, size, writable, executable)] + entries;
    }

    /** Passes over the list, each merging an entry with its successor at most once, until nothing changes. */
    method Compact()
      modifies this
      ensures entries == Compacted(old(entries)) && NothingToMerge(entries)
    {
      ghost var was := entries;
      var compacted := true;
      while compacted
        invariant Compacted(entries) == Compacted(was)
        invariant !compacted ==> NothingToMerge(entries)
        decreases |entries|, compacted
      {
        compacted := false;
        ghost var before := entries;
        var k := 0;
        while k < |entries|
          invariant Compacted(entries) == Compacted(was)
          invariant if compacted then |entries| < |before| else entries == before
          invariant k <= |entries|
          invariant !compacted ==> forall j {:trigger entries[j]} :: 0 <= j < k && j < |entries| - 1 ==>
              !Mergeable(entries[j], entries[j + 1])
          decreases |entries| - k
        {
          if k + 1 < |entries| && Mergeable(entries[k], entries[k + 1]) {
            MergeIsConfluent(entries, k);
            entries := MergedAt(entries, k);
            compacted := true;
          }
          k := k + 1;
        }
      }
      CompactedIsFixed(entries);
    }
  }
}

/** Loading the mappings of a process into the page tables and taking them out again. */
module MappedProcess {
  import opened Wrappers
  import opened Machine
  import opened FreeList
  import opened PageTree
  import opened PageTable
  import P = ProcessMapping

  /** Addresses of 48 bits, which is what the page tables translate. */
  ghost predicate InRange(l: seq<P.Entry>) {
    forall i {:trigger l[i]} :: 0 <= i < |l| ==> l[i].virtAddr + l[i].size <= 0x1_0000_0000_0000
  }

  /** The options that load passes to map. */
  function LoadOption(writable: bool): PageOption { PageOption(writable, true, false, false) }

  /** The processor's entry for address v maps the page as asked for. */
  ghost predicate Leads(m: Memory, t: Tables, v: Word, leaf: P.Leaf) {
    && Path1(v) in t
    && Fields(Read(m, t[Path1(v)], Level1(v))) == LeafFields(LoadOption(leaf.writable), leaf.frame % 0x10_0000_0000)
  }

  ghost predicate AllLead(m: Memory, t: Tables, table: P.Table) {
    forall v: Word {:trigger PageNumber(v)} :: PageNumber(v) in table ==> Leads(m, t, v, table[PageNumber(v)])
  }

  /** From p0 to pages, the pages of the table are those that have been mapped, to the frames of the table. */
  ghost predicate Overrides(p0: map<nat, nat>, pages: map<nat, nat>, table: P.Table) {
    forall p {:trigger p in pages} :: if p in table then p in pages && pages[p] == table[p].frame % 0x10_0000_0000
                                      else (p in pages <==> p in p0) && (p in pages ==> pages[p] == p0[p])
  }

  ghost predicate NoBigAt(m: Memory, root: nat, pages: set<nat>) {
    forall v: Word {:trigger Walk(m, root, v)} :: PageNumber(v) in pages ==> !Walk(m, root, v).Huge?
  }

  /** What the calls have mapped is in the tables, and nothing else has changed. */
  ghost predicate Loaded(pt: PageTable, p0: map<nat, nat>, table: P.Table)
    reads pt, pt.ram, pt.allocator
  {
    AllLead(pt.ram.mem, pt.tables, table) && Overrides(p0, pt.pages, table)
  }

  lemma NothingLoaded(pt: PageTable)
    ensures Loaded(pt, pt.pages, map[])
  {
  }

  lemma OtherLeads(m: Memory, m': Memory, t: Tables, t': Tables, v: Word, w: Word, leaf: P.Leaf)
    requires Leads(m, t, w, leaf) && PageNumber(w) != PageNumber(v) && Path1(w) in t' && t'[Path1(w)] == t[Path1(w)]
    requires forall p, j: nat {:trigger Read(m', t[p], j)} ::
               p in t && Present(Read(m, t[p], j)) && !(p == Path1(v) && j == Level1(v))
               ==> Read(m', t[p], j) == Read(m, t[p], j)
    ensures Leads(m', t', w, leaf)
  {
    SamePageSameLevels(v, w);
    var word := Read(m, t[Path1(w)], Level1(w));
    assert Present(word) by {
      assert Fields(word).present;
    }
    assert Read(m', t[Path1(w)], Level1(w)) == word;
  }

  /** The entries of other pages keep their words when one page is mapped. */
  lemma OthersLead(m: Memory, m': Memory, t: Tables, t': Tables, v: Word, leaf: P.Leaf, table: P.Table)
    requires AllLead(m, t, table) && Leads(m', t', v, leaf)
    requires forall q {:trigger q in t'} :: q in t ==> q in t' && t'[q] == t[q]
    requires forall p, j: nat {:trigger Read(m', t[p], j)} ::
               p in t && Present(Read(m, t[p], j)) && !(p == Path1(v) && j == Level1(v))
               ==> Read(m', t[p], j) == Read(m, t[p], j)
    ensures AllLead(m', t', table[PageNumber(v) := leaf])
  {
    forall w: Word {:trigger PageNumber(w)} | PageNumber(w) in table[PageNumber(v) := leaf]
      ensures Leads(m', t', w, table[PageNumber(v) := leaf][PageNumber(w)])
    {
      SamePageSameLevels(v, w);
      if PageNumber(w) != PageNumber(v) {
        OtherLeads(m, m', t, t', v, w, table[PageNumber(w)]);
      } else {
        assert Path1(w) == Path1(v) && Level1(w) == Level1(v);
      }
    }
  }

  lemma NoBigAfterMap(m: Memory, m': Memory, root: nat, v: Word, ok: bool, frame: nat, pages: set<nat>)
    requires NoBigAt(m, root, pages)
    requires forall w: Word {:trigger Walk(m', root, w)} ::
               Walk(m', root, w) == if ok && PageNumber(w) == PageNumber(v) then Small(frame) else Walk(m, root, w)
    ensures NoBigAt(m', root, pages)
  {
  }

  /** One call of map in load. */
  method LoadPage(pt: PageTable, physical: nat, v: Word, writable: bool, ghost done: seq<P.Call>,
                  ghost p0: map<nat, nat>, ghost pages: set<nat>) returns (ok: bool)
    requires pt.Valid() && Loaded(pt, p0, P.Apply(map[], done))
    requires NoBigAt(pt.ram.mem, pt.root, pages) && PageNumber(v) in pages
    modifies pt, pt.ram, pt.allocator
    ensures pt.Valid() && NoBigAt(pt.ram.mem, pt.root, pages)
    ensures Taken(old(pt.allocator.nodes), pt.allocator.nodes, old(pt.tables), pt.tables)
    ensures ok ==> Loaded(pt, p0, P.Apply(map[], done + [P.Call(PageNumber(v), PageIndex(physical), writable)]))
    ensures !ok ==> |pt.allocator.nodes| <= 2
  {
    ghost var m, t, leaf := pt.ram.mem, pt.tables, P.Leaf(PageIndex(physical), writable);
    ok := pt.Map(physical, v, LoadOption(writable));
    NoBigAfterMap(m, pt.ram.mem, pt.root, v, ok, PageIndex(physical) % 0x10_0000_0000, pages);
    if ok {
      OthersLead(m, pt.ram.mem, t, pt.tables, v, leaf, P.Apply(map[], done));
      P.ApplyOne(map[], done, P.Call(PageNumber(v), PageIndex(physical), writable));
    }
  }

  lemma CallOfPage(e: P.Entry, n: nat)
    requires e.virtAddr + e.size <= 0x1_0000_0000_0000 && n * 0x1000 < e.size
    ensures var v: Word := e.virtAddr + n * 0x1000;
            P.CallAt(e, n) == P.Call(PageNumber(v), PageIndex(e.physAddr + n * 0x1000), e.writable)
  {
    PageIndexIsQuotient(e.physAddr + n * 0x1000);
  }

  lemma NextCall(e: P.Entry, n: nat)
    requires n * 0x1000 < e.size
    ensures n < |P.EntryCalls(e)| && P.EntryCalls(e)[..n + 1] == P.EntryCalls(e)[..n] + [P.CallAt(e, n)]
    ensures P.CallAt(e, n) in P.EntryCalls(e)
  {
    assert P.EntryCalls(e)[n] == P.CallAt(e, n);
  }

  lemma CallsEnd(e: P.Entry, n: nat)
    requires n <= |P.EntryCalls(e)| && e.size <= n * 0x1000
    ensures P.EntryCalls(e)[..n] == P.EntryCalls(e)
  {
  }

  /** The inner loop of load. */
  method LoadEntry(pt: PageTable, e: P.Entry, ghost done: seq<P.Call>, ghost p0: map<nat, nat>, ghost pages: set<nat>)
    returns (ok: bool)
    requires pt.Valid() && Loaded(pt, p0, P.Apply(map[], done)) && e.virtAddr + e.size <= 0x1_0000_0000_0000
    requires NoBigAt(pt.ram.mem, pt.root, pages) && P.PagesOf(P.EntryCalls(e)) <= pages
    modifies pt, pt.ram, pt.allocator
    ensures pt.Valid() && NoBigAt(pt.ram.mem, pt.root, pages)
    ensures Taken(old(pt.allocator.nodes), pt.allocator.nodes, old(pt.tables), pt.tables)
    ensures ok ==> Loaded(pt, p0, P.Apply(map[], done + P.EntryCalls(e)))
    ensures !ok ==> |pt.allocator.nodes| <= 2
  {
    ghost var n0, t0 := pt.allocator.nodes, pt.tables;
    NothingTaken(n0, t0);
    var i, n := 0, 0;
    assert done + P.EntryCalls(e)[..0] == done;
    while i < e.size
      invariant i == n * 0x1000 && n <= |P.EntryCalls(e)|
      invariant pt.Valid() && NoBigAt(pt.ram.mem, pt.root, pages) && Taken(n0, pt.allocator.nodes, t0, pt.tables)
      invariant Loaded(pt, p0, P.Apply(map[], done + P.EntryCalls(e)[..n]))
      decreases |P.EntryCalls(e)| - n
    {
      ok := LoadNext(pt, e, i, n, done, p0, pages, n0, t0);
      if !ok {
        return;
      }
      i := i + 0x1000;
      n := n + 1;
    }
    CallsEnd(e, n);
    return true;
  }

  /** One round of it. */
  method LoadNext(pt: PageTable, e: P.Entry, i: nat, n: nat, ghost done: seq<P.Call>, ghost p0: map<nat, nat>,
                  ghost pages: set<nat>, ghost n0: seq<Region>, ghost t0: Tables) returns (ok: bool)
    requires i == n * 0x1000 && i < e.size && e.virtAddr + e.size <= 0x1_0000_0000_0000
    requires n <= |P.EntryCalls(e)| && P.PagesOf(P.EntryCalls(e)) <= pages
    requires pt.Valid() && NoBigAt(pt.ram.mem, pt.root, pages) && Taken(n0, pt.allocator.nodes, t0, pt.tables)
    requires Loaded(pt, p0, P.Apply(map[], done + P.EntryCalls(e)[..n]))
    modifies pt, pt.ram, pt.allocator
    ensures pt.Valid() && NoBigAt(pt.ram.mem, pt.root, pages) && Taken(n0, pt.allocator.nodes, t0, pt.tables)
    ensures n < |P.EntryCalls(e)| && (ok ==> Loaded(pt, p0, P.Apply(map[], done + P.EntryCalls(e)[..n + 1])))
    ensures !ok ==> |pt.allocator.nodes| <= 2
  {
    ghost var before, nodes, tables := done + P.EntryCalls(e)[..n], pt.allocator.nodes, pt.tables;
    CallOfPage(e, n);
    NextCall(e, n);
    assert done + P.EntryCalls(e)[..n + 1] == before + [P.CallAt(e, n)];
    assert P.CallAt(e, n).virtPage in pages;
    ok := LoadPage(pt, e.physAddr + i, e.virtAddr + i, e.writable, before, p0, pages);
    TakenComposes(n0, nodes, pt.allocator.nodes, t0, tables, pt.tables);
  }

  lemma CallsOfRest(l: seq<P.Entry>, k: nat, done: seq<P.Call>)
    requires k < |l| && done + P.Calls(l[k..]) == P.Calls(l)
    ensures done + P.EntryCalls(l[k]) + P.Calls(l[k + 1..]) == P.Calls(l)
    ensures P.PagesOf(P.EntryCalls(l[k])) <= P.PagesOf(P.Calls(l))
  {
    assert l[k..][1..] == l[k + 1..];
    assert done + (P.EntryCalls(l[k]) + P.Calls(l[k + 1..])) == done + P.EntryCalls(l[k]) + P.Calls(l[k + 1..]);
    assert forall c :: c in P.EntryCalls(l[k]) ==> c in P.Calls(l);
  }

  /** Mapping::load: afterwards the page tables are overridden by the table that the list spells out, later entries
      winning, down to the writable bit of each entry; false when the kernel halts for want of a table. */
  method Load(pt: PageTable, l: seq<P.Entry>) returns (ok: bool)
    requires pt.Valid() && InRange(l) && NoBigAt(pt.ram.mem, pt.root, P.PagesOf(P.Calls(l)))
    modifies pt, pt.ram, pt.allocator
    ensures pt.Valid() && NoBigAt(pt.ram.mem, pt.root, P.PagesOf(P.Calls(l)))
    ensures Taken(old(pt.allocator.nodes), pt.allocator.nodes, old(pt.tables), pt.tables)
    ensures ok ==> Loaded(pt, old(pt.pages), P.Apply(map[], P.Calls(l)))
    ensures !ok ==> |pt.allocator.nodes| <= 2
  {
    ghost var n0, t0, p0, pages := pt.allocator.nodes, pt.tables, pt.pages, P.PagesOf(P.Calls(l));
    ghost var done: seq<P.Call> := [];
    NothingTaken(n0, t0);
    NothingLoaded(pt);
    for k := 0 to |l|
      invariant pt.Valid() && NoBigAt(pt.ram.mem, pt.root, pages) && Taken(n0, pt.allocator.nodes, t0, pt.tables)
      invariant Loaded(pt, p0, P.Apply(map[], done)) && done + P.Calls(l[k..]) == P.Calls(l)
    {
      ghost var nodes, tables := pt.allocator.nodes, pt.tables;
      CallsOfRest(l, k, done);
      ok := LoadEntry(pt, l[k], done, p0, pages);
      TakenComposes(n0, nodes, pt.allocator.nodes, t0, tables, pt.tables);
      if !ok {
        return;
      }
      done := done + P.EntryCalls(l[k]);
    }
    assert done + [] == done;
    return true;
  }

  /** One call of unmap in unload. */
  method UnloadPage(pt: PageTable, v: Word, ghost pages: set<nat>)
    requires pt.Valid() && NoBigAt(pt.ram.mem, pt.root, pages) && PageNumber(v) in pages
    modifies pt.ram, pt`pages
    ensures pt.Valid() && NoBigAt(pt.ram.mem, pt.root, pages) && pt.pages == old(pt.pages) - {PageNumber(v)}
  {
    ghost var m := pt.ram.mem;
    pt.Unmap(v);
    forall w: Word {:trigger Walk(pt.ram.mem, pt.root, w)} | PageNumber(w) in pages
      ensures !Walk(pt.ram.mem, pt.root, w).Huge?
    {
      assert !Walk(m, pt.root, w).Huge?;
    }
  }

  lemma PagesOfNext(calls: seq<P.Call>, c: P.Call)
    ensures P.PagesOf(calls + [c]) == P.PagesOf(calls) + {c.virtPage}
  {
    P.PagesOfBoth(calls, [c]);
    assert P.PagesOf([c]) == {c.virtPage};
  }

  lemma TakenAway(pages: map<nat, nat>, a: set<nat>, x: nat)
    ensures pages - a - {x} == pages - (a + {x})
  {
  }

  /** The inner loop of unload. */
  method UnloadEntry(pt: PageTable, e: P.Entry, ghost pages: set<nat>)
    requires pt.Valid() && e.virtAddr + e.size <= 0x1_0000_0000_0000
    requires NoBigAt(pt.ram.mem, pt.root, pages) && P.PagesOf(P.EntryCalls(e)) <= pages
    modifies pt.ram, pt`pages
    ensures pt.Valid() && NoBigAt(pt.ram.mem, pt.root, pages)
    ensures pt.pages == old(pt.pages) - P.PagesOf(P.EntryCalls(e))
  {
    var i, n := 0, 0;
    while i < e.size
      invariant i == n * 0x1000 && n <= |P.EntryCalls(e)|
      invariant pt.Valid() && NoBigAt(pt.ram.mem, pt.root, pages)
      invariant pt.pages == old(pt.pages) - P.PagesOf(P.EntryCalls(e)[..n])
      decreases |P.EntryCalls(e)| - n
    {
      CallOfPage(e, n);
      NextCall(e, n);
      PagesOfNext(P.EntryCalls(e)[..n], P.CallAt(e, n));
      assert P.CallAt(e, n).virtPage in pages;
      TakenAway(old(pt.pages), P.PagesOf(P.EntryCalls(e)[..n]), P.CallAt(e, n).virtPage);
      UnloadPage(pt, e.virtAddr + i, pages);
      i := i + 0x1000;
      n := n + 1;
    }
    CallsEnd(e, n);
  }

  /** Mapping::unload: exactly the pages of the list are unmapped. */
  method Unload(pt: PageTable, l: seq<P.Entry>)
    requires pt.Valid() && InRange(l) && NoBigAt(pt.ram.mem, pt.root, P.PagesOf(P.Calls(l)))
    modifies pt.ram, pt`pages
    ensures pt.Valid() && pt.pages == old(pt.pages) - P.PagesOf(P.Calls(l))
  {
    ghost var pages, done: seq<P.Call> := P.PagesOf(P.Calls(l)), [];
    for k := 0 to |l|
      invariant pt.Valid() && NoBigAt(pt.ram.mem, pt.root, pages)
      invariant pt.pages == old(pt.pages) - P.PagesOf(done) && done + P.Calls(l[k..]) == P.Calls(l)
    {
      CallsOfRest(l, k, done);
      P.PagesOfBoth(done, P.EntryCalls(l[k]));
      UnloadEntry(pt, l[k], pages);
      done := done + P.EntryCalls(l[k]);
    }
    assert done + [] == done;
  }

  /** Loading and then unloading leaves no page of the list mapped and every other page as it was. */
  method LoadAndUnload(pt: PageTable, l: seq<P.Entry>) returns (ok: bool)
    requires pt.Valid() && InRange(l) && NoBigAt(pt.ram.mem, pt.root, P.PagesOf(P.Calls(l)))
    modifies pt, pt.ram, pt.allocator
    ensures pt.Valid() && (ok ==> pt.pages == old(pt.pages) - P.PagesOf(P.Calls(l)))
    ensures !ok ==> |pt.allocator.nodes| <= 2
  {
    ghost var p0 := pt.pages;
    ok := Load(pt, l);
    if ok {
      P.ApplyChangesOnlyPages(map[], P.Calls(l));
      Unload(pt, l);
    }
  }

  lemma SameFramesOverride(p0: map<nat, nat>, pages: map<nat, nat>, t: P.Table, t': P.Table)
    requires P.SameFrames(t, t') && Overrides(p0, pages, t')
    ensures Overrides(p0, pages, t)
  {
  }

  lemma CompactedInRange(l: seq<P.Entry>)
    requires InRange(l)
    ensures InRange(P.Compacted(l))
  {
    if |l| > 1 {
      assert forall i {:trigger l[1..][i]} :: 0 <= i < |l| - 1 ==> l[1..][i] == l[i + 1];
      CompactedInRange(l[1..]);
    }
  }

  /** Compacting first makes no difference to what is mapped where. */
  method CompactAndLoad(pt: PageTable, m: P.Mapping) returns (ok: bool)
    requires pt.Valid() && InRange(m.entries) && NoBigAt(pt.ram.mem, pt.root, P.PagesOf(P.Calls(m.entries)))
    requires P.WholePages(m.entries)
    modifies pt, pt.ram, pt.allocator, m
    ensures pt.Valid() && (ok ==> Overrides(old(pt.pages), pt.pages, P.Apply(map[], P.Calls(old(m.entries)))))
    ensures !ok ==> |pt.allocator.nodes| <= 2
  {
    ghost var l, l' := m.entries, P.Compacted(m.entries);
    P.CompactKeepsTranslation(map[], l);
    P.ApplyChangesOnlyPages(map[], P.Calls(l));
    P.ApplyChangesOnlyPages(map[], P.Calls(l'));
    CompactedInRange(l);
    m.Compact();
    ghost var p0 := pt.pages;
    ok := Load(pt, m.entries);
    if ok {
      SameFramesOverride(p0, pt.pages, P.Apply(map[], P.Calls(l)), P.Apply(map[], P.Calls(l')));
    }
  }
}

/** The page tables: entries are written in place in physical memory, tables come from the
    allocator and are reached through the window at 96 Ti. */
module PageTable {
  import opened Wrappers
  import opened Machine
  import opened FreeList
  import opened FreeListRelease
  import opened PageTree
  import opened PhysicalAllocator

  datatype PageOption = PageOption(writeEnable: bool, userAvailable: bool, writeThrough: bool, cacheDisable: bool)

  lemma FrameOfAddress(page: nat)
    ensures Frame(PageAddress(page)) == page % 0x10_0000_0000
  {
    PageAddressIsProduct(page);
    assert page * 0x1000 / 0x1000 == page;
  }

  lemma FrameOfBigPage(i: nat)
    requires i < 512
    ensures Frame(0x4000_0000 * i) == i * 0x4_0000
  {
    assert 0x4000_0000 * i / 0x1000 == 0x4_0000 * i;
  }

  /** The fields of an entry that links a table. */
  function LinkFields(frame: nat): Entry {
    Entry(true, true, true, false, false, false, false, false, false, 0, frame, 0, 0, 0, false)
  }

  lemma AddressField(page: nat)
    requires page < 0x10_0000_0000
    ensures Fields(PageAddress(page)).encAddress == page
  {
    PageAddressIsProduct(page);
    FrameOfProduct(page, PageAddress(page));
    FrameIsField(PageAddress(page));
  }

  lemma FrameIsField(w: nat)
    ensures Fields(w).encAddress == Frame(w)
  {
  }

  lemma FrameOfProduct(page: nat, a: nat)
    requires page < 0x10_0000_0000 && a == 0x1000 * page
    ensures Frame(a) == page
  {
    assert a / 0x1000 == page;
  }

  lemma PointsByFields(raw: nat, page: nat)
    requires Fields(raw) == LinkFields(page)
    ensures PointsTo(raw, page)
  {
    assert Fields(raw).present && !Fields(raw).bigPage && Fields(raw).encAddress == page;
  }

  /** The fields of an entry that maps a page; execute-disable is always cleared. */
  function LeafFields(option: PageOption, frame: nat): Entry {
    Entry(true, option.writeEnable, option.userAvailable, option.writeThrough, option.cacheDisable,
          false, false, false, false, 0, frame, 0, 0, 0, false)
  }

  /** The fields of a window entry. */
  function WindowFields(i: nat): Entry {
    Entry(true, true, false, true, true, false, false, true, false, 0, i * 0x4_0000, 0, 0, 0, false)
  }

  /** p is a table of t' that t has not. */
  ghost predicate NewTable(t: Tables, t': Tables, p: int) {
    exists q :: q in t' && q !in t && t'[q] == p
  }

  /** Tables stay where they are, and exactly the new ones have been taken from the free pages, whose list keeps its
      sentinel and its order. */
  ghost predicate Taken(nodes: seq<Region>, nodes': seq<Region>, t: Tables, t': Tables) {
    && (forall q {:trigger q in t'} :: q in t ==> q in t' && t'[q] == t[q])
    && (forall p {:trigger Free(nodes, p)} {:trigger Free(nodes', p)} ::
          Free(nodes, p) <==> Free(nodes', p) || NewTable(t, t', p))
    && (forall p {:trigger NewTable(t, t', p)} :: !(Free(nodes', p) && NewTable(t, t', p)))
    && StaysInOrder(nodes, nodes')
  }

  lemma NewTableComposes(t: Tables, t1: Tables, t2: Tables, p: int)
    requires forall q {:trigger q in t1} :: q in t ==> q in t1 && t1[q] == t[q]
    requires forall q {:trigger q in t2} :: q in t1 ==> q in t2 && t2[q] == t1[q]
    ensures NewTable(t, t2, p) <==> NewTable(t, t1, p) || NewTable(t1, t2, p)
  {
    if NewTable(t, t1, p) {
      var q :| q in t1 && q !in t && t1[q] == p;
      assert q in t2;
    }
    if NewTable(t1, t2, p) {
      var q :| q in t2 && q !in t1 && t2[q] == p;
      assert q !in t;
    }
  }

  lemma TableIsOldOrNew(t: Tables, t': Tables, p: int)
    requires forall q {:trigger q in t'} :: q in t ==> q in t' && t'[q] == t[q]
    ensures p in t'.Values ==> p in t.Values || NewTable(t, t', p)
  {
    if p in t'.Values {
      var q :| q in t' && t'[q] == p;
      if q in t {
        assert t[q] in t.Values;
      }
    }
  }

  lemma TakenComposes(n: seq<Region>, n1: seq<Region>, n2: seq<Region>, t: Tables, t1: Tables, t2: Tables)
    requires Taken(n, n1, t, t1) && Taken(n1, n2, t1, t2)
    ensures Taken(n, n2, t, t2)
  {
    forall p
      ensures NewTable(t, t2, p) <==> NewTable(t, t1, p) || NewTable(t1, t2, p)
    {
      NewTableComposes(t, t1, t2, p);
    }
  }

  lemma NothingTaken(n: seq<Region>, t: Tables)
    ensures Taken(n, n, t, t)
  {
  }

  lemma OneTaken(n: seq<Region>, n': seq<Region>, t: Tables, p: Path, frame: nat)
    requires p !in t && Free(n, frame) && !Free(n', frame) && StaysInOrder(n, n')
    requires forall q {:trigger Free(n', q)} :: Free(n', q) <==> Free(n, q) && q != frame
    ensures Taken(n, n', t, t[p := frame])
  {
    var t' := t[p := frame];
    assert p in t' && t'[p] == frame;
    forall q
      ensures NewTable(t, t', q) <==> q == frame
    {
    }
  }

  /** Present entries of the tables are as before. */
  ghost predicate KeepsEntries(m: Memory, m': Memory, t: Tables) {
    forall p, j: nat {:trigger Read(m', t[p], j)} {:trigger Read(m, t[p], j)} ::
      p in t && Present(Read(m, t[p], j)) ==> Read(m', t[p], j) == Read(m, t[p], j)
  }

  lemma AgreeKeepsEntries(m: Memory, m': Memory, t: Tables)
    requires forall p {:trigger Agree(m, m', t[p])} :: p in t ==> Agree(m, m', t[p])
    ensures KeepsEntries(m, m', t)
  {
    forall p, j: nat | p in t
      ensures Read(m', t[p], j) == Read(m, t[p], j)
    {
      assert Agree(m, m', t[p]);
    }
  }

  lemma ClearKeepsEntries(m: Memory, frame: nat, t: Tables)
    requires frame !in t.Values
    ensures KeepsEntries(m, Clear(m, frame), t)
  {
    assert forall p :: p in t ==> t[p] in t.Values;
  }

  lemma EntriesStayKept(m: Memory, m1: Memory, m2: Memory, t: Tables, t1: Tables)
    requires KeepsEntries(m, m1, t) && KeepsEntries(m1, m2, t1)
    requires forall q {:trigger q in t1} :: q in t ==> q in t1 && t1[q] == t[q]
    ensures KeepsEntries(m, m2, t)
  {
    forall p, j: nat | p in t && Present(Read(m, t[p], j))
      ensures Read(m2, t[p], j) == Read(m, t[p], j)
    {
      assert p in t1 && Read(m1, t1[p], j) == Read(m, t[p], j);
    }
  }

  /** One word has changed: it has lost its present bit and kept every other field. */
  ghost predicate ClearedAt(m: Memory, m': Memory, page: nat, index: nat) {
    && Fields(Read(m', page, index)) == Fields(Read(m, page, index)).(present := false)
    && (forall q: nat, j: nat {:trigger Read(m', q, j)} :: !(q == page && j == index) ==>
        Read(m', q, j) == Read(m, q, j))
  }

  /** The entry that links a table: the raw address, then every field. */
  method LinkEntry(physical: nat, ghost page: nat) returns (raw: nat)
    requires physical == PageAddress(page) && page < 0x10_0000_0000
    ensures PointsTo(raw, page) && Fields(raw) == LinkFields(page)
  {
    var entry := Fields(physical);
    entry := entry.(present := true, executeDisable := false, writeEnable := true, userModeEnable := true);
    entry := entry.(writeThrough := false, cacheDisable := false, dirty := false, accessed := false, bigPage := false);
    entry := entry.(zero := 0, global := false, available1 := 0, available2 := 0, protectionKey := 0);
    AddressField(page);
    raw := Encode(entry);
    PointsByFields(raw, page);
  }

  /** The entry that maps a page: the page address, then every field; execute-disable is always cleared. */
  method LeafEntry(physicalAddress: nat, option: PageOption) returns (raw: nat)
    ensures LeafView(raw) == Small(PageIndex(physicalAddress) % 0x10_0000_0000)
    ensures Fields(raw) == LeafFields(option, PageIndex(physicalAddress) % 0x10_0000_0000)
  {
    var entry := Fields(PageAddress(PageIndex(physicalAddress)));
    entry := entry.(writeEnable := option.writeEnable, userModeEnable := option.userAvailable);
    entry := entry.(writeThrough := option.writeThrough, cacheDisable := option.cacheDisable, executeDisable := false);
    entry := entry.(present := true, dirty := false, accessed := false, bigPage := false, global := false);
    entry := entry.(zero := 0, available1 := 0, protectionKey := 0, available2 := 0);
    FrameOfAddress(PageIndex(physicalAddress));
    raw := Encode(entry);
  }

  /** Clearing the present bit of an entry leaves every other field. */
  method ClearPresent(word: nat) returns (raw: nat)
    ensures !Present(raw) && BigPage(raw) == BigPage(word) && Frame(raw) == Frame(word)
    ensures Fields(raw) == Fields(word).(present := false)
  {
    raw := Encode(Fields(word).(present := false));
  }

  /** How the kernel addresses a page: physically during init, through the window afterwards. */
  predicate PointsAt(pointer: Word, page: nat, inInit: bool) {
    pointer == (if inInit then 0 else 0x6000_0000_0000) + PageAddress(page)
  }

  /** The boot tables map the page to itself. */
  predicate Identity(m: Memory, root: nat, page: nat) {
    page < 0x800_0000 && PageAddress(page) < 0x80_0000_0000
    && CpuTranslate(m, root, PageAddress(page)) == Some(PageAddress(page))
  }

  /** The window pointer of a page below 512 Gi, where mapPages would halt. */
  method MapPages(physicalAddress: nat, ghost page: nat) returns (pointer: Word)
    requires physicalAddress == PageAddress(page) && page < 0x800_0000
    ensures PointsAt(pointer, page, false)
  {
    PageAddressIsProduct(page);
    pointer := physicalAddress + 0x2000_0000_0000 + 0x4000_0000_0000;
  }

  /** The page that the processor reaches through a pointer. */
  method Dereference(m: Memory, root: nat, pointer: Word, inInit: bool, ghost page: nat) returns (target: nat)
    requires PointsAt(pointer, page, inInit) && page < 0x800_0000
    requires if inInit then Identity(m, root, page) else Window(m, root)
    ensures target == page
  {
    if !inInit {
      PageAddressIsProduct(page);
      WindowIsIdentity(m, root, PageAddress(page));
    }
    target := PageIndex(CpuTranslate(m, root, pointer).value);
  }

  /** The entry of the window for the 1 GiB page i: init assigns all fields but one. */
  method BigEntry1Gi(i: nat) returns (raw: nat)
    requires i < 512
    ensures WindowEntry(raw, i) && Fields(raw) == WindowFields(i)
  {
    var entry := Fields(0x4000_0000 * i);
    entry := entry.(bigPage := true, present := true, writeEnable := true, userModeEnable := false);
    entry := entry.(writeThrough := true, cacheDisable := true, dirty := false, accessed := false, global := false);
    entry := entry.(available1 := 0, available2 := 0, protectionKey := 0, executeDisable := false);
    FrameOfBigPage(i);
    raw := Encode(entry);
  }

  class PageTable {
    const ram: Ram
    const allocator: Allocator
    /** The page that cr3 points at. */
    const root: nat
    var virtualLevel4Address: Word
    var inInit: bool
    /** Every table and its place in the tree. */
    ghost var tables: Tables
    /** The finite map from page numbers to frames that the tables implement. */
    ghost var pages: map<nat, nat>

    /** No table is page 0 or free, and mapPages reaches all of them. */
    ghost predicate TablesInUse()
      reads this, allocator
    {
      forall p {:trigger tables[p]} :: p in tables ==> 1 <= tables[p] < 0x800_0000 && !Free(allocator.nodes, tables[p])
    }

    /** Walks that meet no big page find exactly the pages of the map. */
    ghost predicate Implements()
      reads this, ram
    {
      forall v: Word {:trigger Walk(ram.mem, root, v)} ::
        match Walk(ram.mem, root, v)
        case Small(frame) => PageNumber(v) in pages && pages[PageNumber(v)] == frame
        case _ => PageNumber(v) !in pages
    }

    /** The tree can be read in the current mode. */
    ghost predicate Readable()
      reads this, ram
    {
      && IsTree(ram.mem, root, tables)
      && (forall p {:trigger tables[p]} :: p in tables ==>
            tables[p] < 0x800_0000 && (inInit ==> Identity(ram.mem, root, tables[p])))
      && (!inInit ==> Window(ram.mem, root) && PointsAt(virtualLevel4Address, root, false))
    }

    ghost predicate Valid()
      reads this, ram, allocator
    {
      && allocator.ram == ram && allocator.Valid()
      && !inInit && PointsAt(virtualLevel4Address, root, false)
      && IsTree(ram.mem, root, tables) && Window(ram.mem, root) && TablesInUse() && Implements()
    }

    constructor (ram: Ram, allocator: Allocator, root: nat)
      ensures this.ram == ram && this.allocator == allocator && this.root == root
    {
      this.ram := ram;
      this.allocator := allocator;
      this.root := root;
      virtualLevel4Address := 0;
      inInit := false;
      tables := map[];
      pages := map[];
    }

    /** cr3 during init, its window address afterwards. */
    method GetLevel4Page() returns (pointer: Word)
      requires Readable()
      ensures PointsAt(pointer, root, inInit)
    {
      assert tables[Root] == root;
      pointer := if inInit then PageAddress(root) else virtualLevel4Address;
    }

    /** init: links the first buffer page at level-4 entry 192 and fills it with 512 pages of 1 GiB.
        The boot tables map themselves and the buffer. */
    method Init(buffer: Word, ghost boot: Tables, ghost b: nat)
      requires IsTree(ram.mem, root, boot) && (forall p {:trigger boot[p]} :: p in boot ==>
          Identity(ram.mem, root, boot[p]))
      requires !Present(Read(ram.mem, root, 192)) && b !in boot.Values && b < 0x800_0000
      requires CpuTranslate(ram.mem, root, buffer) == Some(PageAddress(b))
      requires var e := BigEntry(ram.mem, root, buffer); e.Some? ==> Frame(e.value.0) % (e.value.1 / 0x1000) == 0
      modifies ram, this
      ensures Readable() && Implements() && !inInit && tables == boot[Child(Root, 192) := b]
      ensures SameButWindow(old(ram.mem), ram.mem, root, b)
      ensures forall v: Word {:trigger Walk(ram.mem, root, v)} :: Level4(v) != 192 ==>
          Walk(ram.mem, root, v) == Walk(old(ram.mem), root, v)
    {
      hide CpuTranslate, Lookup, Fields, SameButWindow, SmallPages;
      ghost var m := ram.mem;
      inInit := true;
      tables := boot;
      assert boot[Root] == root;
      virtualLevel4Address := WindowPointer();
      var level4Page := GetLevel4Page();
      var level3Page := LinkWindowTable(level4Page, buffer, b);
      FillWindow(level3Page, m, b);
      inInit := false;
      WindowTree(m, ram.mem, root, boot, b);
      tables := boot[Child(Root, 192) := b];
      pages := SmallPages(ram.mem, root);
      InitKeepsWalks(m, ram.mem, boot, b);
    }

    method WindowPointer() returns (pointer: Word)
      requires root < 0x800_0000
      ensures PointsAt(pointer, root, false)
    {
      PageAddressIsProduct(root);
      pointer := PageAddress(root) + 0x6000_0000_0000;
    }

    /** The loop of init over the 512 entries of the window table. */
    method FillWindow(level3Page: Word, ghost m: Memory, ghost b: nat)
      requires IsTree(m, root, tables) && b !in tables.Values && !Present(Read(m, root, 192))
      requires SameButWindow(m, ram.mem, root, b) && PointsTo(Read(ram.mem, root, 192), b)
      requires CpuTranslate(m, root, level3Page) == Some(PageAddress(b))
      modifies ram
      ensures SameButWindow(m, ram.mem, root, b) && PointsTo(Read(ram.mem, root, 192), b)
      ensures forall j: nat {:trigger Read(ram.mem, b, j)} :: j < 512 ==> WindowEntry(Read(ram.mem, b, j), j)
    {
      assert tables[Root] == root && root in tables.Values;
      for i := 0 to 512
        invariant SameButWindow(m, ram.mem, root, b) && PointsTo(Read(ram.mem, root, 192), b)
        invariant forall j: nat {:trigger Read(ram.mem, b, j)} :: j < i ==> WindowEntry(Read(ram.mem, b, j), j)
      {
        OtherWalks(m, ram.mem, root, tables, b, level3Page);
        var target := Reached(level3Page, b);
        var entry := BigEntry1Gi(i);
        ram.mem := Write(ram.mem, target, i, entry);
      }
    }

    lemma InitKeepsWalks(m: Memory, m': Memory, boot: Tables, b: nat)
      requires IsTree(m, root, boot) && b !in boot.Values && SameButWindow(m, m', root, b)
      ensures forall v: Word {:trigger Walk(m', root, v)} :: Level4(v) != 192 ==> Walk(m', root, v) == Walk(m, root, v)
      ensures forall v: Word {:trigger Walk(m', root, v)} ::
                match Walk(m', root, v)
                case Small(frame) => PageNumber(v) in SmallPages(m', root)
                    && SmallPages(m', root)[PageNumber(v)] == frame
                case _ => PageNumber(v) !in SmallPages(m', root)
    {
      forall v: Word {:trigger Walk(m', root, v)}
        ensures Level4(v) != 192 ==> Walk(m', root, v) == Walk(m, root, v)
      {
        if Level4(v) != 192 {
          OtherWalks(m, m', root, boot, b, v);
        }
      }
      forall v: Word {:trigger Walk(m', root, v)}
        ensures match Walk(m', root, v)
                case Small(frame) => PageNumber(v) in SmallPages(m', root)
                    && SmallPages(m', root)[PageNumber(v)] == frame
                case _ => PageNumber(v) !in SmallPages(m', root)
      {
        SmallPagesImplemented(m', root, v);
      }
    }

    /** The page behind a pointer the processor translates. */
    method Reached(pointer: Word, ghost page: nat) returns (target: nat)
      requires CpuTranslate(ram.mem, root, pointer) == Some(PageAddress(page))
      ensures target == page
    {
      target := PageIndex(CpuTranslate(ram.mem, root, pointer).value);
    }

    /** getLinkedPage during init on the empty level-4 entry of the window. */
    method LinkWindowTable(level4Page: Word, buffer: Word, ghost b: nat) returns (page: Word)
      requires Readable() && inInit && PointsAt(level4Page, root, true)
      requires !Present(Read(ram.mem, root, 192)) && b !in tables.Values && b < 0x800_0000
      requires CpuTranslate(ram.mem, root, buffer) == Some(PageAddress(b))
      requires var e := BigEntry(ram.mem, root, buffer); e.Some? ==> Frame(e.value.0) % (e.value.1 / 0x1000) == 0
      modifies ram
      ensures page == buffer && SameButWindow(old(ram.mem), ram.mem, root, b) && PointsTo(Read(ram.mem, root, 192), b)
    {
      ghost var m := ram.mem;
      assert tables[Root] == root && root in tables.Values;
      page := buffer;
      var target := Reached(page, b);
      ram.mem := Clear(ram.mem, target);
      BufferStaysReadable(m, ram.mem, buffer, b);
      var physical := GetPhysicalAddress(page);
      target := Reached(page, b);
      ram.mem := Clear(ram.mem, target);
      BufferStaysReadable(m, ram.mem, buffer, b);
      var word := LinkEntry(physical, b);
      target := Dereference(ram.mem, root, level4Page, true, root);
      ram.mem := Write(ram.mem, target, 192, word);
    }

    /** Writes to page b change no table: the tree stays readable and the buffer stays where it is. */
    lemma BufferStaysReadable(m: Memory, m': Memory, buffer: Word, b: nat)
      requires IsTree(m, root, tables) && b !in tables.Values && SameButWindow(m, m', root, b)
          && Read(m', root, 192) == Read(m, root, 192)
      requires !Present(Read(m, root, 192)) && (forall p {:trigger tables[p]} :: p in tables ==>
          Identity(m, root, tables[p]))
      requires CpuTranslate(m, root, buffer) == Some(PageAddress(b))
      requires var e := BigEntry(m, root, buffer); e.Some? ==> Frame(e.value.0) % (e.value.1 / 0x1000) == 0
      ensures IsTree(m', root, tables) && (forall p {:trigger tables[p]} :: p in tables ==>
          Identity(m', root, tables[p]))
      ensures CpuTranslate(m', root, buffer) == Some(PageAddress(b)) && Lookup(m', root, buffer) == PageAddress(b)
    {
      forall p | p in tables
        ensures Agree(m, m', tables[p])
      {
        assert tables[p] in tables.Values;
      }
      TreeFrame(m, m', root, tables);
      forall p {:trigger tables[p]} | p in tables
        ensures Identity(m', root, tables[p])
      {
        assert Identity(m, root, tables[p]);
        OtherWalks(m, m', root, tables, b, PageAddress(tables[p]));
      }
      OtherWalks(m, m', root, tables, b, buffer);
      LookupAgreesWithCpuIff(m, root, buffer);
    }

    /** The word at an index of a table reached by its pointer. */
    method Load(table: Word, index: nat, ghost p: Path) returns (entry: nat)
      requires Readable() && p in tables && PointsAt(table, tables[p], inInit)
      ensures entry == Read(ram.mem, tables[p], index)
    {
      var target := Dereference(ram.mem, root, table, inInit, tables[p]);
      entry := Read(ram.mem, target, index);
    }

    /** getLinkedPage without allocating: the pointer to the linked table, or None. */
    method LinkedPage(table: Word, index: nat, ghost p: Path) returns (page: Option<Word>)
      requires Readable() && p in tables && p.Depth() < 3 && index < 512 && PointsAt(table, tables[p], inInit)
      requires p != Root && Present(Read(ram.mem, tables[p], index)) ==> !BigPage(Read(ram.mem, tables[p], index))
      ensures page.Some? <==> Present(Read(ram.mem, tables[p], index))
      ensures page.Some? ==> Child(p, index) in tables && PointsAt(page.value, tables[Child(p, index)], inInit)
    {
      var entry := Load(table, index, p);
      if Present(entry) {
        assert Links(ram.mem, tables, p, index);
        assert Child(p, index) in tables && Hangs(ram.mem, tables, Child(p, index));
        ghost var linked := tables[Child(p, index)];
        if inInit {
          return Some(PageAddress(Frame(entry)));
        }
        var pointer := MapPages(PageAddress(Frame(entry)), Frame(entry));
        return Some(pointer);
      } else {
        return None;
      }
    }

    method GetPhysicalAddress(virtualAddress: Word) returns (physical: nat)
      requires Readable()
      ensures physical == Lookup(ram.mem, root, virtualAddress)
    {
      var level4Page := GetLevel4Page();
      WalkTables(ram.mem, root, tables, virtualAddress);
      var level3Page := LinkedPage(level4Page, Level4(virtualAddress), Root);
      if level3Page.None? { return 0; }
      var entry3 := Load(level3Page.value, Level3(virtualAddress), Path3(virtualAddress));
      if BigPage(entry3) {
        return Or(Or(Or(0x1000 * Frame(entry3), InPage(virtualAddress)), 0x20_0000 * Level2(virtualAddress)),
            0x1000 * Level1(virtualAddress));
      }
      var level2Page := LinkedPage(level3Page.value, Level3(virtualAddress), Path3(virtualAddress));
      if level2Page.None? { return 0; }
      var entry2 := Load(level2Page.value, Level2(virtualAddress), Path2(virtualAddress));
      if BigPage(entry2) {
        return Or(Or(0x1000 * Frame(entry2), InPage(virtualAddress)), 0x1000 * Level1(virtualAddress));
      }
      var level1Page := LinkedPage(level2Page.value, Level2(virtualAddress), Path2(virtualAddress));
      if level1Page.None? { return 0; }
      var entry1 := Load(level1Page.value, Level1(virtualAddress), Path1(virtualAddress));
      if Present(entry1) {
        return Or(0x1000 * Frame(entry1), InPage(virtualAddress));
      }
      return 0;
    }

    /** getPhysicalAddress of a window pointer finds the page behind it. */
    method PhysicalBehind(pointer: Word, ghost page: nat) returns (physical: nat)
      requires Valid() && PointsAt(pointer, page, false) && page < 0x800_0000
      ensures physical == PageAddress(page)
    {
      PageAddressIsProduct(page);
      WindowIsIdentity(ram.mem, root, PageAddress(page));
      physical := GetPhysicalAddress(pointer);
    }

    /** Writes to pages that are no table keep the tree, the window and every walk. */
    lemma TablesUntouched(m: Memory, m': Memory)
      requires IsTree(m, root, tables) && Window(m, root) && (forall p :: p in tables ==> Agree(m, m', tables[p]))
      ensures IsTree(m', root, tables) && Window(m', root)
      ensures forall v: Word {:trigger Walk(m', root, v)} :: Walk(m', root, v) == Walk(m, root, v)
    {
      TreeFrame(m, m', root, tables);
      WindowFrame(m, m', root, tables);
      forall v: Word {:trigger Walk(m', root, v)}
        ensures Walk(m', root, v) == Walk(m, root, v)
      {
        WalkFrame(m, m', root, tables, v);
      }
    }

    /** One page from the allocator; None when the kernel halts. */
    method FreshFrame() returns (address: Option<nat>, ghost frame: nat)
      requires Valid()
      modifies ram, allocator
      ensures Valid()
      ensures forall v: Word {:trigger Walk(ram.mem, root, v)} :: Walk(ram.mem, root, v) == Walk(old(ram.mem), root, v)
      ensures forall p :: p in tables ==> Agree(old(ram.mem), ram.mem, tables[p])
      ensures address.None? ==> allocator.nodes == old(allocator.nodes) && |allocator.nodes| <= 2
      ensures address.Some? ==>
                && address.value == PageAddress(frame) && 1 <= frame < 0x800_0000
                && (forall q {:trigger Free(allocator.nodes, q)} :: Free(allocator.nodes, q) <==>
                    Free(old(allocator.nodes), q) && q != frame)
                && Free(old(allocator.nodes), frame) && frame !in tables.Values
                && StaysInOrder(old(allocator.nodes), allocator.nodes)
    {
      ghost var nodes, m := allocator.nodes, ram.mem;
      address := allocator.AllocatePhysicalMemory(1);
      forall p | p in tables
        ensures Agree(m, ram.mem, tables[p])
      {
      }
      TablesUntouched(m, ram.mem);
      frame := 0;
      assert |nodes| > 2 ==> nodes[1].count >= 1;
      if address.Some? {
        ghost var k := FirstFit(nodes, 1, 1);
        frame := Granted(nodes, k, 1).start;
        forall q
          ensures Free(allocator.nodes, q) <==> Free(nodes, q) && q != frame
        {
          GrantIsSetMinus(nodes, k, 1, q);
        }
        GrantIsSetMinus(nodes, k, 1, frame);
        GrantStaysInOrder(nodes, k, 1);
      }
    }

    /** allocatePage: a zeroed page from the allocator, as a window pointer. */
    method AllocatePage() returns (page: Option<Word>, ghost frame: nat)
      requires Valid()
      modifies ram, allocator
      ensures Valid()
      ensures forall v: Word {:trigger Walk(ram.mem, root, v)} :: Walk(ram.mem, root, v) == Walk(old(ram.mem), root, v)
      ensures forall p :: p in tables ==> Agree(old(ram.mem), ram.mem, tables[p])
      ensures page.None? ==> allocator.nodes == old(allocator.nodes) && |allocator.nodes| <= 2
      ensures page.Some? ==>
                && Zeroed(ram.mem, frame)
                && 1 <= frame < 0x800_0000 && PointsAt(page.value, frame, false)
                && (forall q {:trigger Free(allocator.nodes, q)} :: Free(allocator.nodes, q) <==>
                    Free(old(allocator.nodes), q) && q != frame)
                && Free(old(allocator.nodes), frame) && !Free(allocator.nodes, frame) && frame !in tables.Values
                && StaysInOrder(old(allocator.nodes), allocator.nodes)
    {
      var address;
      address, frame := FreshFrame();
      if address.None? {
        return None, frame;
      }
      var pointer := MapPages(address.value, frame);
      var target := Dereference(ram.mem, root, pointer, false, frame);
      ClearFrame(target);
      return Some(pointer), frame;
    }

    /** memset of a page that is neither free nor a table. */
    method ClearFrame(frame: nat)
      requires Valid() && 1 <= frame && !Free(allocator.nodes, frame) && frame !in tables.Values
      modifies ram
      ensures Valid() && ram.mem == Clear(old(ram.mem), frame)
      ensures forall v: Word {:trigger Walk(ram.mem, root, v)} :: Walk(ram.mem, root, v) == Walk(old(ram.mem), root, v)
    {
      ghost var m := ram.mem;
      ram.mem := Clear(ram.mem, frame);
      forall p | p in tables
        ensures Agree(m, ram.mem, tables[p])
      {
        assert tables[p] in tables.Values;
      }
      TablesUntouched(m, ram.mem);
      ChainFrame(m, ram.mem, allocator.nodes);
    }

    /** getLinkedPage with allocating set: links a fresh zeroed table behind an empty entry. */
    method EnsureLinkedPage(table: Word, index: nat, ghost p: Path) returns (page: Option<Word>)
      requires Valid() && p in tables && p.Depth() < 3 && index < 512 && PointsAt(table, tables[p], false)
      requires p != Root ==> !BigPage(Read(ram.mem, tables[p], index))
      modifies ram, allocator, this`tables
      ensures Valid() && pages == old(pages)
      ensures forall v: Word {:trigger Walk(ram.mem, root, v)} :: Walk(ram.mem, root, v) == Walk(old(ram.mem), root, v)
      ensures Taken(old(allocator.nodes), allocator.nodes, old(tables), tables)
      ensures page.Some? ==> Child(p, index) in tables && PointsAt(page.value, tables[Child(p, index)], false)
      ensures page.None? ==> |allocator.nodes| <= 2
      ensures KeepsEntries(old(ram.mem), ram.mem, old(tables))
    {
      var entry := Load(table, index, p);
      if Present(entry) {
        NothingTaken(allocator.nodes, tables);
        page := LinkedPage(table, index, p);
      } else {
        page := LinkFreshPage(table, index, p);
      }
    }

    /** The branch of getLinkedPage that allocates, clears and links a page. */
    method LinkFreshPage(table: Word, index: nat, ghost p: Path) returns (page: Option<Word>)
      requires Valid() && p in tables && p.Depth() < 3 && index < 512 && PointsAt(table, tables[p], false)
      requires !Present(Read(ram.mem, tables[p], index)) && (p != Root ==> !BigPage(Read(ram.mem, tables[p], index)))
      modifies ram, allocator, this`tables
      ensures Valid()
      ensures forall v: Word {:trigger Walk(ram.mem, root, v)} :: Walk(ram.mem, root, v) == Walk(old(ram.mem), root, v)
      ensures Taken(old(allocator.nodes), allocator.nodes, old(tables), tables)
      ensures page.Some? ==> Child(p, index) in tables && PointsAt(page.value, tables[Child(p, index)], false)
      ensures page.None? ==> |allocator.nodes| <= 2
      ensures KeepsEntries(old(ram.mem), ram.mem, old(tables))
    {
      ghost var frame, m, t, n := 0, ram.mem, tables, allocator.nodes;
      page, frame := AllocatePage();
      AgreeKeepsEntries(m, ram.mem, t);
      if page.None? {
        NothingTaken(n, t);
        return;
      }
      ghost var m1 := ram.mem;
      var physical := ClearAgain(page.value, frame);
      StoreLink(table, index, physical, p, frame);
      OneTaken(n, allocator.nodes, t, Child(p, index), frame);
      ClearKeepsEntries(m1, frame, t);
      EntriesStayKept(m, m1, Clear(m1, frame), t, t);
      EntriesStayKept(m, Clear(m1, frame), ram.mem, t, t);
    }

    /** The physical address behind a fresh page, which is cleared through its window pointer. */
    method ClearAgain(pointer: Word, ghost frame: nat) returns (physical: nat)
      requires Valid() && PointsAt(pointer, frame, false) && 1 <= frame < 0x800_0000
      requires !Free(allocator.nodes, frame) && frame !in tables.Values
      modifies ram
      ensures Valid() && ram.mem == Clear(old(ram.mem), frame) && physical == PageAddress(frame)
      ensures forall v: Word {:trigger Walk(ram.mem, root, v)} :: Walk(ram.mem, root, v) == Walk(old(ram.mem), root, v)
    {
      physical := PhysicalBehind(pointer, frame);
      var target := Dereference(ram.mem, root, pointer, false, frame);
      ClearFrame(target);
    }

    /** Writes the entry that links the zeroed page frame. */
    method StoreLink(table: Word, index: nat, physical: nat, ghost p: Path, ghost frame: nat)
      requires Valid() && p in tables && p.Depth() < 3 && index < 512 && PointsAt(table, tables[p], false)
      requires Empty(ram.mem, tables, p, index)
      requires 1 <= frame < 0x800_0000 && physical == PageAddress(frame) && Zeroed(ram.mem, frame)
      requires !Free(allocator.nodes, frame) && frame !in tables.Values
      modifies ram, this`tables
      ensures Valid() && tables == old(tables)[Child(p, index) := frame] && Child(p, index) !in old(tables)
      ensures KeepsEntries(old(ram.mem), ram.mem, old(tables))
          && Fields(Read(ram.mem, tables[p], index)) == LinkFields(frame)
      ensures forall v: Word {:trigger Walk(ram.mem, root, v)} :: Walk(ram.mem, root, v) == Walk(old(ram.mem), root, v)
    {
      ghost var m := ram.mem;
      var target := Dereference(ram.mem, root, table, false, tables[p]);
      var word := LinkEntry(physical, frame);
      LinkIsInvisible(m, root, tables, p, index, frame, word);
      ram.mem := Write(ram.mem, target, index, word);
      ChainFrame(m, ram.mem, allocator.nodes);
      tables := tables[Child(p, index) := frame];
    }

    /** Writes the leaf entry of virtualAddress, whose tables exist. */
    method StoreLeaf(table: Word, virtualAddress: Word, word: nat)
      requires Valid() && Path1(virtualAddress) in tables && PointsAt(table, tables[Path1(virtualAddress)], false)
      modifies ram, this`pages
      ensures Valid()
      ensures forall w: Word {:trigger Walk(ram.mem, root, w)} ::
                Walk(ram.mem, root, w) == if PageNumber(w) == PageNumber(virtualAddress) then LeafView(word)
                    else Walk(old(ram.mem), root, w)
      ensures pages == if Present(word) then old(pages)[PageNumber(virtualAddress) := Frame(word)]
                       else old(pages) - {PageNumber(virtualAddress)}
      ensures ram.mem == Write(old(ram.mem), tables[Path1(virtualAddress)], Level1(virtualAddress), word)
    {
      ghost var m, p := ram.mem, Path1(virtualAddress);
      var target := Dereference(ram.mem, root, table, false, tables[p]);
      LeafIsLocal(m, root, tables, virtualAddress, word);
      ram.mem := Write(ram.mem, target, Level1(virtualAddress), word);
      ChainFrame(m, ram.mem, allocator.nodes);
      pages := if Present(word) then pages[PageNumber(virtualAddress) := Frame(word)]
               else pages - {PageNumber(virtualAddress)};
    }

    /** The three calls of getLinkedPage in map: the tables on the way of v. */
    method EnsureTables(v: Word) returns (level1Page: Option<Word>)
      requires Valid() && !Walk(ram.mem, root, v).Huge?
      modifies ram, allocator, this`tables
      ensures Valid() && pages == old(pages)
      ensures forall w: Word {:trigger Walk(ram.mem, root, w)} :: Walk(ram.mem, root, w) == Walk(old(ram.mem), root, w)
      ensures Taken(old(allocator.nodes), allocator.nodes, old(tables), tables)
      ensures level1Page.Some? ==> Path1(v) in tables && PointsAt(level1Page.value, tables[Path1(v)], false)
      ensures level1Page.None? ==> |allocator.nodes| <= 2
      ensures KeepsEntries(old(ram.mem), ram.mem, old(tables))
    {
      hide CpuTranslate, Lookup, Fields, Window, Taken, KeepsEntries;
      ghost var m, t, n := ram.mem, tables, allocator.nodes;
      var level4Page := GetLevel4Page();
      var level3Page := EnsureLinkedPage(level4Page, Level4(v), Root);
      if level3Page.None? { return None; }
      WalkTables(ram.mem, root, tables, v);
      assert !Walk(ram.mem, root, v).Huge?;
      ghost var m1, t1, n1 := ram.mem, tables, allocator.nodes;
      var level2Page := EnsureLinkedPage(level3Page.value, Level3(v), Path3(v));
      EntriesStayKept(m, m1, ram.mem, t, t1);
      TakenComposes(n, n1, allocator.nodes, t, t1, tables);
      if level2Page.None? { return None; }
      WalkTables(ram.mem, root, tables, v);
      assert !Walk(ram.mem, root, v).Huge?;
      ghost var m2, t2, n2 := ram.mem, tables, allocator.nodes;
      level1Page := EnsureLinkedPage(level2Page.value, Level2(v), Path2(v));
      EntriesStayKept(m, m2, ram.mem, t, t2);
      TakenComposes(n, n2, allocator.nodes, t, t2, tables);
    }

    /** Maps the page of virtualAddress; false when a table is needed and the kernel halts. */
    method Map(physicalAddress: nat, virtualAddress: Word, option: PageOption) returns (ok: bool)
      requires Valid() && !Walk(ram.mem, root, virtualAddress).Huge?
      modifies ram, allocator, this`tables, this`pages
      ensures Valid()
      ensures pages == if ok then old(pages)[PageNumber(virtualAddress) := PageIndex(physicalAddress) % 0x10_0000_0000]
                       else old(pages)
      ensures forall w: Word {:trigger Walk(ram.mem, root, w)} ::
                Walk(ram.mem, root, w) == if ok && PageNumber(w) == PageNumber(virtualAddress)
                                          then Small(PageIndex(physicalAddress) % 0x10_0000_0000)
                                          else Walk(old(ram.mem), root, w)
      ensures Taken(old(allocator.nodes), allocator.nodes, old(tables), tables)
      ensures !ok ==> |allocator.nodes| <= 2
      ensures ok ==> Path1(virtualAddress) in tables
      ensures ok ==> Fields(Read(ram.mem, tables[Path1(virtualAddress)], Level1(virtualAddress)))
                     == LeafFields(option, PageIndex(physicalAddress) % 0x10_0000_0000)
      ensures forall p, j: nat {:trigger Read(ram.mem, old(tables)[p], j)} ::
                p in old(tables) && Present(Read(old(ram.mem), old(tables)[p], j)) && !(p == Path1(virtualAddress)
                    && j == Level1(virtualAddress))
                ==> Read(ram.mem, old(tables)[p], j) == Read(old(ram.mem), old(tables)[p], j)
    {
      var level1Page := EnsureTables(virtualAddress);
      if level1Page.None? {
        return false;
      }
      var word := LeafEntry(physicalAddress, option);
      StoreLeaf(level1Page.value, virtualAddress, word);
      return true;
    }

    /** Clears the present bit of the big-page entry that the walk of v meets in table p. */
    method StoreBig(table: Word, index: nat, entry: nat, v: Word, ghost p: Path)
      requires Valid() && PointsAtBig(ram.mem, root, tables, v, p, index)
      requires PointsAt(table, tables[p], false) && entry == Read(ram.mem, tables[p], index) && Level4(v) != 192
      modifies ram
      ensures Valid() && !Present(Read(ram.mem, tables[p], index)) && CpuTranslate(ram.mem, root, v) == None
      ensures ClearedAt(old(ram.mem), ram.mem, tables[p], index)
      ensures forall w: Word {:trigger Walk(ram.mem, root, w)} :: Walk(ram.mem, root, w) == Walk(old(ram.mem), root, w)
    {
      ghost var m := ram.mem;
      var target := Dereference(ram.mem, root, table, false, tables[p]);
      var word := ClearPresent(entry);
      BigClearIsInvisible(m, root, tables, v, p, index, word);
      ram.mem := Write(ram.mem, target, index, word);
      ChainFrame(m, ram.mem, allocator.nodes);
    }

    /** The part of unmap below the level-2 table. */
    method UnmapBelow(level2Page: Word, v: Word)
      requires Valid() && Path2(v) in tables && PointsAt(level2Page, tables[Path2(v)], false)
      requires Walk(ram.mem, root, v).Huge? ==> Level4(v) != 192
      modifies ram, this`pages
      ensures Valid() && pages == old(pages) - {PageNumber(v)}
      ensures forall w: Word {:trigger Walk(ram.mem, root, w)} ::
                Walk(ram.mem, root, w) == if PageNumber(w) == PageNumber(v) && !Walk(old(ram.mem), root, w).Huge?
                                          then Absent else Walk(old(ram.mem), root, w)
      ensures Walk(old(ram.mem), root, v).Huge? ==> CpuTranslate(ram.mem, root, v) == None
      ensures if Path1(v) in tables then ClearedAt(old(ram.mem), ram.mem, tables[Path1(v)], Level1(v))
              else Walk(old(ram.mem), root, v).Huge? || ram.mem == old(ram.mem)
    {
      SamePageSameKind(ram.mem, root, v);
      WalkTables(ram.mem, root, tables, v);
      assert !Walk(ram.mem, root, v).Small? ==> pages - {PageNumber(v)} == pages;
      var entry2 := Load(level2Page, Level2(v), Path2(v));
      if BigPage(entry2) {
        StoreBig(level2Page, Level2(v), entry2, v, Path2(v));
      }
      var level1Page := LinkedPage(level2Page, Level2(v), Path2(v));
      if level1Page.None? {
        return;
      }
      var entry := Load(level1Page.value, Level1(v), Path1(v));
      var word := ClearPresent(entry);
      StoreLeaf(level1Page.value, v, word);
    }

    /** Unmaps the page of virtualAddress. On a big page the processor stops translating v,
        but the kernel's walk still answers as before. */
    method Unmap(virtualAddress: Word)
      requires Valid() && (Walk(ram.mem, root, virtualAddress).Huge? ==> Level4(virtualAddress) != 192)
      modifies ram, this`pages
      ensures Valid() && pages == old(pages) - {PageNumber(virtualAddress)}
      ensures forall w: Word {:trigger Walk(ram.mem, root, w)} ::
                Walk(ram.mem, root, w) == if PageNumber(w) == PageNumber(virtualAddress)
                    && !Walk(old(ram.mem), root, w).Huge?
                                          then Absent else Walk(old(ram.mem), root, w)
      ensures Walk(old(ram.mem), root, virtualAddress).Huge? ==> CpuTranslate(ram.mem, root, virtualAddress) == None
      ensures if Path1(virtualAddress) in tables
          then ClearedAt(old(ram.mem), ram.mem, tables[Path1(virtualAddress)], Level1(virtualAddress))
              else Walk(old(ram.mem), root, virtualAddress).Huge? || ram.mem == old(ram.mem)
    {
      var v := virtualAddress;
      var level4Page := GetLevel4Page();
      WalkTables(ram.mem, root, tables, v);
      var level3Page := LinkedPage(level4Page, Level4(v), Root);
      if level3Page.None? {
        AbsentIsUnmapped(v);
        return;
      }
      UnmapBelow3(level3Page.value, v);
    }

    /** A page that is not mapped is unmapped already. */
    lemma AbsentIsUnmapped(v: Word)
      requires Valid() && !Walk(ram.mem, root, v).Small?
      ensures pages - {PageNumber(v)} == pages
      ensures forall w: Word {:trigger Walk(ram.mem, root, w)} ::
                PageNumber(w) == PageNumber(v) && !Walk(ram.mem, root, w).Huge? ==> Walk(ram.mem, root, w) == Absent
    {
      SamePageSameKind(ram.mem, root, v);
    }

    /** The part of unmap below the level-3 table. */
    method UnmapBelow3(level3Page: Word, v: Word)
      requires Valid() && Path3(v) in tables && PointsAt(level3Page, tables[Path3(v)], false)
      requires Walk(ram.mem, root, v).Huge? ==> Level4(v) != 192
      modifies ram, this`pages
      ensures Valid() && pages == old(pages) - {PageNumber(v)}
      ensures forall w: Word {:trigger Walk(ram.mem, root, w)} ::
                Walk(ram.mem, root, w) == if PageNumber(w) == PageNumber(v) && !Walk(old(ram.mem), root, w).Huge?
                                          then Absent else Walk(old(ram.mem), root, w)
      ensures Walk(old(ram.mem), root, v).Huge? ==> CpuTranslate(ram.mem, root, v) == None
      ensures if Path1(v) in tables then ClearedAt(old(ram.mem), ram.mem, tables[Path1(v)], Level1(v))
              else Walk(old(ram.mem), root, v).Huge? || ram.mem == old(ram.mem)
    {
      WalkTables(ram.mem, root, tables, v);
      ghost var found := Walk(ram.mem, root, v);
      if !found.Small? {
        AbsentIsUnmapped(v);
      }
      var entry3 := Load(level3Page, Level3(v), Path3(v));
      if BigPage(entry3) {
        StoreBig(level3Page, Level3(v), entry3, v, Path3(v));
      }
      var level2Page := LinkedPage(level3Page, Level3(v), Path3(v));
      if level2Page.Some? {
        UnmapBelow(level2Page.value, v);
      }
    }
  }
}

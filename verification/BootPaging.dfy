/** The page tables that the lower kernel builds for the high kernel out of a fixed buffer of 32 pages. */
module BootPaging {
  import opened Wrappers
  import opened Machine
  import opened PageTree
  import opened PhysicalAllocator

  /** setAddress: the new address, the old flags, and the present bit. */
  method SetAddress(entry: nat, address: nat, ghost page: nat) returns (raw: nat)
    requires address == PageAddress(page) && page < 0x10_0000_0000
    ensures Fields(raw) == Fields(entry).(encAddress := page, present := true)
  {
    var cleared := Fields(entry).(encAddress := 0);
    var flags := Raw(cleared);
    AddressJoins(cleared, page);
    FieldsOfRaw(cleared.(encAddress := page));
    raw := Encode(Fields(Or(address, flags)).(present := true));
  }

  /** Joining an address with an entry that has none is setting the field. */
  lemma AddressJoins(e: Entry, page: nat)
    requires e.Fits() && e.encAddress == 0 && page < 0x10_0000_0000
    ensures Or(PageAddress(page), Raw(e)) == Raw(e.(encAddress := page))
  {
    FieldsOfRaw(e);
    FieldsOfRaw(e.(encAddress := page));
    HighBitsOfRaw(e);
    HighBitsOfRaw(e.(encAddress := page));
    WordsJoin(e, page, Raw(e), Raw(e.(encAddress := page)));
  }

  /** The same for the words w and w' of the two entries. */
  lemma WordsJoin(e: Entry, page: nat, w: nat, w': nat)
    requires e.Fits() && e.encAddress == 0 && page < 0x10_0000_0000
    requires Fields(w) == e && Fields(w') == e.(encAddress := page)
    requires w / 512 == HighBits(e) && w' / 512 == HighBits(e.(encAddress := page))
    ensures Or(PageAddress(page), w) == w'
  {
    PageAddressIsProduct(page);
    SameFlags(w, w');
    WordParts(w, w', e.available1, RestOfEntry(e), page);
    JoinFields(page, RestOfEntry(e), 512 * e.available1 + w % 512, PageAddress(page), w);
  }

  /** The two words as sums of their parts. */
  lemma WordParts(w: nat, w': nat, available1: nat, rest: nat, page: nat)
    requires available1 < 8 && w % 512 == w' % 512
    requires w / 512 == available1 + 8 * (0x10_0000_0000 * rest)
    requires w' / 512 == available1 + 8 * (page + 0x10_0000_0000 * rest)
    ensures w == 0x1000 * (0x10_0000_0000 * rest) + (512 * available1 + w % 512) && w' == 0x1000 * page + w
  {
    assert w == 512 * (w / 512) + w % 512;
    assert w' == 512 * (w' / 512) + w' % 512;
  }

  /** Two words with the same lowest nine bits. */
  lemma SameFlags(w: nat, w': nat)
    requires Present(w) == Present(w') && Bit(w, 1) == Bit(w', 1) && Bit(w, 2) == Bit(w', 2) && Bit(w, 3) == Bit(w', 3)
    requires Bit(w, 4) == Bit(w', 4) && Bit(w, 5) == Bit(w', 5) && Bit(w, 6) == Bit(w', 6)
    requires BigPage(w) == BigPage(w') && Bit(w, 8) == Bit(w', 8)
    ensures w % 512 == w' % 512
  {
    forall k: nat {:trigger Bit(w, k)} | k < 9
      ensures Bit(w, k) == Bit(w', k)
    {
      assert k == 0 || k == 1 || k == 2 || k == 3 || k == 4 || k == 5 || k == 6 || k == 7 || k == 8;
    }
    SameRemainder(w, w');
  }

  lemma SameRemainder(w: nat, w': nat)
    requires forall k: nat {:trigger Bit(w, k)} :: k < 9 ==> Bit(w, k) == Bit(w', k)
    ensures w % 512 == w' % 512
  {
    SameBits(w, w', 9);
    HalvedNine(w);
    HalvedNine(w');
    ShlIsProduct(w / 512, 9);
    ShlIsProduct(w' / 512, 9);
  }

  function Halved(w: nat, n: nat): nat
    decreases n
  {
    if n == 0 then w else Halved(w / 2, n - 1)
  }

  lemma HalvedNine(w: nat)
    ensures Halved(w, 9) == w / 512
  {
    assert Halved(w, 3) == w / 8;
    assert Halved(w, 6) == Halved(w / 8, 3) == w / 64;
    assert Halved(w, 9) == Halved(w / 64, 3) == w / 512;
  }

  lemma {:induction false} SameBits(w: nat, w': nat, n: nat)
    requires forall k: nat {:trigger Bit(w, k)} :: k < n ==> Bit(w, k) == Bit(w', k)
    ensures w - Shl(Halved(w, n), n) == w' - Shl(Halved(w', n), n)
    decreases n
  {
    if n > 0 {
      forall k: nat {:trigger Bit(w / 2, k)} | k < n - 1
        ensures Bit(w / 2, k) == Bit(w' / 2, k)
      {
        assert Bit(w, k + 1) == Bit(w', k + 1);
      }
      SameBits(w / 2, w' / 2, n - 1);
      assert Bit(w, 0) == Bit(w', 0);
    }
  }

  /** Bits 48 to 63. */
  function RestOfEntry(e: Entry): nat {
    e.zero + 16 * e.available2 + 2048 * e.protectionKey + 0x8000 * (if e.executeDisable then 1 else 0)
  }

  lemma Shl36(x: nat)
    ensures Shl(x, 36) == 0x10_0000_0000 * x
  {
    ShlIsProduct(x, 9);
    ShlAgain(x, 9, 9);
    ShlIsProduct(Shl(x, 9), 9);
    ShlAgain(x, 18, 9);
    ShlIsProduct(Shl(x, 18), 9);
    ShlAgain(x, 27, 9);
    ShlIsProduct(Shl(x, 27), 9);
  }

  lemma {:induction false} ShlAgain(x: nat, j: nat, k: nat)
    ensures Shl(Shl(x, j), k) == Shl(x, j + k)
    decreases k
  {
    if k > 0 {
      ShlAgain(x, j, k - 1);
    }
  }

  /** The three parts of an entry do not overlap: bits 0 to 11, 12 to 47 and 48 to 63. */
  lemma JoinFields(page: nat, high: nat, low: nat, a: nat, w: nat)
    requires page < 0x10_0000_0000 && low < 0x1000
    requires a == 0x1000 * page && w == 0x1000 * (0x10_0000_0000 * high) + low
    ensures Or(a, w) == a + w
  {
    JoinHigh(page, high);
    JoinTwelve(page, 0x10_0000_0000 * high, low, 12);
  }

  lemma JoinTwelve(p: nat, q: nat, low: nat, k: nat)
    requires k == 12 && low < 0x1000
    ensures Or(0x1000 * p, 0x1000 * q + low) == 0x1000 * Or(p, q) + low
  {
    ShlIsProduct(p, k);
    ShlIsProduct(q, k);
    ShlIsProduct(1, k);
    ShlIsProduct(Or(p, q), k);
    OrSplit(p, 0, q, low, k);
  }

  lemma JoinHigh(page: nat, high: nat)
    requires page < 0x10_0000_0000
    ensures Or(page, 0x10_0000_0000 * high) == page + 0x10_0000_0000 * high
  {
    Shl36(0);
    Shl36(1);
    Shl36(high);
    OrSplit(0, page, high, 0, 36);
  }

  /** Entries without the big-page bit. */
  predicate Clean(word: nat) {
    !BigPage(word)
  }

  /** The level-4 entry that a table below the root hangs from. */
  function Top(p: Path): int {
    if p.Root? then -1 else if p.parent.Root? then p.index else Top(p.parent)
  }

  /** Level-4 entry h and everything below it. */
  ghost predicate CleanBelow(m: Memory, root: nat, t: Tables, h: nat) {
    && Clean(Read(m, root, h))
    && (forall p, i: nat {:trigger Read(m, t[p], i)} :: p in t && Top(p) == h ==> Clean(Read(m, t[p], i)))
  }

  /** Page j of the kernel, which starts on a 512 GiB boundary. */
  function KernelPage(start: Word, j: nat): (v: Word)
    requires start % 0x80_0000_0000 == 0 && j < 29 * 512
  {
    start + 0x1000 * j
  }

  /** The level-1 table of page j. */
  function Group(j: nat): nat { j / 512 }

  /** Level-1 tables in use once n pages are mapped. */
  function Groups(n: nat): nat { if n == 0 then 0 else Group(n - 1) + 1 }

  lemma KernelPageLevels(start: Word, j: nat)
    requires start % 0x80_0000_0000 == 0 && j < 29 * 512
    ensures var v := KernelPage(start, j);
            && Level4(v) == Level4(start) && Level3(v) == 0 && Level2(v) == Group(j) && Level1(v) == j % 512
            && v % 0x1000 == 0
  {
    var q := start / 0x80_0000_0000;
    KernelPageLevel1(q, j, KernelPage(start, j));
    KernelPageLevel2(q, j, KernelPage(start, j));
    KernelPageLevel3(q, j, KernelPage(start, j));
    KernelPageLevel4(q, j, KernelPage(start, j));
    KernelPageLevel4(q, 0, start);
  }

  lemma KernelPageLevel1(q: nat, j: nat, v: Word)
    requires j < 29 * 512 && v == 0x80_0000_0000 * q + 0x1000 * j
    ensures Level1(v) == j % 512 && v % 0x1000 == 0
  {
    assert v / 0x1000 == 0x800_0000 * q + j;
  }

  lemma TableNumber(k: nat, x: nat)
    requires x < 0x20_0000
    ensures (0x20_0000 * k + x) / 0x20_0000 == k
  {
  }

  lemma TableIndex(q: nat, g: nat)
    requires g < 512
    ensures (0x4_0000 * q + g) % 512 == g
  {
  }

  lemma KernelPageLevel2(q: nat, j: nat, v: Word)
    requires j < 29 * 512 && v == 0x80_0000_0000 * q + 0x1000 * j
    ensures Level2(v) == Group(j)
  {
    var g, r := j / 512, j % 512;
    assert j == 512 * g + r;
    TableNumber(0x4_0000 * q + g, 0x1000 * r);
    TableIndex(q, g);
  }

  lemma KernelPageLevel3(q: nat, j: nat, v: Word)
    requires j < 29 * 512 && v == 0x80_0000_0000 * q + 0x1000 * j
    ensures Level3(v) == 0
  {
    assert v / 0x4000_0000 == 512 * q;
  }

  lemma KernelPageLevel4(q: nat, j: nat, v: Word)
    requires j < 29 * 512 && v == 0x80_0000_0000 * q + 0x1000 * j
    ensures Level4(v) == q % 512
  {
    assert v / 0x80_0000_0000 == q;
  }

  lemma KernelPagesDiffer(start: Word, i: nat, j: nat)
    requires start % 0x80_0000_0000 == 0 && i < 29 * 512 && j < 29 * 512
    requires PageNumber(KernelPage(start, i)) == PageNumber(KernelPage(start, j))
    ensures i == j
  {
    SamePageSameLevels(KernelPage(start, i), KernelPage(start, j));
    KernelPageLevels(start, i);
    KernelPageLevels(start, j);
  }

  lemma GroupsStep(n: nat)
    ensures Groups(n + 1) == if n % 512 == 0 then Groups(n) + 1 else Groups(n)
    ensures n > 0 ==> (Group(n) < Groups(n) <==> n % 512 != 0)
    ensures n < 29 * 512 ==> Groups(n + 1) <= 29 && Group(n) <= Groups(n)
  {
  }

  /** No address under another level-4 entry than h is translated differently. */
  ghost predicate SameElsewhere(m: Memory, m': Memory, root: nat, h: nat) {
    forall w: Word {:trigger Walk(m', root, w)} :: Level4(w) != h ==> Walk(m', root, w) == Walk(m, root, w)
  }

  lemma SameElsewhereComposes(m: Memory, m1: Memory, m2: Memory, root: nat, h: nat)
    requires SameElsewhere(m, m1, root, h) && SameElsewhere(m1, m2, root, h)
    ensures SameElsewhere(m, m2, root, h)
  {
    forall w: Word {:trigger Walk(m2, root, w)} | Level4(w) != h
      ensures Walk(m2, root, w) == Walk(m, root, w)
    {
      assert Walk(m1, root, w) == Walk(m, root, w);
    }
  }

  lemma OnePageIsElsewhere(m: Memory, m': Memory, root: nat, v: Word, frame: nat)
    requires forall w: Word {:trigger Walk(m', root, w)} ::
      Walk(m', root, w) == if PageNumber(w) == PageNumber(v) then Small(frame) else Walk(m, root, w)
    ensures SameElsewhere(m, m', root, Level4(v))
  {
    forall w: Word {:trigger Walk(m', root, w)} | Level4(w) != Level4(v)
      ensures Walk(m', root, w) == Walk(m, root, w)
    {
      SamePageSameLevels(w, v);
    }
  }

  lemma OneMoreMapped(m: Memory, m': Memory, root: nat, start: Word, first: nat, n: nat)
    requires start % 0x80_0000_0000 == 0 && n < 29 * 512
    requires forall j: nat {:trigger KernelPage(start, j)} :: j < n && j < 29 * 512 ==>
               Walk(m, root, KernelPage(start, j)) == Small(first + j)
    requires forall w: Word {:trigger Walk(m', root, w)} ::
      Walk(m', root, w) == if PageNumber(w) == PageNumber(KernelPage(start, n)) then Small(first + n)
                           else Walk(m, root, w)
    ensures forall j: nat {:trigger KernelPage(start, j)} :: j < n + 1 && j < 29 * 512 ==>
              Walk(m', root, KernelPage(start, j)) == Small(first + j)
  {
    forall j: nat {:trigger KernelPage(start, j)} | j < n + 1 && j < 29 * 512
      ensures Walk(m', root, KernelPage(start, j)) == Small(first + j)
    {
      if PageNumber(KernelPage(start, j)) == PageNumber(KernelPage(start, n)) {
        KernelPagesDiffer(start, j, n);
      }
    }
  }

  /** Of the tables on the way of the kernel, t' has those of t and those of the first n pages. */
  ghost predicate Added(t: Tables, t': Tables, h: nat, n: nat) {
    && (Child(Root, h) in t' <==> Child(Root, h) in t || n > 0)
    && (Child(Child(Root, h), 0) in t' <==> Child(Child(Root, h), 0) in t || n > 0)
    && (forall k: nat {:trigger Child(Child(Child(Root, h), 0), k)} ::
        Child(Child(Child(Root, h), 0), k) in t' <==> Child(Child(Child(Root, h), 0), k) in t || k < Groups(n))
  }

  lemma AddedStep(t: Tables, t1: Tables, t2: Tables, h: nat, n: nat, v: Word)
    requires Added(t, t1, h, n) && n < 29 * 512
    requires Level4(v) == h && Level3(v) == 0 && Level2(v) == Group(n)
    requires forall q {:trigger q in t2} :: q in t2 <==> q in t1 || q in {Path3(v), Path2(v), Path1(v)}
    ensures Added(t, t2, h, n + 1)
  {
    GroupsStep(n);
    assert Path3(v) == Child(Root, h) && Path2(v) == Child(Child(Root, h), 0);
    assert Path1(v) == Child(Child(Child(Root, h), 0), Group(n));
  }

  lemma FollowingPage(first: nat, i: nat)
    ensures PageAddress(first) + 0x1000 * i == PageAddress(first + i)
  {
    PageAddressIsProduct(first);
    PageAddressIsProduct(first + i);
  }

  /** Whether a table has still to be taken from the buffer. */
  function Fresh(t: Tables, p: Path): nat { if p in t then 0 else 1 }

  /** How many of the first g tables below p have. */
  function FreshGroups(t: Tables, p: Path, g: nat): (k: nat)
    ensures k <= g
    ensures (forall i: nat {:trigger Child(p, i)} :: Child(p, i) !in t) ==> k == g
  {
    if g == 0 then 0 else FreshGroups(t, p, g - 1) + Fresh(t, Child(p, g - 1))
  }

  lemma LinkKeepsClean(m: Memory, m': Memory, root: nat, t: Tables, t': Tables, h: nat, p: Path, i: nat, page: nat)
    requires p in t && p.Depth() < 3 && t' == t[Child(p, i) := page] && CleanBelow(m, root, t, h)
    requires Zeroed(m', page) && PointsTo(Read(m', t[p], i), page)
    requires forall q: nat, j: nat {:trigger Read(m', q, j)} :: !(q == t[p] && j == i) && q != page ==>
               Read(m', q, j) == Read(m, q, j)
    requires root != page && (forall q {:trigger t[q]} :: q in t ==> t[q] != page)
    ensures CleanBelow(m', root, t', h)
  {
  }

  class BootTables {
    const ram: Ram
    const root: nat
    /** First page of the buffer; the kernel runs identity mapped, so pointers are physical. */
    const bufferStart: nat
    ghost var tables: Tables
    /** The tables that were there before. */
    ghost var boot: Tables

    /** Used buffer pages are tables, unused ones are not, and entries of used ones are empty or present. */
    ghost predicate Valid(index: nat)
      reads this, ram
    {
      && IsTree(ram.mem, root, tables)
      && (forall p {:trigger p in boot} :: p in boot ==> p in tables && tables[p] == boot[p])
      && (forall p {:trigger tables[p]} :: p in tables && p !in boot ==> bufferStart <= tables[p] < bufferStart + index)
      && (forall p {:trigger tables[p]} :: p in boot && p in tables ==> !(bufferStart <= tables[p] < bufferStart + 32))
      && bufferStart + 32 <= 0x10_0000_0000
    }

    constructor (ram: Ram, root: nat, bufferStart: nat, ghost boot: Tables)
      ensures this.ram == ram && this.root == root && this.bufferStart == bufferStart && tables == this.boot == boot
    {
      this.ram := ram;
      this.root := root;
      this.bufferStart := bufferStart;
      this.tables := boot;
      this.boot := boot;
    }

    /** The table behind an entry, taken from the buffer when there is none. */
    method EnsurePage(table: nat, i: nat, index: nat, ghost p: Path, ghost h: nat) returns (page: nat, index': nat)
      requires Valid(index) && p in tables && tables[p] == table && p.Depth() < 3 && i < 512
      requires CleanBelow(ram.mem, root, tables, h) && (if p == Root then i == h else Top(p) == h)
      requires Child(p, i) !in tables ==> index < 32
      modifies ram, this`tables
      ensures Valid(index') && boot == old(boot)
      ensures Child(p, i) in tables && page == tables[Child(p, i)]
      ensures forall q {:trigger q in tables} :: q in tables <==> q in old(tables) || q == Child(p, i)
      ensures if Child(p, i) in old(tables) then index' == index && tables == old(tables) && ram.mem == old(ram.mem)
              else index' == index + 1 && tables == old(tables)[Child(p, i) := bufferStart + index]
                   && Zeroed(ram.mem, page) && PointsTo(Read(ram.mem, table, i), page)
      ensures forall q: nat, j: nat {:trigger Read(ram.mem, q, j)} ::
                !(q == table && j == i) && q != bufferStart + index ==>
                Read(ram.mem, q, j) == Read(old(ram.mem), q, j)
      ensures forall v: Word {:trigger Walk(ram.mem, root, v)} :: Walk(ram.mem, root, v) == Walk(old(ram.mem), root, v)
      ensures CleanBelow(ram.mem, root, tables, h)
    {
      index' := index;
      assert Child(p, i) in tables ==> Hangs(ram.mem, tables, Child(p, i));
      assert Present(Read(ram.mem, table, i)) ==> Links(ram.mem, tables, p, i);
      if !Present(Read(ram.mem, table, i)) {
        ghost var m, t := ram.mem, tables;
        page, index' := Link(table, i, index, p);
        LinkKeepsClean(m, ram.mem, root, t, tables, h, p, i, page);
        return;
      }
      page := Frame(Read(ram.mem, table, i));
      assert Hangs(ram.mem, tables, Child(p, i));
    }

    method Link(table: nat, i: nat, index: nat, ghost p: Path) returns (page: nat, index': nat)
      requires Valid(index) && p in tables && tables[p] == table && p.Depth() < 3 && i < 512 && index < 32
      requires !Present(Read(ram.mem, table, i)) && !BigPage(Read(ram.mem, table, i)) && Child(p, i) !in tables
      modifies ram, this`tables
      ensures Valid(index') && boot == old(boot) && index' == index + 1 && page == bufferStart + index
      ensures tables == old(tables)[Child(p, i) := bufferStart + index]
      ensures Zeroed(ram.mem, page) && PointsTo(Read(ram.mem, table, i), page)
      ensures forall q: nat, j: nat {:trigger Read(ram.mem, q, j)} :: !(q == table && j == i) && q != page ==>
                Read(ram.mem, q, j) == Read(old(ram.mem), q, j)
      ensures forall v: Word {:trigger Walk(ram.mem, root, v)} :: Walk(ram.mem, root, v) == Walk(old(ram.mem), root, v)
    {
      ghost var m := ram.mem;
      page := bufferStart + index;
      index' := index + 1;
      assert page !in tables.Values && table in tables.Values;
      ram.mem := Clear(ram.mem, page);
      ghost var m1 := ram.mem;
      forall q | q in tables
        ensures Agree(m, m1, tables[q])
      {
        assert tables[q] in tables.Values;
      }
      TreeFrame(m, m1, root, tables);
      var word := SetAddress(Read(ram.mem, table, i), PageAddress(page), page);
      LinkKeepsTree(m1, root, tables, p, i, page, word);
      forall v: Word {:trigger Walk(Write(m1, table, i, word), root, v)}
        ensures Walk(Write(m1, table, i, word), root, v) == Walk(m, root, v)
      {
        WalkFrame(m, m1, root, tables, v);
        LinkKeepsWalk(m1, root, tables, p, i, page, word, v);
      }
      ram.mem := Write(ram.mem, table, i, word);
      tables := tables[Child(p, i) := page];
    }

    /** How many of the three tables on the way of v are missing. */
    ghost function Missing(v: Word): nat
      reads this
    {
      (if Path3(v) in tables then 0 else 1) + (if Path2(v) in tables then 0 else 1) + (if Path1(v) in tables then 0
          else 1)
    }

    /** The three calls of ensurePage in map. */
    method EnsureTables(v: Word, index: nat) returns (level1Page: nat, index': nat)
      requires Valid(index) && CleanBelow(ram.mem, root, tables, Level4(v)) && index + Missing(v) <= 32
      modifies ram, this`tables
      ensures Valid(index') && CleanBelow(ram.mem, root, tables, Level4(v)) && index' == index + old(Missing(v))
      ensures forall q {:trigger q in tables} ::
                q in tables <==> q in old(tables) || q in {Path3(v), Path2(v), Path1(v)}
      ensures level1Page == tables[Path1(v)]
      ensures forall w: Word {:trigger Walk(ram.mem, root, w)} :: Walk(ram.mem, root, w) == Walk(old(ram.mem), root, w)
    {
      PathsOf(v);
      ghost var t := tables;
      var level3Page, index1 := EnsurePage(root, Level4(v), index, Root, Level4(v));
      ghost var t1 := tables;
      var level2Page, index2 := EnsurePage(level3Page, Level3(v), index1, Path3(v), Level4(v));
      ghost var t2 := tables;
      level1Page, index' := EnsurePage(level2Page, Level2(v), index2, Path2(v), Level4(v));
      ThreeTables(t, t1, t2, tables, v);
    }

    lemma PathsOf(v: Word)
      ensures Top(Path3(v)) == Level4(v) && Top(Path2(v)) == Level4(v) && Top(Path1(v)) == Level4(v)
      ensures Root.Depth() == 0 && Path3(v).Depth() == 1 && Path2(v).Depth() == 2
      ensures Path3(v) != Path2(v) && Path3(v) != Path1(v) && Path2(v) != Path1(v)
    {
    }

    lemma ThreeTables(t: Tables, t1: Tables, t2: Tables, t3: Tables, v: Word)
      requires forall q {:trigger q in t1} :: q in t1 <==> q in t || q == Path3(v)
      requires forall q {:trigger q in t2} :: q in t2 <==> q in t1 || q == Path2(v)
      requires forall q {:trigger q in t3} :: q in t3 <==> q in t2 || q == Path1(v)
      ensures forall q {:trigger q in t3} :: q in t3 <==> q in t || q in {Path3(v), Path2(v), Path1(v)}
    {
    }

    /** map of the lower kernel: three tables, then the leaf. */
    method Map(phyAddress: nat, virAddress: Word, index: nat, ghost frame: nat) returns (index': nat)
      requires Valid(index) && CleanBelow(ram.mem, root, tables, Level4(virAddress))
          && index + Missing(virAddress) <= 32
      requires phyAddress == PageAddress(frame) && frame < 0x10_0000_0000
      modifies ram, this`tables
      ensures Valid(index') && CleanBelow(ram.mem, root, tables, Level4(virAddress))
          && index' == index + old(Missing(virAddress))
      ensures forall q {:trigger q in tables} ::
                q in tables <==> q in old(tables) || q in {Path3(virAddress), Path2(virAddress), Path1(virAddress)}
      ensures forall w: Word {:trigger Walk(ram.mem, root, w)} ::
                Walk(ram.mem, root, w) == if PageNumber(w) == PageNumber(virAddress) then Small(frame)
                    else Walk(old(ram.mem), root, w)
    {
      var level1Page;
      level1Page, index' := EnsureTables(virAddress, index);
      StoreLeaf(level1Page, virAddress, phyAddress, frame, index');
    }

    method StoreLeaf(level1Page: nat, v: Word, phyAddress: nat, ghost frame: nat, ghost index: nat)
      requires Valid(index) && CleanBelow(ram.mem, root, tables, Level4(v))
      requires Path1(v) in tables && level1Page == tables[Path1(v)]
      requires phyAddress == PageAddress(frame) && frame < 0x10_0000_0000
      modifies ram
      ensures Valid(index) && CleanBelow(ram.mem, root, tables, Level4(v))
      ensures forall w: Word {:trigger Walk(ram.mem, root, w)} ::
                Walk(ram.mem, root, w) == if PageNumber(w) == PageNumber(v) then Small(frame)
                    else Walk(old(ram.mem), root, w)
    {
      ghost var m := ram.mem;
      var word := SetAddress(Read(ram.mem, level1Page, Level1(v)), phyAddress, frame);
      LeafKeepsTree(m, root, tables, v, word);
      forall w: Word {:trigger Walk(Write(m, level1Page, Level1(v), word), root, w)}
        ensures Walk(Write(m, level1Page, Level1(v), word), root, w)
             == if PageNumber(w) == PageNumber(v) then Small(frame) else Walk(m, root, w)
      {
        LeafWalk(m, root, tables, v, word, w);
      }
      ram.mem := Write(ram.mem, level1Page, Level1(v), word);
    }

    /** The buffer pages that n kernel pages need beyond the tables that were there before. */
    ghost function Needed(h: nat, n: nat): (k: nat)
      reads this
      ensures k <= (if n == 0 then 0 else 2 + Groups(n))
      ensures Child(Root, h) !in boot && Child(Child(Root, h), 0) !in boot
          && (forall g: nat {:trigger Child(Child(Child(Root, h), 0), g)} ::
                Child(Child(Child(Root, h), 0), g) !in boot)
          ==> k == (if n == 0 then 0 else 2 + Groups(n))
    {
      var level2 := Child(Child(Root, h), 0);
      if n == 0 then 0
      else Fresh(boot, Child(Root, h)) + Fresh(boot, level2) + FreshGroups(boot, level2, Groups(n))
    }

    /** The first n kernel pages are mapped from frame first on, and only their tables have been added. */
    ghost predicate Mapped(start: Word, first: nat, n: nat, index: nat)
      requires start % 0x80_0000_0000 == 0
      reads this, ram
    {
      var h := Level4(start);
      && Valid(index) && CleanBelow(ram.mem, root, tables, h) && index == Needed(h, n) && Added(boot, tables, h, n)
      && (forall j: nat {:trigger KernelPage(start, j)} :: j < n && j < 29 * 512 ==>
            Walk(ram.mem, root, KernelPage(start, j)) == Small(first + j))
    }

    /** One round of the loop. */
    method MapNext(start: Word, phyAddress: nat, ghost first: nat, ghost n: nat, virAddress: Word,
        index: nat) returns (index': nat)
      requires start % 0x80_0000_0000 == 0 && n < 29 * 512 && Mapped(start, first, n, index)
      requires virAddress == KernelPage(start, n) && phyAddress == PageAddress(first + n) && first + n < 0x10_0000_0000
      modifies ram, this`tables
      ensures Mapped(start, first, n + 1, index')
      ensures SameElsewhere(old(ram.mem), ram.mem, root, Level4(start))
    {
      ghost var t := tables;
      KernelPageLevels(start, n);
      NeededStep(Level4(start), n, virAddress);
      index' := Map(phyAddress, virAddress, index, first + n);
      AddedStep(boot, t, tables, Level4(start), n, virAddress);
      OneMoreMapped(old(ram.mem), ram.mem, root, start, first, n);
      OnePageIsElsewhere(old(ram.mem), ram.mem, root, virAddress, first + n);
    }

    /** The tables that are missing for the next page are the ones that it needs in addition. */
    lemma NeededStep(h: nat, n: nat, v: Word)
      requires n < 29 * 512 && Level4(v) == h && Level3(v) == 0 && Level2(v) == Group(n)
      requires Added(boot, tables, h, n)
      ensures Needed(h, n + 1) == Needed(h, n) + Missing(v) <= 31
    {
      GroupsStep(n);
      assert Path3(v) == Child(Root, h) && Path2(v) == Child(Child(Root, h), 0);
      assert Path1(v) == Child(Child(Child(Root, h), 0), Group(n));
    }

    /** Maps the kernel to its virtual addresses; false when the sizes do not fit and the kernel halts. Tables that are
        there already are used; in any case 31 buffer pages are enough. */
    method SetPageTableForHighKernel(phyStart: nat, phyEnd: nat, virStart: Word, virEnd: Word, ghost first: nat)
      returns (done: bool, pageIndex: nat)
      requires phyStart == PageAddress(first) && phyStart <= phyEnd && virStart <= virEnd
          && virStart % 0x80_0000_0000 == 0
      requires first + 29 * 512 <= 0x10_0000_0000
      requires Valid(0) && tables == boot && CleanBelow(ram.mem, root, tables, Level4(virStart))
      modifies ram, this`tables
      ensures var n := ((phyEnd + 0xFFF) / 0x1000 * 0x1000 - phyStart) / 0x1000;
              && (done <==> n == (virEnd - virStart) / 0x1000 && n <= 29 * 512)
              && (done ==> pageIndex == Needed(Level4(virStart), n) && pageIndex <= 31)
              && (done ==> forall j: nat {:trigger KernelPage(virStart, j)} :: j < n ==>
                    CpuTranslate(ram.mem, root, KernelPage(virStart, j)) == Some(phyStart + 0x1000 * j))
      ensures SameElsewhere(old(ram.mem), ram.mem, root, Level4(virStart))
    {
      var maxKernelPageCount := (32 - 3) * 512;
      pageIndex := 0;
      var targetPageCount := ((phyEnd + 0xFFF) / 0x1000 * 0x1000 - phyStart) / 0x1000;
      if targetPageCount != (virEnd - virStart) / 0x1000 {
        return false, pageIndex;
      }
      if targetPageCount > maxKernelPageCount {
        return false, pageIndex;
      }
      pageIndex := MapKernel(phyStart, virStart, targetPageCount, first);
      return true, pageIndex;
    }

    /** The loop over the pages of the kernel. */
    method MapKernel(phyStart: nat, virStart: Word, count: nat, ghost first: nat) returns (pageIndex: nat)
      requires phyStart == PageAddress(first) && virStart % 0x80_0000_0000 == 0 && count <= 29 * 512
      requires first + 29 * 512 <= 0x10_0000_0000
      requires Valid(0) && tables == boot && CleanBelow(ram.mem, root, tables, Level4(virStart))
      modifies ram, this`tables
      ensures pageIndex == Needed(Level4(virStart), count) && pageIndex <= 31
      ensures forall j: nat {:trigger KernelPage(virStart, j)} :: j < count ==>
                CpuTranslate(ram.mem, root, KernelPage(virStart, j)) == Some(phyStart + 0x1000 * j)
      ensures SameElsewhere(old(ram.mem), ram.mem, root, Level4(virStart))
    {
      pageIndex := 0;
      NothingMapped(virStart, first);
      for i := 0 to count
        invariant Mapped(virStart, first, i, pageIndex)
        invariant SameElsewhere(old(ram.mem), ram.mem, root, Level4(virStart))
      {
        pageIndex := MapPage(phyStart, virStart, i, pageIndex, first, old(ram.mem));
      }
      MappedTranslates(virStart, first, count, pageIndex, phyStart);
      MappedFits(virStart, first, count, pageIndex);
    }

    method MapPage(phyStart: nat, virStart: Word, i: nat, index: nat, ghost first: nat, ghost m0: Memory)
      returns (index': nat)
      requires phyStart == PageAddress(first) && virStart % 0x80_0000_0000 == 0 && i < 29 * 512
      requires first + 29 * 512 <= 0x10_0000_0000 && Mapped(virStart, first, i, index)
      requires SameElsewhere(m0, ram.mem, root, Level4(virStart))
      modifies ram, this`tables
      ensures Mapped(virStart, first, i + 1, index') && SameElsewhere(m0, ram.mem, root, Level4(virStart))
    {
      ghost var m := ram.mem;
      FollowingPage(first, i);
      index' := MapNext(virStart, phyStart + 0x1000 * i, first, i, KernelPage(virStart, i), index);
      SameElsewhereComposes(m0, m, ram.mem, root, Level4(virStart));
    }

    lemma MappedPage(start: Word, first: nat, n: nat, index: nat, j: nat)
      requires start % 0x80_0000_0000 == 0 && n <= 29 * 512 && Mapped(start, first, n, index) && j < n
      ensures Walk(ram.mem, root, KernelPage(start, j)) == Small(first + j)
    {
    }

    lemma NothingMapped(start: Word, first: nat)
      requires start % 0x80_0000_0000 == 0 && Valid(0) && tables == boot
      requires CleanBelow(ram.mem, root, tables, Level4(start))
      ensures Mapped(start, first, 0, 0)
    {
    }

    lemma MappedTranslates(start: Word, first: nat, n: nat, index: nat, phyStart: nat)
      requires start % 0x80_0000_0000 == 0 && n <= 29 * 512 && Mapped(start, first, n, index)
      requires phyStart == PageAddress(first)
      ensures forall j: nat {:trigger KernelPage(start, j)} :: j < n ==>
                CpuTranslate(ram.mem, root, KernelPage(start, j)) == Some(phyStart + 0x1000 * j)
    {
      forall j: nat {:trigger KernelPage(start, j)} | j < n
        ensures CpuTranslate(ram.mem, root, KernelPage(start, j)) == Some(phyStart + 0x1000 * j)
      {
        MappedPage(start, first, n, index, j);
        KernelPageStarts(start, j);
        StartTranslates(ram.mem, root, KernelPage(start, j), first, phyStart, j);
      }
    }

    lemma MappedFits(start: Word, first: nat, n: nat, index: nat)
      requires start % 0x80_0000_0000 == 0 && n <= 29 * 512 && Mapped(start, first, n, index)
      ensures index == Needed(Level4(start), n) && index <= 31
    {
      if n > 0 {
        GroupsStep(n - 1);
      }
    }
  }

  lemma KernelPageStarts(start: Word, j: nat)
    requires start % 0x80_0000_0000 == 0 && j < 29 * 512
    ensures InPage(KernelPage(start, j)) == 0
  {
    KernelPageLevels(start, j);
  }

  lemma StartTranslates(m: Memory, root: nat, v: Word, first: nat, phyStart: nat, j: nat)
    requires InPage(v) == 0 && phyStart == PageAddress(first) && Walk(m, root, v) == Small(first + j)
    ensures CpuTranslate(m, root, v) == Some(phyStart + 0x1000 * j)
  {
    PageAddressIsProduct(first);
    SmallTranslates(m, root, v, first + j);
  }

  lemma SmallTranslates(m: Memory, root: nat, v: Word, frame: nat)
    requires Walk(m, root, v) == Small(frame)
    ensures CpuTranslate(m, root, v) == Some(frame * 0x1000 + InPage(v))
  {
  }
}

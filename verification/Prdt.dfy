/** The physical region descriptor table of a command: 8 entries that tell the controller where in physical
    memory the data of a transfer lies (section 4.2.3.3 of the AHCI 1.3.1 specification). */
module Prdt {
  /** The translation of virtual to physical byte addresses. */
  type Translation = nat -> nat

  type uint22 = x: int | 0 <= x < 0x40_0000

  /** dataByteCount is the number of bytes minus one. */
  datatype PrdtEntry = PrdtEntry(dataBase: nat, dataByteCount: uint22)

  const ENTRIES := 8

  function Physical(phys: Translation, address: nat, i: nat): nat { phys(address + i) }

  /** Bytes within one page are translated together. */
  ghost predicate ByPage(phys: Translation) {
    && (forall a: nat {:trigger phys(a)} :: phys(a) % 4096 == a % 4096)
    && (forall a: nat, i: nat {:trigger Physical(phys, a, i)} :: a % 4096 + i < 4096 ==>
        Physical(phys, a, i) == phys(a) + i)
  }

  /** The physical bytes behind n virtual bytes. */
  ghost function Image(phys: Translation, address: nat, n: nat): (r: seq<nat>)
    ensures |r| == n
  {
    seq(n, i requires 0 <= i < n => Physical(phys, address, i))
  }

  /** The physical bytes an entry describes, and those of a table, in the order of the transfer. */
  function Bytes(e: PrdtEntry): nat { e.dataByteCount + 1 }

  function Range(start: nat, n: nat): (r: seq<nat>)
    ensures |r| == n
  {
    seq(n, i requires 0 <= i < n => start + i)
  }

  function DeviceBytes(es: seq<PrdtEntry>): seq<nat> {
    if es == [] then [] else DeviceBytes(es[..|es| - 1]) + Range(es[|es| - 1].dataBase, Bytes(es[|es| - 1]))
  }

  /** What is left of the current page or of the buffer. */
  function Chunk(address: nat, size: nat): (n: nat)
    ensures n <= size && (size > 0 ==> n > 0) && n <= 4096 - address % 4096
    ensures n == size || (address + n) % 4096 == 0
  {
    if size <= 4096 - address % 4096 then size else 4096 - address % 4096
  }

  /** Every page that does not begin a new entry follows its predecessor in physical memory. An entry ends where
      one more chunk would make it 4 MiB or larger; after the last entry nothing more is described. */
  ghost predicate Covers(phys: Translation, address: nat, size: nat, total: nat, index: nat)
    decreases size
  {
    size == 0 ||
    var n := Chunk(address, size);
    if total > 0 && total + n >= 0x40_0000 then
      index + 1 >= ENTRIES || Covers(phys, address + n, size - n, n, index + 1)
    else
      && (total > 0 && address > 0 ==> phys(address - 1) + 1 == phys(address))
      && Covers(phys, address + n, size - n, total + n, index)
  }

  ghost predicate Contiguous(phys: Translation, address: nat, size: nat) {
    forall i: nat {:trigger Physical(phys, address, i)} :: i < size ==> Physical(phys, address, i) == phys(address) + i
  }

  lemma {:induction false} ContiguousIsCovered(phys: Translation, start: nat, done: nat, size: nat, total: nat,
      index: nat)
    requires Contiguous(phys, start, done + size)
    requires total > 0 ==> done > 0
    ensures Covers(phys, start + done, size, total, index)
    decreases size
  {
    if size > 0 {
      var n := Chunk(start + done, size);
      if total > 0 {
        assert Physical(phys, start, done) == phys(start) + done;
        assert Physical(phys, start, done - 1) == phys(start) + (done - 1);
      }
      ContiguousIsCovered(phys, start, done + n, size - n, n, index + 1);
      ContiguousIsCovered(phys, start, done + n, size - n, total + n, index);
      assert start + (done + n) == start + done + n;
    }
  }

  /** The bytes in the first `index` entries of a full table whose buffer begins at offset o of a page. */
  function Filled(o: nat, index: nat): nat {
    if index == 0 || o == 0 then index * 0x3F_F000 else index * 0x3F_F000 + 4096 - o % 4096
  }

  /** How much of a buffer a table can describe. */
  function Consumed(address: nat, size: nat): nat {
    var full := Filled(address % 4096, ENTRIES);
    if size < full + 4096 then size else full
  }

  /** A transfer of whole sectors is cut off inside a sector exactly when the buffer is larger than the table can
      describe and does not begin at a multiple of 512. */
  lemma CutInsideSectorIff(address: nat, size: nat)
    requires size % 512 == 0
    ensures Consumed(address, size) % 512 == 0 <==> size < Filled(address % 4096, ENTRIES) + 4096 || address % 512 == 0
    ensures size > 0 ==> 512 <= Consumed(address, size) < 0x200_0000
  {
    hide Filled;
    FilledTable(address % 4096);
    SectorInPage(address);
  }

  lemma FilledTable(o: nat)
    requires o < 4096
    ensures 0x1FF_8000 <= Filled(o, ENTRIES) <= 0x1FF_9000
    ensures Filled(o, ENTRIES) % 512 == 0 <==> o % 512 == 0
  {
  }

  lemma SectorInPage(address: nat)
    ensures address % 4096 % 512 == address % 512
  {
  }

  lemma ContiguousImage(phys: Translation, address: nat, n: nat)
    requires Contiguous(phys, address, n)
    ensures Image(phys, address, n) == Range(phys(address), n)
  {
  }

  lemma ClosedEntry(o: nat, index: nat, total: nat, n: nat, c: nat)
    requires o < 4096 && n <= 4096 && index < ENTRIES && c == Filled(o, index) + total && (o + c) % 4096 == 0
    requires total < 0x40_0000 <= total + n
    ensures c == Filled(o, index + 1) && (index > 0 ==> n == 4096)
  {
  }

  lemma ImageGrows(phys: Translation, address: nat, c: nat, n: nat)
    requires ByPage(phys) && (address + c) % 4096 + n <= 4096
    ensures Image(phys, address, c + n) == Image(phys, address, c) + Range(phys(address + c), n)
  {
    var image, before, range := Image(phys, address, c + n), Image(phys, address, c), Range(phys(address + c), n);
    forall i | 0 <= i < c + n
      ensures image[i] == (before + range)[i]
    {
      if i >= c {
        assert Physical(phys, address + c, i - c) == phys(address + c) + (i - c);
        assert address + c + (i - c) == address + i;
      }
    }
  }

  lemma RangeGrows(start: nat, n: nat, m: nat)
    ensures Range(start, n + m) == Range(start, n) + Range(start + n, m)
  {
  }

  lemma EntryAppended(es: seq<PrdtEntry>, e: PrdtEntry)
    ensures DeviceBytes(es + [e]) == DeviceBytes(es) + Range(e.dataBase, Bytes(e))
  {
    assert (es + [e])[..|es|] == es;
  }

  lemma EntryExtended(es: seq<PrdtEntry>, e: PrdtEntry, e': PrdtEntry, n: nat)
    requires e'.dataBase == e.dataBase && Bytes(e') == Bytes(e) + n
    ensures DeviceBytes(es + [e']) == DeviceBytes(es + [e]) + Range(e.dataBase + Bytes(e), n)
  {
    EntryAppended(es, e);
    EntryAppended(es, e');
    RangeGrows(e.dataBase, Bytes(e), n);
    var a, b, c := DeviceBytes(es), Range(e.dataBase, Bytes(e)), Range(e.dataBase + Bytes(e), n);
    assert a + (b + c) == (a + b) + c;
  }

  /** The table after the first c bytes of a buffer: index is the entry being filled and covered says that no
      chunk has been skipped so far. */
  ghost predicate Filling(phys: Translation, ptr: nat, c: nat, es: seq<PrdtEntry>, covered: bool) {
    && (es == [] <==> c == 0) && |es| <= ENTRIES
    && (forall k {:trigger es[k]} :: 0 <= k < |es| ==> Bytes(es[k]) < 0x40_0000)
    && (covered ==> DeviceBytes(es) == Image(phys, ptr, c))
    && (covered && c > 0 ==> c == Filled(ptr % 4096, |es| - 1) + Bytes(es[|es| - 1]))
    && (!covered ==> |DeviceBytes(es)| < c)
  }

  /** The next chunk starts an entry, extends the last one, or is skipped. */
  lemma FillingStarts(phys: Translation, ptr: nat, c: nat, es: seq<PrdtEntry>, covered: bool, n: nat)
    requires ByPage(phys) && Filling(phys, ptr, c, es, covered) && |es| < ENTRIES
    requires 0 < n <= 4096 - (ptr + c) % 4096
    requires covered ==> c == Filled(ptr % 4096, |es|)
    ensures Filling(phys, ptr, c + n, es + [PrdtEntry(phys(ptr + c), n - 1)], covered)
  {
    EntryAppended(es, PrdtEntry(phys(ptr + c), n - 1));
    ImageGrows(phys, ptr, c, n);
  }

  lemma FillingExtends(phys: Translation, ptr: nat, c: nat, es: seq<PrdtEntry>, e: PrdtEntry, covered: bool, n: nat)
    requires ByPage(phys) && Filling(phys, ptr, c, es + [e], covered)
    requires 0 < n <= 4096 - (ptr + c) % 4096 && Bytes(e) + n < 0x40_0000
    requires covered ==> phys(ptr + c - 1) + 1 == phys(ptr + c)
    ensures Filling(phys, ptr, c + n, es + [e.(dataByteCount := e.dataByteCount + n)], covered)
  {
    var e' := e.(dataByteCount := e.dataByteCount + n);
    EntryExtended(es, e, e', n);
    EntryAppended(es, e);
    ImageGrows(phys, ptr, c, n);
    if covered {
      assert Image(phys, ptr, c)[c - 1] == phys(ptr + c - 1);
      assert Range(e.dataBase, Bytes(e))[Bytes(e) - 1] == e.dataBase + Bytes(e) - 1;
      assert (DeviceBytes(es) + Range(e.dataBase, Bytes(e)))[c - 1] == e.dataBase + Bytes(e) - 1;
    }
  }

  lemma FillingSkips(phys: Translation, ptr: nat, c: nat, es: seq<PrdtEntry>, covered: bool, n: nat)
    requires Filling(phys, ptr, c, es, covered) && 0 < n && es != []
    ensures Filling(phys, ptr, c + n, es, false)
  {
  }

  /** The last byte of a chunk lies in the same physical page as the first. */
  lemma SamePage(phys: Translation, address: nat, n: nat)
    requires ByPage(phys) && 0 < n <= 4096 - address % 4096
    ensures PageStart(phys(address + n - 1)) == PageStart(phys(address))
  {
    assert Physical(phys, address, n - 1) == phys(address) + (n - 1);
  }

  function PageStart(a: nat): nat { a - a % 4096 }

  /** The source's test for adjacency, at the beginning of a page. */
  lemma AdjacentIff(phys: Translation, address: nat, lastPhysical: nat)
    requires ByPage(phys) && address > 0 && address % 4096 == 0
        && PageStart(phys(address - 1)) == PageStart(lastPhysical)
    ensures PageStart(lastPhysical) + 4096 == phys(address) <==> phys(address - 1) + 1 == phys(address)
  {
    assert phys(address - 1) % 4096 == (address - 1) % 4096 == 4095;
  }

  function Index(es: seq<PrdtEntry>): nat { if es == [] then 0 else |es| - 1 }

  function Total(es: seq<PrdtEntry>): nat { if es == [] then 0 else Bytes(es[|es| - 1]) }

  ghost predicate AllEven(es: seq<PrdtEntry>) {
    forall k {:trigger es[k]} :: 0 <= k < |es| ==> Bytes(es[k]) % 2 == 0
  }

  /** After the first chunk the next one begins a page, and the last one ended in the page of last. */
  ghost predicate AtPage(phys: Translation, address: nat, size: nat, last: nat, es: seq<PrdtEntry>) {
    es != [] && size > 0 ==>
      address % 4096 == 0 && address > 0 && PageStart(phys(address - 1)) == PageStart(last)
          && es[|es| - 1].dataByteCount % 2 == 1
  }

  /** The whole buffer is covered exactly if no chunk has been skipped and the rest will be covered. */
  ghost predicate Accounts(phys: Translation, ptr: nat, bytes: nat, address: nat, size: nat, es: seq<PrdtEntry>,
      covered: bool) {
    Covers(phys, ptr, bytes, 0, 0) <==> covered && Covers(phys, address, size, Total(es), Index(es))
  }

  /** What holds when the chunk at address is next and size of the `bytes` bytes are left. */
  ghost predicate Progress(phys: Translation, ptr: nat, bytes: nat, address: nat, size: nat, last: nat,
      es: seq<PrdtEntry>, covered: bool) {
    && ptr <= address && address + size == ptr + bytes && Filling(phys, ptr, address - ptr, es, covered)
    && AtPage(phys, address, size, last, es) && Accounts(phys, ptr, bytes, address, size, es, covered)
  }

  lemma EntryCloses(ptr: nat, index: nat, total: nat, n: nat, c: nat)
    requires c == Filled(ptr % 4096, index) + total && (ptr + c) % 4096 == 0
    requires index < ENTRIES && n <= 4096 && total < 0x40_0000 <= total + n
    ensures c == Filled(ptr % 4096, index + 1) && (index > 0 ==> n == 4096)
  {
    assert (ptr % 4096 + c) % 4096 == 0;
    ClosedEntry(ptr % 4096, index, total, n, c);
  }

  lemma CompleteWithin(ptr: nat, bytes: nat, index: nat, total: nat)
    requires bytes == Filled(ptr % 4096, index) + total && index < ENTRIES && total < 0x40_0000
    ensures bytes == Consumed(ptr, bytes)
  {
  }

  lemma CompleteAtCapacity(ptr: nat, bytes: nat, c: nat)
    requires c == Filled(ptr % 4096, ENTRIES) && bytes >= c + 4096
    ensures c == Consumed(ptr, bytes)
  {
  }

  lemma ChunkIsEven(address: nat, size: nat)
    requires address % 2 == 0 && Chunk(address, size) < size
    ensures Chunk(address, size) % 2 == 0 && (address + Chunk(address, size)) % 4096 == 0
  {
    var k, h := address / 4096, address / 2;
    assert address == 2 * h;
    OffsetIsEven(k, h, address % 4096);
    EndOfPage(k, address % 4096);
  }

  lemma OffsetIsEven(k: nat, h: nat, o: nat)
    requires 2 * h == 4096 * k + o && o < 4096
    ensures (4096 - o) % 2 == 0
  {
    assert 4096 - o == 2 * (2048 + 2048 * k - h);
  }

  lemma EndOfPage(k: nat, o: nat)
    requires o < 4096
    ensures (4096 * k + o + (4096 - o)) % 4096 == 0
  {
  }

  lemma PageStartIsEven(address: nat)
    ensures address % 4096 == 0 ==> address % 2 == 0
  {
  }

  lemma AccountsStart(phys: Translation, ptr: nat, bytes: nat, a: nat, size: nat, es: seq<PrdtEntry>, covered: bool,
      n: nat, e: PrdtEntry)
    requires Accounts(phys, ptr, bytes, a, size, es, covered) && size > 0 && n == Chunk(a, size) && Bytes(e) == n
    requires |es| < ENTRIES && (es == [] || Total(es) + n >= 0x40_0000)
    ensures Accounts(phys, ptr, bytes, a + n, size - n, es + [e], covered)
  {
    assert Covers(phys, a, size, Total(es), Index(es)) == Covers(phys, a + n, size - n, n, |es|);
  }

  lemma AccountsExtend(phys: Translation, ptr: nat, bytes: nat, a: nat, size: nat, es: seq<PrdtEntry>, e: PrdtEntry,
      e': PrdtEntry, covered: bool, n: nat)
    requires Accounts(phys, ptr, bytes, a, size, es + [e], covered) && size > 0 && a > 0 && n == Chunk(a, size)
    requires Bytes(e') == Bytes(e) + n < 0x40_0000 && phys(a - 1) + 1 == phys(a)
    ensures Accounts(phys, ptr, bytes, a + n, size - n, es + [e'], covered)
  {
    assert Covers(phys, a, size, Bytes(e), |es|) == Covers(phys, a + n, size - n, Bytes(e) + n, |es|);
  }

  lemma AccountsSkip(phys: Translation, ptr: nat, bytes: nat, a: nat, size: nat, es: seq<PrdtEntry>, covered: bool,
      n: nat)
    requires Accounts(phys, ptr, bytes, a, size, es, covered) && size > 0 && a > 0 && n == Chunk(a, size) && es != []
    requires Total(es) + n < 0x40_0000 && phys(a - 1) + 1 != phys(a)
    ensures Accounts(phys, ptr, bytes, a + n, size - n, es, false)
  {
  }

  /** Where the next chunk begins. */
  lemma NextChunk(phys: Translation, ptr: nat, a: nat, size: nat, n: nat, es: seq<PrdtEntry>)
    requires ByPage(phys) && ptr % 2 == 0 && (a == ptr || a % 4096 == 0) && size > 0 && n == Chunk(a, size)
    requires n % 2 == 0 && es != [] ==> es[|es| - 1].dataByteCount % 2 == 1
    ensures AtPage(phys, a + n, size - n, phys(a), es)
  {
    SamePage(phys, a, n);
    PageStartIsEven(a);
    if n < size {
      ChunkIsEven(a, size);
    }
  }

  lemma EvenAndOdd(n: nat, d: nat)
    requires n > 0
    ensures n % 2 == 0 ==> (n - 1) % 2 == 1
    ensures n % 2 == 0 && d % 2 == 1 ==> (d + n) % 2 == 1
  {
  }

  lemma ProgressStarts(phys: Translation, ptr: nat, bytes: nat, a: nat, size: nat, last: nat, es: seq<PrdtEntry>,
      covered: bool, n: nat)
    requires ByPage(phys) && ptr % 2 == 0 && Progress(phys, ptr, bytes, a, size, last, es, covered) && 0 < size
        && |es| < ENTRIES
    requires n == Chunk(a, size) && (es == [] || Total(es) + n >= 0x40_0000)
    ensures Progress(phys, ptr, bytes, a + n, size - n, phys(a), es + [PrdtEntry(phys(a), n - 1)], covered)
  {
    hide Accounts;
    if covered && es != [] {
      EntryCloses(ptr, |es| - 1, Total(es), n, a - ptr);
    }
    FillingStarts(phys, ptr, a - ptr, es, covered, n);
    EvenAndOdd(n, 0);
    NextChunk(phys, ptr, a, size, n, es + [PrdtEntry(phys(a), n - 1)]);
    AccountsStart(phys, ptr, bytes, a, size, es, covered, n, PrdtEntry(phys(a), n - 1));
  }

  lemma ProgressExtends(phys: Translation, ptr: nat, bytes: nat, a: nat, size: nat, last: nat, es: seq<PrdtEntry>,
      e: PrdtEntry, covered: bool, n: nat)
    requires ByPage(phys) && ptr % 2 == 0 && Progress(phys, ptr, bytes, a, size, last, es + [e], covered) && 0 < size
    requires n == Chunk(a, size) && Bytes(e) + n < 0x40_0000 && PageStart(last) + 4096 == phys(a)
    ensures Progress(phys, ptr, bytes, a + n, size - n, phys(a), es + [e.(dataByteCount := e.dataByteCount + n)],
        covered)
  {
    hide Filling, Accounts;
    var e' := e.(dataByteCount := e.dataByteCount + n);
    AdjacentIff(phys, a, last);
    FillingExtends(phys, ptr, a - ptr, es, e, covered, n);
    EvenAndOdd(n, e.dataByteCount);
    NextChunk(phys, ptr, a, size, n, es + [e']);
    AccountsExtend(phys, ptr, bytes, a, size, es, e, e', covered, n);
  }

  lemma ProgressSkips(phys: Translation, ptr: nat, bytes: nat, a: nat, size: nat, last: nat, es: seq<PrdtEntry>,
      covered: bool, n: nat)
    requires ByPage(phys) && ptr % 2 == 0 && Progress(phys, ptr, bytes, a, size, last, es, covered) && 0 < size
        && es != []
    requires n == Chunk(a, size) && Total(es) + n < 0x40_0000 && PageStart(last) + 4096 != phys(a)
    ensures Progress(phys, ptr, bytes, a + n, size - n, phys(a), es, false)
  {
    hide Filling, Accounts;
    AdjacentIff(phys, a, last);
    FillingSkips(phys, ptr, a - ptr, es, covered, n);
    NextChunk(phys, ptr, a, size, n, es);
    AccountsSkip(phys, ptr, bytes, a, size, es, covered, n);
  }

  /** The table is complete: all bytes are done, or no entry is left for the next chunk. */
  lemma ProgressEnds(phys: Translation, ptr: nat, bytes: nat, a: nat, size: nat, last: nat, es: seq<PrdtEntry>,
      covered: bool)
    requires ByPage(phys) && Progress(phys, ptr, bytes, a, size, last, es, covered) && bytes > 0
    requires size == 0 || (|es| == ENTRIES && Total(es) + Chunk(a, size) >= 0x40_0000)
    ensures DeviceBytes(es) == Image(phys, ptr, bytes - size) <==> Covers(phys, ptr, bytes, 0, 0)
    ensures Covers(phys, ptr, bytes, 0, 0) ==> bytes - size == Consumed(ptr, bytes)
    ensures 1 <= |es| <= ENTRIES && forall k {:trigger es[k]} :: 0 <= k < |es| ==> Bytes(es[k]) < 0x40_0000
  {
    if covered && size > 0 {
      EntryCloses(ptr, |es| - 1, Total(es), Chunk(a, size), a - ptr);
      CompleteAtCapacity(ptr, bytes, a - ptr);
    } else if covered {
      CompleteWithin(ptr, bytes, |es| - 1, Total(es));
    }
  }

  /** The table holds es, and its other entries are unused. */
  ghost predicate Holds(table: seq<PrdtEntry>, es: seq<PrdtEntry>) {
    && |es| <= |table|
    && (forall k {:trigger es[k]} :: 0 <= k < |es| ==> es[k] == table[k])
    && (forall k {:trigger table[k]} :: |es| <= k < |table| ==> table[k].dataByteCount == 0)
  }

  lemma HoldsPrefix(table: seq<PrdtEntry>, es: seq<PrdtEntry>)
    requires Holds(table, es)
    ensures table[..|es|] == es
  {
  }

  lemma LastIsOdd(phys: Translation, ptr: nat, bytes: nat, a: nat, size: nat, last: nat, es: seq<PrdtEntry>,
      covered: bool)
    requires Progress(phys, ptr, bytes, a, size, last, es, covered) && size > 0
    ensures es != [] ==> es[|es| - 1].dataByteCount % 2 == 1
  {
  }

  lemma ProgressBegins(phys: Translation, ptr: nat, bytes: nat)
    requires ByPage(phys)
    ensures Progress(phys, ptr, bytes, ptr, bytes, 0, [], true)
  {
  }

  /** The table after one more chunk, if there is an entry for it. */
  function Next(es: seq<PrdtEntry>, physical: nat, n: nat, last: nat): seq<PrdtEntry>
    requires 0 < n <= 4096
  {
    if es == [] || Total(es) + n >= 0x40_0000 then es + [PrdtEntry(physical, n - 1)]
    else if PageStart(last) + 4096 == physical then
      es[..|es| - 1] + [es[|es| - 1].(dataByteCount := es[|es| - 1].dataByteCount + n)]
    else es
  }

  ghost predicate EvenSoFar(ptr: nat, bytes: nat, address: nat, size: nat, es: seq<PrdtEntry>) {
    ptr % 2 == 0 && bytes % 2 == 0 && address + size == ptr + bytes ==> size % 2 == 0 && AllEven(es)
  }

  lemma EvenSteps(ptr: nat, bytes: nat, a: nat, size: nat, es: seq<PrdtEntry>, physical: nat, last: nat, n: nat)
    requires ptr % 2 == 0 && a + size == ptr + bytes && EvenSoFar(ptr, bytes, a, size, es) && size > 0
        && n == Chunk(a, size)
    ensures EvenSoFar(ptr, bytes, a + n, size - n, Next(es, physical, n, last))
  {
    hide AllEven, Chunk, Next;
    if bytes % 2 == 0 {
      if n < size {
        ChunkIsEven(a, size);
      }
      NextIsEven(es, physical, n, last);
    }
  }

  lemma NextIsEven(es: seq<PrdtEntry>, physical: nat, n: nat, last: nat)
    requires AllEven(es) && n % 2 == 0 && 0 < n <= 4096
    ensures AllEven(Next(es, physical, n, last))
  {
  }

  lemma ProgressSteps(phys: Translation, ptr: nat, bytes: nat, a: nat, size: nat, last: nat, es: seq<PrdtEntry>,
      covered: bool, n: nat, a': nat, size': nat, es': seq<PrdtEntry>)
    returns (covered': bool)
    requires ByPage(phys) && ptr % 2 == 0 && Progress(phys, ptr, bytes, a, size, last, es, covered) && 0 < size
    requires n == Chunk(a, size) && (|es| < ENTRIES || Total(es) + n < 0x40_0000)
    requires a' == a + n && size' == size - n && es' == Next(es, phys(a), n, last)
    ensures Progress(phys, ptr, bytes, a', size', phys(a), es', covered')
  {
    hide Filling, AtPage, Accounts;
    covered' := covered;
    if es == [] || Total(es) + n >= 0x40_0000 {
      ProgressStarts(phys, ptr, bytes, a, size, last, es, covered, n);
    } else if PageStart(last) + 4096 == phys(a) {
      NextExtends(es, phys(a), n, last);
      ProgressExtends(phys, ptr, bytes, a, size, last, es[..|es| - 1], es[|es| - 1], covered, n);
    } else {
      ProgressSkips(phys, ptr, bytes, a, size, last, es, covered, n);
      covered' := false;
    }
  }

  lemma NextExtends(es: seq<PrdtEntry>, physical: nat, n: nat, last: nat)
    requires es != [] && 0 < n <= 4096 && Total(es) + n < 0x40_0000 && PageStart(last) + 4096 == physical
    ensures var front, e := es[..|es| - 1], es[|es| - 1];
            front + [e] == es && Next(es, physical, n, last) == front + [e.(dataByteCount := e.dataByteCount + n)]
  {
  }

  class CommandTable {
    var prdtEntries: array<PrdtEntry>

    constructor ()
      ensures prdtEntries.Length == ENTRIES && fresh(prdtEntries)
    {
      prdtEntries := new PrdtEntry[ENTRIES](_ => PrdtEntry(0, 0));
    }

    /** One round of the loop of createPrdt: the chunk goes into entry i or begins the next one. */
    method AddChunk(i: nat, physical: nat, n: nat, last: nat, ghost es: seq<PrdtEntry>) returns (j: nat)
      requires prdtEntries.Length == ENTRIES && 0 < n <= 4096 && i == Index(es) && i < ENTRIES
      requires Holds(prdtEntries[..], es) && (es != [] ==> es[|es| - 1].dataByteCount != 0)
      modifies prdtEntries
      ensures j == ENTRIES ==> prdtEntries[..] == old(prdtEntries[..]) && |es| == ENTRIES && Total(es) + n >= 0x40_0000
      ensures j != ENTRIES ==> j < ENTRIES && (|es| < ENTRIES || Total(es) + n < 0x40_0000)
      ensures j != ENTRIES ==>
                j == Index(Next(es, physical, n, last)) && Holds(prdtEntries[..], Next(es, physical, n, last))
    {
      j := i;
      if prdtEntries[j].dataByteCount != 0 {
        if prdtEntries[j].dataByteCount + n >= 0x40_0000 - 1 {
          j := j + 1;
          if j >= ENTRIES {
            return;
          }
        } else if PageStart(last) + 4096 == physical {
          prdtEntries[j] := prdtEntries[j].(dataByteCount := prdtEntries[j].dataByteCount + n);
        }
      }
      if prdtEntries[j].dataByteCount == 0 {
        prdtEntries[j] := PrdtEntry(physical, n - 1);
      }
    }

    /** Describes as much of the buffer as the entries can hold and returns how many are used and how many bytes
        are left over. */
    method CreatePrdt(ptr: nat, bytes: nat, phys: Translation) returns (count: nat, size: nat)
      requires prdtEntries.Length == ENTRIES && ByPage(phys) && ptr % 2 == 0
      modifies prdtEntries
      ensures 1 <= count <= ENTRIES && size <= bytes
      ensures forall k {:trigger prdtEntries[k]} :: 0 <= k < count && bytes > 0 ==> Bytes(prdtEntries[k]) < 0x40_0000
      ensures bytes > 0 ==> (DeviceBytes(prdtEntries[..count]) == Image(phys, ptr, bytes - size) <==>
          Covers(phys, ptr, bytes, 0, 0))
      ensures bytes > 0 && bytes % 2 == 0 ==> AllEven(prdtEntries[..count])
      ensures Covers(phys, ptr, bytes, 0, 0) ==> bytes - size == Consumed(ptr, bytes)
    {
      hide Filling, AtPage, Accounts;
      var address := ptr;
      var i := 0;
      size := bytes;
      ProgressBegins(phys, ptr, bytes);
      forall k | 0 <= k < ENTRIES {
        prdtEntries[k] := PrdtEntry(0, 0);
      }
      var lastPhysical := 0;
      ghost var covered, es := true, [];
      while size > 0
        invariant Progress(phys, ptr, bytes, address, size, lastPhysical, es, covered)
        invariant EvenSoFar(ptr, bytes, address, size, es)
        invariant i == Index(es) && i < ENTRIES && Holds(prdtEntries[..], es)
      {
        var physical := phys(address);
        var n := Chunk(address, size);
        LastIsOdd(phys, ptr, bytes, address, size, lastPhysical, es, covered);
        i := AddChunk(i, physical, n, lastPhysical, es);
        if i >= ENTRIES {
          ProgressEnds(phys, ptr, bytes, address, size, lastPhysical, es, covered);
          HoldsPrefix(prdtEntries[..], es);
          return i, size;
        }
        EvenSteps(ptr, bytes, address, size, es, physical, lastPhysical, n);
        ghost var a, rest, es' := address, size, Next(es, physical, n, lastPhysical);
        address := address + n;
        size := size - n;
        covered := ProgressSteps(phys, ptr, bytes, a, rest, lastPhysical, es, covered, n, address, size, es');
        es := es';
        lastPhysical := physical;
      }
      if bytes > 0 {
        ProgressEnds(phys, ptr, bytes, address, size, lastPhysical, es, covered);
        HoldsPrefix(prdtEntries[..], es);
      }
      return i + 1, size;
    }
  }
}

/** The kernel heap for requests that, with their header, take more than half a page: an address-ordered doubly
    linked list of headers, each at the start of the pages of its block. */
module Heap {
  import opened Wrappers

  /** A header: the size of the block with its header, and the addresses of the neighbours or 0. */
  datatype PointerData = PointerData(size: nat, nextVirtual: nat, prevVirtual: nat)

  type Headers = map<nat, PointerData>

  const HEADER := 24
  const HEAP_START := 0x5000_0000_0000

  /** The least multiple of the page size that is at least n, by counting pages. */
  function RoundUp(n: nat): (r: nat)
    ensures n <= r < n + 0x1000
  {
    if n == 0 then 0 else if n <= 0x1000 then 0x1000 else 0x1000 + RoundUp(n - 0x1000)
  }

  lemma {:induction false} RoundUpIsQuotient(n: nat)
    ensures RoundUp(n) == (n + 0xFFF) / 0x1000 * 0x1000
  {
    if n > 0x1000 {
      RoundUpIsQuotient(n - 0x1000);
    }
  }

  /** A block as the list should describe it; its pages are the addresses from start up to Above(). */
  datatype Block = Block(start: nat, size: nat) {
    function Above(): nat { RoundUp(start + size) }
  }

  /** Blocks lie in address order, at least at the start of the heap, begin at pages and share none. */
  ghost predicate Ordered(blocks: seq<Block>) {
    && (forall i {:trigger blocks[i]} :: 0 <= i < |blocks| ==> blocks[i].start >= HEAP_START && blocks[i].size > HEADER)
    && (forall i, j {:trigger blocks[i], blocks[j]} :: 0 <= i < j < |blocks| ==> blocks[i].Above() <= blocks[j].start)
  }

  /** The address of the header before index 0 is that of the dummy, and after the last it is 0. */
  function Address(dummy: nat, blocks: seq<Block>, i: int): nat {
    if i < 0 then dummy else if i < |blocks| then blocks[i].start else 0
  }

  /** The header at index i is linked to both its neighbours. */
  ghost predicate LinkAt(nodes: Headers, dummy: nat, blocks: seq<Block>, i: int) {
    var a := Address(dummy, blocks, i);
    && a in nodes && nodes[a].nextVirtual == Address(dummy, blocks, i + 1)
    && (0 <= i < |blocks| ==> nodes[a].prevVirtual == Address(dummy, blocks, i - 1) && nodes[a].size == blocks[i].size)
  }

  ghost predicate Linked(nodes: Headers, dummy: nat, blocks: seq<Block>) {
    forall i {:trigger LinkAt(nodes, dummy, blocks, i)} :: -1 <= i < |blocks| ==> LinkAt(nodes, dummy, blocks, i)
  }

  lemma AddressesDiffer(dummy: nat, blocks: seq<Block>, i: int, j: int)
    requires Ordered(blocks) && 0 < dummy < HEAP_START && -1 <= i < |blocks| && -1 <= j < |blocks| && i != j
    ensures Address(dummy, blocks, i) != Address(dummy, blocks, j) && Address(dummy, blocks, i) > 0
  {
    if 0 <= i < j {
      assert blocks[i].Above() <= blocks[j].start;
    } else if 0 <= j < i {
      assert blocks[j].Above() <= blocks[i].start;
    }
  }

  // ----- Insertion and removal as functions on headers -----

  function Inserted(blocks: seq<Block>, i: nat, b: Block): seq<Block>
    requires i <= |blocks|
  {
    blocks[..i] + [b] + blocks[i..]
  }

  function Removed(blocks: seq<Block>, i: nat): seq<Block>
    requires i < |blocks|
  {
    blocks[..i] + blocks[i + 1..]
  }

  /** The new header and the links of its neighbours; before and after are the addresses of these. */
  function LinkIn(nodes: Headers, before: nat, after: nat, b: Block): Headers
    requires before in nodes && (after != 0 ==> after in nodes)
  {
    var n1 := nodes[b.start := PointerData(b.size, after, before)];
    var n2 := if after != 0 then n1[after := n1[after].(prevVirtual := b.start)] else n1;
    n2[before := n2[before].(nextVirtual := b.start)]
  }

  lemma LinkInLookup(nodes: Headers, before: nat, after: nat, b: Block, x: nat)
    requires before in nodes && (after != 0 ==> after in nodes) && before != after && b.start != before
        && b.start != after
    ensures var n := LinkIn(nodes, before, after, b);
            if x == b.start then x in n && n[x] == PointerData(b.size, after, before)
            else if x == before then x in n && n[x] == nodes[x].(nextVirtual := b.start)
            else if x == after && x != 0 then x in n && n[x] == nodes[x].(prevVirtual := b.start)
            else (x in n <==> x in nodes) && (x in n ==> n[x] == nodes[x])
  {
  }

  /** The neighbours of the header at a are linked to each other and a to none. */
  function LinkOut(nodes: Headers, a: nat): Headers
    requires a in nodes && (nodes[a].nextVirtual != 0 ==> nodes[a].nextVirtual in nodes)
        && (nodes[a].prevVirtual != 0 ==> nodes[a].prevVirtual in nodes)
  {
    var d := nodes[a];
    var n1 := if d.nextVirtual != 0 then nodes[d.nextVirtual := nodes[d.nextVirtual].(prevVirtual := d.prevVirtual)]
        else nodes;
    var n2 := if d.prevVirtual != 0 then n1[d.prevVirtual := n1[d.prevVirtual].(nextVirtual := d.nextVirtual)] else n1;
    n2[a := PointerData(d.size, 0, 0)]
  }

  lemma LinkOutLookup(nodes: Headers, a: nat, x: nat)
    requires a in nodes && (nodes[a].nextVirtual != 0 ==> nodes[a].nextVirtual in nodes)
        && nodes[a].prevVirtual in nodes
    requires nodes[a].prevVirtual != 0 && nodes[a].prevVirtual != nodes[a].nextVirtual && nodes[a].prevVirtual != a
        && nodes[a].nextVirtual != a
    ensures var n, d := LinkOut(nodes, a), nodes[a];
            if x == a then x in n && n[x] == PointerData(d.size, 0, 0)
            else if x == d.prevVirtual then x in n && n[x] == nodes[x].(nextVirtual := d.nextVirtual)
            else if x == d.nextVirtual && x != 0 then x in n && n[x] == nodes[x].(prevVirtual := d.prevVirtual)
            else (x in n <==> x in nodes) && (x in n ==> n[x] == nodes[x])
  {
  }

  /** b fits between the blocks at index i - 1 and i. */
  ghost predicate FitsAt(blocks: seq<Block>, i: nat, b: Block) {
    && i <= |blocks| && b.start >= HEAP_START && b.size > HEADER
    && (i > 0 ==> blocks[i - 1].Above() <= b.start) && (i < |blocks| ==> b.Above() <= blocks[i].start)
  }

  lemma InsertedIsOrdered(blocks: seq<Block>, i: nat, b: Block)
    requires Ordered(blocks) && FitsAt(blocks, i, b)
    ensures Ordered(Inserted(blocks, i, b))
  {
    var blocks' := Inserted(blocks, i, b);
    forall j, k {:trigger blocks'[j], blocks'[k]} | 0 <= j < k < |blocks'|
      ensures blocks'[j].Above() <= blocks'[k].start
    {
      if k == i {
        assert blocks[j].Above() <= blocks[i - 1].Above();
      } else if j == i {
        assert blocks[i].start <= blocks[k - 1].start;
      }
    }
  }

  lemma InsertedAddress(dummy: nat, blocks: seq<Block>, i: nat, b: Block, j: int)
    requires i <= |blocks| && -2 <= j <= |blocks| + 1
    ensures Address(dummy, Inserted(blocks, i, b), j)
         == if j == i then b.start else Address(dummy, blocks, if j < i then j else j - 1)
  {
  }

  /** What LinkIn leaves at the header of new index j. */
  lemma InsertedFrom(nodes: Headers, dummy: nat, blocks: seq<Block>, i: nat, b: Block, j: int)
    requires 0 < dummy < HEAP_START && i <= |blocks| && Ordered(Inserted(blocks, i, b)) && -1 <= j <= |blocks|
    requires Address(dummy, blocks, i - 1) in nodes && (i < |blocks| ==> Address(dummy, blocks, i) in nodes)
    requires j != i ==> Address(dummy, blocks, if j < i then j else j - 1) in nodes
    ensures var before, after, x := Address(dummy, blocks, i - 1), Address(dummy, blocks, i), if j == i then b.start
        else Address(dummy, blocks, if j < i then j else j - 1);
            (after != 0 ==> after in nodes) &&
            var n := LinkIn(nodes, before, after, b);
            x in n && n[x] == (if j == i then PointerData(b.size, after, before)
                               else if j == i - 1 then nodes[x].(nextVirtual := b.start)
                               else if j == i + 1 then nodes[x].(prevVirtual := b.start) else nodes[x])
  {
    var blocks' := Inserted(blocks, i, b);
    InsertedAddress(dummy, blocks, i, b, i - 1);
    InsertedAddress(dummy, blocks, i, b, i);
    InsertedAddress(dummy, blocks, i, b, i + 1);
    InsertedAddress(dummy, blocks, i, b, j);
    AddressesDiffer(dummy, blocks', i, i - 1);
    if j != i { AddressesDiffer(dummy, blocks', j, i); }
    if j != i - 1 { AddressesDiffer(dummy, blocks', j, i - 1); }
    if i < |blocks| {
      AddressesDiffer(dummy, blocks', i, i + 1);
      AddressesDiffer(dummy, blocks', i - 1, i + 1);
      if j != i + 1 { AddressesDiffer(dummy, blocks', j, i + 1); }
    }
    LinkInLookup(nodes, Address(dummy, blocks, i - 1), Address(dummy, blocks, i), b, Address(dummy, blocks', j));
  }

  lemma InsertedLinkAt(nodes: Headers, dummy: nat, blocks: seq<Block>, i: nat, b: Block, j: int)
    requires 0 < dummy < HEAP_START && i <= |blocks| && Ordered(Inserted(blocks, i, b)) && -1 <= j <= |blocks|
    requires LinkAt(nodes, dummy, blocks, i - 1) && (i < |blocks| ==> LinkAt(nodes, dummy, blocks, i))
    requires j < i ==> LinkAt(nodes, dummy, blocks, j)
    requires j > i ==> LinkAt(nodes, dummy, blocks, j - 1)
    ensures Address(dummy, blocks, i) != 0 ==> Address(dummy, blocks, i) in nodes
    ensures LinkAt(LinkIn(nodes, Address(dummy, blocks, i - 1), Address(dummy, blocks, i), b), dummy,
        Inserted(blocks, i, b), j)
  {
    InsertedFrom(nodes, dummy, blocks, i, b, j);
    InsertedAddress(dummy, blocks, i, b, j - 1);
    InsertedAddress(dummy, blocks, i, b, j);
    InsertedAddress(dummy, blocks, i, b, j + 1);
  }

  lemma InsertedIsLinked(nodes: Headers, dummy: nat, blocks: seq<Block>, i: nat, b: Block)
    requires 0 < dummy < HEAP_START && Ordered(blocks) && FitsAt(blocks, i, b) && Linked(nodes, dummy, blocks)
    ensures Address(dummy, blocks, i - 1) in nodes
    ensures Address(dummy, blocks, i) != 0 ==> Address(dummy, blocks, i) in nodes
    ensures Linked(LinkIn(nodes, Address(dummy, blocks, i - 1), Address(dummy, blocks, i), b), dummy,
        Inserted(blocks, i, b))
  {
    assert LinkAt(nodes, dummy, blocks, i - 1);
    assert i < |blocks| ==> LinkAt(nodes, dummy, blocks, i);
    InsertedIsOrdered(blocks, i, b);
    var blocks' := Inserted(blocks, i, b);
    var nodes' := LinkIn(nodes, Address(dummy, blocks, i - 1), Address(dummy, blocks, i), b);
    forall j {:trigger LinkAt(nodes', dummy, blocks', j)} | -1 <= j <= |blocks|
      ensures LinkAt(nodes', dummy, blocks', j)
    {
      assert j < i ==> LinkAt(nodes, dummy, blocks, j);
      assert j > i ==> LinkAt(nodes, dummy, blocks, j - 1);
      InsertedLinkAt(nodes, dummy, blocks, i, b, j);
    }
  }

  lemma RemovedAddress(dummy: nat, blocks: seq<Block>, i: nat, j: int)
    requires i < |blocks| && -2 <= j <= |blocks|
    ensures Address(dummy, Removed(blocks, i), j) == Address(dummy, blocks, if j < i then j else j + 1)
  {
  }

  /** The headers before and after the removed one, and any other. */
  lemma RemovedBefore(nodes: Headers, dummy: nat, blocks: seq<Block>, i: nat)
    requires 0 < dummy < HEAP_START && i < |blocks| && Ordered(blocks)
    requires LinkAt(nodes, dummy, blocks, i - 1) && LinkAt(nodes, dummy, blocks, i) && (i + 1 < |blocks| ==>
        LinkAt(nodes, dummy, blocks, i + 1))
    ensures LinkAt(LinkOut(nodes, Address(dummy, blocks, i)), dummy, Removed(blocks, i), i - 1)
  {
    RemovedAddress(dummy, blocks, i, i - 2);
    RemovedAddress(dummy, blocks, i, i - 1);
    RemovedAddress(dummy, blocks, i, i);
    RemovedFrom(nodes, dummy, blocks, i, i - 1);
  }

  lemma RemovedAfter(nodes: Headers, dummy: nat, blocks: seq<Block>, i: nat)
    requires 0 < dummy < HEAP_START && i + 1 < |blocks| && Ordered(blocks)
    requires LinkAt(nodes, dummy, blocks, i - 1) && LinkAt(nodes, dummy, blocks, i)
        && LinkAt(nodes, dummy, blocks, i + 1)
    ensures LinkAt(LinkOut(nodes, Address(dummy, blocks, i)), dummy, Removed(blocks, i), i)
  {
    RemovedAddress(dummy, blocks, i, i - 1);
    RemovedAddress(dummy, blocks, i, i);
    RemovedAddress(dummy, blocks, i, i + 1);
    RemovedFrom(nodes, dummy, blocks, i, i + 1);
  }

  lemma RemovedElsewhere(nodes: Headers, dummy: nat, blocks: seq<Block>, i: nat, k: int)
    requires 0 < dummy < HEAP_START && i < |blocks| && Ordered(blocks) && -1 <= k < |blocks| && (k < i - 1 || k > i + 1)
    requires LinkAt(nodes, dummy, blocks, i - 1) && LinkAt(nodes, dummy, blocks, i) && (i + 1 < |blocks| ==>
        LinkAt(nodes, dummy, blocks, i + 1))
    requires LinkAt(nodes, dummy, blocks, k)
    ensures LinkAt(LinkOut(nodes, Address(dummy, blocks, i)), dummy, Removed(blocks, i), if k < i then k else k - 1)
  {
    var j := if k < i then k else k - 1;
    RemovedAddress(dummy, blocks, i, j - 1);
    RemovedAddress(dummy, blocks, i, j);
    RemovedAddress(dummy, blocks, i, j + 1);
    RemovedFrom(nodes, dummy, blocks, i, k);
  }

  /** What LinkOut leaves at the header of index k. */
  lemma RemovedFrom(nodes: Headers, dummy: nat, blocks: seq<Block>, i: nat, k: int)
    requires 0 < dummy < HEAP_START && i < |blocks| && Ordered(blocks) && -1 <= k < |blocks| && k != i
    requires LinkAt(nodes, dummy, blocks, i - 1) && LinkAt(nodes, dummy, blocks, i) && (i + 1 < |blocks| ==>
        LinkAt(nodes, dummy, blocks, i + 1))
    requires LinkAt(nodes, dummy, blocks, k)
    ensures var n, d, x := LinkOut(nodes, Address(dummy, blocks, i)), nodes[Address(dummy, blocks, i)],
        Address(dummy, blocks, k);
            x in n && n[x] == (if k == i - 1 then nodes[x].(nextVirtual := d.nextVirtual)
                               else if k == i + 1 then nodes[x].(prevVirtual := d.prevVirtual) else nodes[x])
  {
    AddressesDiffer(dummy, blocks, i - 1, i);
    AddressesDiffer(dummy, blocks, k, i);
    if k != i - 1 { AddressesDiffer(dummy, blocks, k, i - 1); }
    if i + 1 < |blocks| {
      AddressesDiffer(dummy, blocks, i + 1, i);
      AddressesDiffer(dummy, blocks, i - 1, i + 1);
      if k != i + 1 { AddressesDiffer(dummy, blocks, k, i + 1); }
    }
    LinkOutLookup(nodes, Address(dummy, blocks, i), Address(dummy, blocks, k));
  }

  lemma RemovedLinkAt(nodes: Headers, dummy: nat, blocks: seq<Block>, i: nat, j: int)
    requires 0 < dummy < HEAP_START && i < |blocks| && Ordered(blocks) && Linked(nodes, dummy, blocks)
        && -1 <= j < |blocks| - 1
    ensures LinkAt(nodes, dummy, blocks, i) && LinkAt(nodes, dummy, blocks, i - 1) && (i + 1 < |blocks| ==>
        LinkAt(nodes, dummy, blocks, i + 1))
    ensures LinkAt(LinkOut(nodes, Address(dummy, blocks, i)), dummy, Removed(blocks, i), j)
  {
    NeighboursAreLinked(nodes, dummy, blocks, i);
    if j == i - 1 {
      RemovedBefore(nodes, dummy, blocks, i);
    } else if j == i {
      RemovedAfter(nodes, dummy, blocks, i);
    } else {
      var k := if j < i then j else j + 1;
      assert LinkAt(nodes, dummy, blocks, k);
      RemovedElsewhere(nodes, dummy, blocks, i, k);
    }
  }

  lemma NeighboursAreLinked(nodes: Headers, dummy: nat, blocks: seq<Block>, i: nat)
    requires i < |blocks| && Linked(nodes, dummy, blocks)
    ensures LinkAt(nodes, dummy, blocks, i) && LinkAt(nodes, dummy, blocks, i - 1) && (i + 1 < |blocks| ==>
        LinkAt(nodes, dummy, blocks, i + 1))
  {
  }

  lemma RemovedIsLinked(nodes: Headers, dummy: nat, blocks: seq<Block>, i: nat)
    requires 0 < dummy < HEAP_START && i < |blocks| && Ordered(blocks) && Linked(nodes, dummy, blocks)
    ensures LinkAt(nodes, dummy, blocks, i) && LinkAt(nodes, dummy, blocks, i - 1) && (i + 1 < |blocks| ==>
        LinkAt(nodes, dummy, blocks, i + 1))
    ensures Linked(LinkOut(nodes, Address(dummy, blocks, i)), dummy, Removed(blocks, i))
  {
    NeighboursAreLinked(nodes, dummy, blocks, i);
    forall j {:trigger LinkAt(LinkOut(nodes, Address(dummy, blocks, i)), dummy, Removed(blocks, i),
        j)} | -1 <= j < |blocks| - 1
      ensures LinkAt(LinkOut(nodes, Address(dummy, blocks, i)), dummy, Removed(blocks, i), j)
    {
      RemovedLinkAt(nodes, dummy, blocks, i, j);
    }
  }

  lemma RemovedIsOrdered(blocks: seq<Block>, i: nat)
    requires i < |blocks| && Ordered(blocks)
    ensures Ordered(Removed(blocks, i))
  {
  }

  // ----- Gaps -----

  ghost predicate PageAligned(a: nat) { RoundUp(a) == a }

  lemma RoundUpAfterPage(a: nat, n: nat)
    requires PageAligned(a)
    ensures RoundUp(a + n) == a + RoundUp(n)
  {
    RoundUpIsQuotient(a);
    RoundUpIsQuotient(n);
    RoundUpIsQuotient(a + n);
  }

  lemma RoundUpIsAligned(n: nat)
    ensures PageAligned(RoundUp(n))
  {
    RoundUpIsQuotient(n);
    RoundUpIsQuotient(RoundUp(n));
  }

  /** Subtraction of 64-bit numbers. */
  function Minus(a: nat, b: nat): nat
    requires b < 0x1_0000_0000_0000_0000
  {
    if a >= b then a - b else a + 0x1_0000_0000_0000_0000 - b
  }

  /** The unused pages that kmalloc computes between a block that ends at end and the next header. */
  function UnusedPages(end: nat, next: nat): nat
    requires end < 0x1_0000_0000_0000_0000
  {
    Minus(next / 0x1000, (end + 0xFFF) / 0x1000)
  }

  /** The subtraction wraps exactly when the next block starts in the page in which this one ends, and then any
      request seems to fit. */
  lemma GapWrapsIff(end: nat, next: nat)
    requires end <= next < 0x1_0000_0000_0000_0000
    ensures UnusedPages(end, next) != (next / 0x1000 as int) - (end + 0xFFF) / 0x1000
       <==> end % 0x1000 != 0 && next / 0x1000 == end / 0x1000
    ensures end % 0x1000 != 0 && next / 0x1000 == end / 0x1000 ==> UnusedPages(end, next) == 0xFFFF_FFFF_FFFF_FFFF
  {
  }

  /** Between page-aligned blocks the test finds exactly the gaps that the new block fits into. */
  lemma GapFitsIff(end: nat, next: nat, size: nat)
    requires RoundUp(end) <= next < 0x1_0000_0000_0000_0000 && PageAligned(next)
    ensures UnusedPages(end, next) >= (size + 0xFFF) / 0x1000 <==> Block(RoundUp(end), size).Above() <= next
    ensures (end + 0xFFF) / 0x1000 * 0x1000 == RoundUp(end)
  {
    hide RoundUp;
    RoundUpIsAligned(end);
    RoundUpAfterPage(RoundUp(end), size);
    RoundUpIsQuotient(end);
    RoundUpIsQuotient(size);
    RoundUpIsQuotient(next);
  }

  // ----- Pages -----

  /** From pages to pages', exactly the pages from base up to above have been mapped, to consecutive memory. */
  ghost predicate MappedTo(pages: map<nat, nat>, pages': map<nat, nat>, base: nat, above: nat, physical: nat) {
    forall q {:trigger q in pages'} ::
      if base <= q < above && (q - base) % 0x1000 == 0 then q in pages' && pages'[q] == physical + (q - base)
      else (q in pages' <==> q in pages) && (q in pages ==> pages'[q] == pages[q])
  }

  ghost predicate HasPages(pages: map<nat, nat>, b: Block) {
    forall q {:trigger q in pages} :: b.start <= q < b.Above() && (q - b.start) % 0x1000 == 0 ==> q in pages
  }

  /** The page of every byte of a block, so in particular of its payload, is mapped. */
  lemma BytesAreMapped(pages: map<nat, nat>, b: Block, x: nat)
    requires HasPages(pages, b) && PageAligned(b.start) && b.start <= x < b.start + b.size
    ensures x / 0x1000 * 0x1000 in pages
  {
    RoundUpIsQuotient(b.start);
    RoundUpAfterPage(b.start, b.size);
    var q := x / 0x1000 * 0x1000;
    assert b.start <= q < b.Above() && (q - b.start) % 0x1000 == 0;
  }

  // ----- The pages that kfree hands to the physical allocator -----

  /** The first address and the number of pages. */
  function GivenBack(start: nat, size: nat, next: nat, prev: nat): (nat, nat) {
    var end := start + size;
    var extendedEnd := end - end % 0x1000 + 0x1000;
    var pageStart := start - start % 0x1000;
    var pageCount := (extendedEnd - pageStart) / 0x1000;
    var endPageUsed := next != 0 && next < extendedEnd && next >= extendedEnd - 0x1000;
    var beginPageUsed := prev < start + 0x1000 && prev >= start;
    if pageCount == 1 then (pageStart, if !endPageUsed && !beginPageUsed then 1 else 0)
    else (if beginPageUsed then pageStart + 0x1000 else pageStart,
          pageCount - 2 + (if beginPageUsed then 0 else 1) + (if endPageUsed then 0 else 1))
  }

  /** The number is that of the block's own pages, unless the block ends at a page boundary where no other block
      begins; then one page too many is given back. */
  lemma GivenBackIff(start: nat, size: nat, next: nat, prev: nat)
    requires start % 0x1000 == 0 && size > 0 && prev < start
    requires next == 0 || (start + size <= next && next % 0x1000 == 0)
    ensures GivenBack(start, size, next, prev).0 == start
    ensures GivenBack(start, size, next, prev).1 == (size + 0xFFF) / 0x1000
       <==> size % 0x1000 != 0 || next == start + size
    ensures size % 0x1000 == 0 && next != start + size ==> GivenBack(start, size, next, prev).1 == size / 0x1000 + 1
  {
  }

  // ----- The heap -----

  /** A block of this size does not fit into the gap before index j. */
  ghost predicate Narrow(blocks: seq<Block>, j: int, size: nat)
    requires 1 <= j < |blocks|
  {
    blocks[j].start < Block(blocks[j - 1].Above(), size).Above()
  }

  ghost predicate NoGapBefore(blocks: seq<Block>, i: nat, size: nat) {
    forall j {:trigger Narrow(blocks, j, size)} :: 1 <= j < i && j < |blocks| ==> Narrow(blocks, j, size)
  }

  /** The first gap between two blocks that b fits into, or the end of the list. */
  ghost predicate FirstFit(blocks: seq<Block>, i: nat, b: Block) {
    && i <= |blocks| && (i == 0 ==> blocks == [] && b.start == HEAP_START)
    && (i > 0 ==> b.start == blocks[i - 1].Above())
    && NoGapBefore(blocks, i, b.size)
    && (0 < i < |blocks| ==> !Narrow(blocks, i, b.size))
  }

  ghost predicate Live(blocks: seq<Block>, a: nat) {
    exists i :: 0 <= i < |blocks| && blocks[i].start == a
  }

  /** Headers that are not in the list have no links. */
  ghost predicate Unlinked(nodes: Headers, dummy: nat, blocks: seq<Block>) {
    forall a {:trigger a in nodes} ::
      a in nodes && a != dummy && !Live(blocks, a) ==> nodes[a].nextVirtual == 0 && nodes[a].prevVirtual == 0
  }

  /** New pages hold no headers. */
  function Cleared(nodes: Headers, base: nat, above: nat): Headers {
    map a | a in nodes && !(base <= a < above) :: nodes[a]
  }

  lemma ClearedIsLinked(nodes: Headers, dummy: nat, blocks: seq<Block>, i: nat, b: Block)
    requires Linked(nodes, dummy, blocks) && Ordered(blocks) && FitsAt(blocks, i, b) && dummy < HEAP_START
    ensures Linked(Cleared(nodes, b.start, b.Above()), dummy, blocks)
  {
    var nodes' := Cleared(nodes, b.start, b.Above());
    forall j {:trigger LinkAt(nodes', dummy, blocks, j)} | -1 <= j < |blocks|
      ensures LinkAt(nodes', dummy, blocks, j)
    {
      assert LinkAt(nodes, dummy, blocks, j);
      if 0 <= j < i {
        assert j < i - 1 ==> blocks[j].Above() <= blocks[i - 1].start;
      } else if i < j {
        assert blocks[i].Above() <= blocks[j].start;
      }
    }
  }

  lemma LiveAddress(dummy: nat, blocks: seq<Block>, i: int)
    requires -1 <= i < |blocks|
    ensures Address(dummy, blocks, i) == dummy || Live(blocks, Address(dummy, blocks, i))
  {
    assert i >= 0 ==> blocks[i].start == Address(dummy, blocks, i);
  }

  lemma InsertedLive(blocks: seq<Block>, i: nat, b: Block, a: nat)
    requires i <= |blocks|
    ensures Live(Inserted(blocks, i, b), a) <==> a == b.start || Live(blocks, a)
  {
    var blocks' := Inserted(blocks, i, b);
    assert blocks'[i] == b;
    assert forall j :: 0 <= j < |blocks| ==> blocks[j] == blocks'[if j < i then j else j + 1];
  }

  lemma InsertedIsUnlinked(nodes: Headers, dummy: nat, blocks: seq<Block>, i: nat, b: Block)
    requires 0 < dummy < HEAP_START && Ordered(blocks) && FitsAt(blocks, i, b) && Linked(nodes, dummy, blocks)
        && Unlinked(nodes, dummy, blocks)
    requires Address(dummy, blocks, i - 1) in nodes && (Address(dummy, blocks, i) != 0 ==>
        Address(dummy, blocks, i) in nodes)
    ensures Unlinked(LinkIn(nodes, Address(dummy, blocks, i - 1), Address(dummy, blocks, i), b), dummy,
        Inserted(blocks, i, b))
  {
    var before, after := Address(dummy, blocks, i - 1), Address(dummy, blocks, i);
    var nodes', blocks' := LinkIn(nodes, before, after, b), Inserted(blocks, i, b);
    LiveAddress(dummy, blocks, i - 1);
    if i < |blocks| { LiveAddress(dummy, blocks, i); }
    forall a {:trigger a in nodes'} | a in nodes' && a != dummy && !Live(blocks', a)
      ensures nodes'[a].nextVirtual == 0 && nodes'[a].prevVirtual == 0
    {
      InsertedLive(blocks, i, b, a);
      assert a in nodes && nodes'[a] == nodes[a];
    }
  }

  lemma RemovedLive(blocks: seq<Block>, i: nat, a: nat)
    requires Ordered(blocks) && i < |blocks|
    ensures Live(Removed(blocks, i), a) <==> Live(blocks, a) && a != blocks[i].start
  {
    var blocks' := Removed(blocks, i);
    assert forall j :: 0 <= j < |blocks| && j != i ==> blocks[j] == blocks'[if j < i then j else j - 1];
    forall j | 0 <= j < |blocks'|
      ensures blocks'[j] == blocks[if j < i then j else j + 1] && blocks'[j].start != blocks[i].start
    {
      if j < i {
        assert blocks[j].Above() <= blocks[i].start;
      } else {
        assert blocks[i].Above() <= blocks[j + 1].start;
      }
    }
  }

  lemma RemovedIsUnlinked(nodes: Headers, dummy: nat, blocks: seq<Block>, i: nat)
    requires 0 < dummy < HEAP_START && Ordered(blocks) && i < |blocks| && Linked(nodes, dummy, blocks)
        && Unlinked(nodes, dummy, blocks)
    requires dummy in nodes && nodes[dummy].prevVirtual == 0
    requires LinkAt(nodes, dummy, blocks, i) && LinkAt(nodes, dummy, blocks, i - 1) && (i + 1 < |blocks| ==>
        LinkAt(nodes, dummy, blocks, i + 1))
    ensures var nodes' := LinkOut(nodes, blocks[i].start);
            && Unlinked(nodes', dummy, Removed(blocks, i))
            && dummy in nodes' && nodes'[dummy].prevVirtual == 0 && nodes'[dummy].size == nodes[dummy].size
            && blocks[i].start in nodes' && nodes'[blocks[i].start].nextVirtual == 0
                && nodes'[blocks[i].start].prevVirtual == 0
    ensures !Live(Removed(blocks, i), blocks[i].start)
  {
    var nodes', blocks' := LinkOut(nodes, blocks[i].start), Removed(blocks, i);
    AddressesDiffer(dummy, blocks, i - 1, i);
    if i + 1 < |blocks| {
      AddressesDiffer(dummy, blocks, i + 1, i);
      AddressesDiffer(dummy, blocks, i - 1, i + 1);
      LiveAddress(dummy, blocks, i + 1);
    }
    LiveAddress(dummy, blocks, i - 1);
    RemovedLive(blocks, i, blocks[i].start);
    LinkOutLookup(nodes, blocks[i].start, dummy);
    LinkOutLookup(nodes, blocks[i].start, blocks[i].start);
    forall a {:trigger a in nodes'} | a in nodes' && a != dummy && !Live(blocks', a)
      ensures nodes'[a].nextVirtual == 0 && nodes'[a].prevVirtual == 0
    {
      RemovedLive(blocks, i, a);
      LinkOutLookup(nodes, blocks[i].start, a);
    }
  }

  lemma RemovedIsMapped(pages: map<nat, nat>, blocks: seq<Block>, i: nat)
    requires AllMapped(pages, blocks) && i < |blocks|
    ensures AllMapped(pages, Removed(blocks, i))
  {
  }

  /** Everything about the heap without the block of index i, which still has links. */
  lemma FreedIsValid(nodes: Headers, dummy: nat, pages: map<nat, nat>, blocks: seq<Block>, i: nat)
    requires 0 < dummy < HEAP_START && Ordered(blocks) && i < |blocks| && Linked(nodes, dummy, blocks)
        && Unlinked(nodes, dummy, blocks)
    requires dummy in nodes && nodes[dummy].prevVirtual == 0 && AllMapped(pages, blocks)
    ensures var a := blocks[i].start;
            && a in nodes && nodes[a] == PointerData(blocks[i].size, Address(dummy, blocks, i + 1), Address(dummy,
                blocks, i - 1))
            && nodes[a].prevVirtual > 0 && nodes[a].prevVirtual in nodes && (nodes[a].nextVirtual != 0 ==>
                nodes[a].nextVirtual in nodes)
            && var nodes' := LinkOut(nodes, a);
            && Linked(nodes', dummy, Removed(blocks, i)) && Unlinked(nodes', dummy, Removed(blocks, i))
            && dummy in nodes' && nodes'[dummy].prevVirtual == 0 && nodes'[dummy].size == nodes[dummy].size
            && a in nodes' && nodes'[a].nextVirtual == 0 && nodes'[a].prevVirtual == 0
    ensures Ordered(Removed(blocks, i)) && AllMapped(pages, Removed(blocks, i))
        && !Live(Removed(blocks, i), blocks[i].start)
  {
    RemovedIsLinked(nodes, dummy, blocks, i);
    RemovedIsOrdered(blocks, i);
    AddressesDiffer(dummy, blocks, i - 1, i);
    RemovedIsUnlinked(nodes, dummy, blocks, i);
    RemovedIsMapped(pages, blocks, i);
  }

  ghost predicate AllMapped(pages: map<nat, nat>, blocks: seq<Block>) {
    forall i {:trigger blocks[i]} :: 0 <= i < |blocks| ==> PageAligned(blocks[i].start) && HasPages(pages, blocks[i])
  }

  lemma InsertedIsMapped(pages: map<nat, nat>, pages': map<nat, nat>, blocks: seq<Block>, i: nat, b: Block,
      physical: nat)
    requires AllMapped(pages, blocks) && PageAligned(b.start)
        && MappedTo(pages, pages', b.start, b.Above(), physical) && i <= |blocks|
    ensures AllMapped(pages', Inserted(blocks, i, b))
  {
    var blocks' := Inserted(blocks, i, b);
    forall k | 0 <= k < |blocks'|
      ensures PageAligned(blocks'[k].start) && HasPages(pages', blocks'[k])
    {
      if k != i {
        var was := if k < i then k else k - 1;
        assert blocks'[k] == blocks[was];
      }
    }
  }

  /** A new block takes no page away from another one. */
  lemma OtherBlocksKeepPages(pages: map<nat, nat>, pages': map<nat, nat>, blocks: seq<Block>, i: nat, b: Block,
      physical: nat, j: nat, q: nat)
    requires i <= |blocks| && j < |blocks| && Ordered(Inserted(blocks, i, b))
        && MappedTo(pages, pages', b.start, b.Above(), physical)
    requires blocks[j].start <= q < blocks[j].Above() && q in pages
    ensures q in pages' && pages'[q] == pages[q]
  {
    var blocks' := Inserted(blocks, i, b);
    var k := if j < i then j else j + 1;
    assert blocks'[k] == blocks[j] && blocks'[i] == b;
    assert k < i ==> blocks'[k].Above() <= blocks'[i].start;
    assert i < k ==> blocks'[i].Above() <= blocks'[k].start;
  }

  lemma DummyKept(nodes: Headers, dummy: nat, blocks: seq<Block>, i: nat, b: Block)
    requires 0 < dummy < HEAP_START && Ordered(blocks) && FitsAt(blocks, i, b) && dummy in nodes
    requires Address(dummy, blocks, i - 1) in nodes && (Address(dummy, blocks, i) != 0 ==>
        Address(dummy, blocks, i) in nodes)
    ensures var n := LinkIn(nodes, Address(dummy, blocks, i - 1), Address(dummy, blocks, i), b);
            dummy in n && n[dummy].prevVirtual == nodes[dummy].prevVirtual && n[dummy].size == nodes[dummy].size
  {
  }

  /** The gap test between two neighbours. */
  method TestGap(end: nat, next: nat, realSize: nat, ghost blocks: seq<Block>, ghost i: nat) returns (fits: bool,
      virtualBase: nat)
    requires 0 < i < |blocks| && end == blocks[i - 1].start + blocks[i - 1].size && next == blocks[i].start
    requires blocks[i - 1].Above() <= next < 0x1_0000_0000_0000_0000 && PageAligned(next)
    ensures fits <==> !Narrow(blocks, i, realSize)
    ensures virtualBase == blocks[i - 1].Above() && PageAligned(virtualBase)
  {
    GapFitsIff(end, next, realSize);
    RoundUpIsAligned(end);
    var lastUsedPageIndex := (end + 0xFFF) / 0x1000;
    var pageCount := (realSize + 0xFFF) / 0x1000;
    fits := UnusedPages(end, next) >= pageCount;
    virtualBase := lastUsedPageIndex * 0x1000;
  }

  method PageAfter(end: nat, ghost b: Block) returns (virtualBase: nat)
    requires end == b.start + b.size
    ensures virtualBase == b.Above() && PageAligned(virtualBase)
  {
    RoundUpIsQuotient(end);
    RoundUpIsAligned(end);
    virtualBase := end + 0xFFF - (end + 0xFFF) % 0x1000;
  }

  method PageCount(size: nat) returns (n: nat)
    ensures n * 0x1000 == RoundUp(size)
  {
    RoundUpIsQuotient(size);
    n := (size + 0xFFF) / 0x1000;
  }

  lemma HeaderFacts(nodes: Headers, dummy: nat, blocks: seq<Block>, pages: map<nat, nat>, i: int)
    requires Ordered(blocks) && Linked(nodes, dummy, blocks) && AllMapped(pages, blocks) && 0 < dummy < HEAP_START
        && -1 <= i < |blocks|
    requires blocks != [] ==> blocks[|blocks| - 1].Above() < 0x1_0000_0000_0000_0000
    ensures var a := Address(dummy, blocks, i);
            && a in nodes && nodes[a].nextVirtual == Address(dummy, blocks, i + 1)
            && (i >= 0 ==> nodes[a].size == blocks[i].size && a != dummy && blocks[i].start == a)
            && (i + 1 < |blocks| ==>
                  0 < nodes[a].nextVirtual < 0x1_0000_0000_0000_0000 && PageAligned(nodes[a].nextVirtual))
            && (0 <= i < |blocks| - 1 ==> blocks[i].Above() <= nodes[a].nextVirtual)
  {
    assert LinkAt(nodes, dummy, blocks, i);
    assert i + 1 < |blocks| ==> blocks[i + 1].start <= blocks[|blocks| - 1].Above();
    assert 0 <= i < |blocks| - 1 ==> blocks[i].Above() <= blocks[i + 1].start;
  }

  lemma FirstFitFits(blocks: seq<Block>, i: nat, b: Block)
    requires Ordered(blocks) && FirstFit(blocks, i, b) && b.size > HEADER
    ensures FitsAt(blocks, i, b)
  {
    if i > 0 {
      assert blocks[i - 1].start >= HEAP_START;
    }
  }

  lemma NoGapAt(blocks: seq<Block>, i: nat, size: nat)
    requires NoGapBefore(blocks, i, size) && 0 < i < |blocks| && Narrow(blocks, i, size)
    ensures NoGapBefore(blocks, i + 1, size)
  {
  }

  method Start() returns (virtualBase: nat)
    ensures virtualBase == HEAP_START && PageAligned(virtualBase)
  {
    virtualBase := HEAP_START;
    RoundUpIsQuotient(virtualBase);
  }

  class KernelHeap {
    const dummy: nat
    var nodes: Headers
    var pages: map<nat, nat>
    ghost var blocks: seq<Block>

    ghost predicate Valid()
      reads this
    {
      && 0 < dummy < HEAP_START && Ordered(blocks) && Linked(nodes, dummy, blocks) && Unlinked(nodes, dummy, blocks)
      && AllMapped(pages, blocks)
      && dummy in nodes && nodes[dummy].prevVirtual == 0 && nodes[dummy].size == HEADER
    }

    /** initHeap */
    constructor (dummy: nat)
      requires 0 < dummy < HEAP_START
      ensures Valid() && blocks == [] && this.dummy == dummy
    {
      this.dummy := dummy;
      nodes := map[dummy := PointerData(HEADER, 0, 0)];
      pages := map[];
      blocks := [];
    }

    /** Maps pageCount pages from virtualBase to consecutive physical memory. */
    method MapPages(virtualBase: nat, physicalMemory: nat, pageCount: nat)
      modifies this`pages
      ensures MappedTo(old(pages), pages, virtualBase, virtualBase + pageCount * 0x1000, physicalMemory)
    {
      for i := 0 to pageCount
        invariant MappedTo(old(pages), pages, virtualBase, virtualBase + i * 0x1000, physicalMemory)
      {
        pages := pages[virtualBase + i * 0x1000 := physicalMemory + i * 0x1000];
      }
    }

    /** Maps the pages of b and links its header in between two neighbours. */
    method Place(b: Block, ghost i: nat, before: nat, after: nat, physicalMemory: nat, pageCount: nat)
      requires Valid() && FitsAt(blocks, i, b) && PageAligned(b.start) && pageCount * 0x1000 == RoundUp(b.size)
      requires before == Address(dummy, blocks, i - 1) && after == Address(dummy, blocks, i)
      modifies this
      ensures Valid() && blocks == Inserted(old(blocks), i, b)
      ensures MappedTo(old(pages), pages, b.start, b.Above(), physicalMemory)
    {
      RoundUpAfterPage(b.start, b.size);
      MapPages(b.start, physicalMemory, pageCount);
      InsertedIsMapped(old(pages), pages, blocks, i, b, physicalMemory);
      ClearedIsLinked(nodes, dummy, blocks, i, b);
      nodes := Cleared(nodes, b.start, b.Above());
      InsertedIsLinked(nodes, dummy, blocks, i, b);
      InsertedIsOrdered(blocks, i, b);
      InsertedIsUnlinked(nodes, dummy, blocks, i, b);
      DummyKept(nodes, dummy, blocks, i, b);
      blocks := Inserted(blocks, i, b);
      nodes := LinkIn(nodes, before, after, b);
    }

    /** The search of kmalloc: the neighbours of the first gap that realSize bytes fit into and its first address,
        or the last header and the address behind its pages. */
    method FindGap(realSize: nat) returns (data: nat, next: nat, virtualBase: nat, ghost i: nat)
      requires 0 < dummy < HEAP_START && Ordered(blocks) && Linked(nodes, dummy, blocks) && AllMapped(pages, blocks)
          && realSize > HEADER
      requires blocks != [] ==> blocks[|blocks| - 1].Above() < 0x1_0000_0000_0000_0000
      ensures FirstFit(blocks, i, Block(virtualBase, realSize)) && PageAligned(virtualBase)
      ensures data == Address(dummy, blocks, i - 1) && next == Address(dummy, blocks, i)
    {
      hide RoundUp, Linked, AllMapped, Narrow, PageAligned;
      i, data := 0, dummy;
      HeaderFacts(nodes, dummy, blocks, pages, -1);
      while nodes[data].nextVirtual != 0
        invariant i <= |blocks| && data == Address(dummy, blocks, i - 1) && data in nodes
            && nodes[data].nextVirtual == Address(dummy, blocks, i)
        invariant i > 0 ==> data + nodes[data].size == blocks[i - 1].start + blocks[i - 1].size
        invariant NoGapBefore(blocks, i + 1, realSize) && (i > 0 ==> i < |blocks|)
        decreases |blocks| - i
      {
        data := nodes[data].nextVirtual;
        i := i + 1;
        HeaderFacts(nodes, dummy, blocks, pages, i - 1);
        if nodes[data].nextVirtual == 0 {
          break;
        }
        next := nodes[data].nextVirtual;
        var fits, base := TestGap(data + nodes[data].size, next, realSize, blocks, i);
        if fits {
          virtualBase := base;
          return;
        }
        NoGapAt(blocks, i, realSize);
      }
      next := 0;
      if data == dummy {
        virtualBase := Start();
      } else {
        virtualBase := PageAfter(data + nodes[data].size, blocks[i - 1]);
      }
    }

    /** kmalloc for a request that takes more than half a page with its header. physicalMemory is what the physical
        allocator answers; the block goes to the first gap it fits into, or behind the last block. */
    method Kmalloc(requestedSize: nat, physicalMemory: Option<nat>) returns (p: nat, b: Block, ghost i: nat)
      requires Valid() && requestedSize + HEADER > 0x800
      requires blocks != [] ==> blocks[|blocks| - 1].Above() < 0x1_0000_0000_0000_0000
      modifies this
      ensures Valid()
      ensures physicalMemory.None? ==> p == 0 && nodes == old(nodes) && pages == old(pages) && blocks == old(blocks)
      ensures physicalMemory.Some? ==>
                p == b.start + HEADER && b.size == requestedSize + HEADER && FirstFit(old(blocks), i, b)
      ensures physicalMemory.Some? ==> i <= |old(blocks)| && blocks == Inserted(old(blocks), i, b)
      ensures physicalMemory.Some? ==> MappedTo(old(pages), pages, b.start, b.Above(), physicalMemory.value)
    {
      var realSize := requestedSize + HEADER;
      i, b := 0, Block(HEAP_START, realSize);
      if physicalMemory.None? {
        return 0, b, i;
      }
      var data, next, virtualBase;
      data, next, virtualBase, i := FindGap(realSize);
      b := Block(virtualBase, realSize);
      FirstFitFits(blocks, i, b);
      var pageCount := PageCount(realSize);
      Place(b, i, data, next, physicalMemory.value, pageCount);
      return virtualBase + HEADER, b, i;
    }

    /** kfree of a pointer whose header still stands: takes exactly its block out of the list, and does nothing if
        that has been done before. Returns the range handed to the physical allocator. */
    method Kfree(p: nat) returns (given: (nat, nat), ghost i: nat)
      requires Valid() && p >= HEADER && p - HEADER in nodes && p - HEADER != dummy
      modifies this
      ensures Valid() && pages == old(pages)
      ensures old(Live(blocks, p - HEADER)) ==>
                i < |old(blocks)| && old(blocks)[i].start == p - HEADER && blocks == Removed(old(blocks), i)
      ensures old(Live(blocks, p - HEADER)) ==>
                p - HEADER in nodes && nodes[p - HEADER].nextVirtual == 0 && nodes[p - HEADER].prevVirtual == 0
                    && !Live(blocks, p - HEADER)
      ensures old(Live(blocks, p - HEADER)) ==>
                given == GivenBack(p - HEADER, old(blocks)[i].size, old(Address(dummy, blocks, i + 1)),
                    old(Address(dummy, blocks, i - 1)))
      ensures !old(Live(blocks, p - HEADER)) ==> nodes == old(nodes) && blocks == old(blocks) && given == (0, 0)
    {
      hide RoundUp, Ordered, AllMapped;
      var a := p - HEADER;
      i := 0;
      if Live(blocks, a) {
        i :| i < |blocks| && blocks[i].start == a;
        FreedIsValid(nodes, dummy, pages, blocks, i);
      }
      var d := nodes[a];
      if d.nextVirtual == 0 && d.prevVirtual == 0 {
        return (0, 0), i;
      }
      given := GivenBack(a, d.size, d.nextVirtual, d.prevVirtual);
      blocks := Removed(blocks, i);
      nodes := LinkOut(nodes, a);
    }

    /** Freeing twice is the same as freeing once. */
    method FreeTwice(p: nat)
      requires Valid() && p >= HEADER && Live(blocks, p - HEADER) && p - HEADER in nodes && p - HEADER != dummy
      modifies this
      ensures Valid()
      ensures exists i ::
                0 <= i < |old(blocks)| && old(blocks)[i].start == p - HEADER && blocks == Removed(old(blocks), i)
    {
      var given, i := Kfree(p);
      var given', i' := Kfree(p);
    }
  }
}

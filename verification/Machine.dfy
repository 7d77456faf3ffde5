/** Physical memory as the kernel sees it: 64-bit words grouped in pages of 512, the bit layout
    of a page-table entry, and the processor's own 4-level walk. */
module Machine {
  import opened Wrappers

  type Word = x: int | 0 <= x < 0x1_0000_0000_0000_0000

  /** Word index of page page. */
  datatype Cell = Cell(page: nat, index: nat)

  /** Cells that are not listed hold 0. */
  type Memory = map<Cell, nat>

  function Read(m: Memory, page: nat, index: nat): nat {
    if Cell(page, index) in m then m[Cell(page, index)] else 0
  }

  function Write(m: Memory, page: nat, index: nat, word: nat): (m': Memory)
    ensures forall p: nat, i: nat {:trigger Read(m', p, i)} ::
              Read(m', p, i) == if p == page && i == index then word else Read(m, p, i)
  {
    m[Cell(page, index) := word]
  }

  /** memset(page, 0, pageSize) */
  function Clear(m: Memory, page: nat): (m': Memory)
    ensures forall p: nat, i: nat {:trigger Read(m', p, i)} ::
              Read(m', p, i) == if p == page then 0 else Read(m, p, i)
  {
    map c | c in m && c.page != page :: m[c]
  }

  /** The two memories hold the same words in page p. */
  ghost predicate Agree(m: Memory, m': Memory, p: nat) {
    forall i: nat {:trigger Read(m', p, i)} {:trigger Read(m, p, i)} :: Read(m', p, i) == Read(m, p, i)
  }

  /** index * pageSize, by counting pages: proofs use its contract instead of multiplication. */
  function PageAddress(index: nat): (a: nat)
    ensures a == 0 <==> index == 0
    ensures PageIndex(a) == index
  {
    if index == 0 then 0 else 0x1000 + PageAddress(index - 1)
  }

  /** address / pageSize */
  function PageIndex(address: nat): nat {
    if address < 0x1000 then 0 else 1 + PageIndex(address - 0x1000)
  }

  lemma {:induction false} PageAddressIsProduct(index: nat)
    ensures PageAddress(index) == index * 0x1000
  {
    if index > 0 {
      PageAddressIsProduct(index - 1);
    }
  }

  lemma {:induction false} PageIndexIsQuotient(address: nat)
    ensures PageIndex(address) == address / 0x1000
  {
    if address >= 0x1000 {
      PageIndexIsQuotient(address - 0x1000);
    }
  }

  // ----- Bit fields of a page-table entry -----

  datatype Entry = Entry(
    present: bool, writeEnable: bool, userModeEnable: bool, writeThrough: bool,
    cacheDisable: bool, accessed: bool, dirty: bool, bigPage: bool, global: bool,
    available1: nat, encAddress: nat, zero: nat, available2: nat, protectionKey: nat,
    executeDisable: bool)
  {
    ghost predicate Fits() {
      available1 < 8 && encAddress < 0x10_0000_0000 && zero < 16 && available2 < 128 && protectionKey < 16
    }
  }

  function Bit(w: nat, k: nat): bool
    decreases k
  {
    if k == 0 then w % 2 == 1 else Bit(w / 2, k - 1)
  }

  function Present(w: nat): bool { Bit(w, 0) }
  function BigPage(w: nat): bool { Bit(w, 7) }
  function Frame(w: nat): nat { w / 0x1000 % 0x10_0000_0000 }

  function Push(b: bool, rest: nat): (n: nat)
    ensures (n % 2 == 1) == b && n / 2 == rest
    ensures forall k: nat {:trigger Bit(n, k)} :: Bit(n, k) == if k == 0 then b else Bit(rest, k - 1)
  {
    if b then 1 + 2 * rest else 2 * rest
  }

  /** Bits 9 to 63. */
  function HighBits(e: Entry): (h: nat)
    requires e.Fits()
    ensures h < 0x80_0000_0000_0000
  {
    e.available1 + 8 * (e.encAddress + 0x10_0000_0000 *
      (e.zero + 16 * e.available2 + 2048 * e.protectionKey + 0x8000 * (if e.executeDisable then 1 else 0)))
  }

  /** The 64-bit value of a bit-field struct, least significant field first. */
  function Raw(e: Entry): (w: nat)
    requires e.Fits()
  {
    Push(e.present, Push(e.writeEnable, Push(e.userModeEnable, Push(e.writeThrough, Push(e.cacheDisable,
      Push(e.accessed, Push(e.dirty, Push(e.bigPage, Push(e.global, HighBits(e))))))))))
  }

  function Fields(w: nat): (e: Entry)
    ensures e.Fits()
  {
    var high := w / 0x1_0000_0000_0000;
    Entry(Present(w), Bit(w, 1), Bit(w, 2), Bit(w, 3), Bit(w, 4), Bit(w, 5), Bit(w, 6), BigPage(w), Bit(w, 8),
          w / 0x200 % 8, Frame(w), high % 16, high / 16 % 128, high / 2048 % 16, high / 0x8000 % 2 == 1)
  }

  lemma {:induction false} HighBitsOfRaw(e: Entry)
    requires e.Fits()
    ensures Raw(e) / 512 == HighBits(e)
  {
    var w := Raw(e);
    assert w / 2 / 2 / 2 / 2 / 2 / 2 / 2 / 2 / 2 == HighBits(e);
    Halves(w);
  }

  lemma Halves(w: nat)
    ensures w / 2 / 2 / 2 / 2 / 2 / 2 / 2 / 2 / 2 == w / 512
  {
    assert w / 2 / 2 / 2 == w / 8;
    assert w / 8 / 2 / 2 / 2 == w / 64;
    assert w / 64 / 2 / 2 / 2 == w / 512;
  }

  lemma HighFields(h: nat, available1: nat, enc: nat, zero: nat, available2: nat, key: nat, x: nat)
    requires available1 < 8 && enc < 0x10_0000_0000 && zero < 16 && available2 < 128 && key < 16 && x < 2
    requires h == available1 + 8 * (enc + 0x10_0000_0000 * (zero + 16 * available2 + 2048 * key + 0x8000 * x))
    ensures h % 8 == available1 && h / 8 % 0x10_0000_0000 == enc
    ensures var high := h / 0x80_0000_0000;
            high % 16 == zero && high / 16 % 128 == available2 && high / 2048 % 16 == key && high / 0x8000 == x
  {
    var high := zero + 16 * available2 + 2048 * key + 0x8000 * x;
    assert h / 8 == enc + 0x10_0000_0000 * high;
    assert h / 0x80_0000_0000 == high;
    assert high / 16 == available2 + 128 * (key + 16 * x);
    assert high / 2048 == key + 16 * x;
  }

  /** The flags are the lowest nine bits. */
  lemma FlagsOfRaw(e: Entry)
    requires e.Fits()
    ensures var w := Raw(e);
            && Present(w) == e.present && Bit(w, 1) == e.writeEnable && Bit(w, 2) == e.userModeEnable
            && Bit(w, 3) == e.writeThrough && Bit(w, 4) == e.cacheDisable && Bit(w, 5) == e.accessed
            && Bit(w, 6) == e.dirty && BigPage(w) == e.bigPage && Bit(w, 8) == e.global
  {
  }

  lemma HighOfWord(w: nat, h: nat)
    requires w / 512 == h
    ensures w / 0x200 % 8 == h % 8 && Frame(w) == h / 8 % 0x10_0000_0000
    ensures w / 0x1_0000_0000_0000 == h / 0x80_0000_0000
    ensures h < 0x80_0000_0000_0000 ==> w < 0x1_0000_0000_0000_0000
  {
    assert w / 0x1000 == h / 8;
    assert w == 512 * h + w % 512;
  }

  /** Reading the fields back gives what the union stored. */
  lemma FieldsOfRaw(e: Entry)
    requires e.Fits()
    ensures Fields(Raw(e)) == e && Raw(e) < 0x1_0000_0000_0000_0000
  {
    FlagsOfRaw(e);
    HighBitsOfRaw(e);
    FieldsOfWord(e, Raw(e));
  }

  lemma FieldsOfWord(e: Entry, w: nat)
    requires e.Fits() && w / 512 == HighBits(e)
    requires Present(w) == e.present && Bit(w, 1) == e.writeEnable && Bit(w, 2) == e.userModeEnable
    requires Bit(w, 3) == e.writeThrough && Bit(w, 4) == e.cacheDisable && Bit(w, 5) == e.accessed
    requires Bit(w, 6) == e.dirty && BigPage(w) == e.bigPage && Bit(w, 8) == e.global
    ensures Fields(w) == e && w < 0x1_0000_0000_0000_0000
  {
    HighFieldsOfWord(w, HighBits(e), e.available1, e.encAddress, e.zero, e.available2, e.protectionKey,
                     if e.executeDisable then 1 else 0);
  }

  lemma HighFieldsOfWord(w: nat, h: nat, available1: nat, enc: nat, zero: nat, available2: nat, key: nat, x: nat)
    requires available1 < 8 && enc < 0x10_0000_0000 && zero < 16 && available2 < 128 && key < 16 && x < 2
    requires w / 512 == h && h < 0x80_0000_0000_0000
    requires h == available1 + 8 * (enc + 0x10_0000_0000 * (zero + 16 * available2 + 2048 * key + 0x8000 * x))
    ensures w / 0x200 % 8 == available1 && Frame(w) == enc && w < 0x1_0000_0000_0000_0000
    ensures var high := w / 0x1_0000_0000_0000;
            high % 16 == zero && high / 16 % 128 == available2 && high / 2048 % 16 == key
            && (high / 0x8000 % 2 == 1 <==> x == 1)
  {
    HighOfWord(w, h);
    HighFields(h, available1, enc, zero, available2, key, x);
  }

  /** Storing the fields of an entry as a word. */
  method Encode(e: Entry) returns (raw: nat)
    requires e.Fits()
    ensures Fields(raw) == e && raw < 0x1_0000_0000_0000_0000
  {
    FieldsOfRaw(e);
    raw := Raw(e);
  }

  // ----- Shift and bitwise or -----

  function Shl(x: nat, k: nat): nat
    decreases k
  {
    if k == 0 then x else 2 * Shl(x, k - 1)
  }

  function Or(a: nat, b: nat): nat
    decreases a + b
  {
    if a == 0 then b else if b == 0 then a else
    (if a % 2 == 1 || b % 2 == 1 then 1 else 0) + 2 * Or(a / 2, b / 2)
  }

  lemma {:induction false} OrStep(a: nat, b: nat)
    ensures Or(2 * a, b) == b % 2 + 2 * Or(a, b / 2)
    ensures a + b > 0 ==> Or(a, b) == (if a % 2 == 1 || b % 2 == 1 then 1 else 0) + 2 * Or(a / 2, b / 2)
  {
    assert Or(a / 2, 0) == a / 2 && Or(0, b / 2) == b / 2;
  }

  /** Fields that do not overlap add up: the parts above and below bit k are joined separately. */
  lemma {:induction false} OrSplit(p: nat, x: nat, q: nat, y: nat, k: nat)
    requires x < Shl(1, k) && y < Shl(1, k)
    ensures Or(Shl(p, k) + x, Shl(q, k) + y) == Shl(Or(p, q), k) + Or(x, y)
    decreases k
  {
    if k > 0 {
      var a, b := Shl(p, k) + x, Shl(q, k) + y;
      OrSplit(p, x / 2, q, y / 2, k - 1);
      assert a / 2 == Shl(p, k - 1) + x / 2 && b / 2 == Shl(q, k - 1) + y / 2;
      SameParity(a, Shl(p, k - 1), x);
      SameParity(b, Shl(q, k - 1), y);
      LowestBit(a, b, x, y);
    } else {
      assert x == 0 && y == 0;
    }
  }

  lemma LowestBit(a: nat, b: nat, x: nat, y: nat)
    requires a % 2 == x % 2 && b % 2 == y % 2 && x <= a && y <= b
    ensures Or(a, b) - 2 * Or(a / 2, b / 2) == Or(x, y) - 2 * Or(x / 2, y / 2)
  {
    hide Or;
    OrZero(0);
    if a + b > 0 {
      OrStep(a, b);
    }
    if x + y > 0 {
      OrStep(x, y);
    }
  }

  lemma SameParity(a: nat, p: nat, x: nat)
    requires a == 2 * p + x
    ensures a % 2 == x % 2
  {
  }

  /** x << k for the shifts of the walk. */
  lemma ShlIsProduct(x: nat, k: nat)
    requires k == 9 || k == 12 || k == 21
    ensures k == 9 ==> Shl(x, k) == 0x200 * x
    ensures k == 12 ==> Shl(x, k) == 0x1000 * x
    ensures k == 21 ==> Shl(x, k) == 0x20_0000 * x
  {
    assert Shl(x, 3) == 8 * x;
    assert Shl(x, 6) == 8 * Shl(x, 3);
    assert Shl(x, 9) == 8 * Shl(x, 6);
    assert Shl(x, 12) == 8 * Shl(x, 9);
    assert Shl(x, 15) == 8 * Shl(x, 12);
    assert Shl(x, 18) == 8 * Shl(x, 15);
    assert Shl(x, 21) == 8 * Shl(x, 18);
  }

  // ----- Virtual addresses -----

  function InPage(v: Word): nat { v % 0x1000 }
  function Level1(v: Word): nat { v / 0x1000 % 512 }
  function Level2(v: Word): nat { v / 0x20_0000 % 512 }
  function Level3(v: Word): nat { v / 0x4000_0000 % 512 }
  function Level4(v: Word): nat { v / 0x80_0000_0000 % 512 }

  /** The 36-bit virtual page number; the 16 extension bits take no part in the walk. */
  function PageNumber(v: Word): nat { v / 0x1000 % 0x10_0000_0000 }

  function PageOfLevels(l4: nat, l3: nat, l2: nat, l1: nat): nat {
    ((l4 * 512 + l3) * 512 + l2) * 512 + l1
  }

  /** The four indices and the page number determine each other. */
  lemma LevelsOfPage(v: Word)
    ensures PageNumber(v) == PageOfLevels(Level4(v), Level3(v), Level2(v), Level1(v))
  {
    var x := v / 0x1000;
    var y, z, u := x / 512, x / 512 / 512, x / 512 / 512 / 512;
    assert v / 0x20_0000 == y && v / 0x4000_0000 == z && v / 0x80_0000_0000 == u;
    var w := u / 512;
    assert x == w * 0x10_0000_0000 + PageOfLevels(Level4(v), Level3(v), Level2(v), Level1(v));
  }

  lemma DigitsAreUnique(a: nat, b: nat, c: nat, d: nat, a': nat, b': nat, c': nat, d': nat)
    requires b < 512 && c < 512 && d < 512 && b' < 512 && c' < 512 && d' < 512
    requires PageOfLevels(a, b, c, d) == PageOfLevels(a', b', c', d')
    ensures a == a' && b == b' && c == c' && d == d'
  {
    assert (a * 512 + b) * 512 + c == (a' * 512 + b') * 512 + c';
  }

  lemma SamePageSameLevels(v: Word, w: Word)
    ensures PageNumber(v) == PageNumber(w)
       <==> (Level4(v) == Level4(w) && Level3(v) == Level3(w) && Level2(v) == Level2(w) && Level1(v) == Level1(w))
  {
    LevelsOfPage(v);
    LevelsOfPage(w);
    if PageNumber(v) == PageNumber(w) {
      DigitsAreUnique(Level4(v), Level3(v), Level2(v), Level1(v), Level4(w), Level3(w), Level2(w), Level1(w));
    }
  }

  lemma {:induction false} ShlZero(k: nat)
    ensures Shl(0, k) == 0 && Shl(1, k) > 0
    decreases k
  {
    if k > 0 {
      ShlZero(k - 1);
    }
  }

  lemma OrZero(a: nat)
    ensures Or(a, 0) == a && Or(0, a) == a
  {
  }

  /** Joining a value whose bits from k on are those of q with one below bit k. */
  lemma OrLow(q: nat, low: nat, k: nat, unit: nat)
    requires (k == 9 && unit == 0x200) || (k == 12 && unit == 0x1000) || (k == 21 && unit == 0x20_0000)
    requires low < unit
    ensures Or(unit * q, low) == unit * q + low
  {
    hide Or, Shl;
    OrZero(q);
    OrZero(low);
    ShlIsProduct(q, k);
    ShlIsProduct(1, k);
    ShlZero(k);
    OrSplit(q, 0, 0, low, k);
  }

  lemma OrAbove(p: nat, low: nat, field: nat, k: nat)
    requires low < Shl(1, k) && Or(p, field) == p + field
    ensures Or(Shl(p, k) + low, Shl(field, k)) == Shl(p + field, k) + low
  {
    hide Or, Shl;
    OrZero(low);
    OrSplit(p, low, field, 0, k);
  }

  lemma OrTwelve(p: nat, low: nat, field: nat, k: nat)
    requires k == 12 && low < 0x1000 && Or(p, field) == p + field
    ensures Or(0x1000 * p + low, 0x1000 * field) == 0x1000 * (p + field) + low
  {
    hide Or, Shl;
    ShlIsProduct(p, k);
    ShlIsProduct(p + field, k);
    ShlIsProduct(field, k);
    ShlIsProduct(1, k);
    OrAbove(p, low, field, k);
  }

  lemma OrTwentyOne(p: nat, low: nat, field: nat, k: nat)
    requires k == 21 && low < 0x20_0000 && Or(p, field) == p + field
    ensures Or(0x20_0000 * p + low, 0x20_0000 * field) == 0x20_0000 * (p + field) + low
  {
    hide Or, Shl;
    ShlIsProduct(p, k);
    ShlIsProduct(p + field, k);
    ShlIsProduct(field, k);
    ShlIsProduct(1, k);
    OrAbove(p, low, field, k);
  }

  /** A field of nine bits joined just above bit k of a value whose next nine bits are clear. */
  lemma OrNine(q: nat, low: nat, field: nat, k: nat, unit: nat)
    requires (k == 12 && unit == 0x1000) || (k == 21 && unit == 0x20_0000)
    requires low < unit && field < 512
    ensures Or(unit * (512 * q) + low, unit * field) == unit * (512 * q + field) + low
  {
    OrLow(q, field, 9, 512);
    if k == 12 {
      OrTwelve(512 * q, low, field, k);
    } else {
      OrTwentyOne(512 * q, low, field, k);
    }
  }

  lemma InPageParts(v: Word)
    ensures v % 0x4000_0000 == Level2(v) * 0x20_0000 + Level1(v) * 0x1000 + InPage(v)
    ensures v % 0x20_0000 == Level1(v) * 0x1000 + InPage(v)
  {
    var x := v / 0x1000;
    assert v / 0x20_0000 == x / 512;
  }

  /** The fields of a 1 GiB page are joined with bitwise or; on an aligned entry that is addition. */
  lemma BigPageAddress(q: nat, v: Word)
    ensures Or(Or(Or(0x1000 * (0x4_0000 * q), InPage(v)), 0x20_0000 * Level2(v)), 0x1000 * Level1(v))
         == 0x4000_0000 * q + v % 0x4000_0000
  {
    OrLow(0x4_0000 * q, InPage(v), 12, 0x1000);
    OrNine(q, InPage(v), Level2(v), 21, 0x20_0000);
    OrNine(512 * q + Level2(v), InPage(v), Level1(v), 12, 0x1000);
    InPageParts(v);
  }

  /** Likewise for a 2 MiB page. */
  lemma LargePageAddress(q: nat, v: Word)
    ensures Or(Or(0x1000 * (0x200 * q), InPage(v)), 0x1000 * Level1(v)) == 0x20_0000 * q + v % 0x20_0000
  {
    OrLow(0x200 * q, InPage(v), 12, 0x1000);
    OrNine(q, InPage(v), Level1(v), 12, 0x1000);
    InPageParts(v);
  }

  // ----- The processor's walk -----

  /** Linear-address translation with 4-level paging (Intel SDM Vol. 3A, section 4.5). */
  function CpuTranslate(m: Memory, root: nat, v: Word): Option<nat> {
    var e4 := Read(m, root, Level4(v));
    if !Present(e4) then None else
    var e3 := Read(m, Frame(e4), Level3(v));
    if !Present(e3) then None else
    if BigPage(e3) then Some(Frame(e3) / 0x4_0000 * 0x4000_0000 + v % 0x4000_0000) else
    var e2 := Read(m, Frame(e3), Level2(v));
    if !Present(e2) then None else
    if BigPage(e2) then Some(Frame(e2) / 0x200 * 0x20_0000 + v % 0x20_0000) else
    var e1 := Read(m, Frame(e2), Level1(v));
    if !Present(e1) then None else Some(Frame(e1) * 0x1000 + InPage(v))
  }
}

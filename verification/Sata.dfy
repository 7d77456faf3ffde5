/** Byte-granular reads and writes on a disk that transfers whole sectors. */
module Sata {
  import opened Prdt

  type byte = x: int | 0 <= x < 256

  /** bytes[at] lies at the virtual address `address`; the buffer is physically contiguous, shift bytes away. */
  datatype Pointer = Pointer(bytes: array<byte>, at: nat, address: nat, shift: int) {
    predicate Fits(n: nat) { at + n <= bytes.Length && Placed() }

    /** Pages go to pages, and the buffer has a physical address. */
    predicate Placed() { shift % 4096 == 0 && address + shift >= 0 }

    function Plus(n: nat): Pointer { Pointer(bytes, at + n, address + n, shift) }

    function Phys(): Translation { a => if a + shift >= 0 then a + shift else a }

    function Take(n: nat): (data: seq<byte>)
      requires Fits(n)
      reads bytes
      ensures |data| == n
    {
      bytes[at..at + n]
    }
  }

  predicate Aligned(n: nat) { n % 512 == 0 }

  /** The whole sectors in n bytes. */
  function Whole(n: nat): (w: nat)
    ensures w <= n && w % 512 == 0 && n - w < 512
  {
    n / 512 * 512
  }

  lemma PlaceInPage(a: nat, shift: int)
    requires shift % 4096 == 0
    ensures (a + shift) % 4096 == a % 4096
  {
  }

  lemma LinearIsByPage(buf: Pointer)
    requires buf.Placed()
    ensures ByPage(buf.Phys())
  {
    var phys := buf.Phys();
    forall a: nat
      ensures phys(a) % 4096 == a % 4096
    {
      PlaceInPage(a, buf.shift);
    }
  }

  lemma LinearIsCovered(buf: Pointer, size: nat)
    requires buf.Placed()
    ensures Covers(buf.Phys(), buf.address, size, 0, 0)
    ensures Image(buf.Phys(), buf.address, size) == Range(buf.address + buf.shift, size)
  {
    ContiguousIsCovered(buf.Phys(), buf.address, 0, size, 0, 0);
    ContiguousImage(buf.Phys(), buf.address, size);
  }

  lemma LastSectorIsInside(offset: nat, size: nat, end: nat)
    requires Aligned(offset) && Aligned(end) && !Aligned(size)
    ensures Aligned(offset + Whole(size)) && (offset + size <= end ==> offset + Whole(size) + 512 <= end)
  {
  }

  /** Reading whole sectors into an even buffer never ends inside a sector: the table can describe all of it, or it
      begins at a multiple of 512. */
  predicate EndsAtSector(address: nat, size: nat) {
    size < Filled(address % 4096, ENTRIES) + 4096 || address % 512 == 0
  }

  lemma WholeIff(address: nat, size: nat)
    requires Aligned(size) && size > 0
    ensures Whole(Consumed(address, size)) == Consumed(address, size) <==> EndsAtSector(address, size)
  {
    CutInsideSectorIff(address, size);
  }

  /** A read of 32 MiB to an address two bytes behind a page boundary answers with 510 bytes that no sector filled. */
  lemma ReadEndsInsideSector()
    ensures Consumed(2, 0x200_0000) == 0x1FF_8FFE && Whole(0x1FF_8FFE) == 0x1FF_8E00
  {
  }

  /** The sector count of a transfer is 0, which the device takes for 65536, exactly if it is shorter than a sector. */
  lemma SectorsToWrite(address: nat, size: nat)
    ensures Consumed(address, size) / 512 % 0x1_0000 == 0 <==> size < 512
    ensures Consumed(address, size) <= size && Consumed(address, size) / 512 < 0x1_0000
  {
  }

  /** memcpy between different buffers */
  method Copy(dst: array<byte>, to: nat, src: array<byte>, from: nat, n: nat)
    requires dst != src && to + n <= dst.Length && from + n <= src.Length
    modifies dst
    ensures forall k {:trigger dst[k]} :: 0 <= k < dst.Length ==> dst[k] == if to <= k < to + n
        then src[from + (k - to)] else old(dst[k])
  {
    for i := 0 to n
      invariant forall k {:trigger dst[k]} :: 0 <= k < dst.Length ==> dst[k] == if to <= k < to + i
          then src[from + (k - to)] else old(dst[k])
    {
      dst[to + i] := src[from + i];
    }
  }

  /** From disk d to disk d', nothing outside the range has changed, and its first bytes are the data. */
  ghost predicate Patched(d: seq<byte>, d': seq<byte>, offset: nat, size: nat, data: seq<byte>) {
    && |d'| == |d| && offset + size <= |d| && |data| <= size
    && (forall p {:trigger d'[p]} :: 0 <= p < |d| && !(offset <= p < offset + size) ==> d'[p] == d[p])
    && (forall p {:trigger d'[p]} :: offset <= p < offset + |data| ==> d'[p] == data[p - offset])
  }

  lemma PatchesCompose(d: seq<byte>, d1: seq<byte>, d2: seq<byte>, offset: nat, first: seq<byte>, second: seq<byte>)
    requires Patched(d, d1, offset, |first|, first) && Patched(d1, d2, offset + |first|, |second|, second)
    ensures Patched(d, d2, offset, |first| + |second|, first + second)
  {
    var data := first + second;
    forall p {:trigger d2[p]} | offset <= p < offset + |data|
      ensures d2[p] == data[p - offset]
    {
      if p < offset + |first| {
        assert d2[p] == d1[p] == first[p - offset];
      } else {
        assert d2[p] == second[p - (offset + |first|)];
      }
    }
  }

  lemma WrittenInside(d: seq<byte>, d': seq<byte>, offset: nat, n: nat, data: seq<byte>, size: nat)
    requires Patched(d, d', offset, n, data) && n <= size && offset + size <= |d|
    ensures |d'| == |d| && Patched(d, d', offset, size, [])
  {
  }

  /** The first n bytes of the data are on the disk. */
  ghost predicate StoredAt(disk: seq<byte>, offset: nat, data: seq<byte>, n: int) {
    && n <= |data| && offset + n <= |disk|
    && forall p {:trigger disk[p]} :: offset <= p < offset + n ==> disk[p] == data[p - offset]
  }

  /** Of the first n bytes of the data, each equals the one s places on. */
  ghost predicate Repeats(data: seq<byte>, s: nat, n: nat) {
    n <= |data| && forall k {:trigger data[k]} :: s <= k < n ==> data[k] == data[k - s]
  }

  lemma InsideSector(offset: nat, w: nat)
    requires !Aligned(offset) && w % 512 == 0 && w > 0
    ensures Whole(offset) + offset % 512 == offset && offset % 512 < 512 <= w
  {
  }

  lemma ShiftedIff(d: seq<byte>, d': seq<byte>, sector: nat, s: nat, w: nat, data: seq<byte>, offset: nat)
    requires s <= w <= |data| && Patched(d, d', sector, w, data[..w]) && offset == sector + s
    ensures d'[sector..offset] == data[..s]
    ensures StoredAt(d', offset, data, w - s) <==> Repeats(data, s, w)
  {
    forall p {:trigger d'[p]} | sector <= p < sector + w
      ensures d'[p] == data[p - sector]
    {
      assert d'[p] == data[..w][p - sector];
    }
    if StoredAt(d', offset, data, w - s) {
      StoredRepeats(d', sector, s, w, data);
    }
    if Repeats(data, s, w) {
      RepeatsStored(d', sector, s, w, data);
    }
  }

  lemma StoredRepeats(disk: seq<byte>, sector: nat, s: nat, w: nat, data: seq<byte>)
    requires s <= w <= |data| && sector + w <= |disk| && StoredAt(disk, sector + s, data, w - s)
    requires forall p {:trigger disk[p]} :: sector <= p < sector + w ==> disk[p] == data[p - sector]
    ensures Repeats(data, s, w)
  {
    forall k {:trigger data[k]} | s <= k < w
      ensures data[k] == data[k - s]
    {
      assert disk[sector + k] == data[sector + k - sector] == data[sector + k - (sector + s)];
    }
  }

  lemma RepeatsStored(disk: seq<byte>, sector: nat, s: nat, w: nat, data: seq<byte>)
    requires s <= w <= |data| && sector + w <= |disk| && Repeats(data, s, w)
    requires forall p {:trigger disk[p]} :: sector <= p < sector + w ==> disk[p] == data[p - sector]
    ensures StoredAt(disk, sector + s, data, w - s)
  {
    forall p {:trigger disk[p]} | sector + s <= p < sector + s + (w - s)
      ensures disk[p] == data[p - (sector + s)]
    {
      assert data[p - sector] == data[p - sector - s];
    }
  }

  /** Writing the beginning of the data again. */
  lemma PatchAgain(d: seq<byte>, d1: seq<byte>, d2: seq<byte>, offset: nat, size: nat, data: seq<byte>,
      again: seq<byte>)
    requires Patched(d, d1, offset, size, data) && Patched(d1, d2, offset, |again|, again) && |again| <= size
    requires data <= again || again <= data
    ensures Patched(d, d2, offset, size, data) && Patched(d, d2, offset, size, again)
  {
    forall p {:trigger d2[p]} | offset <= p < offset + |data|
      ensures d2[p] == data[p - offset]
    {
      if p >= offset + |again| {
        assert d2[p] == d1[p];
      }
    }
  }

  /** Where a new buffer lies: at any even address in any page, and in any physical page. */
  method SomePlace() returns (address: nat, shift: int)
    ensures address % 2 == 0 && shift % 4096 == 0 && address + shift >= 0
  {
    var virtualPage: nat, physicalPage: nat, inPage: nat := *, *, *;
    address, shift := virtualPage * 4096 + 2 * inPage, (physicalPage - virtualPage) * 4096;
  }

  lemma TakeLess(buf: Pointer, n: nat, size: nat)
    requires n <= size && buf.Fits(size)
    ensures buf.Take(size)[..n] == buf.Take(n)
  {
  }

  lemma TakeRest(buf: Pointer, n: nat, size: nat)
    requires n <= size && buf.Fits(size)
    ensures buf.Plus(n).Fits(size - n) && buf.Take(size) == buf.Take(n) + buf.Plus(n).Take(size - n)
  {
  }

  lemma LessIsConsumed(address: nat, n: nat, size: nat)
    requires n <= size
    ensures Consumed(address, size) == size ==> Consumed(address, n) == n
  {
  }

  /** First all of the data or nothing, if the size is no multiple of 512, and then the whole sectors in r bytes. */
  lemma WrittenTwice(d: seq<byte>, d1: seq<byte>, d2: seq<byte>, offset: nat, size: nat, data: seq<byte>,
                     all: seq<byte>, r: nat)
    requires |all| == size && r <= size && (data == all || data == []) && Aligned(offset)
    requires if Aligned(size) then d1 == d else Patched(d, d1, offset, size, data) && (r == size ==> data == all)
    requires Patched(d1, d2, offset, Whole(r), all[..Whole(r)]) && offset + size <= |d|
    ensures Patched(d, d2, offset, size, all[..if r == size then size else Whole(r)])
  {
    if Aligned(size) {
      assert Patched(d, d1, offset, size, []);
      PatchAgain(d, d1, d2, offset, size, [], all[..Whole(r)]);
    } else {
      PatchAgain(d, d1, d2, offset, size, data, all[..Whole(r)]);
      assert all[..size] == all;
    }
  }

  /** The physical bytes that a command table describes for a buffer. */
  method Describe(buf: Pointer, size: nat) returns (physical: seq<nat>, left: nat)
    requires buf.Placed() && buf.address % 2 == 0 && size > 0
    ensures left <= size && size - left == Consumed(buf.address, size)
    ensures physical == Range(buf.address + buf.shift, size - left)
  {
    var table := new CommandTable();
    LinearIsByPage(buf);
    var count, rest := table.CreatePrdt(buf.address, size, buf.Phys());
    LinearIsCovered(buf, size);
    LinearIsCovered(buf, size - rest);
    return DeviceBytes(table.prdtEntries[..count]), rest;
  }

  class Sata {
    var disk: seq<byte>
    var busy: seq<bool>
    var commands: nat
    const healthy: bool

    ghost predicate Valid()
      reads this
    {
      |disk| % 512 == 0 && 1 <= |busy| <= 32
    }

    ghost predicate AllBusy()
      reads this
    {
      forall i :: 0 <= i < |busy| ==> busy[i]
    }

    /** The command is written into the right slot only if that is the first. */
    ghost predicate Ready()
      reads this
    {
      Valid() && (!busy[0] || AllBusy())
    }

    constructor (disk: seq<byte>, slots: nat, healthy: bool)
      requires |disk| % 512 == 0 && 1 <= slots <= 32
      ensures Ready() && this.disk == disk && this.healthy == healthy && !AllBusy()
    {
      this.disk := disk;
      this.busy := seq(slots, _ => false);
      this.commands := 0;
      this.healthy := healthy;
      new;
      assert !busy[0];
    }

    /** The first free command slot, or 32 if there is none. */
    method FindSlot() returns (slot: nat)
      requires Valid()
      ensures AllBusy() <==> slot == 32
      ensures !AllBusy() ==> slot < |busy| && !busy[slot] && forall i :: 0 <= i < slot ==> busy[i]
    {
      for i := 0 to |busy|
        invariant forall k :: 0 <= k < i ==> busy[k]
      {
        if !busy[i] {
          return i;
        }
      }
      return 32;
    }

    /** The command registers take 48 bits of the sector number and 16 bits of the count, of which 0 means 65536. */
    method Registers(sectorIndex: nat, sectorCount: nat) returns (lba: nat, count: nat)
      requires sectorIndex < 0x1_0000_0000_0000 && 0 < sectorCount <= 0x1_0000
      ensures lba == sectorIndex && count == sectorCount
    {
      lba, count := sectorIndex % 0x1_0000_0000_0000, sectorCount % 0x1_0000;
      if count == 0 { count := 0x1_0000; }
    }

    /** The device copies sectors to the bytes that the table describes, or reports an error. */
    method ReadSectors(sectorIndex: nat, sectorCount: nat, physical: seq<nat>, buf: Pointer) returns (ok: bool)
      requires Ready() && !AllBusy() && sectorIndex < 0x1_0000_0000_0000 && 0 < sectorCount < 0x1_0000
      requires buf.Fits(sectorCount * 512) && sectorCount * 512 <= |physical|
          && physical == Range(buf.address + buf.shift, |physical|)
      modifies this`busy, this`commands, buf.bytes
      ensures Valid() && commands == old(commands) + 1 && (ok ==> Ready() && !AllBusy())
      ensures ok ==> (sectorIndex + sectorCount) * 512 <= |disk|
      ensures ok ==> forall k {:trigger buf.bytes[k]} :: 0 <= k < buf.bytes.Length ==>
                buf.bytes[k] == if buf.at <= k < buf.at + sectorCount * 512
                    then disk[sectorIndex * 512 + (k - buf.at)] else old(buf.bytes[k])
      ensures !ok ==> buf.bytes[..] == old(buf.bytes[..])
      ensures healthy && (sectorIndex + sectorCount) * 512 <= |disk| ==> ok
    {
      var lba, count := Registers(sectorIndex, sectorCount);
      commands := commands + 1;
      busy := busy[0 := true];
      var fault: bool := *;
      if (lba + count) * 512 > |disk| || (fault && !healthy) {
        return false;
      }
      for i := 0 to count * 512
        modifies buf.bytes
        invariant forall k {:trigger buf.bytes[k]} :: 0 <= k < buf.bytes.Length ==>
          buf.bytes[k] == if buf.at <= k < buf.at + i then disk[lba * 512 + (k - buf.at)] else old(buf.bytes[k])
      {
        buf.bytes[buf.at + (physical[i] - (buf.address + buf.shift))] := disk[lba * 512 + i];
      }
      busy := busy[0 := false];
      return true;
    }

    /** The first n bytes of the buffer are those of the disk. */
    ghost predicate Delivered(offset: nat, size: nat, buf: Pointer, n: nat)
      requires buf.Fits(size)
      reads this, buf.bytes
    {
      && n <= size && (n > 0 ==> offset + n <= |disk|)
      && (forall k {:trigger buf.bytes[k]} :: buf.at <= k < buf.at + n ==> buf.bytes[k] == disk[offset + (k - buf.at)])
    }

    /** Nothing but the first size bytes has changed. */
    twostate predicate Outside(size: nat, buf: Pointer)
      reads buf.bytes
    {
      forall k {:trigger buf.bytes[k]} :: 0 <= k < buf.bytes.Length && !(buf.at <= k < buf.at + size) ==>
          buf.bytes[k] == old(buf.bytes[k])
    }

    /** Of the bytes that the buffer's array held, those from a to b are the disk's data. */
    ghost predicate HeldBefore(was: seq<byte>, offset: nat, buf: Pointer, a: nat, b: nat)
      reads this
    {
      offset + b <= |disk| &&
      forall k {:trigger was[k]} :: 0 <= k < |was| && buf.at + a <= k < buf.at + b ==>
        was[k] == disk[offset + (k - buf.at)]
    }

    /** Exactly the whole sectors in the answer have been stored; all promised bytes are there if the answer ends at a
        sector, and otherwise only if the buffer held the rest before. */
    lemma PartIsStored(was: seq<byte>, offset: nat, size: nat, buf: Pointer, r: nat)
      requires buf.Fits(size) && Aligned(size) && 0 < size && r == Consumed(buf.address, size)
      requires Delivered(offset, size, buf, Whole(r)) && |was| == buf.bytes.Length
      requires forall k {:trigger buf.bytes[k]} :: 0 <= k < |was| && !(buf.at <= k < buf.at + Whole(r)) ==>
                 buf.bytes[k] == was[k]
      ensures Delivered(offset, size, buf, r)
         <==> EndsAtSector(buf.address, size) || HeldBefore(was, offset, buf, Whole(r), r)
    {
      WholeIff(buf.address, size);
      if Delivered(offset, size, buf, r) {
        forall k {:trigger was[k]} | 0 <= k < |was| && buf.at + Whole(r) <= k < buf.at + r
          ensures was[k] == disk[offset + (k - buf.at)]
        {
          assert buf.bytes[k] == was[k];
        }
      }
      if HeldBefore(was, offset, buf, Whole(r), r) {
        forall k {:trigger buf.bytes[k]} | buf.at <= k < buf.at + r
          ensures buf.bytes[k] == disk[offset + (k - buf.at)]
        {
          assert k >= buf.at + Whole(r) ==> buf.bytes[k] == was[k];
        }
      }
    }

    /** The last part of read, for whole sectors and an even buffer. */
    method ReadAligned(offset: nat, size: nat, buf: Pointer) returns (r: int)
      requires Ready() && buf.Fits(size) && size > 0 && Aligned(offset) && Aligned(size) && buf.address % 2 == 0
      requires offset + size <= 0x200_0000_0000_0000
      modifies this`busy, this`commands, buf.bytes
      ensures Valid() && commands <= old(commands) + 1 && (r >= 0 ==> Ready() && !AllBusy())
      ensures r == -1 || r == Consumed(buf.address, size)
      ensures r >= 0 ==> Delivered(offset, size, buf, Whole(r)) && Outside(Whole(r), buf)
      ensures r >= 0 ==> (Delivered(offset, size, buf, r) <==>
                          EndsAtSector(buf.address, size) || HeldBefore(old(buf.bytes[..]), offset, buf, Whole(r), r))
      ensures r < 0 ==> buf.bytes[..] == old(buf.bytes[..])
      ensures healthy && !old(AllBusy()) && offset + size <= |disk| ==> r >= 0
      ensures old(AllBusy()) ==> r == -1
    {
      var slot := FindSlot();
      if slot >= 32 {
        return -1;
      }
      var physical, left := Describe(buf, size);
      CutInsideSectorIff(buf.address, size);
      var used := (size - left) / 512;
      var ok := ReadSectors(offset / 512, used, physical, buf);
      if !ok {
        return -1;
      }
      PartIsStored(old(buf.bytes[..]), offset, size, buf, size - left);
      return size - left;
    }

    /** One command for each sector that is only partly wanted and one for the whole sectors in between. */
    function Budget(offset: nat, size: nat): nat {
      1 + (if Aligned(offset) then 0 else 1) + (if Aligned(offset + size) then 0 else 1)
    }

    /** Reads one sector into a new, even buffer. */
    method ReadSector(offset: nat) returns (sector: array<byte>, ok: bool)
      requires Ready() && Aligned(offset) && offset + 512 <= 0x200_0000_0000_0000
      modifies this`busy, this`commands
      ensures Valid() && commands <= old(commands) + 1 && (ok ==> Ready() && !AllBusy())
      ensures fresh(sector) && sector.Length == 512
      ensures ok ==> offset + 512 <= |disk| && forall k {:trigger sector[k]} :: 0 <= k < 512 ==>
          sector[k] == disk[offset + k]
      ensures healthy && !old(AllBusy()) && offset + 512 <= |disk| ==> ok
      ensures old(AllBusy()) ==> !ok
      decreases false, false, false, 2
    {
      sector := new byte[512];
      var address, shift := SomePlace();
      var r := Read(offset, 512, Pointer(sector, 0, address, shift));
      ok := r == 512;
    }

    method FixMisalignedOffsetRead(offset: nat, size: nat, buf: Pointer) returns (r: int)
      requires Ready() && buf.Fits(size) && size > 0 && !Aligned(offset) && offset + size <= 0x200_0000_0000_0000
      modifies this`busy, this`commands, buf.bytes
      ensures Valid() && commands <= old(commands) + Budget(offset, size) && (r >= 0 ==> Ready() && !AllBusy())
      ensures r == -1 || r == size
      ensures r == size ==> Delivered(offset, size, buf, size)
      ensures Outside(size, buf)
      ensures old(AllBusy()) && size > 0 ==> r == -1
      ensures healthy && !old(AllBusy()) && offset + size <= |disk| && size < 0x1FF_9000 ==> r == size
      decreases !Aligned(offset), !Aligned(size), buf.address % 2 != 0, 0
    {
      hide Consumed, Filled, EndsAtSector;
      OffsetParts(offset, size);
      var sector, ok := ReadSector(Whole(offset));
      if !ok {
        return -1;
      }
      if offset / 512 == (offset + size - 1) / 512 {
        CopyPart(offset, size, buf, sector);
        return size;
      }
      var firstSize := 512 - offset % 512;
      CopyPart(offset, firstSize, buf, sector);
      var rest := Read(offset + firstSize, size - firstSize, buf.Plus(firstSize));
      if rest != size - firstSize {
        return -1;
      }
      return size;
    }

    lemma OffsetParts(offset: nat, size: nat)
      requires !Aligned(offset) && size > 0
      ensures Whole(offset) + offset % 512 == offset && 0 < offset % 512 < 512
      ensures offset / 512 == (offset + size - 1) / 512 <==> offset % 512 + size <= 512
      ensures Aligned(offset + (512 - offset % 512))
      ensures offset + size <= |disk| ==> Whole(offset) + 512 <= |disk| || |disk| % 512 != 0
    {
    }

    /** The wanted bytes of a sector go to the buffer. */
    method CopyPart(offset: nat, n: nat, buf: Pointer, sector: array<byte>)
      requires buf.Fits(n) && buf.bytes != sector && sector.Length == 512 && offset % 512 + n <= 512
      requires Whole(offset) + offset % 512 == offset && Whole(offset) + 512 <= |disk|
      requires forall k {:trigger sector[k]} :: 0 <= k < 512 ==> sector[k] == disk[Whole(offset) + k]
      modifies buf.bytes
      ensures Delivered(offset, n, buf, n) && Outside(n, buf)
    {
      Copy(buf.bytes, buf.at, sector, offset % 512, n);
    }

    method FixMisalignedSizeRead(offset: nat, size: nat, buf: Pointer) returns (r: int)
      requires Ready() && buf.Fits(size) && Aligned(offset) && !Aligned(size) && offset + size <= 0x200_0000_0000_0000
      modifies this`busy, this`commands, buf.bytes
      ensures Valid() && commands <= old(commands) + 2 && (r >= 0 ==> Ready() && !AllBusy())
      ensures r == -1 || r == size
      ensures r == size ==> Delivered(offset, size, buf, size)
      ensures Outside(size, buf)
      ensures old(AllBusy()) && size > 0 ==> r == -1
      ensures healthy && !old(AllBusy()) && offset + size <= |disk| && size < 0x1FF_9000 ==> r == size
      decreases !Aligned(offset), !Aligned(size), buf.address % 2 != 0, 0
    {
      LastSectorIsInside(offset, size, |disk|);
      LastSectorIsInside(offset, size, 0x200_0000_0000_0000);
      var alignedSize := Whole(size);
      var first := Read(offset, alignedSize, buf);
      if first != alignedSize {
        return -1;
      }
      var sector, ok := ReadSector(offset + alignedSize);
      Copy(buf.bytes, buf.at + alignedSize, sector, 0, size - alignedSize);
      if !ok {
        return -1;
      }
      return size;
    }

    method FixMisalignedBufferRead(offset: nat, size: nat, buf: Pointer) returns (r: int)
      requires Ready() && buf.Fits(size) && Aligned(offset) && Aligned(size) && size > 0 && buf.address % 2 != 0
      requires offset + size <= 0x200_0000_0000_0000
      modifies this`busy, this`commands, buf.bytes
      ensures Valid() && commands <= old(commands) + 1 && (r >= 0 ==> Ready() && !AllBusy())
      ensures r == -1 || exists a: nat :: a % 2 == 0 && r == Consumed(a, size)
      ensures r >= 0 ==> Delivered(offset, size, buf, Whole(r))
      ensures Outside(size, buf)
      ensures old(AllBusy()) && size > 0 ==> r == -1
      ensures healthy && !old(AllBusy()) && offset + size <= |disk| ==> r >= 0
      decreases !Aligned(offset), !Aligned(size), buf.address % 2 != 0, 0
    {
      var newBuffer := new byte[size + 1];
      var address, shift := SomePlace();
      var odd: nat :| odd < 2;
      var aligned := Pointer(newBuffer, odd, address + 2 * odd, shift);
      r := Read(offset, size, aligned);
      Copy(buf.bytes, buf.at, newBuffer, aligned.at, size);
    }

    /** Reads size bytes at offset. A result r >= 0 promises r bytes. If the buffer is larger than one table can
        describe, the answer can end inside a sector, and the bytes of that sector have not been stored. */
    method Read(offset: nat, size: nat, buf: Pointer) returns (r: int)
      requires Ready() && buf.Fits(size) && offset + size <= 0x200_0000_0000_0000
      modifies this`busy, this`commands, buf.bytes
      ensures Valid() && commands <= old(commands) + Budget(offset, size) && (r >= 0 ==> Ready() && (size > 0 ==>
          !AllBusy()))
      ensures r == -1 || 0 <= r <= size
      ensures !Aligned(offset) || !Aligned(size) || size < 0x1FF_9000 ==> r == -1 || r == size
      ensures Aligned(offset) && Aligned(size) && buf.address % 2 == 0 && size > 0 ==>
                r == -1 || r == Consumed(buf.address, size)
      ensures r >= 0 ==> Delivered(offset, size, buf, if r == size then size else Whole(r))
      ensures Aligned(offset) && Aligned(size) && buf.address % 2 == 0 && size > 0 && r >= 0 ==>
                && Outside(Whole(r), buf)
                && (Delivered(offset, size, buf, r) <==>
                    EndsAtSector(buf.address, size) || HeldBefore(old(buf.bytes[..]), offset, buf, Whole(r), r))
      ensures Outside(size, buf)
      ensures old(AllBusy()) && size > 0 ==> r == -1
      ensures healthy && !old(AllBusy()) && offset + size <= |disk| && size < 0x1FF_9000 ==> r == size
      ensures healthy && !old(AllBusy()) && offset + size <= |disk| && Aligned(offset) && Aligned(size) ==> r >= 0
      ensures size == 0 ==> r == 0 && busy == old(busy) && buf.bytes[..] == old(buf.bytes[..])
      decreases !Aligned(offset), !Aligned(size), buf.address % 2 != 0, 1
    {
      if size == 0 {
        return 0;
      }
      if offset % 512 != 0 {
        r := FixMisalignedOffsetRead(offset, size, buf);
        return;
      }
      if size % 512 != 0 {
        r := FixMisalignedSizeRead(offset, size, buf);
        return;
      }
      if buf.address % 2 != 0 {
        r := FixMisalignedBufferRead(offset, size, buf);
        return;
      }
      r := ReadAligned(offset, size, buf);
    }

    // ----- Writing: whole-sector offsets, even buffers, at least one sector, and a device that reports no error -----

    ghost predicate Writable(offset: nat, size: nat, buf: Pointer)
      reads this
    {
      Aligned(offset) && Sendable(offset, size, buf)
    }

    /** At any offset. */
    ghost predicate Sendable(offset: nat, size: nat, buf: Pointer)
      reads this
    {
      && Ready() && !AllBusy() && healthy && buf.Placed() && 512 <= size && buf.address % 2 == 0
      && offset + size <= |disk| <= 0x200_0000_0000_0000
    }

    method WriteSectors(sectorIndex: nat, sectorCount: nat, physical: seq<nat>, buf: Pointer)
      requires Ready() && !AllBusy() && sectorIndex < 0x1_0000_0000_0000 && 0 < sectorCount < 0x1_0000
      requires buf.Fits(sectorCount * 512) && sectorCount * 512 <= |physical|
          && physical == Range(buf.address + buf.shift, |physical|)
      requires healthy && (sectorIndex + sectorCount) * 512 <= |disk|
      modifies this`disk, this`busy, this`commands
      ensures Ready() && !AllBusy() && commands == old(commands) + 1 && |disk| == |old(disk)|
      ensures forall p {:trigger disk[p]} :: 0 <= p < |disk| ==>
                disk[p] == if sectorIndex * 512 <= p < (sectorIndex + sectorCount) * 512
                    then buf.bytes[buf.at + (p - sectorIndex * 512)] else old(disk)[p]
    {
      var lba, count := Registers(sectorIndex, sectorCount);
      commands := commands + 1;
      busy := busy[0 := true];
      for i := 0 to count * 512
        modifies this`disk
        invariant |disk| == |old(disk)|
        invariant forall p {:trigger disk[p]} :: 0 <= p < |disk| ==>
          disk[p] == if lba * 512 <= p < lba * 512 + i then buf.bytes[buf.at + (p - lba * 512)] else old(disk)[p]
      {
        disk := disk[lba * 512 + i := buf.bytes[buf.at + (physical[i] - (buf.address + buf.shift))]];
      }
      busy := busy[0 := false];
    }

    /** The last part of write, reached with any offset and size: whole sectors go out, to the sector in which the
        offset lies. */
    method WriteAligned(offset: nat, size: nat, buf: Pointer) returns (r: nat)
      requires Sendable(offset, size, buf) && buf.Fits(size)
      modifies this`disk, this`busy, this`commands
      ensures Ready() && !AllBusy() && r == Consumed(buf.address, size) <= size
      ensures Patched(old(disk), disk, Whole(offset), Whole(r), buf.Take(Whole(r)))
    {
      var slot := FindSlot();
      var physical, left := Describe(buf, size);
      SectorsToWrite(buf.address, size);
      var used := (size - left) / 512;
      WriteSectors(offset / 512, used, physical, buf);
      return size - left;
    }

    /** What that does at an offset inside a sector: the bytes in front of the offset are lost, and of those behind it
        the right ones have been stored exactly if the data repeats itself with the distance from the sector. */
    method WriteInsideSector(offset: nat, size: nat, buf: Pointer) returns (r: nat)
      requires Sendable(offset, size, buf) && buf.Fits(size) && !Aligned(offset)
      modifies this`disk, this`busy, this`commands
      ensures r == Consumed(buf.address, size) && 512 <= Whole(r) && |disk| == |old(disk)|
      ensures disk[Whole(offset)..offset] == buf.Take(size)[..offset % 512]
      ensures StoredAt(disk, offset, buf.Take(size), Whole(r) - offset % 512)
         <==> Repeats(buf.Take(size), offset % 512, Whole(r))
    {
      hide Consumed, Filled, EndsAtSector;
      r := WriteAligned(offset, size, buf);
      SectorsToWrite(buf.address, size);
      InsideSector(offset, Whole(r));
      ShiftedIff(old(disk), disk, Whole(offset), offset % 512, Whole(r), buf.Take(size), offset);
    }

    /** Reads the last sector, puts the last n bytes of the buffer into it and writes it back. */
    method WriteTail(offset: nat, n: nat, buf: Pointer) returns (ok: bool)
      requires Ready() && !AllBusy() && healthy && Aligned(offset) && 0 < n < 512 && buf.Fits(n)
      requires offset + 512 <= |disk| <= 0x200_0000_0000_0000
      modifies this`disk, this`busy, this`commands
      ensures Ready() && !AllBusy() && ok
      ensures Patched(old(disk), disk, offset, n, buf.Take(n))
      decreases false, 2
    {
      var sector, read := ReadSector(offset);
      if !read {
        return false;
      }
      Copy(sector, 0, buf.bytes, buf.at, n);
      var address, shift := SomePlace();
      var pointer := Pointer(sector, 0, address, shift);
      var second := Write(offset, 512, pointer);
      ok := second == 512;
    }

    method FixMisalignedSizeWrite(offset: nat, size: nat, buf: Pointer) returns (r: int)
      requires Writable(offset, size, buf) && buf.Fits(size) && !Aligned(size)
      modifies this`disk, this`busy, this`commands
      ensures Ready() && !AllBusy()
      ensures r == -1 || r == size
      ensures Consumed(buf.address, size) == size ==> r == size
      ensures Patched(old(disk), disk, offset, size, if r == size then buf.Take(size) else [])
      decreases true, 0
    {
      hide Consumed, Filled, EndsAtSector, Patched;
      LastSectorIsInside(offset, size, |disk|);
      var alignedSize := Whole(size);
      LessIsConsumed(buf.address, alignedSize, size);
      var first := Write(offset, alignedSize, buf);
      WrittenInside(old(disk), disk, offset, alignedSize, buf.Take(if first == alignedSize then alignedSize
                                                                 else Whole(first)), size);
      if first != alignedSize {
        return -1;
      }
      ghost var d1 := disk;
      var ok := WriteTail(offset + alignedSize, size - alignedSize, buf.Plus(alignedSize));
      if !ok {
        return -1;
      }
      TakeRest(buf, alignedSize, size);
      PatchesCompose(old(disk), d1, disk, offset, buf.Take(alignedSize),
                     buf.Plus(alignedSize).Take(size - alignedSize));
      return size;
    }

    /** Writes size bytes at offset. A size that is not a multiple of 512 is first written by the helper, whose
        result is not used, and then the whole sectors are written again. */
    method Write(offset: nat, size: nat, buf: Pointer) returns (r: nat)
      requires Writable(offset, size, buf) && buf.Fits(size)
      modifies this`disk, this`busy, this`commands
      ensures Ready() && !AllBusy() && r == Consumed(buf.address, size) <= size
      ensures Patched(old(disk), disk, offset, size, buf.Take(if r == size then size else Whole(r)))
      decreases !Aligned(size), 1
    {
      hide Consumed, Filled, EndsAtSector;
      ghost var d, data := disk, [];
      if size % 512 != 0 {
        var ignored := FixMisalignedSizeWrite(offset, size, buf);
        data := if ignored == size then buf.Take(size) else [];
      }
      ghost var d1 := disk;
      r := WriteAligned(offset, size, buf);
      TakeLess(buf, Whole(r), size);
      TakeLess(buf, if r == size then size else Whole(r), size);
      WrittenTwice(d, d1, disk, offset, size, data, buf.Take(size), r);
    }

    /** A concrete answer that is wrong: the buffer holds zeros, the disk ones, and one promised byte is still zero. */
    method ReadPastTheTable(buf: Pointer) returns (r: int)
      requires Ready() && !AllBusy() && healthy && buf.Fits(0x200_0000) && buf.address == 2
      requires 0x200_0000 <= |disk| && (forall p :: 0 <= p < |disk| ==> disk[p] == 1)
      requires forall k :: 0 <= k < buf.bytes.Length ==> buf.bytes[k] == 0
      modifies this`busy, this`commands, buf.bytes
      ensures r == 0x1FF_8FFE && buf.bytes[buf.at + 0x1FF_8FFD] == 0 && !Delivered(0, 0x200_0000, buf, r)
    {
      ReadEndsInsideSector();
      r := Read(0, 0x200_0000, buf);
      assert buf.bytes[buf.at + 0x1FF_8FFD] == old(buf.bytes[buf.at + 0x1FF_8FFD]);
    }

    /** Reading back what has been written. */
    method WriteThenRead(offset: nat, size: nat, buf: Pointer, out: Pointer)
      requires Writable(offset, size, buf) && buf.Fits(size) && out.Fits(size) && buf.bytes != out.bytes
          && size < 0x1FF_9000
      modifies this`disk, this`busy, this`commands, out.bytes
      ensures out.Take(size) == buf.Take(size)
    {
      var written := Write(offset, size, buf);
      var r := Read(offset, size, out);
      assert Delivered(offset, size, out, size);
      assert disk[offset..offset + size] == buf.Take(size);
    }
  }
}

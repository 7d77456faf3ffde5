/** The in-band list of free regions: what the chain of descriptors in physical memory
    means, and what each change of the chain does to the set of free pages. */
module FreeList {
  import opened Machine

  datatype Region = Region(start: nat, count: nat)
  {
    function End(): nat { start + count }

    predicate Has(p: int) { start <= p < End() }
  }

  // Word offsets of the descriptor's fields.
  const START := 0
  const COUNT := 1
  const TYPE := 2
  const NEXT := 3

  predicate Disjoint(r: Region, s: Region) {
    r.End() <= s.start || s.End() <= r.start
  }

  /** Regions of a list: a sentinel at page 0, then non-empty disjoint regions below the 512 GiB
      that mapPages can reach. */
  ghost predicate WellFormed(rs: seq<Region>) {
    && |rs| >= 1 && rs[0].start == 0
    && (forall i {:trigger rs[i]} ::
          1 <= i < |rs| ==> 1 <= rs[i].start && 1 <= rs[i].count && rs[i].End() <= 0x800_0000)
    && (forall i, j {:trigger rs[i], rs[j]} :: 1 <= i < j < |rs| ==> Disjoint(rs[i], rs[j]))
  }

  function NextAddress(rs: seq<Region>, i: nat): nat
    requires i < |rs|
  {
    if i + 1 < |rs| then PageAddress(rs[i + 1].start) else 0
  }

  /** Page r.start of m starts with the descriptor of r. */
  ghost predicate Describes(m: Memory, r: Region, next: nat) {
    && Read(m, r.start, START) == r.start && Read(m, r.start, COUNT) == r.count && Read(m, r.start, NEXT) == next
  }

  /** The descriptors found from page 0 by following the next addresses are exactly rs, in order. */
  ghost predicate Chain(m: Memory, rs: seq<Region>) {
    forall i: nat {:trigger NextAddress(rs, i)} :: i < |rs| ==> Describes(m, rs[i], NextAddress(rs, i))
  }

  /** What the descriptor of node k reads. */
  lemma ReadNode(m: Memory, rs: seq<Region>, k: nat)
    requires Chain(m, rs) && k < |rs|
    ensures Read(m, rs[k].start, START) == rs[k].start && Read(m, rs[k].start, COUNT) == rs[k].count
    ensures Read(m, rs[k].start, NEXT) == NextAddress(rs, k)
  {
    assert Describes(m, rs[k], NextAddress(rs, k));
  }

  ghost predicate Free(rs: seq<Region>, p: int) {
    exists i {:trigger rs[i]} :: 1 <= i < |rs| && rs[i].Has(p)
  }

  /** All of r lies in one free region of rs. */
  ghost predicate Inside(r: Region, rs: seq<Region>) {
    exists i {:trigger rs[i]} :: 1 <= i < |rs| && rs[i].start <= r.start && r.End() <= rs[i].End()
  }

  /** Only free pages of rs and the sentinel's descriptor in page 0 may have been written. */
  ghost predicate Untouched(m: Memory, m': Memory, rs: seq<Region>) {
    && (forall p: nat {:trigger Agree(m, m', p)} :: p != 0 && !Free(rs, p) ==> Agree(m, m', p))
    && (forall i: nat {:trigger Read(m', 0, i)} :: i > NEXT ==> Read(m', 0, i) == Read(m, 0, i))
  }

  lemma StartsDiffer(rs: seq<Region>, i: nat, j: nat)
    requires WellFormed(rs) && i < |rs| && j < |rs| && i != j
    ensures rs[i].start != rs[j].start
  {
  }

  /** A chain has one reading: memory determines the list. */
  lemma {:induction false} ChainIsUnique(m: Memory, rs: seq<Region>, rs': seq<Region>, k: nat)
    requires WellFormed(rs) && WellFormed(rs') && Chain(m, rs) && Chain(m, rs')
    requires k < |rs| && k < |rs'| && rs[k] == rs'[k]
    ensures rs[k..] == rs'[k..]
    decreases |rs| - k
  {
    assert Describes(m, rs[k], NextAddress(rs, k)) && Describes(m, rs'[k], NextAddress(rs', k));
    if k + 1 < |rs| {
      assert Describes(m, rs[k + 1], NextAddress(rs, k + 1));
      assert k + 1 < |rs'|;
      assert Describes(m, rs'[k + 1], NextAddress(rs', k + 1));
      ChainIsUnique(m, rs, rs', k + 1);
      assert rs[k..] == [rs[k]] + rs[k + 1..] && rs'[k..] == [rs'[k]] + rs'[k + 1..];
    } else {
      assert k + 1 >= |rs'|;
    }
  }

  /** Writes outside page 0 and the free pages leave the whole chain readable. */
  lemma ChainFrame(m: Memory, m': Memory, rs: seq<Region>)
    requires WellFormed(rs) && Chain(m, rs)
    requires Agree(m, m', 0)
    requires forall p: nat {:trigger Agree(m, m', p)} :: Free(rs, p) ==> Agree(m, m', p)
    ensures Chain(m', rs)
  {
    forall i: nat {:trigger NextAddress(rs, i)} | i < |rs|
      ensures Describes(m', rs[i], NextAddress(rs, i))
    {
      assert Describes(m, rs[i], NextAddress(rs, i));
      if i > 0 {
        assert rs[i].Has(rs[i].start);
        assert Free(rs, rs[i].start) && Agree(m, m', rs[i].start);
      }
    }
  }

  // ----- Changes of the chain -----

  function Drop(rs: seq<Region>, k: nat): (r: seq<Region>)
    requires k < |rs|
    ensures |r| == |rs| - 1
    ensures forall i {:trigger r[i]} :: 0 <= i < |r| ==> r[i] == rs[if i < k then i else i + 1]
  {
    rs[..k] + rs[k + 1..]
  }

  lemma DropWellFormed(rs: seq<Region>, k: nat)
    requires WellFormed(rs) && 1 <= k < |rs|
    ensures WellFormed(Drop(rs, k))
  {
    var s := Drop(rs, k);
    forall i {:trigger s[i]} | 1 <= i < |s|
      ensures 1 <= s[i].start && 1 <= s[i].count && s[i].End() <= 0x800_0000
    {
    }
    forall i, j {:trigger s[i], s[j]} | 1 <= i < j < |s|
      ensures Disjoint(s[i], s[j])
    {
    }
  }

  /** last->next = region->next removes region. */
  lemma Unlink(m: Memory, rs: seq<Region>, k: nat)
    requires WellFormed(rs) && Chain(m, rs) && 1 <= k < |rs|
    ensures Chain(Write(m, rs[k - 1].start, NEXT, NextAddress(rs, k)), Drop(rs, k))
  {
    var rs', m' := Drop(rs, k), Write(m, rs[k - 1].start, NEXT, NextAddress(rs, k));
    forall i: nat {:trigger NextAddress(rs', i)} | i < |rs'|
      ensures Describes(m', rs'[i], NextAddress(rs', i))
    {
      var o := if i < k then i else i + 1;
      assert rs'[i] == rs[o];
      assert Describes(m, rs[o], NextAddress(rs, o));
      if o != k - 1 {
        StartsDiffer(rs, o, k - 1);
      }
    }
  }

  /** region->pageCount = count keeps the first count pages of region k. */
  lemma Shrink(m: Memory, rs: seq<Region>, k: nat, count: nat)
    requires WellFormed(rs) && Chain(m, rs) && 1 <= k < |rs| && 1 <= count <= rs[k].count
    ensures WellFormed(rs[k := Region(rs[k].start, count)])
    ensures Chain(Write(m, rs[k].start, COUNT, count), rs[k := Region(rs[k].start, count)])
  {
    var rs', m' := rs[k := Region(rs[k].start, count)], Write(m, rs[k].start, COUNT, count);
    forall i: nat {:trigger NextAddress(rs', i)} | i < |rs'|
      ensures Describes(m', rs'[i], NextAddress(rs', i))
    {
      assert Describes(m, rs[i], NextAddress(rs, i));
      if i != k {
        StartsDiffer(rs, i, k);
      }
    }
  }

  /** The four assignments that fill a descriptor. */
  function WriteDescriptor(m: Memory, r: Region, kind: nat, next: nat): Memory {
    Write(Write(Write(Write(m, r.start, START, r.start), r.start, COUNT, r.count), r.start, TYPE, kind), r.start,
        NEXT, next)
  }

  function Insert(rs: seq<Region>, k: nat, r: Region): (s: seq<Region>)
    requires k <= |rs|
    ensures |s| == |rs| + 1
    ensures forall i {:trigger s[i]} :: 0 <= i < |s| ==> s[i] == if i < k then rs[i] else if i == k then r
        else rs[i - 1]
  {
    rs[..k] + [r] + rs[k..]
  }

  /** A new descriptor written in its own first page and linked behind node k - 1. */
  lemma LinkNew(m: Memory, rs: seq<Region>, k: nat, r: Region, kind: nat)
    requires WellFormed(rs) && Chain(m, rs) && 1 <= k <= |rs|
    requires WellFormed(Insert(rs, k, r))
    ensures Chain(Write(WriteDescriptor(m, r, kind, NextAddress(rs, k - 1)), rs[k - 1].start, NEXT,
        PageAddress(r.start)), Insert(rs, k, r))
  {
    var rs' := Insert(rs, k, r);
    var m1 := WriteDescriptor(m, r, kind, NextAddress(rs, k - 1));
    var m' := Write(m1, rs[k - 1].start, NEXT, PageAddress(r.start));
    assert rs'[k] == r;
    forall i: nat {:trigger NextAddress(rs', i)} | i < |rs'|
      ensures Describes(m', rs'[i], NextAddress(rs', i))
    {
      if i != k {
        var o := if i < k then i else i - 1;
        assert rs'[i] == rs[o];
        assert Describes(m, rs[o], NextAddress(rs, o));
        StartsDiffer(rs', i, k);
        if i != k - 1 {
          StartsDiffer(rs, o, k - 1);
        }
      } else {
        StartsDiffer(rs', k, k - 1);
        assert rs'[k - 1] == rs[k - 1];
        assert k + 1 < |rs'| ==> rs'[k + 1] == rs[k];
      }
    }
  }

  // ----- Marking a page interval as used -----

  /** What is left of r once pages a1 to a2 - 1 are taken out: the five cases of setUsed. */
  function Carve(r: Region, a1: nat, a2: nat): seq<Region> {
    if a2 <= r.start || r.End() <= a1 then [r]
    else if a1 <= r.start && r.End() <= a2 then []
    else if a1 <= r.start then [Region(a2, r.End() - a2)]
    else if r.End() <= a2 then [Region(r.start, a1 - r.start)]
    else [Region(r.start, a1 - r.start), Region(a2, r.End() - a2)]
  }

  function Subtract(rs: seq<Region>, a1: nat, a2: nat): seq<Region> {
    if rs == [] then [] else Carve(rs[0], a1, a2) + Subtract(rs[1..], a1, a2)
  }

  ghost predicate Covered(rs: seq<Region>, p: int) {
    exists r :: r in rs && r.Has(p)
  }

  lemma FreeIsCovered(rs: seq<Region>, p: int)
    requires |rs| >= 1
    ensures Free(rs, p) <==> Covered(rs[1..], p)
  {
    if Free(rs, p) {
      var i :| 1 <= i < |rs| && rs[i].Has(p);
      assert rs[1..][i - 1] == rs[i];
    }
    if Covered(rs[1..], p) {
      var r :| r in rs[1..] && r.Has(p);
      var i :| 0 <= i < |rs[1..]| && rs[1..][i] == r;
      assert rs[i + 1].Has(p);
    }
  }

  lemma CoveredConcat(a: seq<Region>, b: seq<Region>, p: int)
    ensures Covered(a + b, p) <==> Covered(a, p) || Covered(b, p)
  {
    assert forall r :: r in a + b <==> r in a || r in b;
  }

  /** Carving is set subtraction. */
  lemma {:induction false} SubtractIsSetMinus(rs: seq<Region>, a1: nat, a2: nat, p: int)
    requires a1 < a2
    ensures Covered(Subtract(rs, a1, a2), p) <==> Covered(rs, p) && !(a1 <= p < a2)
  {
    if rs != [] {
      var r, c := rs[0], Carve(rs[0], a1, a2);
      SubtractIsSetMinus(rs[1..], a1, a2, p);
      CoveredConcat(c, Subtract(rs[1..], a1, a2), p);
      assert rs == [r] + rs[1..];
      CoveredConcat([r], rs[1..], p);
      assert Covered([r], p) <==> r.Has(p) by {
        assert forall s :: s in [r] <==> s == r;
      }
      CarveIsSetMinus(r, a1, a2, p);
    }
  }

  lemma CarveIsSetMinus(r: Region, a1: nat, a2: nat, p: int)
    requires a1 < a2
    ensures Covered(Carve(r, a1, a2), p) <==> r.Has(p) && !(a1 <= p < a2)
  {
    var c := Carve(r, a1, a2);
    if r.Has(p) && !(a1 <= p < a2) {
      if p < a1 {
        assert c[0] in c && c[0].Has(p);
      } else {
        assert c[|c| - 1] in c && c[|c| - 1].Has(p);
      }
    }
  }

  /** Shrinking the regions in place keeps the list well-formed. */
  lemma PartWellFormed(rs: seq<Region>, k: nat, r: Region)
    requires WellFormed(rs) && 1 <= k < |rs|
    requires rs[k].start <= r.start && 1 <= r.count && r.End() <= rs[k].End()
    ensures WellFormed(rs[k := r])
  {
  }

  lemma SplitWellFormed(rs: seq<Region>, k: nat, a1: nat, a2: nat)
    requires WellFormed(rs) && 1 <= k < |rs| && rs[k].start < a1 <= a2 < rs[k].End()
    ensures WellFormed(Insert(rs[k := Region(rs[k].start, a1 - rs[k].start)], k + 1, Region(a2, rs[k].End() - a2)))
  {
    var left := rs[k := Region(rs[k].start, a1 - rs[k].start)];
    PartWellFormed(rs, k, Region(rs[k].start, a1 - rs[k].start));
    var s := Insert(left, k + 1, Region(a2, rs[k].End() - a2));
    forall i, j {:trigger s[i], s[j]} | 1 <= i < j < |s|
      ensures Disjoint(s[i], s[j])
    {
      var o, o' := if i <= k then i else i - 1, if j <= k then j else j - 1;
      if o != o' {
        assert Disjoint(rs[o], rs[o']);
      }
    }
  }

  /** A region whose start moves up gets a new descriptor there, linked in place of the old one. */
  lemma MoveStart(m: Memory, rs: seq<Region>, k: nat, a2: nat, kind: nat)
    requires WellFormed(rs) && Chain(m, rs) && 1 <= k < |rs| && rs[k].start < a2 < rs[k].End()
    ensures var r := Region(a2, rs[k].End() - a2);
            && WellFormed(rs[k := r])
            && Chain(Write(WriteDescriptor(m, r, kind, NextAddress(rs, k)), rs[k - 1].start, NEXT, PageAddress(a2)),
                rs[k := r])
  {
    var r := Region(a2, rs[k].End() - a2);
    PartWellFormed(rs, k, r);
    var rs' := rs[k := r];
    var m' := Write(WriteDescriptor(m, r, kind, NextAddress(rs, k)), rs[k - 1].start, NEXT, PageAddress(a2));
    forall i: nat {:trigger NextAddress(rs', i)} | i < |rs'|
      ensures Describes(m', rs'[i], NextAddress(rs', i))
    {
      StartsDiffer(rs', k, k - 1);
      if i != k {
        assert Describes(m, rs[i], NextAddress(rs, i));
        StartsDiffer(rs', i, k);
        if i != k - 1 {
          StartsDiffer(rs, i, k - 1);
        }
      }
    }
  }

  /** The tail of a region gets its own descriptor behind the shortened region. */
  lemma SplitRegion(m: Memory, rs: seq<Region>, k: nat, a1: nat, a2: nat, kind: nat)
    requires WellFormed(rs) && Chain(m, rs) && 1 <= k < |rs| && rs[k].start < a1 <= a2 < rs[k].End()
    ensures var left, right := Region(rs[k].start, a1 - rs[k].start), Region(a2, rs[k].End() - a2);
            var m1 := Write(m, left.start, COUNT, left.count);
            && WellFormed(Insert(rs[k := left], k + 1, right))
            && Chain(Write(WriteDescriptor(m1, right, kind, NextAddress(rs, k)), left.start, NEXT, PageAddress(a2)),
                     Insert(rs[k := left], k + 1, right))
  {
    var left, right := Region(rs[k].start, a1 - rs[k].start), Region(a2, rs[k].End() - a2);
    Shrink(m, rs, k, left.count);
    SplitWellFormed(rs, k, a1, a2);
    LinkNew(Write(m, left.start, COUNT, left.count), rs[k := left], k + 1, right, kind);
  }

  function Pages(rs: seq<Region>): nat {
    if rs == [] then 0 else rs[0].count + Pages(rs[1..])
  }

  /** The pages of the nodes from k on. */
  function PagesFrom(rs: seq<Region>, k: nat): nat {
    if k <= |rs| then Pages(rs[k..]) else 0
  }

  lemma PagesStep(rs: seq<Region>, k: nat)
    requires k < |rs|
    ensures PagesFrom(rs, k) == rs[k].count + PagesFrom(rs, k + 1)
  {
    assert rs[k..] == [rs[k]] + rs[k + 1..];
  }

  // ----- One round of the loop in setUsed -----

  /** Page p holds the sentinel or a descriptor while pages up to a2 are carved out of was. */
  ghost predicate Marked(was: seq<Region>, a2: nat, p: nat) {
    p == 0 || Starts(was, p) || (p == a2 && Free(was, p))
  }

  ghost predicate Starts(rs: seq<Region>, p: nat) {
    exists i {:trigger rs[i]} :: 1 <= i < |rs| && rs[i].start == p
  }

  /** Only pages with descriptors may have been written, and of page 0 only the sentinel's. */
  ghost predicate OnlyMarked(m: Memory, m': Memory, was: seq<Region>, a2: nat) {
    && (forall p: nat {:trigger Agree(m, m', p)} :: !Marked(was, a2, p) ==> Agree(m, m', p))
    && (forall i: nat {:trigger Read(m', 0, i)} :: i > NEXT ==> Read(m', 0, i) == Read(m, 0, i))
  }

  /** Only page 0 and the first pages of the regions may differ. */
  ghost predicate OnlyStarts(m: Memory, m': Memory, rs: seq<Region>) {
    forall p: nat {:trigger Agree(m, m', p)} :: p != 0 && !Starts(rs, p) ==> Agree(m, m', p)
  }

  lemma MarkedIsFree(was: seq<Region>, a2: nat, p: nat)
    requires WellFormed(was) && Marked(was, a2, p) && p != 0
    ensures Free(was, p)
  {
    if Starts(was, p) {
      var i :| 1 <= i < |was| && was[i].start == p;
      assert was[i].Has(p);
    }
  }

  lemma OnlyMarkedIsUntouched(m: Memory, m': Memory, was: seq<Region>, a2: nat)
    requires WellFormed(was) && OnlyMarked(m, m', was, a2)
    ensures Untouched(m, m', was)
  {
    forall p: nat {:trigger Agree(m, m', p)} | p != 0 && !Free(was, p)
      ensures Agree(m, m', p)
    {
      if Marked(was, a2, p) {
        MarkedIsFree(was, a2, p);
      }
    }
  }

  lemma MarkWrite(m0: Memory, was: seq<Region>, m: Memory, a2: nat, p: nat, i: nat, w: nat)
    requires OnlyMarked(m0, m, was, a2) && Marked(was, a2, p) && (p == 0 ==> i <= NEXT)
    ensures OnlyMarked(m0, Write(m, p, i, w), was, a2)
  {
    forall q: nat {:trigger Agree(m0, Write(m, p, i, w), q)} | !Marked(was, a2, q)
      ensures Agree(m0, Write(m, p, i, w), q)
    {
      assert Agree(m0, m, q);
    }
  }

  lemma MarkDescriptor(m0: Memory, was: seq<Region>, m: Memory, a2: nat, r: Region, kind: nat, next: nat)
    requires OnlyMarked(m0, m, was, a2) && Marked(was, a2, r.start) && r.start > 0
    ensures OnlyMarked(m0, WriteDescriptor(m, r, kind, next), was, a2)
  {
    MarkWrite(m0, was, m, a2, r.start, START, r.start);
    var m1 := Write(m, r.start, START, r.start);
    MarkWrite(m0, was, m1, a2, r.start, COUNT, r.count);
    var m2 := Write(m1, r.start, COUNT, r.count);
    MarkWrite(m0, was, m2, a2, r.start, TYPE, kind);
    MarkWrite(m0, was, Write(m2, r.start, TYPE, kind), a2, r.start, NEXT, next);
  }

  ghost predicate AllMarked(rs: seq<Region>, was: seq<Region>, a2: nat) {
    forall i {:trigger rs[i]} :: 0 <= i < |rs| ==> Marked(was, a2, rs[i].start)
  }

  /** The first k nodes are done, the rest is still to be carved; was and m0 are list and memory at the start. */
  ghost predicate Carving(m0: Memory, was: seq<Region>, m: Memory, rs: seq<Region>, k: nat, a1: nat, a2: nat) {
    && WellFormed(was) && WellFormed(rs) && Chain(m, rs) && 1 <= k <= |rs| && rs[0] == was[0]
    && Subtract(was[1..], a1, a2) == rs[1..k] + Subtract(rs[k..], a1, a2)
    && (forall i {:trigger Inside(rs[i], was)} :: 1 <= i < |rs| ==> Inside(rs[i], was))
    && AllMarked(rs, was, a2) && OnlyMarked(m0, m, was, a2)
  }

  lemma CarvingStarts(m: Memory, rs: seq<Region>, a1: nat, a2: nat)
    requires WellFormed(rs) && Chain(m, rs)
    ensures Carving(m, rs, m, rs, 1, a1, a2)
    ensures Read(m, 0, NEXT) == NextAddress(rs, 0)
  {
    assert Describes(m, rs[0], NextAddress(rs, 0));
    assert rs[1..1] + Subtract(rs[1..], a1, a2) == Subtract(rs[1..], a1, a2);
  }

  lemma CarvingEnds(m0: Memory, was: seq<Region>, m: Memory, rs: seq<Region>, k: nat, a1: nat, a2: nat)
    requires Carving(m0, was, m, rs, k, a1, a2) && PageIndex(NextAddress(rs, k - 1)) == 0
    ensures rs == [was[0]] + Subtract(was[1..], a1, a2)
    ensures Untouched(m0, m, was) && OnlyMarked(m0, m, was, a2) && AllMarked(rs, was, a2)
  {
    OnlyMarkedIsUntouched(m0, m, was, a2);
    assert k == |rs|;
    assert rs[k..] == [] && rs[1..k] == rs[1..];
    assert rs == [rs[0]] + rs[1..];
  }

  lemma InsideIsFree(r: Region, rs: seq<Region>, p: nat)
    requires Inside(r, rs) && r.Has(p)
    ensures Free(rs, p)
  {
    var i :| 1 <= i < |rs| && rs[i].start <= r.start && r.End() <= rs[i].End();
    assert rs[i].Has(p);
  }

  /** Pages 0 and start pages of current nodes may be written. */
  lemma NodeWrite(m0: Memory, was: seq<Region>, m: Memory, rs: seq<Region>, k: nat, p: nat, i: nat, w: nat)
    requires Untouched(m0, m, was) && k < |rs| && rs[0].start == 0
    requires k > 0 ==> Inside(rs[k], was) && rs[k].Has(p) && p > 0
    requires k == 0 ==> p == 0 && i <= NEXT
    ensures Untouched(m0, Write(m, p, i, w), was)
  {
    if k > 0 {
      InsideIsFree(rs[k], was, p);
    }
    forall q: nat {:trigger Agree(m0, Write(m, p, i, w), q)} | q != 0 && !Free(was, q)
      ensures Agree(m0, Write(m, p, i, w), q)
    {
      assert Agree(m0, m, q);
    }
  }

  /** Carving the region behind the done part into the pieces moves them to the done part. */
  lemma SubtractMoves(rs: seq<Region>, k: nat, pieces: seq<Region>, s: seq<Region>, k': nat, a1: nat, a2: nat)
    requires 1 <= k < |rs| && 1 <= k' <= |s|
    requires Carve(rs[k], a1, a2) == pieces
    requires s[1..k'] == rs[1..k] + pieces && s[k'..] == rs[k + 1..]
    ensures s[1..k'] + Subtract(s[k'..], a1, a2) == rs[1..k] + Subtract(rs[k..], a1, a2)
  {
    SubtractStep(rs, k, a1, a2);
    var t := Subtract(rs[k + 1..], a1, a2);
    assert rs[1..k] + pieces + t == rs[1..k] + (pieces + t);
  }

  lemma SubtractStep(rs: seq<Region>, k: nat, a1: nat, a2: nat)
    requires 1 <= k < |rs|
    ensures Subtract(rs[k..], a1, a2) == Carve(rs[k], a1, a2) + Subtract(rs[k + 1..], a1, a2)
  {
    assert rs[k..][0] == rs[k] && rs[k..][1..] == rs[k + 1..];
  }

  lemma CaseOutside(m0: Memory, was: seq<Region>, m: Memory, rs: seq<Region>, k: nat, a1: nat, a2: nat)
    requires Carving(m0, was, m, rs, k, a1, a2) && k < |rs|
    requires a2 <= rs[k].start || rs[k].End() <= a1
    ensures Carving(m0, was, m, rs, k + 1, a1, a2)
  {
    SubtractMoves(rs, k, [rs[k]], rs, k + 1, a1, a2);
  }

  lemma CaseDelete(m0: Memory, was: seq<Region>, m: Memory, rs: seq<Region>, k: nat, a1: nat, a2: nat)
    requires Carving(m0, was, m, rs, k, a1, a2) && k < |rs|
    requires Carve(rs[k], a1, a2) == []
    ensures Carving(m0, was, Write(m, rs[k - 1].start, NEXT, NextAddress(rs, k)), Drop(rs, k), k, a1, a2)
    ensures Drop(rs, k)[k..] == rs[k + 1..]
  {
    var s := Drop(rs, k);
    assert s[k..] == rs[k + 1..];
    assert s[1..k] == rs[1..k] + [];
    SubtractMoves(rs, k, [], s, k, a1, a2);
    Unlink(m, rs, k);
    DropWellFormed(rs, k);
    MarkWrite(m0, was, m, a2, rs[k - 1].start, NEXT, NextAddress(rs, k));
  }

  lemma UpdatedParts(rs: seq<Region>, k: nat, r: Region)
    requires 1 <= k < |rs|
    ensures var s := rs[k := r]; s[1..k + 1] == rs[1..k] + [r] && s[k + 1..] == rs[k + 1..]
  {
  }

  lemma CaseRaise(m0: Memory, was: seq<Region>, m: Memory, rs: seq<Region>, k: nat, a1: nat, a2: nat, kind: nat)
    requires Carving(m0, was, m, rs, k, a1, a2) && k < |rs|
    requires a1 <= rs[k].start < a2 < rs[k].End()
    ensures var r := Region(a2, rs[k].End() - a2);
            Carving(m0, was, Write(WriteDescriptor(m, r, kind, NextAddress(rs, k)), rs[k - 1].start, NEXT,
                PageAddress(a2)),
                    rs[k := r], k + 1, a1, a2)
  {
    hide PageAddress, Free, Describes, Subtract;
    var r := Region(a2, rs[k].End() - a2);
    MoveStart(m, rs, k, a2, kind);
    UpdatedParts(rs, k, r);
    SubtractMoves(rs, k, [r], rs[k := r], k + 1, a1, a2);
    InsideIsFree(rs[k], was, a2);
    MarkDescriptor(m0, was, m, a2, r, kind, NextAddress(rs, k));
    var m4 := WriteDescriptor(m, r, kind, NextAddress(rs, k));
    MarkWrite(m0, was, m4, a2, rs[k - 1].start, NEXT, PageAddress(a2));
    assert Inside(r, was);
  }

  lemma CaseLower(m0: Memory, was: seq<Region>, m: Memory, rs: seq<Region>, k: nat, a1: nat, a2: nat)
    requires Carving(m0, was, m, rs, k, a1, a2) && k < |rs|
    requires rs[k].start < a1 < rs[k].End() <= a2
    ensures var r := Region(rs[k].start, a1 - rs[k].start);
            Carving(m0, was, Write(m, r.start, COUNT, r.count), rs[k := r], k + 1, a1, a2)
  {
    var r := Region(rs[k].start, a1 - rs[k].start);
    Shrink(m, rs, k, r.count);
    UpdatedParts(rs, k, r);
    SubtractMoves(rs, k, [r], rs[k := r], k + 1, a1, a2);
    MarkWrite(m0, was, m, a2, r.start, COUNT, r.count);
    assert Inside(rs[k], was) && Inside(r, was);
  }

  lemma SubtractSplits(rs: seq<Region>, k: nat, left: Region, right: Region, a1: nat, a2: nat)
    requires 1 <= k < |rs| && a2 <= right.start
    requires Carve(rs[k], a1, a2) == [left, right]
    ensures var s := Insert(rs[k := left], k + 1, right);
            && s[k + 1..] == [right] + rs[k + 1..]
            && s[1..k + 1] + Subtract(s[k + 1..], a1, a2) == rs[1..k] + Subtract(rs[k..], a1, a2)
  {
    hide Subtract;
    var s := Insert(rs[k := left], k + 1, right);
    assert s[k + 1..] == [right] + rs[k + 1..];
    assert s[k + 2..] == rs[k + 1..];
    assert s[1..k + 1] == rs[1..k] + [left];
    SubtractStep(rs, k, a1, a2);
    SubtractStep(s, k + 1, a1, a2);
    var t := Subtract(rs[k + 1..], a1, a2);
    assert rs[1..k] + [left] + ([right] + t) == rs[1..k] + ([left, right] + t);
  }

  lemma {:induction false} CaseSplit(m0: Memory, was: seq<Region>, m: Memory, rs: seq<Region>, k: nat, a1: nat,
      a2: nat, kind: nat)
    requires Carving(m0, was, m, rs, k, a1, a2) && k < |rs|
    requires rs[k].start < a1 < a2 < rs[k].End()
    ensures var left, right := Region(rs[k].start, a1 - rs[k].start), Region(a2, rs[k].End() - a2);
            var m1 := Write(m, left.start, COUNT, left.count);
            var s := Insert(rs[k := left], k + 1, right);
            && Carving(m0, was, Write(WriteDescriptor(m1, right, kind, NextAddress(rs, k)), left.start, NEXT,
                PageAddress(a2)),
                       s, k + 1, a1, a2)
            && s[k + 1..] == [right] + rs[k + 1..]
  {
    hide PageAddress, Free, Describes, Read;
    var left, right := Region(rs[k].start, a1 - rs[k].start), Region(a2, rs[k].End() - a2);
    var s := Insert(rs[k := left], k + 1, right);
    SplitRegion(m, rs, k, a1, a2, kind);
    SubtractSplits(rs, k, left, right, a1, a2);
    InsideIsFree(rs[k], was, a2);
    MarkWrite(m0, was, m, a2, left.start, COUNT, left.count);
    var m1 := Write(m, left.start, COUNT, left.count);
    MarkDescriptor(m0, was, m1, a2, right, kind, NextAddress(rs, k));
    var m2 := WriteDescriptor(m1, right, kind, NextAddress(rs, k));
    MarkWrite(m0, was, m2, a2, left.start, NEXT, PageAddress(a2));
    assert Inside(left, was) && Inside(right, was);
  }

  // ----- Granting pages from the back of a region -----

  /** The first node from i on that has count pages; the last node is never considered. */
  function FirstFit(rs: seq<Region>, count: nat, i: nat): (k: nat)
    requires i <= |rs|
    ensures i <= k <= |rs|
    ensures k < |rs| ==> k + 1 < |rs| && rs[k].count >= count
    ensures forall j {:trigger rs[j]} :: i <= j < k && j + 1 < |rs| ==> rs[j].count < count
    decreases |rs| - i
  {
    if i + 1 >= |rs| then |rs|
    else if rs[i].count >= count then i
    else FirstFit(rs, count, i + 1)
  }

  function Granted(rs: seq<Region>, k: nat, count: nat): Region
    requires k < |rs| && count <= rs[k].count
  {
    Region(rs[k].End() - count, count)
  }

  function AfterGrant(rs: seq<Region>, k: nat, count: nat): seq<Region>
    requires k < |rs| && count <= rs[k].count
  {
    if count == rs[k].count then Drop(rs, k) else rs[k := Region(rs[k].start, rs[k].count - count)]
  }

  /** The granted pages leave the free set and nothing else does. */
  lemma GrantIsSetMinus(rs: seq<Region>, k: nat, count: nat, p: int)
    requires WellFormed(rs) && 1 <= k < |rs| && count <= rs[k].count
    ensures Free(AfterGrant(rs, k, count), p) <==> Free(rs, p) && !Granted(rs, k, count).Has(p)
    ensures Granted(rs, k, count).Has(p) ==> Free(rs, p)
  {
    var s, g := AfterGrant(rs, k, count), Granted(rs, k, count);
    if g.Has(p) {
      assert rs[k].Has(p);
    }
    if Free(s, p) {
      var i :| 1 <= i < |s| && s[i].Has(p);
      LeftoverIsFree(rs, k, count, i, p);
    }
    if Free(rs, p) && !g.Has(p) {
      var o :| 1 <= o < |rs| && rs[o].Has(p);
      OtherStaysFree(rs, k, count, o, p);
    }
  }

  lemma OtherStaysFree(rs: seq<Region>, k: nat, count: nat, o: nat, p: int)
    requires WellFormed(rs) && 1 <= k < |rs| && count <= rs[k].count && 1 <= o < |rs| && rs[o].Has(p)
    requires !Granted(rs, k, count).Has(p)
    ensures Free(AfterGrant(rs, k, count), p)
  {
    var s := AfterGrant(rs, k, count);
    if count == rs[k].count {
      assert s[if o > k then o - 1 else o] == rs[o];
    } else {
      assert s[o].Has(p);
    }
  }

  lemma LeftoverIsFree(rs: seq<Region>, k: nat, count: nat, i: nat, p: int)
    requires WellFormed(rs) && 1 <= k < |rs| && count <= rs[k].count
    requires 1 <= i < |AfterGrant(rs, k, count)| && AfterGrant(rs, k, count)[i].Has(p)
    ensures Free(rs, p) && !Granted(rs, k, count).Has(p)
  {
    var o := if count == rs[k].count && i >= k then i + 1 else i;
    assert rs[o].Has(p);
    if o < k {
      assert Disjoint(rs[o], rs[k]);
    } else if o > k {
      assert Disjoint(rs[k], rs[o]);
    }
  }

  lemma {:induction false} PagesConcat(a: seq<Region>, b: seq<Region>)
    ensures Pages(a + b) == Pages(a) + Pages(b)
  {
    if a == [] {
      assert a + b == b;
    } else {
      assert (a + b)[1..] == a[1..] + b;
      PagesConcat(a[1..], b);
    }
  }

  lemma PagesCons(r: Region, rs: seq<Region>)
    ensures Pages([r] + rs) == r.count + Pages(rs)
  {
    assert ([r] + rs)[1..] == rs;
  }

  lemma PagesSplit(rs: seq<Region>, k: nat)
    requires k < |rs|
    ensures Pages(rs) == Pages(rs[..k]) + rs[k].count + Pages(rs[k + 1..])
  {
    hide Pages;
    assert rs == rs[..k] + ([rs[k]] + rs[k + 1..]);
    PagesConcat(rs[..k], [rs[k]] + rs[k + 1..]);
    PagesCons(rs[k], rs[k + 1..]);
  }

  /** Granting count pages lowers the number of listed pages by exactly count. */
  lemma GrantConservesPages(rs: seq<Region>, k: nat, count: nat)
    requires 1 <= k < |rs| && count <= rs[k].count
    ensures Pages(AfterGrant(rs, k, count)) + count == Pages(rs)
  {
    hide Pages;
    PagesSplit(rs, k);
    if count == rs[k].count {
      PagesConcat(rs[..k], rs[k + 1..]);
    } else {
      var s := AfterGrant(rs, k, count);
      PagesSplit(s, k);
      assert s[..k] == rs[..k] && s[k + 1..] == rs[k + 1..];
    }
  }

  /** Memory after the grant: the new count and, for an emptied region, the link around it and its own link. */
  function GrantMemory(m: Memory, rs: seq<Region>, k: nat, count: nat): Memory
    requires 1 <= k < |rs| && count <= rs[k].count
  {
    var m1 := Write(m, rs[k].start, COUNT, rs[k].count - count);
    if count < rs[k].count then m1
    else Write(Write(m1, rs[k - 1].start, NEXT, NextAddress(rs, k)), rs[k].start, NEXT, 0)
  }

  /** The assignments that grant all of region k leave a chain without it. */
  lemma Retire(m: Memory, rs: seq<Region>, k: nat)
    requires WellFormed(rs) && Chain(m, rs) && 1 <= k < |rs|
    ensures Chain(GrantMemory(m, rs, k, rs[k].count), Drop(rs, k))
  {
    var s := Drop(rs, k);
    var m' := GrantMemory(m, rs, k, rs[k].count);
    forall i: nat {:trigger NextAddress(s, i)} | i < |s|
      ensures Describes(m', s[i], NextAddress(s, i))
    {
      var o := if i < k then i else i + 1;
      assert Describes(m, rs[o], NextAddress(rs, o));
      StartsDiffer(rs, o, k);
      if o != k - 1 {
        StartsDiffer(rs, o, k - 1);
      }
    }
  }

  /** Node starts and page 0 may be written while rs is the list. */
  lemma StartWrite(m0: Memory, m: Memory, rs: seq<Region>, k: nat, i: nat, w: nat)
    requires Untouched(m0, m, rs) && WellFormed(rs) && k < |rs| && i <= NEXT
    ensures Untouched(m0, Write(m, rs[k].start, i, w), rs)
  {
    if k > 0 {
      assert Inside(rs[k], rs);
    }
    NodeWrite(m0, rs, m, rs, k, rs[k].start, i, w);
  }

  /** A grant leaves a well-formed list, a matching chain, and every page outside the free ones untouched. */
  lemma GrantKeepsChain(m: Memory, rs: seq<Region>, k: nat, count: nat)
    requires WellFormed(rs) && Chain(m, rs) && 1 <= k < |rs| && count <= rs[k].count
    ensures WellFormed(AfterGrant(rs, k, count)) && Chain(GrantMemory(m, rs, k, count), AfterGrant(rs, k, count))
    ensures Untouched(m, GrantMemory(m, rs, k, count), rs)
  {
    var m1 := Write(m, rs[k].start, COUNT, rs[k].count - count);
    StartWrite(m, m, rs, k, COUNT, rs[k].count - count);
    if count == rs[k].count {
      StartWrite(m, m1, rs, k - 1, NEXT, NextAddress(rs, k));
      StartWrite(m, Write(m1, rs[k - 1].start, NEXT, NextAddress(rs, k)), rs, k, NEXT, 0);
      Retire(m, rs, k);
      DropWellFormed(rs, k);
    } else {
      Shrink(m, rs, k, rs[k].count - count);
    }
  }
}

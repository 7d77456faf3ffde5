/** The radix tree of page tables in physical memory: which pages are tables, what a walk finds,
    and what linking a table or writing a leaf does to every other walk. */
module PageTree {
  import opened Wrappers
  import opened Machine

  /** The place of a table in the tree: the index taken at each level, root first. */
  datatype Path = Root | Child(parent: Path, index: nat)
  {
    function Depth(): nat {
      if Root? then 0 else 1 + parent.Depth()
    }
  }

  type Tables = map<Path, nat>

  function Path3(v: Word): Path { Child(Root, Level4(v)) }
  function Path2(v: Word): Path { Child(Path3(v), Level3(v)) }
  function Path1(v: Word): Path { Child(Path2(v), Level2(v)) }

  /** The entry points to a table one level down; the level-4 entry has no big-page bit. */
  predicate Links(m: Memory, t: Tables, p: Path, i: nat)
    requires p in t
  {
    Present(Read(m, t[p], i)) && (p == Root || !BigPage(Read(m, t[p], i)))
  }

  /** Table p is where the entry of its parent says. */
  predicate Hangs(m: Memory, t: Tables, p: Path)
    requires p in t
  {
    p != Root ==>
      && p.parent in t && p.index < 512 && p.Depth() <= 3
      && Links(m, t, p.parent, p.index) && t[p] == Frame(Read(m, t[p.parent], p.index))
  }

  /** t lists every table reachable from root, each once. */
  ghost predicate IsTree(m: Memory, root: nat, t: Tables) {
    && Root in t && t[Root] == root
    && (forall p {:trigger Hangs(m, t, p)} :: p in t ==> Hangs(m, t, p))
    && (forall p, i: nat {:trigger Child(p, i)} :: p in t && p.Depth() < 3 && i < 512 && Links(m, t, p, i) ==>
        Child(p, i) in t)
    && (forall p, q {:trigger t[p], t[q]} :: p in t && q in t && t[p] == t[q] ==> p == q)
  }

  // ----- What a walk finds -----

  datatype View = Absent | Small(frame: nat) | Huge(address: nat)

  function HugeAddress(e: nat, v: Word): nat {
    Or(Or(Or(0x1000 * Frame(e), InPage(v)), 0x20_0000 * Level2(v)), 0x1000 * Level1(v))
  }

  function LargeAddress(e: nat, v: Word): nat {
    Or(Or(0x1000 * Frame(e), InPage(v)), 0x1000 * Level1(v))
  }

  /** The kernel's walk: it looks at the big-page bit before the present bit. */
  function Walk(m: Memory, root: nat, v: Word): View {
    var e4 := Read(m, root, Level4(v));
    if !Present(e4) then Absent else
    var e3 := Read(m, Frame(e4), Level3(v));
    if BigPage(e3) then Huge(HugeAddress(e3, v)) else
    if !Present(e3) then Absent else
    var e2 := Read(m, Frame(e3), Level2(v));
    if BigPage(e2) then Huge(LargeAddress(e2, v)) else
    if !Present(e2) then Absent else
    var e1 := Read(m, Frame(e2), Level1(v));
    if Present(e1) then Small(Frame(e1)) else Absent
  }

  /** The value getPhysicalAddress returns. */
  function Lookup(m: Memory, root: nat, v: Word): nat {
    match Walk(m, root, v)
    case Absent => 0
    case Small(frame) => Or(0x1000 * frame, InPage(v))
    case Huge(address) => address
  }

  lemma SmallAddress(frame: nat, v: Word)
    ensures Or(0x1000 * frame, InPage(v)) == 0x1000 * frame + InPage(v)
  {
    OrLow(frame, InPage(v), 12, 0x1000);
  }

  /** The tables on the way of v, as far as they exist, are where the tree says. */
  lemma WalkTables(m: Memory, root: nat, t: Tables, v: Word)
    requires IsTree(m, root, t)
    ensures var e4 := Read(m, root, Level4(v));
            && (Path3(v) in t <==> Present(e4))
            && (Present(e4) ==> t[Path3(v)] == Frame(e4))
            && (Present(e4) ==>
                  var e3 := Read(m, Frame(e4), Level3(v));
                  && (Path2(v) in t <==> Present(e3) && !BigPage(e3))
                  && (Path2(v) in t ==> t[Path2(v)] == Frame(e3))
                  && (Path2(v) in t ==>
                        var e2 := Read(m, Frame(e3), Level2(v));
                        && (Path1(v) in t <==> Present(e2) && !BigPage(e2))
                        && (Path1(v) in t ==> t[Path1(v)] == Frame(e2))))
    ensures Path1(v) in t ==> Path2(v) in t
    ensures Path2(v) in t ==> Path3(v) in t
  {
    assert Root.Depth() == 0 && Path3(v).Depth() == 1 && Path2(v).Depth() == 2;
    assert Path1(v) in t ==> Hangs(m, t, Path1(v));
    assert Path2(v) in t ==> Hangs(m, t, Path2(v));
    assert Path3(v) in t ==> Hangs(m, t, Path3(v));
  }

  /** A walk reads table pages only. */
  lemma WalkFrame(m: Memory, m': Memory, root: nat, t: Tables, v: Word)
    requires IsTree(m, root, t) && (forall p :: p in t ==> Agree(m, m', t[p]))
    ensures Walk(m', root, v) == Walk(m, root, v)
  {
    WalkTables(m, root, t, v);
    assert Agree(m, m', t[Root]);
    if Path3(v) in t {
      assert Agree(m, m', t[Path3(v)]);
    }
    if Path2(v) in t {
      assert Agree(m, m', t[Path2(v)]);
    }
    if Path1(v) in t {
      assert Agree(m, m', t[Path1(v)]);
    }
  }

  lemma TreeFrame(m: Memory, m': Memory, root: nat, t: Tables)
    requires IsTree(m, root, t) && (forall p :: p in t ==> Agree(m, m', t[p]))
    ensures IsTree(m', root, t)
  {
    forall p {:trigger Hangs(m', t, p)} | p in t
      ensures Hangs(m', t, p)
    {
      assert Hangs(m, t, p);
      assert p != Root ==> Agree(m, m', t[p.parent]);
    }
    forall p, i: nat {:trigger Child(p, i)} | p in t && p.Depth() < 3 && i < 512 && Links(m', t, p, i)
      ensures Child(p, i) in t
    {
      assert Agree(m, m', t[p]);
    }
  }

  // ----- Linking a fresh table -----

  /** Entry i of table p is empty and may be overwritten without changing any walk. */
  predicate Empty(m: Memory, t: Tables, p: Path, i: nat)
    requires p in t
  {
    !Present(Read(m, t[p], i)) && (p == Root || !BigPage(Read(m, t[p], i)))
  }

  ghost predicate Zeroed(m: Memory, page: nat) {
    forall i: nat {:trigger Read(m, page, i)} :: Read(m, page, i) == 0
  }

  predicate PointsTo(word: nat, frame: nat) {
    Present(word) && !BigPage(word) && Frame(word) == frame
  }

  lemma LinkKeepsTree(m: Memory, root: nat, t: Tables, p: Path, i: nat, frame: nat, word: nat)
    requires IsTree(m, root, t) && p in t && p.Depth() < 3 && i < 512 && Empty(m, t, p, i)
    requires frame !in t.Values && PointsTo(word, frame) && Zeroed(m, frame)
    ensures IsTree(Write(m, t[p], i, word), root, t[Child(p, i) := frame])
  {
    var m', t' := Write(m, t[p], i, word), t[Child(p, i) := frame];
    assert Child(p, i) !in t by {
      assert Child(p, i) in t ==> Hangs(m, t, Child(p, i));
    }
    forall q | q in t
      ensures q in t' && t'[q] == t[q] != frame
    {
      assert t[q] in t.Values;
    }
    forall q {:trigger Hangs(m', t', q)} | q in t'
      ensures Hangs(m', t', q)
    {
      if q != Child(p, i) && q != Root {
        assert Hangs(m, t, q) && (q.parent != p || q.index != i);
        assert t[q.parent] == t[p] ==> q.parent == p;
      }
    }
    forall q, j: nat {:trigger Child(q, j)} | q in t' && q.Depth() < 3 && j < 512 && Links(m', t', q, j)
      ensures Child(q, j) in t'
    {
      if q in t && !(q == p && j == i) {
        assert t[q] == t[p] ==> q == p;
        assert Links(m, t, q, j);
      }
    }
  }

  /** A zeroed table behind an empty entry is invisible to every walk. */
  lemma LinkKeepsWalk(m: Memory, root: nat, t: Tables, p: Path, i: nat, frame: nat, word: nat, v: Word)
    requires IsTree(m, root, t) && p in t && p.Depth() < 3 && i < 512 && Empty(m, t, p, i)
    requires frame !in t.Values && PointsTo(word, frame) && Zeroed(m, frame)
    ensures Walk(Write(m, t[p], i, word), root, v) == Walk(m, root, v)
  {
    var m' := Write(m, t[p], i, word);
    WalkTables(m, root, t, v);
    forall q | q in t
      ensures t[q] != frame && (t[q] == t[p] ==> q == p)
    {
      assert t[q] in t.Values;
    }
    assert !Present(0) && !BigPage(0);
    if p == Root && i == Level4(v) {
    } else if p == Path3(v) && i == Level3(v) {
    } else if p == Path2(v) && i == Level2(v) {
    } else {
      assert Path3(v) in t && p == Path3(v) ==> i != Level3(v);
    }
  }

  /** All of the above for one link. */
  lemma LinkIsInvisible(m: Memory, root: nat, t: Tables, p: Path, i: nat, frame: nat, word: nat)
    requires IsTree(m, root, t) && Window(m, root) && p in t && p.Depth() < 3 && i < 512 && Empty(m, t, p, i)
    requires frame !in t.Values && PointsTo(word, frame) && Zeroed(m, frame)
    ensures var m' := Write(m, t[p], i, word);
            && IsTree(m', root, t[Child(p, i) := frame]) && Window(m', root) && Child(p, i) !in t
            && (forall v: Word {:trigger Walk(m', root, v)} :: Walk(m', root, v) == Walk(m, root, v))
  {
    LinkKeepsTree(m, root, t, p, i, frame, word);
    LinkKeepsWindow(m, root, t, p, i, frame, word);
    assert Child(p, i) in t ==> Hangs(m, t, Child(p, i));
    var m' := Write(m, t[p], i, word);
    forall v: Word {:trigger Walk(m', root, v)}
      ensures Walk(m', root, v) == Walk(m, root, v)
    {
      LinkKeepsWalk(m, root, t, p, i, frame, word, v);
    }
  }

  // ----- Writing a leaf entry -----

  lemma LeafKeepsTree(m: Memory, root: nat, t: Tables, v: Word, word: nat)
    requires IsTree(m, root, t) && Path1(v) in t
    ensures IsTree(Write(m, t[Path1(v)], Level1(v), word), root, t)
  {
    var m' := Write(m, t[Path1(v)], Level1(v), word);
    assert Path1(v).Depth() == 3;
    forall q {:trigger Hangs(m', t, q)} | q in t
      ensures Hangs(m', t, q)
    {
      assert Hangs(m, t, q);
      if q != Root {
        assert q.parent.Depth() < 3;
        assert t[q.parent] != t[Path1(v)];
      }
    }
    forall q, j: nat {:trigger Child(q, j)} | q in t && q.Depth() < 3 && j < 512 && Links(m', t, q, j)
      ensures Child(q, j) in t
    {
      assert t[q] == t[Path1(v)] ==> q == Path1(v);
      assert Links(m, t, q, j);
    }
  }

  function LeafView(word: nat): View {
    if Present(word) then Small(Frame(word)) else Absent
  }

  /** Writing the leaf entry of v changes the walks of v's page and no other. */
  lemma LeafWalk(m: Memory, root: nat, t: Tables, v: Word, word: nat, w: Word)
    requires IsTree(m, root, t) && Path1(v) in t
    ensures Walk(Write(m, t[Path1(v)], Level1(v), word), root, w)
         == if PageNumber(w) == PageNumber(v) then LeafView(word) else Walk(m, root, w)
  {
    WalkTables(m, root, t, v);
    WalkTables(m, root, t, w);
    SamePageSameLevels(v, w);
    assert Path1(v).Depth() == 3 && Path2(w).Depth() == 2 && Path3(w).Depth() == 1;
    forall q | q in t
      ensures t[q] == t[Path1(v)] ==> q == Path1(v)
    {
    }
    assert Path1(w) == Path1(v) <==> Level4(v) == Level4(w) && Level3(v) == Level3(w) && Level2(v) == Level2(w);
  }

  /** All of the above for one leaf. */
  lemma LeafIsLocal(m: Memory, root: nat, t: Tables, v: Word, word: nat)
    requires IsTree(m, root, t) && Window(m, root) && Path1(v) in t
    ensures var m' := Write(m, t[Path1(v)], Level1(v), word);
            && IsTree(m', root, t) && Window(m', root)
            && (forall w: Word {:trigger Walk(m', root, w)} ::
                  Walk(m', root, w) == if PageNumber(w) == PageNumber(v) then LeafView(word) else Walk(m, root, w))
  {
    LeafKeepsTree(m, root, t, v, word);
    LeafKeepsWindow(m, root, t, v, word);
    var m' := Write(m, t[Path1(v)], Level1(v), word);
    forall w: Word {:trigger Walk(m', root, w)}
      ensures Walk(m', root, w) == if PageNumber(w) == PageNumber(v) then LeafView(word) else Walk(m, root, w)
    {
      LeafWalk(m, root, t, v, word, w);
    }
  }

  // ----- Clearing the present bit of a big page -----

  /** The walk of v ends at a big-page entry, index i of table p. */
  predicate PointsAtBig(m: Memory, root: nat, t: Tables, v: Word, p: Path, i: nat) {
    && p in t && BigPage(Read(m, t[p], i)) && Walk(m, root, v).Huge?
    && ((p == Path3(v) && i == Level3(v)) || (p == Path2(v) && i == Level2(v)))
  }

  lemma BigClearKeepsTree(m: Memory, root: nat, t: Tables, v: Word, p: Path, i: nat, word: nat)
    requires IsTree(m, root, t) && PointsAtBig(m, root, t, v, p, i) && BigPage(word)
    ensures IsTree(Write(m, t[p], i, word), root, t)
  {
    var m' := Write(m, t[p], i, word);
    forall q {:trigger Hangs(m', t, q)} | q in t
      ensures Hangs(m', t, q)
    {
      assert Hangs(m, t, q);
      if q != Root {
        assert t[q.parent] == t[p] ==> q.parent == p;
      }
    }
    forall q, j: nat {:trigger Child(q, j)} | q in t && q.Depth() < 3 && j < 512 && Links(m', t, q, j)
      ensures Child(q, j) in t
    {
      assert t[q] == t[p] ==> q == p;
      assert Links(m, t, q, j);
    }
  }

  lemma BigClearKeepsWalk(m: Memory, root: nat, t: Tables, v: Word, p: Path, i: nat, word: nat, w: Word)
    requires IsTree(m, root, t) && PointsAtBig(m, root, t, v, p, i)
    requires BigPage(word) && Frame(word) == Frame(Read(m, t[p], i))
    ensures Walk(Write(m, t[p], i, word), root, w) == Walk(m, root, w)
  {
    WalkTables(m, root, t, w);
    assert Path2(w).Depth() == 2 && Path3(w).Depth() == 1 && Path1(w).Depth() == 3 && Root.Depth() == 0;
    assert Path2(v).Depth() == 2 && Path3(v).Depth() == 1;
    forall q | q in t
      ensures t[q] == t[p] ==> q == p
    {
    }
  }

  /** The kernel's walks do not notice; the processor no longer translates v. */
  lemma BigClearIsInvisible(m: Memory, root: nat, t: Tables, v: Word, p: Path, i: nat, word: nat)
    requires IsTree(m, root, t) && Window(m, root) && PointsAtBig(m, root, t, v, p, i) && Level4(v) != 192
    requires !Present(word) && BigPage(word) && Frame(word) == Frame(Read(m, t[p], i))
    ensures var m' := Write(m, t[p], i, word);
            && IsTree(m', root, t) && Window(m', root) && CpuTranslate(m', root, v) == None
            && (forall w: Word {:trigger Walk(m', root, w)} :: Walk(m', root, w) == Walk(m, root, w))
  {
    BigClearKeepsTree(m, root, t, v, p, i, word);
    var m' := Write(m, t[p], i, word);
    forall w: Word {:trigger Walk(m', root, w)}
      ensures Walk(m', root, w) == Walk(m, root, w)
    {
      BigClearKeepsWalk(m, root, t, v, p, i, word, w);
    }
    WalkTables(m, root, t, v);
    assert t[p] != t[Root];
    var w := Child(Root, 192);
    assert Root.Depth() == 0 && Links(m, t, Root, 192) && w in t && Hangs(m, t, w) && t[p] != t[w];
    forall j: nat {:trigger Read(m', Frame(Read(m', root, 192)), j)} | j < 512
      ensures WindowEntry(Read(m', Frame(Read(m', root, 192)), j), j)
    {
      assert WindowEntry(Read(m, t[w], j), j);
    }
  }

  /** Addresses of one page meet the same kind of entry, and the same frame unless it is big. */
  lemma SamePageSameKind(m: Memory, root: nat, v: Word)
    ensures forall w: Word {:trigger Walk(m, root, w)} :: PageNumber(w) == PageNumber(v) ==>
              && (Walk(m, root, w).Huge? <==> Walk(m, root, v).Huge?)
              && (!Walk(m, root, v).Huge? ==> Walk(m, root, w) == Walk(m, root, v))
  {
    forall w: Word {:trigger Walk(m, root, w)} | PageNumber(w) == PageNumber(v)
      ensures Walk(m, root, w).Huge? <==> Walk(m, root, v).Huge?
      ensures !Walk(m, root, v).Huge? ==> Walk(m, root, w) == Walk(m, root, v)
    {
      SamePageSameLevels(v, w);
    }
  }

  // ----- The kernel's walk and the processor's -----

  /** The walk of v meets a big-page entry, given by its word and the size it maps. */
  function BigEntry(m: Memory, root: nat, v: Word): Option<(nat, nat)> {
    var e4 := Read(m, root, Level4(v));
    if !Present(e4) then None else
    var e3 := Read(m, Frame(e4), Level3(v));
    if BigPage(e3) then Some((e3, 0x4000_0000)) else
    if !Present(e3) then None else
    var e2 := Read(m, Frame(e3), Level2(v));
    if BigPage(e2) then Some((e2, 0x20_0000)) else None
  }

  /** getPhysicalAddress returns what the processor translates to, or 0 where it faults, exactly when no big-page
      entry with the present bit cleared gives v a nonzero address. */
  lemma LookupAgreesWithCpuIff(m: Memory, root: nat, v: Word)
    requires var b := BigEntry(m, root, v); b.Some? ==> Frame(b.value.0) % (b.value.1 / 0x1000) == 0
    ensures Lookup(m, root, v) == (match CpuTranslate(m, root, v) case None => 0 case Some(a) => a)
       <==> var b := BigEntry(m, root, v);
            b.Some? && !Present(b.value.0) ==> Frame(b.value.0) == 0 && v % b.value.1 == 0
  {
    var e4 := Read(m, root, Level4(v));
    if Present(e4) {
      var e3 := Read(m, Frame(e4), Level3(v));
      if BigPage(e3) {
        HugeIsSum(e3, v);
      } else if Present(e3) {
        var e2 := Read(m, Frame(e3), Level2(v));
        if BigPage(e2) {
          LargeIsSum(e2, v);
        } else if Present(e2) {
          SmallAddress(Frame(Read(m, Frame(e2), Level1(v))), v);
        }
      }
    }
  }

  lemma HugeIsSum(e: nat, v: Word)
    requires Frame(e) % 0x4_0000 == 0
    ensures HugeAddress(e, v) == Frame(e) / 0x4_0000 * 0x4000_0000 + v % 0x4000_0000
    ensures HugeAddress(e, v) == 0 <==> Frame(e) == 0 && v % 0x4000_0000 == 0
  {
    BigPageAddress(Frame(e) / 0x4_0000, v);
  }

  lemma LargeIsSum(e: nat, v: Word)
    requires Frame(e) % 0x200 == 0
    ensures LargeAddress(e, v) == Frame(e) / 0x200 * 0x20_0000 + v % 0x20_0000
    ensures LargeAddress(e, v) == 0 <==> Frame(e) == 0 && v % 0x20_0000 == 0
  {
    LargePageAddress(Frame(e) / 0x200, v);
  }

  // ----- The window at 96 Ti -----

  predicate WindowEntry(word: nat, i: nat) {
    Present(word) && BigPage(word) && Frame(word) == i * 0x4_0000
  }

  /** Level-4 entry 192 leads to 512 pages of 1 GiB that map 96 Ti + p to p for every p below 512 Gi. */
  ghost predicate Window(m: Memory, root: nat) {
    && Present(Read(m, root, 192))
    && (forall i: nat {:trigger Read(m, Frame(Read(m, root, 192)), i)} :: i < 512 ==>
        WindowEntry(Read(m, Frame(Read(m, root, 192)), i), i))
  }

  lemma WindowLevels(a: nat)
    requires a < 0x80_0000_0000
    ensures var v: Word := 0x6000_0000_0000 + a;
            Level4(v) == 192 && Level3(v) == a / 0x4000_0000 && v % 0x4000_0000 == a % 0x4000_0000
  {
    var v: Word := 0x6000_0000_0000 + a;
    assert v / 0x80_0000_0000 == 192;
    assert v / 0x4000_0000 == 192 * 512 + a / 0x4000_0000;
  }

  /** Both walks answer p for 96 Ti + p. */
  lemma WindowIsIdentity(m: Memory, root: nat, a: nat)
    requires Window(m, root) && a < 0x80_0000_0000
    ensures CpuTranslate(m, root, 0x6000_0000_0000 + a) == Some(a)
    ensures Lookup(m, root, 0x6000_0000_0000 + a) == a && Walk(m, root, 0x6000_0000_0000 + a) == Huge(a)
  {
    WindowLevels(a);
    var i := a / 0x4000_0000;
    var e := Read(m, Frame(Read(m, root, 192)), i);
    assert WindowEntry(e, i);
    HugeIsSum(e, 0x6000_0000_0000 + a);
  }

  lemma LinkKeepsWindow(m: Memory, root: nat, t: Tables, p: Path, i: nat, frame: nat, word: nat)
    requires IsTree(m, root, t) && Window(m, root) && p in t && p.Depth() < 3 && i < 512 && Empty(m, t, p, i)
    requires frame !in t.Values
    ensures Window(Write(m, t[p], i, word), root)
  {
    var m', w := Write(m, t[p], i, word), Child(Root, 192);
    assert Root.Depth() == 0 && Links(m, t, Root, 192);
    assert w in t && Hangs(m, t, w) && t[w] == Frame(Read(m, root, 192));
    assert t[w] in t.Values && t[Root] in t.Values;
    assert t[p] == t[Root] ==> p == Root;
    assert t[p] == t[w] ==> p == w;
    assert WindowEntry(Read(m, t[w], i), i);
    forall j: nat {:trigger Read(m', Frame(Read(m', root, 192)), j)} | j < 512
      ensures WindowEntry(Read(m', Frame(Read(m', root, 192)), j), j)
    {
      assert WindowEntry(Read(m, t[w], j), j);
    }
  }

  lemma LeafKeepsWindow(m: Memory, root: nat, t: Tables, v: Word, word: nat)
    requires IsTree(m, root, t) && Window(m, root) && Path1(v) in t
    ensures Window(Write(m, t[Path1(v)], Level1(v), word), root)
  {
    var m', w := Write(m, t[Path1(v)], Level1(v), word), Child(Root, 192);
    assert Root.Depth() == 0 && w.Depth() == 1 && Path1(v).Depth() == 3 && Links(m, t, Root, 192);
    assert w in t && Hangs(m, t, w) && t[w] == Frame(Read(m, root, 192));
    assert t[Path1(v)] != t[Root] && t[Path1(v)] != t[w];
    forall j: nat {:trigger Read(m', Frame(Read(m', root, 192)), j)} | j < 512
      ensures WindowEntry(Read(m', Frame(Read(m', root, 192)), j), j)
    {
      assert WindowEntry(Read(m, t[w], j), j);
    }
  }

  lemma WindowFrame(m: Memory, m': Memory, root: nat, t: Tables)
    requires IsTree(m, root, t) && Window(m, root) && (forall p :: p in t ==> Agree(m, m', t[p]))
    ensures Window(m', root)
  {
    var w := Child(Root, 192);
    assert Root.Depth() == 0 && Links(m, t, Root, 192);
    assert w in t && Hangs(m, t, w) && t[w] == Frame(Read(m, root, 192));
    assert Agree(m, m', t[Root]) && Agree(m, m', t[w]);
    forall j: nat {:trigger Read(m', Frame(Read(m', root, 192)), j)} | j < 512
      ensures WindowEntry(Read(m', Frame(Read(m', root, 192)), j), j)
    {
      assert WindowEntry(Read(m, t[w], j), j);
    }
  }

  // ----- Building the window -----

  /** The memories differ at most in page b and in the level-4 entry of the window. */
  ghost predicate SameButWindow(m: Memory, m': Memory, root: nat, b: nat) {
    forall p: nat, i: nat {:trigger Read(m', p, i)} :: p != b && !(p == root && i == 192) ==>
        Read(m', p, i) == Read(m, p, i)
  }

  lemma OtherWalks(m: Memory, m': Memory, root: nat, t: Tables, b: nat, v: Word)
    requires IsTree(m, root, t) && b !in t.Values && SameButWindow(m, m', root, b) && Level4(v) != 192
    ensures Walk(m', root, v) == Walk(m, root, v) && CpuTranslate(m', root, v) == CpuTranslate(m, root, v)
  {
    WalkTables(m, root, t, v);
    forall q | q in t
      ensures t[q] != b && (t[q] == root ==> q == Root)
    {
      assert t[q] in t.Values && t[Root] == root;
    }
  }

  lemma WindowTree(m: Memory, m': Memory, root: nat, t: Tables, b: nat)
    requires IsTree(m, root, t) && b !in t.Values && SameButWindow(m, m', root, b)
    requires !Present(Read(m, root, 192)) && PointsTo(Read(m', root, 192), b)
    requires forall j: nat {:trigger Read(m', b, j)} :: j < 512 ==> WindowEntry(Read(m', b, j), j)
    ensures IsTree(m', root, t[Child(Root, 192) := b]) && Window(m', root)
  {
    var w := Child(Root, 192);
    var t' := t[w := b];
    assert w in t ==> Hangs(m, t, w);
    forall q | q in t
      ensures t[q] != b && (t[q] == root ==> q == Root)
    {
      assert t[q] in t.Values && t[Root] == root;
    }
    forall q {:trigger Hangs(m', t', q)} | q in t'
      ensures Hangs(m', t', q)
    {
      if q != w {
        assert Hangs(m, t, q);
      }
      assert Root.Depth() == 0 && w.Depth() == 1;
    }
    forall q, j: nat {:trigger Child(q, j)} | q in t' && q.Depth() < 3 && j < 512 && Links(m', t', q, j)
      ensures Child(q, j) in t'
    {
      assert q == w ==> WindowEntry(Read(m', b, j), j);
      assert q != w && !(q == Root && j == 192) ==> Links(m, t, q, j);
    }
  }

  function PageStart(n: nat): (v: Word)
    requires n < 0x10_0000_0000
    ensures PageNumber(v) == n
  {
    n * 0x1000
  }

  /** The map that the tables implement. */
  ghost function SmallPages(m: Memory, root: nat): map<nat, nat> {
    map n: nat | n < 0x10_0000_0000 && Walk(m, root, PageStart(n)).Small? :: Walk(m, root, PageStart(n)).frame
  }

  lemma SmallPagesImplemented(m: Memory, root: nat, v: Word)
    ensures match Walk(m, root, v)
            case Small(frame) => PageNumber(v) in SmallPages(m, root) && SmallPages(m, root)[PageNumber(v)] == frame
            case _ => PageNumber(v) !in SmallPages(m, root)
  {
    SamePageSameKind(m, root, PageStart(PageNumber(v)));
    var u := Walk(m, root, v);
  }
}

/** What destroying one shared handle sets off, read off the graph of handles alone: which objects are deleted,
    in which order the smart pointers inside them are destroyed, and which control blocks are freed while the
    destructor of their object is still running. */
module DestructorCascade {
  import opened Wrappers

  type Handle = nat
  type Block = nat

  /** The data pointers of the handles of one kind. */
  type Handles = map<Handle, Option<Block>>

  /** The smart pointers inside the object of each block, in the order of their destruction. */
  type Objects = map<Block, seq<Handle>>

  /** The handles whose data pointer is b. */
  function Pointing(m: Handles, b: Block): set<Handle> {
    set h | h in m && m[h] == Some(b)
  }

  function NonNull(m: Handles): set<Handle> {
    set h | h in m && m[h].Some?
  }

  function References(m: Handles): nat {
    |NonNull(m)|
  }

  lemma {:induction false} SubsetSize(a: set<Handle>, b: set<Handle>)
    requires a <= b
    ensures |a| <= |b|
    decreases a
  {
    if a != {} {
      var x :| x in a;
      SubsetSize(a - {x}, b - {x});
    }
  }

  lemma ClearingShrinks(m: Handles, h: Handle)
    requires h in m && m[h].Some?
    ensures References(m[h := None]) < References(m)
  {
    assert NonNull(m[h := None]) == NonNull(m) - {h} && h in NonNull(m);
  }

  lemma ClearedPoints(m: Handles, h: Handle, b: Block)
    requires h in m
    ensures Pointing(m[h := None], b) == Pointing(m, b) - {h}
  {
  }

  lemma RemovingShrinks(m: Handles, gone: set<Handle>)
    ensures References(m - gone) <= References(m)
  {
    SubsetSize(NonNull(m - gone), NonNull(m));
  }

  // ----- The events of a cascade -----

  /** The last shared handle of a block goes, a smart pointer inside a dying object is destroyed, the destructor
      of the object of a block returns. */
  datatype Event = Dies(block: Block) | Drops(handle: Handle) | Ends(block: Block)

  function Dropped(t: seq<Event>): set<Handle> {
    set e | e in t && e.Drops? :: e.handle
  }

  function Died(t: seq<Event>): set<Block> {
    set e | e in t && e.Dies? :: e.block
  }

  lemma EventIn(t: seq<Event>, h: Handle, b: Block)
    ensures h in Dropped(t) <==> Drops(h) in t
    ensures b in Died(t) <==> Dies(b) in t
  {
    if Drops(h) in t {
      assert Drops(h).handle in Dropped(t);
    }
    if Dies(b) in t {
      assert Dies(b).block in Died(t);
    }
  }

  lemma EventsJoin(t: seq<Event>, u: seq<Event>)
    ensures Dropped(t + u) == Dropped(t) + Dropped(u)
    ensures Died(t + u) == Died(t) + Died(u)
  {
  }

  lemma EventsOfDeletion(b: Block, t: seq<Event>)
    ensures Dropped([Dies(b)] + t + [Ends(b)]) == Dropped(t)
    ensures Died([Dies(b)] + t + [Ends(b)]) == {b} + Died(t)
  {
    assert Died([Dies(b)]) == {b} by {
      EventIn([Dies(b)], 0, b);
    }
    EventsJoin([Dies(b)], t);
    EventsJoin([Dies(b)] + t, [Ends(b)]);
  }

  lemma EventsOfDrop(t: seq<Event>, g: Handle)
    ensures Dropped(t + [Drops(g)]) == Dropped(t) + {g}
    ensures Died(t + [Drops(g)]) == Died(t)
  {
    assert Dropped([Drops(g)]) == {g} by {
      EventIn([Drops(g)], g, 0);
    }
    EventsJoin(t, [Drops(g)]);
  }

  // ----- The cascade of a graph -----

  /** Destroying the shared handle h: nothing more happens while another shared handle, or a reference that has
      been counted but not stored yet, keeps the object; otherwise its smart pointers are destroyed. */
  function Cascade(m: Handles, own: Objects, held: Option<Block>, h: Handle): seq<Event>
    requires h in m
    decreases References(m), 0
  {
    if m[h].None? || m[h] == held || Pointing(m, m[h].value) != {h} then []
    else
      var b := m[h].value;
      ClearingShrinks(m, h);
      [Dies(b)] + Destructors(m[h := None], own, held, if b in own then own[b] else []) + [Ends(b)]
  }

  /** The destructors of the smart pointers ms, one after the other. */
  function Destructors(m: Handles, own: Objects, held: Option<Block>, ms: seq<Handle>): seq<Event>
    decreases References(m), |ms| + 2
  {
    if ms == [] then []
    else
      var t := Destructor(m, own, held, ms[0]);
      RemovingShrinks(m, Dropped(t));
      t + Destructors(m - Dropped(t), own, held, ms[1..])
  }

  function Destructor(m: Handles, own: Objects, held: Option<Block>, g: Handle): seq<Event>
    decreases References(m), 1
  {
    (if g in m then Cascade(m, own, held, g) else []) + [Drops(g)]
  }

  // ----- Which objects are deleted -----

  /** All shared handles of c go in a cascade that destroys the handles in gone, and there is no other reference. */
  predicate Unreferenced(m: Handles, held: Option<Block>, gone: set<Handle>, c: Block) {
    Pointing(m, c) != {} && held != Some(c) && Pointing(m, c) <= gone
  }

  /** An object is deleted exactly when all its shared handles are h or are destroyed inside deleted objects. */
  lemma {:induction false} DeletesIff(m: Handles, own: Objects, held: Option<Block>, h: Handle, c: Block)
    requires h in m
    ensures c in Died(Cascade(m, own, held, h))
       <==> Unreferenced(m, held, {h} + Dropped(Cascade(m, own, held, h)), c)
    decreases References(m), 0
  {
    var t := Cascade(m, own, held, h);
    if t == [] {
      assert Died(t) == {} && Dropped(t) == {};
      if Pointing(m, c) != {} && Pointing(m, c) <= {h} {
        assert Pointing(m, c) == {h} && h in Pointing(m, c);
      }
    } else {
      var b := m[h].value;
      var ms := if b in own then own[b] else [];
      ClearingShrinks(m, h);
      var u := Destructors(m[h := None], own, held, ms);
      DestructorsDeleteIff(m[h := None], own, held, ms, c);
      EventsOfDeletion(b, u);
      ClearedPoints(m, h, c);
      assert h in Pointing(m, c) <==> c == b;
    }
  }

  lemma {:induction false} DestructorsDeleteIff(m: Handles, own: Objects, held: Option<Block>, ms: seq<Handle>,
                                                c: Block)
    ensures c in Died(Destructors(m, own, held, ms))
       <==> Unreferenced(m, held, Dropped(Destructors(m, own, held, ms)), c)
    decreases References(m), |ms| + 2
  {
    if ms == [] {
      assert Died([]) == {} && Dropped([]) == {};
    } else {
      var t := Destructor(m, own, held, ms[0]);
      RemovingShrinks(m, Dropped(t));
      var u := Destructors(m - Dropped(t), own, held, ms[1..]);
      DestructorDeletesIff(m, own, held, ms[0], c);
      DestructorsDeleteIff(m - Dropped(t), own, held, ms[1..], c);
      EventsJoin(t, u);
      assert Pointing(m - Dropped(t), c) == Pointing(m, c) - Dropped(t);
      GoneInTwoSteps(Pointing(m, c), Dropped(t), Dropped(u));
    }
  }

  lemma GoneInTwoSteps(p: set<Handle>, a: set<Handle>, b: set<Handle>)
    ensures p != {} && p <= a + b <==> (p != {} && p <= a) || (p - a != {} && p - a <= b)
  {
    assert p <= a <==> p - a == {} by {
      if p - a == {} {
        assert forall x :: x in p ==> x !in p - a;
      }
    }
    assert p <= a + b <==> p - a <= b;
  }

  lemma {:induction false} DestructorDeletesIff(m: Handles, own: Objects, held: Option<Block>, g: Handle, c: Block)
    ensures c in Died(Destructor(m, own, held, g)) <==> Unreferenced(m, held, Dropped(Destructor(m, own, held, g)), c)
    decreases References(m), 1
  {
    var t := if g in m then Cascade(m, own, held, g) else [];
    EventsOfDrop(t, g);
    if g in m {
      DeletesIff(m, own, held, g, c);
    } else {
      assert Died([]) == {} && Dropped([]) == {};
      assert g !in Pointing(m, c);
    }
  }

  /** The smart pointers destroyed are those inside the deleted objects. */
  ghost predicate InsideDied(own: Objects, t: seq<Event>, g: Handle) {
    exists c :: c in Died(t) && c in own && g in own[c]
  }

  lemma {:induction false} DropsIff(m: Handles, own: Objects, held: Option<Block>, h: Handle, g: Handle)
    requires h in m
    ensures g in Dropped(Cascade(m, own, held, h)) <==> InsideDied(own, Cascade(m, own, held, h), g)
    decreases References(m), 0
  {
    var t := Cascade(m, own, held, h);
    if t == [] {
      assert Died(t) == {} && Dropped(t) == {};
    } else {
      var b := m[h].value;
      var ms := if b in own then own[b] else [];
      ClearingShrinks(m, h);
      var u := Destructors(m[h := None], own, held, ms);
      DestructorsDropIff(m[h := None], own, held, ms, g);
      EventsOfDeletion(b, u);
      assert InsideDied(own, t, g) <==> (g in ms || InsideDied(own, u, g));
    }
  }

  lemma {:induction false} DestructorsDropIff(m: Handles, own: Objects, held: Option<Block>, ms: seq<Handle>, g: Handle)
    ensures g in Dropped(Destructors(m, own, held, ms))
       <==> g in ms || InsideDied(own, Destructors(m, own, held, ms), g)
    decreases References(m), |ms| + 2
  {
    if ms == [] {
      assert Died([]) == {} && Dropped([]) == {};
    } else {
      var t := Destructor(m, own, held, ms[0]);
      RemovingShrinks(m, Dropped(t));
      var u := Destructors(m - Dropped(t), own, held, ms[1..]);
      DestructorDropsIff(m, own, held, ms[0], g);
      DestructorsDropIff(m - Dropped(t), own, held, ms[1..], g);
      EventsJoin(t, u);
      assert InsideDied(own, t + u, g) <==> InsideDied(own, t, g) || InsideDied(own, u, g);
      assert g in ms <==> g == ms[0] || g in ms[1..];
    }
  }

  lemma {:induction false} DestructorDropsIff(m: Handles, own: Objects, held: Option<Block>, g0: Handle, g: Handle)
    ensures g in Dropped(Destructor(m, own, held, g0))
       <==> g == g0 || InsideDied(own, Destructor(m, own, held, g0), g)
    decreases References(m), 1
  {
    var t := if g0 in m then Cascade(m, own, held, g0) else [];
    EventsOfDrop(t, g0);
    if g0 in m {
      DropsIff(m, own, held, g0, g);
    } else {
      assert Died([]) == {} && Dropped([]) == {};
    }
    assert InsideDied(own, t + [Drops(g0)], g) <==> InsideDied(own, t, g);
  }

  /** The smart pointers inside these objects. */
  function Inside(own: Objects, died: set<Block>): set<Handle> {
    set c, g | c in died && c in own && g in own[c] :: g
  }

  /** What destroying the handles in gone deletes is in died, and what is inside of that is in gone. */
  ghost predicate Closed(m: Handles, own: Objects, held: Option<Block>, died: set<Block>, gone: set<Handle>) {
    && (forall c {:trigger Unreferenced(m, held, gone, c)} :: Unreferenced(m, held, gone, c) ==> c in died)
    && (forall c {:trigger own[c]} :: c in died && c in own ==> forall g :: g in own[c] ==> g in gone)
  }

  lemma ClosedAfter(m: Handles, own: Objects, held: Option<Block>, died: set<Block>, gone: set<Handle>, m': Handles)
    requires Closed(m, own, held, died, gone)
    requires forall c {:trigger Pointing(m', c)} ::
               Pointing(m', c) <= Pointing(m, c) && Pointing(m, c) <= Pointing(m', c) + gone
    ensures Closed(m', own, held, died, gone)
  {
    forall c {:trigger Unreferenced(m', held, gone, c)} | Unreferenced(m', held, gone, c)
      ensures c in died
    {
      assert Unreferenced(m, held, gone, c);
    }
  }

  lemma {:induction false} CascadeStaysIn(m: Handles, own: Objects, held: Option<Block>, h: Handle, died: set<Block>,
                                          gone: set<Handle>)
    requires h in m && h in gone && Closed(m, own, held, died, gone)
    ensures Died(Cascade(m, own, held, h)) <= died && Dropped(Cascade(m, own, held, h)) <= gone
    decreases References(m), 0
  {
    var t := Cascade(m, own, held, h);
    if t == [] {
      assert Died(t) == {} && Dropped(t) == {};
    } else {
      var b := m[h].value;
      var ms := if b in own then own[b] else [];
      assert Unreferenced(m, held, gone, b);
      ClearingShrinks(m, h);
      forall c {:trigger Pointing(m[h := None], c)}
        ensures Pointing(m[h := None], c) == Pointing(m, c) - {h}
      {
        ClearedPoints(m, h, c);
      }
      ClosedAfter(m, own, held, died, gone, m[h := None]);
      DestructorsStayIn(m[h := None], own, held, ms, died, gone);
      EventsOfDeletion(b, Destructors(m[h := None], own, held, ms));
    }
  }

  lemma {:induction false} DestructorsStayIn(m: Handles, own: Objects, held: Option<Block>, ms: seq<Handle>,
                                             died: set<Block>, gone: set<Handle>)
    requires Closed(m, own, held, died, gone) && forall g :: g in ms ==> g in gone
    ensures Died(Destructors(m, own, held, ms)) <= died && Dropped(Destructors(m, own, held, ms)) <= gone
    decreases References(m), |ms| + 2
  {
    if ms == [] {
      assert Died([]) == {} && Dropped([]) == {};
    } else {
      var t := Destructor(m, own, held, ms[0]);
      RemovingShrinks(m, Dropped(t));
      DestructorStaysIn(m, own, held, ms[0], died, gone);
      forall c {:trigger Pointing(m - Dropped(t), c)}
        ensures Pointing(m - Dropped(t), c) == Pointing(m, c) - Dropped(t)
      {
      }
      ClosedAfter(m, own, held, died, gone, m - Dropped(t));
      DestructorsStayIn(m - Dropped(t), own, held, ms[1..], died, gone);
      EventsJoin(t, Destructors(m - Dropped(t), own, held, ms[1..]));
    }
  }

  lemma {:induction false} DestructorStaysIn(m: Handles, own: Objects, held: Option<Block>, g: Handle,
                                             died: set<Block>, gone: set<Handle>)
    requires Closed(m, own, held, died, gone) && g in gone
    ensures Died(Destructor(m, own, held, g)) <= died && Dropped(Destructor(m, own, held, g)) <= gone
    decreases References(m), 1
  {
    var t := if g in m then Cascade(m, own, held, g) else [];
    EventsOfDrop(t, g);
    if g in m {
      CascadeStaysIn(m, own, held, g, died, gone);
    } else {
      assert Died([]) == {} && Dropped([]) == {};
    }
  }

  /** A set of objects to delete: exactly those all of whose shared handles are h or inside of them. */
  ghost predicate Solves(m: Handles, own: Objects, held: Option<Block>, h: Handle, died: set<Block>) {
    var gone := {h} + Inside(own, died);
    forall c {:trigger Unreferenced(m, held, gone, c)} :: c in died <==> Unreferenced(m, held, gone, c)
  }

  lemma InsideIsDropped(m: Handles, own: Objects, held: Option<Block>, h: Handle)
    requires h in m
    ensures Inside(own, Died(Cascade(m, own, held, h))) == Dropped(Cascade(m, own, held, h))
  {
    forall g
      ensures g in Inside(own, Died(Cascade(m, own, held, h))) <==> g in Dropped(Cascade(m, own, held, h))
    {
      DropsIff(m, own, held, h, g);
    }
  }

  /** The deleted objects are the least such set: ownership cycles that h does not reach are left alone. */
  lemma DeletedIsLeast(m: Handles, own: Objects, held: Option<Block>, h: Handle, died: set<Block>)
    requires h in m
    ensures Solves(m, own, held, h, Died(Cascade(m, own, held, h)))
    ensures Solves(m, own, held, h, died) ==> Died(Cascade(m, own, held, h)) <= died
  {
    var t := Cascade(m, own, held, h);
    var gone := {h} + Dropped(t);
    InsideIsDropped(m, own, held, h);
    forall c {:trigger Unreferenced(m, held, gone, c)}
      ensures c in Died(t) <==> Unreferenced(m, held, gone, c)
    {
      DeletesIff(m, own, held, h, c);
    }
    assert {h} + Inside(own, Died(t)) == gone;
    if Solves(m, own, held, h, died) {
      CascadeStaysIn(m, own, held, h, died, {h} + Inside(own, died));
    }
  }

  // ----- Which blocks are freed too early -----

  /** Destroying g takes away the last weak handle of a block whose object is dying. */
  predicate LastOfDying(weak: Handles, dying: set<Block>, g: Handle) {
    g in weak && weak[g].Some? && weak[g].value in dying && Pointing(weak, weak[g].value) == {g}
  }

  /** Following the events: some control block is freed under the running destructor of its object, or root is
      destroyed a second time. */
  predicate Corrupting(weak: Handles, dying: set<Block>, root: Handle, t: seq<Event>)
    decreases |t|
  {
    t != [] &&
    match t[0]
    case Dies(b) => Corrupting(weak, dying + {b}, root, t[1..])
    case Ends(b) => Corrupting(weak, dying - {b}, root, t[1..])
    case Drops(g) => g == root || LastOfDying(weak, dying, g) || Corrupting(weak - {g}, dying, root, t[1..])
  }

  /** The objects that are dying after the events. */
  function Open(dying: set<Block>, t: seq<Event>): set<Block>
    decreases |t|
  {
    if t == [] then dying
    else match t[0]
      case Dies(b) => Open(dying + {b}, t[1..])
      case Ends(b) => Open(dying - {b}, t[1..])
      case Drops(g) => Open(dying, t[1..])
  }

  lemma {:induction false} CorruptingJoins(weak: Handles, dying: set<Block>, root: Handle, t: seq<Event>, u: seq<Event>)
    ensures Open(dying, t + u) == Open(Open(dying, t), u)
    ensures Corrupting(weak, dying, root, t + u)
       <==> Corrupting(weak, dying, root, t) || Corrupting(weak - Dropped(t), Open(dying, t), root, u)
    decreases |t|
  {
    if t == [] {
      assert t + u == u && weak - Dropped(t) == weak;
    } else {
      assert (t + u)[1..] == t[1..] + u;
      assert t == [t[0]] + t[1..];
      EventsJoin([t[0]], t[1..]);
      match t[0]
      case Dies(b) =>
        assert Dropped([t[0]]) == {} && Dropped(t) == Dropped(t[1..]);
        CorruptingJoins(weak, dying + {b}, root, t[1..], u);
      case Ends(b) =>
        assert Dropped([t[0]]) == {} && Dropped(t) == Dropped(t[1..]);
        CorruptingJoins(weak, dying - {b}, root, t[1..], u);
      case Drops(g) =>
        EventsOfDrop([], g);
        assert [] + [Drops(g)] == [t[0]] && Dropped([]) == {};
        assert weak - Dropped(t) == weak - {g} - Dropped(t[1..]);
        CorruptingJoins(weak - {g}, dying, root, t[1..], u);
    }
  }

  /** Every object that begins to die in a cascade has died when the cascade ends. */
  lemma {:induction false} CascadeCloses(m: Handles, own: Objects, held: Option<Block>, h: Handle, dying: set<Block>)
    requires h in m
    requires forall x {:trigger m[x]} :: x in m && m[x].Some? ==> m[x].value !in dying
    ensures Open(dying, Cascade(m, own, held, h)) == dying
    decreases References(m), 0
  {
    var t := Cascade(m, own, held, h);
    if t != [] {
      var b := m[h].value;
      var ms := if b in own then own[b] else [];
      ClearingShrinks(m, h);
      var u := Destructors(m[h := None], own, held, ms);
      forall x {:trigger m[x]} | x in m && m[x] == Some(b)
        ensures x == h
      {
        assert x in Pointing(m, b);
      }
      DestructorsClose(m[h := None], own, held, ms, dying + {b});
      assert t[1..] == u + [Ends(b)];
      CorruptingJoins(map[], dying + {b}, 0, u, [Ends(b)]);
    }
  }

  lemma {:induction false} DestructorsClose(m: Handles, own: Objects, held: Option<Block>, ms: seq<Handle>,
                                            dying: set<Block>)
    requires forall x {:trigger m[x]} :: x in m && m[x].Some? ==> m[x].value !in dying
    ensures Open(dying, Destructors(m, own, held, ms)) == dying
    decreases References(m), |ms| + 2
  {
    if ms != [] {
      var t := Destructor(m, own, held, ms[0]);
      RemovingShrinks(m, Dropped(t));
      var u := Destructors(m - Dropped(t), own, held, ms[1..]);
      DestructorCloses(m, own, held, ms[0], dying);
      DestructorsClose(m - Dropped(t), own, held, ms[1..], dying);
      CorruptingJoins(map[], dying, 0, t, u);
    }
  }

  lemma {:induction false} DestructorCloses(m: Handles, own: Objects, held: Option<Block>, g: Handle, dying: set<Block>)
    requires forall x {:trigger m[x]} :: x in m && m[x].Some? ==> m[x].value !in dying
    ensures Open(dying, Destructor(m, own, held, g)) == dying
    decreases References(m), 1
  {
    var t := if g in m then Cascade(m, own, held, g) else [];
    if g in m {
      CascadeCloses(m, own, held, g, dying);
    }
    CorruptingJoins(map[], dying, 0, t, [Drops(g)]);
  }

  lemma {:induction false} CorruptingSparesRoot(weak: Handles, dying: set<Block>, root: Handle, t: seq<Event>)
    requires root in Dropped(t)
    ensures Corrupting(weak, dying, root, t)
    decreases |t|
  {
    EventIn(t, root, 0);
    if t[0] != Drops(root) {
      assert Drops(root) in t[1..];
      EventIn(t[1..], root, 0);
      match t[0]
      case Dies(b) => CorruptingSparesRoot(weak, dying + {b}, root, t[1..]);
      case Ends(b) => CorruptingSparesRoot(weak, dying - {b}, root, t[1..]);
      case Drops(g) => CorruptingSparesRoot(weak - {g}, dying, root, t[1..]);
    }
  }

  // ----- The same condition, object by object -----

  /** Event n frees a block under its destructor, or destroys root again. */
  predicate FatalAt(weak: Handles, dying: set<Block>, root: Handle, t: seq<Event>, n: nat) {
    n < |t| && t[n].Drops? &&
    (t[n].handle == root || LastOfDying(weak - Dropped(t[..n]), Open(dying, t[..n]), t[n].handle))
  }

  lemma {:induction false} SomeFatalEvent(weak: Handles, dying: set<Block>, root: Handle, t: seq<Event>)
    ensures Corrupting(weak, dying, root, t) <==> exists n :: FatalAt(weak, dying, root, t, n)
    decreases |t|
  {
    if t != [] {
      var k := |t| - 1;
      assert t == t[..k] + [t[k]];
      CorruptingJoins(weak, dying, root, t[..k], [t[k]]);
      SomeFatalEvent(weak, dying, root, t[..k]);
      forall n: nat {:trigger FatalAt(weak, dying, root, t, n)} | n < k
        ensures FatalAt(weak, dying, root, t[..k], n) <==> FatalAt(weak, dying, root, t, n)
      {
        assert t[..k][..n] == t[..n];
      }
      assert Corrupting(weak - Dropped(t[..k]), Open(dying, t[..k]), root, [t[k]])
        <==> FatalAt(weak, dying, root, t, k);
      if n :| FatalAt(weak, dying, root, t[..k], n) {
        assert FatalAt(weak, dying, root, t, n);
      }
    }
  }

  lemma {:induction false} OpenBegins(dying: set<Block>, t: seq<Event>, b: Block)
    ensures b in Open(dying, t) ==> b in dying || Dies(b) in t
    ensures b in dying ==> b in Open(dying, t) || Ends(b) in t
    decreases |t|
  {
    if t != [] {
      match t[0]
      case Dies(c) => OpenBegins(dying + {c}, t[1..], b);
      case Ends(c) => OpenBegins(dying - {c}, t[1..], b);
      case Drops(g) => OpenBegins(dying, t[1..], b);
    }
  }

  /** How often the destructor of the object of c returns. */
  function Endings(t: seq<Event>, c: Block): nat {
    multiset(t)[Ends(c)]
  }

  lemma EndingsJoin(t: seq<Event>, u: seq<Event>, c: Block)
    ensures Endings(t + u, c) == Endings(t, c) + Endings(u, c)
  {
  }

  lemma {:induction false} EndsOnce(m: Handles, own: Objects, held: Option<Block>, h: Handle, c: Block)
    requires h in m
    ensures Endings(Cascade(m, own, held, h), c) <= if c in Died(Cascade(m, own, held, h)) then 1 else 0
    decreases References(m), 0
  {
    if Cascade(m, own, held, h) != [] {
      var b := m[h].value;
      var ms := if b in own then own[b] else [];
      ClearingShrinks(m, h);
      var u := Destructors(m[h := None], own, held, ms);
      DestructorsEndOnce(m[h := None], own, held, ms, c);
      DestructorsDeleteIff(m[h := None], own, held, ms, b);
      ClearedPoints(m, h, b);
      EventsOfDeletion(b, u);
      EndingsJoin([Dies(b)], u, c);
      EndingsJoin([Dies(b)] + u, [Ends(b)], c);
    }
  }

  lemma {:induction false} DestructorsEndOnce(m: Handles, own: Objects, held: Option<Block>, ms: seq<Handle>, c: Block)
    ensures Endings(Destructors(m, own, held, ms), c) <= if c in Died(Destructors(m, own, held, ms)) then 1 else 0
    decreases References(m), |ms| + 2
  {
    if ms != [] {
      var t := Destructor(m, own, held, ms[0]);
      RemovingShrinks(m, Dropped(t));
      var u := Destructors(m - Dropped(t), own, held, ms[1..]);
      DestructorEndsOnce(m, own, held, ms[0], c);
      DestructorsEndOnce(m - Dropped(t), own, held, ms[1..], c);
      DestructorDeletesIff(m, own, held, ms[0], c);
      DestructorsDeleteIff(m - Dropped(t), own, held, ms[1..], c);
      assert Pointing(m - Dropped(t), c) == Pointing(m, c) - Dropped(t);
      EventsJoin(t, u);
      EndingsJoin(t, u, c);
    }
  }

  lemma {:induction false} DestructorEndsOnce(m: Handles, own: Objects, held: Option<Block>, g: Handle, c: Block)
    ensures Endings(Destructor(m, own, held, g), c) <= if c in Died(Destructor(m, own, held, g)) then 1 else 0
    decreases References(m), 1
  {
    var t := if g in m then Cascade(m, own, held, g) else [];
    if g in m {
      EndsOnce(m, own, held, g, c);
    }
    EndingsJoin(t, [Drops(g)], c);
    EventsOfDrop(t, g);
  }

  /** The destructor of the object of b runs from event i to event j; the block still has a weak handle when it
      begins and has none left when it ends. */
  ghost predicate LosesWeakHandles(weak: Handles, t: seq<Event>, b: Block, i: nat, j: nat) {
    && i < j < |t| && t[i] == Dies(b) && t[j] == Ends(b)
    && !(Pointing(weak, b) <= Dropped(t[..i])) && Pointing(weak, b) <= Dropped(t[..j])
  }

  lemma LostInside(weak: Handles, t: seq<Event>, b: Block, i: nat, j: nat)
    requires LosesWeakHandles(weak, t, b, i, j)
    ensures b in Died(t) && Pointing(weak, b) != {} && Pointing(weak, b) <= Dropped(t)
  {
    EventIn(t, 0, b);
    assert t == t[..j] + t[j..];
    EventsJoin(t[..j], t[j..]);
  }

  ghost predicate FreedTooEarly(weak: Handles, t: seq<Event>, b: Block) {
    exists i, j :: LosesWeakHandles(weak, t, b, i, j)
  }

  /** The handle of hs that goes last goes between i and j. */
  lemma {:induction false} LastGoes(hs: set<Handle>, t: seq<Event>, i: nat, j: nat) returns (n: nat)
    requires i < j <= |t| && !(hs <= Dropped(t[..i])) && hs <= Dropped(t[..j])
    ensures i <= n < j && t[n].Drops? && hs - Dropped(t[..n]) == {t[n].handle}
    decreases j
  {
    assert t[..j] == t[..j - 1] + [t[j - 1]];
    if hs <= Dropped(t[..j - 1]) {
      n := LastGoes(hs, t, i, j - 1);
    } else {
      n := j - 1;
      EventsJoin(t[..n], [t[n]]);
      if t[n].Drops? {
        EventsOfDrop(t[..n], t[n].handle);
      }
    }
  }

  lemma OpenAfterDies(t: seq<Event>, b: Block, i: nat, n: nat)
    requires i < n <= |t| && t[i] == Dies(b)
    ensures Open({}, t[..n]) == Open(Open({}, t[..i]) + {b}, t[i + 1..n])
  {
    var u := t[i + 1..n];
    assert t[..n] == t[..i] + ([t[i]] + u);
    CorruptingJoins(map[], {}, 0, t[..i], [t[i]] + u);
    assert ([t[i]] + u)[1..] == u;
  }

  lemma EndingsPositive(t: seq<Event>, b: Block, j: nat)
    requires j < |t| && t[j] == Ends(b)
    ensures Endings(t, b) >= 1
  {
    assert t[j] in multiset(t);
  }

  lemma NoEndingBetween(t: seq<Event>, b: Block, i: nat, n: nat, j: nat)
    requires i <= n <= j < |t| && t[j] == Ends(b) && Endings(t, b) <= 1
    ensures Endings(t[i..n], b) == 0
  {
    hide Endings;
    assert t == t[..n] + t[n..] && t[..n] == t[..i] + t[i..n];
    EndingsJoin(t[..n], t[n..], b);
    EndingsJoin(t[..i], t[i..n], b);
    EndingsPositive(t[n..], b, j - n);
  }

  lemma OpenBetween(t: seq<Event>, b: Block, i: nat, n: nat, j: nat)
    requires i < n < j < |t| && t[i] == Dies(b) && t[j] == Ends(b) && Endings(t, b) <= 1
    ensures b in Open({}, t[..n])
  {
    OpenAfterDies(t, b, i, n);
    NoEndingBetween(t, b, i + 1, n, j);
    OpenBegins(Open({}, t[..i]) + {b}, t[i + 1..n], b);
  }

  /** Over all graphs: destroying h corrupts memory exactly when h itself is inside an object that is deleted, or
      some object that is deleted still has weak handles when its destructor begins and none when it ends. */
  lemma CorruptsIff(m: Handles, weak: Handles, own: Objects, held: Option<Block>, h: Handle)
    requires h in m
    ensures var t := Cascade(m, own, held, h);
            Corrupting(weak, {}, h, t) <==> h in Dropped(t) || exists b :: FreedTooEarly(weak, t, b)
  {
    var t := Cascade(m, own, held, h);
    SomeFatalEvent(weak, {}, h, t);
    if h in Dropped(t) {
      CorruptingSparesRoot(weak, {}, h, t);
    }
    if b, i, j :| LosesWeakHandles(weak, t, b, i, j) {
      LosingIsFatal(m, weak, own, held, h, b, i, j);
    }
    if n :| FatalAt(weak, {}, h, t, n) {
      FatalIsLosing(m, weak, own, held, h, n);
    }
  }

  lemma LosingIsFatal(m: Handles, weak: Handles, own: Objects, held: Option<Block>, h: Handle, b: Block, i: nat, j: nat)
    requires h in m && LosesWeakHandles(weak, Cascade(m, own, held, h), b, i, j)
    ensures exists n :: FatalAt(weak, {}, h, Cascade(m, own, held, h), n)
  {
    var t := Cascade(m, own, held, h);
    var n := LastGoes(Pointing(weak, b), t, i, j);
    EndsOnce(m, own, held, h, b);
    OpenBetween(t, b, i, n, j);
    var g := t[n].handle;
    assert g in Pointing(weak, b) - Dropped(t[..n]);
    assert Pointing(weak - Dropped(t[..n]), b) == {g};
    assert FatalAt(weak, {}, h, t, n);
  }

  lemma FatalIsLosing(m: Handles, weak: Handles, own: Objects, held: Option<Block>, h: Handle, n: nat)
    requires h in m && FatalAt(weak, {}, h, Cascade(m, own, held, h), n)
    ensures var t := Cascade(m, own, held, h); h in Dropped(t) || exists b :: FreedTooEarly(weak, t, b)
  {
    var t := Cascade(m, own, held, h);
    var g := t[n].handle;
    if g == h {
      EventIn(t, h, 0);
    } else {
      var b := weak[g].value;
      OpenBegins({}, t[..n], b);
      var i :| 0 <= i < n && t[..n][i] == Dies(b);
      assert t == t[..n] + t[n..];
      CorruptingJoins(map[], {}, 0, t[..n], t[n..]);
      CascadeCloses(m, own, held, h, {});
      OpenBegins(Open({}, t[..n]), t[n..], b);
      var k :| 0 <= k < |t[n..]| && t[n..][k] == Ends(b);
      LastWeakHandleGoes(weak, t, b, i, n, n + k);
      assert FreedTooEarly(weak, t, b);
    }
  }

  lemma LastWeakHandleGoes(weak: Handles, t: seq<Event>, b: Block, i: nat, n: nat, j: nat)
    requires i < n < j < |t| && t[i] == Dies(b) && t[j] == Ends(b) && t[n].Drops?
    requires t[n].handle in weak - Dropped(t[..n]) && Pointing(weak - Dropped(t[..n]), b) == {t[n].handle}
    ensures LosesWeakHandles(weak, t, b, i, j)
  {
    var g, left := t[n].handle, weak - Dropped(t[..n]);
    assert Pointing(left, b) == Pointing(weak, b) - Dropped(t[..n]);
    assert t[..n] == t[..i] + t[i..n];
    EventsJoin(t[..i], t[i..n]);
    assert t[..j] == t[..n] + [t[n]] + t[n + 1..j];
    EventsOfDrop(t[..n], g);
    EventsJoin(t[..n] + [t[n]], t[n + 1..j]);
  }

  /** The object that h itself lets go loses its block too early exactly when it has weak handles and all of them
      are inside objects that the cascade deletes. */
  lemma FirstObjectIff(m: Handles, weak: Handles, own: Objects, held: Option<Block>, h: Handle, b: Block)
    requires h in m && m[h] == Some(b) && held != Some(b) && Pointing(m, b) == {h}
    ensures var t := Cascade(m, own, held, h);
            b in Died(t) && (FreedTooEarly(weak, t, b) <==> Pointing(weak, b) != {} && Pointing(weak, b) <= Dropped(t))
  {
    var t := Cascade(m, own, held, h);
    var ms := if b in own then own[b] else [];
    ClearingShrinks(m, h);
    var u := Destructors(m[h := None], own, held, ms);
    EventsOfDeletion(b, u);
    assert t[..|t| - 1] == [Dies(b)] + u;
    EventsJoin([Dies(b)], u);
    assert Dropped([Dies(b)]) == {};
    if Pointing(weak, b) != {} && Pointing(weak, b) <= Dropped(t) {
      assert t[..0] == [] && Dropped([]) == {};
      assert LosesWeakHandles(weak, t, b, 0, |t| - 1);
    }
    if i: nat, j: nat :| LosesWeakHandles(weak, t, b, i, j) {
      assert t == t[..j] + t[j..];
      EventsJoin(t[..j], t[j..]);
    }
  }

  /** An object c owned through g alone by an object b, with the only weak pointer w back to b: the destructor of c
      frees the control block of b, whose destructor is still running. */
  lemma BackPointerIsFatal(m: Handles, weak: Handles, own: Objects, held: Option<Block>, h: Handle, b: Block,
                           g: Handle, c: Block, w: Handle)
    requires h in m && m[h] == Some(b) && held == None && Pointing(m, b) == {h}
    requires b in own && c in own && g in own[b] && w in own[c]
    requires Pointing(m, c) == {g} && Pointing(weak, b) == {w}
    ensures var t := Cascade(m, own, held, h); FreedTooEarly(weak, t, b) && Corrupting(weak, {}, h, t)
  {
    var t := Cascade(m, own, held, h);
    FirstObjectIff(m, weak, own, held, h, b);
    DropsIff(m, own, held, h, g);
    DeletesIff(m, own, held, h, c);
    DropsIff(m, own, held, h, w);
    assert InsideDied(own, t, g) && InsideDied(own, t, w);
    CorruptsIff(m, weak, own, held, h);
  }
}

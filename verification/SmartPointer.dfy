/** Reference counting of shared_ptr and weak_ptr over arbitrary graphs of handles, with the destructors of an
    object's own smart pointers run when the object is deleted. */
module SmartPointer {
  import opened Wrappers
  import opened DestructorCascade

  type uint32 = x: int | 0 <= x < 0x1_0000_0000

  /** A control block; hasObject says that ptr is not null. */
  datatype Counts = Counts(refCount: uint32, weakCount: uint32, hasObject: bool)

  // ----- Counting handles -----

  /** A reference is stored in a handle that held none. */
  lemma StoringCounts(m: Handles, h: Handle, t: Option<Block>, b: Block)
    requires h !in m || m[h] == None
    ensures |Pointing(m[h := t], b)| == |Pointing(m, b)| + (if t == Some(b) then 1 else 0)
  {
    assert Pointing(m[h := t], b) == if t == Some(b) then Pointing(m, b) + {h} else Pointing(m, b);
  }

  /** A reference is taken out of a handle. */
  lemma ClearingCounts(m: Handles, h: Handle, b: Block)
    requires h in m
    ensures |Pointing(m[h := None], b)| + (if m[h] == Some(b) then 1 else 0) == |Pointing(m, b)|
  {
    ClearedPoints(m, h, b);
    assert m[h] == Some(b) <==> h in Pointing(m, b);
  }

  /** A reference goes from one handle to another. */
  lemma MovingCounts(m: Handles, h: Handle, other: Handle, b: Block)
    requires h in m && other in m && h != other && m[h] == None
    ensures |Pointing(m[h := m[other]][other := None], b)| == |Pointing(m, b)|
  {
    StoringCounts(m, h, m[other], b);
    ClearingCounts(m[h := m[other]], other, b);
  }

  lemma PointingBound(m: Handles, b: Block)
    ensures |Pointing(m, b)| <= |m|
  {
    assert Pointing(m, b) <= m.Keys;
    SubsetSize(Pointing(m, b), m.Keys);
  }

  lemma SingleHandle(hs: set<Handle>, h: Handle)
    requires h in hs
    ensures |hs| >= 1 && (|hs| == 1 <==> hs == {h})
  {
    assert |hs - {h}| == |hs| - 1;
    assert hs == hs - {h} + {h};
  }

  lemma Overwritten(m: Handles, h: Handle, t: Option<Block>)
    ensures m[h := None][h := t] == m[h := t]
  {
  }

  lemma NullStays(m: Handles, h: Handle)
    requires h in m && m[h] == None
    ensures m[h := None] == m
  {
  }

  // ----- The state -----

  /** Everything the operations change, as one value. A handle in inFlight has been counted out by a destroy that
      is still running; corrupt says that a block has been freed under the destructor of its object, or that a
      handle has been used after its end. */
  datatype State = State(
    shared: Handles,
    weak: Handles,
    blocks: map<Block, Counts>,
    members: Objects,
    dying: set<Block>,
    inFlight: set<Handle>,
    held: Option<Block>,
    heldWeak: Option<Block>,
    next: Block,
    deleted: set<Block>,
    freed: set<Block>,
    corrupt: bool)
  {
    /** The data pointer of a handle of either kind. */
    function Target(h: Handle): Option<Block> {
      if h in shared then shared[h] else if h in weak then weak[h] else None
    }

    /** A reference that has been counted but not yet stored in a handle. */
    function Held(b: Block): nat {
      if held == Some(b) then 1 else 0
    }

    predicate HasObject(b: Block) {
      b in blocks && blocks[b].hasObject
    }

    predicate IsAlive(b: Block) {
      HasObject(b) && b !in dying
    }

    ghost predicate IsMember(h: Handle) {
      exists b :: HasObject(b) && b in members && h in members[b]
    }

    /** The counts are the numbers of handles; a block exists while it is referenced. */
    ghost predicate Counted(b: Block)
      requires b in blocks
    {
      && blocks[b].refCount == |Pointing(shared, b)| + Held(b)
      && blocks[b].weakCount == |Pointing(weak, b)| + (if heldWeak == Some(b) then 1 else 0)
      && if b in dying then blocks[b].hasObject && blocks[b].refCount == 0 else Kept(blocks[b])
    }

    predicate Kept(c: Counts) {
      (c.hasObject <==> c.refCount > 0) && (c.refCount > 0 || c.weakCount > 0)
    }

    /** The smart pointers inside an object exist while it lives, and belong to it alone. */
    ghost predicate MembersOk() {
      && (forall b {:trigger b in blocks} :: HasObject(b) ==> b in members)
      && (forall b, h {:trigger h in members[b]} ::
            IsAlive(b) && b in members && h in members[b] ==> h in shared || h in weak)
      && (forall b, i, j {:trigger members[b][i], members[b][j]} ::
            HasObject(b) && b in members && 0 <= i < j < |members[b]| ==> members[b][i] != members[b][j])
      && (forall b, c, h {:trigger h in members[b], h in members[c]} ::
            HasObject(b) && HasObject(c) && b in members && c in members && h in members[b] && h in members[c]
            ==> b == c)
    }

    /** The objects deleted and the blocks freed so far are exactly those that no longer exist. */
    ghost predicate LogsOk() {
      && (forall b: Block {:trigger b in deleted} :: b in deleted <==> b < next && !IsAlive(b))
      && (forall b: Block {:trigger b in freed} :: b in freed <==> b < next && b !in blocks)
    }

    ghost predicate Valid() {
      && (forall h {:trigger h in weak} :: h in weak ==> h !in shared)
      && (forall h {:trigger shared[h]} :: h in shared && shared[h].Some? ==> shared[h].value in blocks)
      && (forall h {:trigger weak[h]} :: h in weak && weak[h].Some? ==> weak[h].value in blocks)
      && (forall b {:trigger Counted(b)} :: b in blocks ==> Counted(b))
      && (forall b {:trigger b in blocks} :: b in blocks ==> b < next)
      && (forall h {:trigger h in inFlight} :: h in inFlight ==> h in shared && shared[h] == None)
      && (forall b {:trigger b in dying} :: b in dying ==> b in blocks)
      && (held.Some? ==> held.value in blocks) && (heldWeak.Some? ==> heldWeak.value in blocks)
      && MembersOk() && LogsOk() && !corrupt
    }

    /** What destroying the shared handle h sets off while a reference to keep is held. */
    function Cascade(keep: Option<Block>, h: Handle): seq<Event>
      requires h in shared
    {
      DestructorCascade.Cascade(shared, members, keep, h)
    }

    /** Read off the graph before the call: destroying h frees a block under its running destructor or destroys
        h twice. CorruptsIff says the same object by object. */
    predicate Corrupts(keep: Option<Block>, h: Handle)
      requires h in shared
    {
      Corrupting(weak, {}, h, Cascade(keep, h))
    }
  }

  /** A handle that is not null is counted. */
  lemma SharedIsCounted(s: State, h: Handle, b: Block)
    requires s.Valid() && h in s.shared && s.shared[h] == Some(b)
    ensures s.IsAlive(b) && s.blocks[b].refCount > 0 && h in Pointing(s.shared, b) && b < s.next
    ensures s.blocks[b].refCount == 1 <==> Pointing(s.shared, b) == {h} && s.held != Some(b)
  {
    assert s.Counted(b);
    SingleHandle(Pointing(s.shared, b), h);
  }

  /** A step that creates no object and ends no handle keeps the smart pointers inside objects. */
  lemma MembersStay(s: State, s': State)
    requires s.MembersOk() && s'.members == s.members
    requires forall b {:trigger s'.HasObject(b)} :: s'.HasObject(b) ==> s.HasObject(b)
    requires forall b {:trigger s'.IsAlive(b)} :: s'.IsAlive(b) ==> s.IsAlive(b)
    requires s.shared.Keys <= s'.shared.Keys && s.weak.Keys <= s'.weak.Keys
    ensures s'.MembersOk()
  {
    forall b {:trigger b in s'.blocks} | s'.HasObject(b)
      ensures b in s'.members
    {
      assert s.HasObject(b);
    }
    forall b, h {:trigger h in s'.members[b]} | s'.IsAlive(b) && b in s'.members && h in s'.members[b]
      ensures h in s'.shared || h in s'.weak
    {
      assert s.IsAlive(b) && h in s.members[b];
      assert h in s.shared || h in s.weak;
    }
    forall b, i, j {:trigger s'.members[b][i], s'.members[b][j]} |
      s'.HasObject(b) && b in s'.members && 0 <= i < j < |s'.members[b]|
      ensures s'.members[b][i] != s'.members[b][j]
    {
      assert s.HasObject(b) && s.members[b][i] != s.members[b][j];
    }
    forall b, c, g {:trigger g in s'.members[b], g in s'.members[c]} |
      s'.HasObject(b) && s'.HasObject(c) && b in s'.members && c in s'.members && g in s'.members[b]
      && g in s'.members[c]
      ensures b == c
    {
      assert s.HasObject(b) && s.HasObject(c) && g in s.members[b] && g in s.members[c];
    }
  }

  // ----- The single steps -----

  /** refCount-- while other references remain, and data = nullptr. */
  function Released(s: State, h: Handle, b: Block): State
    requires b in s.blocks && s.blocks[b].refCount > 0
  {
    var c := s.blocks[b];
    s.(blocks := s.blocks[b := c.(refCount := c.refCount - 1)], shared := s.shared[h := None])
  }

  lemma ReleasedIsValid(s: State, h: Handle, b: Block)
    requires s.Valid() && h in s.shared && s.shared[h] == Some(b) && s.blocks[b].refCount > 1
    ensures Released(s, h, b).Valid()
  {
    var s' := Released(s, h, b);
    MembersStay(s, s');
    SharedIsCounted(s, h, b);
    forall c {:trigger s'.Counted(c)} | c in s'.blocks
      ensures s'.Counted(c)
    {
      assert s.Counted(c);
      ClearingCounts(s.shared, h, c);
    }
  }

  /** The last reference goes: refCount is 0, the destructor of the object is about to run. */
  function Doomed(s: State, h: Handle, b: Block): State
    requires b in s.blocks
  {
    s.(blocks := s.blocks[b := s.blocks[b].(refCount := 0)], shared := s.shared[h := None], dying := s.dying + {b},
       inFlight := s.inFlight + {h}, deleted := s.deleted + {b})
  }

  lemma DoomedIsValid(s: State, h: Handle, b: Block)
    requires s.Valid() && h in s.shared && s.shared[h] == Some(b) && s.blocks[b].refCount == 1
    ensures Doomed(s, h, b).Valid()
  {
    var s' := Doomed(s, h, b);
    MembersStay(s, s');
    SharedIsCounted(s, h, b);
    forall c {:trigger s'.Counted(c)} | c in s'.blocks
      ensures s'.Counted(c)
    {
      assert s.Counted(c);
      ClearingCounts(s.shared, h, c);
    }
  }

  /** The destructor has run: ptr is null, and the block is freed unless weak handles remain. */
  function Finished(s: State, h: Handle, b: Block): State
    requires b in s.blocks
  {
    var c := s.blocks[b];
    var s1 := s.(dying := s.dying - {b}, inFlight := s.inFlight - {h});
    if c.weakCount == 0 then s1.(blocks := s.blocks - {b}, freed := s.freed + {b})
    else s1.(blocks := s.blocks[b := c.(hasObject := false)])
  }

  lemma FinishedLogs(s: State, h: Handle, b: Block)
    requires s.Valid() && b in s.dying
    ensures Finished(s, h, b).LogsOk()
  {
  }

  lemma FinishedCounts(s: State, h: Handle, b: Block)
    requires s.Valid() && b in s.dying
    ensures var s' := Finished(s, h, b);
            forall c {:trigger s'.Counted(c)} :: c in s'.blocks ==> s'.Counted(c)
  {
    var s' := Finished(s, h, b);
    forall c {:trigger s'.Counted(c)} | c in s'.blocks
      ensures s'.Counted(c)
    {
      assert s.Counted(c);
    }
  }

  /** No shared handle refers to the block, and if it is freed no weak handle does. */
  lemma FinishedTargets(s: State, h: Handle, b: Block, g: Handle)
    requires s.Valid() && b in s.dying
    ensures var s' := Finished(s, h, b);
            && (g in s'.shared && s'.shared[g].Some? ==> s'.shared[g].value in s'.blocks)
            && (g in s'.weak && s'.weak[g].Some? ==> s'.weak[g].value in s'.blocks)
            && (s'.held.Some? ==> s'.held.value in s'.blocks) && (s'.heldWeak.Some? ==> s'.heldWeak.value in s'.blocks)
  {
    assert s.Counted(b);
    assert g in s.shared && s.shared[g] == Some(b) ==> g in Pointing(s.shared, b);
    assert g in s.weak && s.weak[g] == Some(b) ==> g in Pointing(s.weak, b);
  }

  lemma FinishedIsValid(s: State, h: Handle, b: Block)
    requires s.Valid() && b in s.dying
    ensures Finished(s, h, b).Valid()
  {
    hide State.MembersOk, State.LogsOk, State.Counted;
    var s' := Finished(s, h, b);
    MembersStay(s, s');
    FinishedLogs(s, h, b);
    FinishedCounts(s, h, b);
    FinishedTargets(s, h, b, h);
    forall g
      ensures g in s'.shared && s'.shared[g].Some? ==> s'.shared[g].value in s'.blocks
      ensures g in s'.weak && s'.weak[g].Some? ==> s'.weak[g].value in s'.blocks
    {
      FinishedTargets(s, h, b, g);
    }
  }

  /** weakCount-- and data = nullptr; the block is freed when nothing refers to it any more, even while its object
      is still being deleted. */
  function WeakReleased(s: State, h: Handle, b: Block): State
    requires b in s.blocks && s.blocks[b].weakCount > 0
  {
    var c := s.blocks[b].(weakCount := s.blocks[b].weakCount - 1);
    var s1 := s.(weak := s.weak[h := None]);
    if c.weakCount == 0 && c.refCount == 0 then
      s1.(blocks := s.blocks - {b}, freed := s.freed + {b}, corrupt := s.corrupt || b in s.dying)
    else s1.(blocks := s.blocks[b := c])
  }

  /** A weak handle released while the object of its block is being deleted frees the block under the running
      destructor exactly when it was the last one; otherwise the release is harmless. */
  lemma WeakReleasedIsValid(s: State, h: Handle, b: Block)
    requires s.Valid() && h in s.weak && s.weak[h] == Some(b)
    ensures b in s.blocks && s.blocks[b].weakCount > 0
    ensures WeakReleased(s, h, b).corrupt <==> b in s.dying && Pointing(s.weak, b) == {h} && s.heldWeak != Some(b)
    ensures !WeakReleased(s, h, b).corrupt ==> WeakReleased(s, h, b).Valid()
  {
    hide State.MembersOk, State.LogsOk;
    assert s.Counted(b);
    SingleHandle(Pointing(s.weak, b), h);
    var s' := WeakReleased(s, h, b);
    if !s'.corrupt {
      MembersStay(s, s');
      WeakReleasedCounts(s, h, b);
      WeakReleasedLogs(s, h, b);
      forall g {:trigger s'.weak[g]} | g in s'.weak && s'.weak[g].Some?
        ensures s'.weak[g].value in s'.blocks
      {
        assert s.weak[g] == Some(b) ==> g in Pointing(s.weak, b);
      }
      forall g {:trigger s'.shared[g]} | g in s'.shared && s'.shared[g].Some?
        ensures s'.shared[g].value in s'.blocks
      {
        assert s.shared[g] == Some(b) ==> g in Pointing(s.shared, b);
      }
    }
  }

  lemma WeakReleaseCorrupts(s: State, h: Handle, b: Block)
    requires s.Valid() && h in s.weak && s.weak[h] == Some(b) && (s.heldWeak == None || s.dying == {})
    ensures b in s.blocks && s.blocks[b].weakCount > 0
    ensures WeakReleased(s, h, b).corrupt <==> LastOfDying(s.weak, s.dying, h)
    ensures !WeakReleased(s, h, b).corrupt ==> WeakReleased(s, h, b).Valid()
  {
    WeakReleasedIsValid(s, h, b);
  }

  lemma WeakReleaseChanges(s: State, h: Handle, b: Block)
    requires b in s.blocks && s.blocks[b].weakCount > 0
    ensures WeakReleased(s, h, b).weak == s.weak[h := None] && Untouched(s, WeakReleased(s, h, b))
  {
  }

  lemma WeakReleasedLogs(s: State, h: Handle, b: Block)
    requires s.Valid() && h in s.weak && s.weak[h] == Some(b) && b in s.blocks && s.blocks[b].weakCount > 0
    ensures !WeakReleased(s, h, b).corrupt ==> WeakReleased(s, h, b).LogsOk()
  {
    assert s.Counted(b);
  }

  lemma WeakReleasedCounts(s: State, h: Handle, b: Block)
    requires s.Valid() && h in s.weak && s.weak[h] == Some(b) && s.blocks[b].weakCount > 0
    ensures var s' := WeakReleased(s, h, b);
            !s'.corrupt ==> forall c {:trigger s'.Counted(c)} :: c in s'.blocks ==> s'.Counted(c)
  {
    var s' := WeakReleased(s, h, b);
    assert s.Counted(b);
    forall c {:trigger s'.Counted(c)} | c in s'.blocks && !s'.corrupt
      ensures s'.Counted(c)
    {
      assert s.Counted(c);
      ClearingCounts(s.weak, h, c);
    }
  }

  /** refCount++ */
  function Taken(s: State, b: Block): State
    requires b in s.blocks && s.blocks[b].refCount < 0xFFFF_FFFF
  {
    s.(blocks := s.blocks[b := s.blocks[b].(refCount := s.blocks[b].refCount + 1)], held := Some(b))
  }

  lemma TakenIsValid(s: State, b: Block)
    requires s.Valid() && s.held == None && s.IsAlive(b) && |s.shared| < 0xFFFF_FFFF
    ensures s.blocks[b].refCount < 0xFFFF_FFFF && Taken(s, b).Valid()
  {
    assert s.Counted(b);
    PointingBound(s.shared, b);
    var s' := Taken(s, b);
    MembersStay(s, s');
    forall c {:trigger s'.Counted(c)} | c in s'.blocks
      ensures s'.Counted(c)
    {
      assert s.Counted(c);
    }
  }

  /** data = the block whose count has been raised. */
  function Stored(s: State, h: Handle): State {
    s.(shared := s.shared[h := s.held], held := None)
  }

  lemma StoredIsValid(s: State, h: Handle)
    requires s.Valid() && h in s.shared && h !in s.inFlight && s.shared[h] == None
    ensures Stored(s, h).Valid()
  {
    var s' := Stored(s, h);
    MembersStay(s, s');
    forall c {:trigger s'.Counted(c)} | c in s'.blocks
      ensures s'.Counted(c)
    {
      assert s.Counted(c);
      StoringCounts(s.shared, h, s.held, c);
    }
  }

  /** weakCount++ */
  function WeakTaken(s: State, b: Block): State
    requires b in s.blocks && s.blocks[b].weakCount < 0xFFFF_FFFF
  {
    s.(blocks := s.blocks[b := s.blocks[b].(weakCount := s.blocks[b].weakCount + 1)], heldWeak := Some(b))
  }

  lemma WeakTakenIsValid(s: State, b: Block)
    requires s.Valid() && s.heldWeak == None && b in s.blocks && |s.weak| < 0xFFFF_FFFF
    ensures s.blocks[b].weakCount < 0xFFFF_FFFF && WeakTaken(s, b).Valid()
  {
    assert s.Counted(b);
    PointingBound(s.weak, b);
    var s' := WeakTaken(s, b);
    MembersStay(s, s');
    forall c {:trigger s'.Counted(c)} | c in s'.blocks
      ensures s'.Counted(c)
    {
      assert s.Counted(c);
    }
  }

  function WeakStored(s: State, h: Handle): State {
    s.(weak := s.weak[h := s.heldWeak], heldWeak := None)
  }

  lemma WeakStoredIsValid(s: State, h: Handle)
    requires s.Valid() && h in s.weak && s.weak[h] == None
    ensures WeakStored(s, h).Valid()
  {
    var s' := WeakStored(s, h);
    MembersStay(s, s');
    forall c {:trigger s'.Counted(c)} | c in s'.blocks
      ensures s'.Counted(c)
    {
      assert s.Counted(c);
      StoringCounts(s.weak, h, s.heldWeak, c);
    }
  }

  /** A handle that is null comes into being or ends. */
  function WithShared(s: State, h: Handle): State { s.(shared := s.shared[h := None]) }
  function WithWeak(s: State, h: Handle): State { s.(weak := s.weak[h := None]) }
  function Without(s: State, h: Handle): State { s.(shared := s.shared - {h}, weak := s.weak - {h}) }

  lemma WithSharedIsValid(s: State, h: Handle)
    requires s.Valid() && h !in s.shared && h !in s.weak
    ensures WithShared(s, h).Valid()
  {
    var s' := WithShared(s, h);
    MembersStay(s, s');
    forall c {:trigger s'.Counted(c)} | c in s'.blocks
      ensures s'.Counted(c)
    {
      assert s.Counted(c);
      StoringCounts(s.shared, h, None, c);
    }
  }

  lemma WithWeakIsValid(s: State, h: Handle)
    requires s.Valid() && h !in s.shared && h !in s.weak
    ensures WithWeak(s, h).Valid()
  {
    var s' := WithWeak(s, h);
    MembersStay(s, s');
    forall c {:trigger s'.Counted(c)} | c in s'.blocks
      ensures s'.Counted(c)
    {
      assert s.Counted(c);
      StoringCounts(s.weak, h, None, c);
    }
  }

  /** A null handle may end unless it is inside an object that lives on. */
  lemma WithoutIsValid(s: State, h: Handle)
    requires s.Valid() && s.Target(h) == None && h !in s.inFlight
    requires forall b {:trigger s.IsAlive(b)} :: s.IsAlive(b) ==> h !in s.members[b]
    ensures Without(s, h).Valid()
  {
    var s' := Without(s, h);
    forall c {:trigger s'.Counted(c)} | c in s'.blocks
      ensures s'.Counted(c)
    {
      assert s.Counted(c);
      assert Pointing(s'.shared, c) == Pointing(s.shared, c);
      assert Pointing(s'.weak, c) == Pointing(s.weak, c);
    }
    MembersWithout(s, s', h);
  }

  /** A step that ends a handle outside the living objects. */
  lemma MembersWithout(s: State, s': State, h: Handle)
    requires s.MembersOk() && forall b {:trigger s.IsAlive(b)} :: s.IsAlive(b) ==> h !in s.members[b]
    requires s'.members == s.members && s'.blocks == s.blocks && s'.dying == s.dying
    requires s'.shared == s.shared - {h} && s'.weak == s.weak - {h}
    ensures s'.MembersOk()
  {
    forall b {:trigger b in s'.blocks} | s'.HasObject(b)
      ensures b in s'.members
    {
      assert s.HasObject(b);
    }
    forall d, g {:trigger g in s'.members[d]} | s'.IsAlive(d) && d in s'.members && g in s'.members[d]
      ensures g in s'.shared || g in s'.weak
    {
      assert s.IsAlive(d) && g in s.members[d];
    }
    forall b, i, j {:trigger s'.members[b][i], s'.members[b][j]} |
      s'.HasObject(b) && b in s'.members && 0 <= i < j < |s'.members[b]|
      ensures s'.members[b][i] != s'.members[b][j]
    {
      assert s.HasObject(b) && s.members[b][i] != s.members[b][j];
    }
    forall b, c, g {:trigger g in s'.members[b], g in s'.members[c]} |
      s'.HasObject(b) && s'.HasObject(c) && b in s'.members && c in s'.members && g in s'.members[b]
      && g in s'.members[c]
      ensures b == c
    {
      assert s.HasObject(b) && s.HasObject(c) && g in s.members[b] && g in s.members[c];
    }
  }

  /** data = other.data; other.data = nullptr */
  function Moved(s: State, h: Handle, other: Handle): State
    requires other in s.shared
  {
    s.(shared := s.shared[h := s.shared[other]][other := None])
  }

  lemma MovedIsValid(s: State, h: Handle, other: Handle)
    requires s.Valid() && h in s.shared && other in s.shared && h != other && s.inFlight == {} && s.shared[h] == None
    ensures Moved(s, h, other).Valid()
  {
    var s' := Moved(s, h, other);
    MembersStay(s, s');
    forall c {:trigger s'.Counted(c)} | c in s'.blocks
      ensures s'.Counted(c)
    {
      assert s.Counted(c);
      MovingCounts(s.shared, h, other, c);
    }
  }

  function WeakMoved(s: State, h: Handle, other: Handle): State
    requires other in s.weak
  {
    s.(weak := s.weak[h := s.weak[other]][other := None])
  }

  lemma WeakMovedIsValid(s: State, h: Handle, other: Handle)
    requires s.Valid() && h in s.weak && other in s.weak && h != other && s.weak[h] == None
    ensures WeakMoved(s, h, other).Valid()
  {
    var s' := WeakMoved(s, h, other);
    MembersStay(s, s');
    forall c {:trigger s'.Counted(c)} | c in s'.blocks
      ensures s'.Counted(c)
    {
      assert s.Counted(c);
      MovingCounts(s.weak, h, other, c);
    }
  }

  /** data = new Data(): a block for an object whose own smart pointers are given. */
  function Created(s: State, h: Handle, own: seq<Handle>): State {
    s.(shared := s.shared[h := Some(s.next)], blocks := s.blocks[s.next := Counts(1, 0, true)],
       members := s.members[s.next := own], next := s.next + 1)
  }

  /** The smart pointers of a new object exist, are different and belong to no other object. */
  ghost predicate Ownable(s: State, own: seq<Handle>) {
    && (forall g {:trigger g in own} :: g in own ==> (g in s.shared || g in s.weak) && !s.IsMember(g))
    && (forall i, j {:trigger own[i], own[j]} :: 0 <= i < j < |own| ==> own[i] != own[j])
  }

  lemma CreatedIsValid(s: State, h: Handle, own: seq<Handle>)
    requires s.Valid() && s.inFlight == {} && h in s.shared && s.shared[h] == None && Ownable(s, own)
    ensures Created(s, h, own).Valid()
  {
    var s', b := Created(s, h, own), s.next;
    forall c {:trigger s'.Counted(c)} | c in s'.blocks
      ensures s'.Counted(c)
    {
      if c == b {
        assert Pointing(s'.shared, b) == {h};
        assert Pointing(s'.weak, b) == {};
      } else {
        assert s.Counted(c);
        StoringCounts(s.shared, h, Some(b), c);
      }
    }
    CreatedMembers(s, h, own);
  }

  lemma CreatedMembers(s: State, h: Handle, own: seq<Handle>)
    requires s.Valid() && h in s.shared && Ownable(s, own)
    ensures Created(s, h, own).MembersOk()
  {
    var s', b := Created(s, h, own), s.next;
    forall c {:trigger c in s'.blocks} | s'.HasObject(c)
      ensures c in s'.members
    {
      assert c != b ==> s.HasObject(c);
    }
    forall d, g {:trigger g in s'.members[d]} | s'.IsAlive(d) && d in s'.members && g in s'.members[d]
      ensures g in s'.shared || g in s'.weak
    {
      assert d != b ==> s.IsAlive(d) && g in s.members[d];
    }
    forall d, i, j {:trigger s'.members[d][i], s'.members[d][j]} |
      s'.HasObject(d) && d in s'.members && 0 <= i < j < |s'.members[d]|
      ensures s'.members[d][i] != s'.members[d][j]
    {
      assert d != b ==> s.HasObject(d) && s.members[d][i] != s.members[d][j];
    }
    forall c, d, g {:trigger g in s'.members[c], g in s'.members[d]} |
      s'.HasObject(c) && s'.HasObject(d) && c in s'.members && d in s'.members && g in s'.members[c]
      && g in s'.members[d]
      ensures c == d
    {
      assert c != b ==> s.HasObject(c) && s.IsMember(g);
      assert d != b ==> s.HasObject(d) && s.IsMember(g);
      assert c != b && d != b ==> g in s.members[c] && g in s.members[d];
    }
  }

  // ----- The running cascade -----

  ghost predicate InsideDying(s: State, g: Handle) {
    exists d :: d in s.dying && d in s.members && g in s.members[d]
  }

  /** Every destroy that is running was called for root or by the destructor of a dying object. */
  ghost predicate Running(s: State, root: Handle) {
    forall g {:trigger g in s.inFlight} :: g in s.inFlight && g != root ==> InsideDying(s, g)
  }

  /** All that the events of a cascade change, except the shared handles. */
  ghost predicate Outcome(s: State, s': State, t: seq<Event>) {
    && s'.weak == s.weak - Dropped(t) && s'.deleted == s.deleted + Died(t)
    && s'.members == s.members && s'.dying == s.dying && s'.inFlight == s.inFlight
    && s'.held == s.held && s'.heldWeak == s.heldWeak && s'.next == s.next
  }

  lemma OutcomeJoins(s: State, s1: State, s2: State, t: seq<Event>, u: seq<Event>)
    requires Outcome(s, s1, t) && Outcome(s1, s2, u)
    ensures Outcome(s, s2, t + u) && s.shared - Dropped(t) - Dropped(u) == s.shared - Dropped(t + u)
  {
    EventsJoin(t, u);
  }

  /** The objects that a cascade deletes are alive before it. */
  lemma ReferencedIsAlive(s: State, c: Block)
    requires s.Valid() && Pointing(s.shared, c) != {}
    ensures s.IsAlive(c) && c in s.members
  {
    var h :| h in Pointing(s.shared, c);
    SharedIsCounted(s, h, c);
  }

  /** The smart pointers of a dying object are destroyed by its own destructor only. */
  lemma DyingMembersStay(s: State, ms: seq<Handle>, d: Block, g: Handle)
    requires s.Valid() && d in s.dying && d in s.members && g in s.members[d] && g !in ms
    ensures g !in Dropped(Destructors(s.shared, s.members, s.held, ms))
  {
    var t := Destructors(s.shared, s.members, s.held, ms);
    DestructorsDropIff(s.shared, s.members, s.held, ms, g);
    assert s.Counted(d);
    if c :| c in Died(t) && c in s.members && g in s.members[c] {
      DestructorsDeleteIff(s.shared, s.members, s.held, ms, c);
      ReferencedIsAlive(s, c);
    }
  }

  lemma DyingMembersStayOne(s: State, g0: Handle, d: Block, g: Handle)
    requires s.Valid() && d in s.dying && d in s.members && g in s.members[d] && g != g0
    ensures g !in Dropped(Destructor(s.shared, s.members, s.held, g0))
  {
    var t := Destructor(s.shared, s.members, s.held, g0);
    DestructorDropsIff(s.shared, s.members, s.held, g0, g);
    assert s.Counted(d);
    if c :| c in Died(t) && c in s.members && g in s.members[c] {
      DestructorDeletesIff(s.shared, s.members, s.held, g0, c);
      ReferencedIsAlive(s, c);
    }
  }

  lemma NoPointerToDying(s: State, x: Handle)
    requires s.Valid() && x in s.shared && s.shared[x].Some?
    ensures s.shared[x].value !in s.dying
  {
    SharedIsCounted(s, x, s.shared[x].value);
  }

  lemma DestructorsCloseHere(s: State, g: Handle)
    requires s.Valid()
    ensures Open(s.dying, Destructor(s.shared, s.members, s.held, g)) == s.dying
  {
    forall x {:trigger s.shared[x]} | x in s.shared && s.shared[x].Some?
      ensures s.shared[x].value !in s.dying
    {
      NoPointerToDying(s, x);
    }
    DestructorCloses(s.shared, s.members, s.held, g, s.dying);
  }

  lemma PutAndTaken(a: set<nat>, x: nat)
    requires x !in a
    ensures a + {x} - {x} == a
  {
  }

  lemma ClearedBefore(m: Handles, h: Handle, gone: set<Handle>)
    requires h !in gone
    ensures m[h := None] - gone == (m - gone)[h := None]
  {
  }

  /** The steps before and after the destructor of the object of b, whose events are u. */
  lemma DeletionOutcome(s: State, h: Handle, b: Block, s2: State, u: seq<Event>)
    requires s.Valid() && h in s.shared && s.shared[h] == Some(b) && s.blocks[b].refCount == 1
    requires Outcome(Doomed(s, h, b), s2, u) && s2.shared == s.shared[h := None] - Dropped(u) && b in s2.blocks
    requires h !in s.inFlight && h !in Dropped(u)
    ensures var t := [Dies(b)] + u + [Ends(b)];
            && Outcome(s, Finished(s2, h, b), t)
            && Finished(s2, h, b).shared == (s.shared - Dropped(t))[h := None]
  {
    SharedIsCounted(s, h, b);
    AroundDestructor(s, h, b, s2, u);
  }

  lemma AroundDestructor(s: State, h: Handle, b: Block, s2: State, u: seq<Event>)
    requires b in s.blocks && b !in s.dying && h !in s.inFlight && h !in Dropped(u) && b in s2.blocks
    requires Outcome(Doomed(s, h, b), s2, u) && s2.shared == s.shared[h := None] - Dropped(u)
    ensures var t := [Dies(b)] + u + [Ends(b)];
            && Outcome(s, Finished(s2, h, b), t)
            && Finished(s2, h, b).shared == (s.shared - Dropped(t))[h := None]
  {
    EventsOfDeletion(b, u);
    PutAndTaken(s.dying, b);
    PutAndTaken(s.inFlight, h);
    ClearedBefore(s.shared, h, Dropped(u));
  }

  lemma DeletionCorrupts(s: State, h: Handle, b: Block, u: seq<Event>, root: Handle)
    ensures Corrupting(s.weak, s.dying, root, [Dies(b)] + u + [Ends(b)])
       <==> Corrupting(s.weak, s.dying + {b}, root, u)
  {
    var t := [Dies(b)] + u + [Ends(b)];
    assert t[1..] == u + [Ends(b)];
    CorruptingJoins(s.weak, s.dying + {b}, root, u, [Ends(b)]);
  }

  /** The handle being destroyed is not inside an object that its cascade deletes, unless it is root. */
  lemma HandleStays(s: State, h: Handle, b: Block, root: Handle)
    requires s.Valid() && h in s.shared && s.shared[h] == Some(b) && s.blocks[b].refCount == 1
    requires h == root || InsideDying(s, h)
    requires b in s.members
    requires !Corrupting(s.weak, s.dying + {b}, root,
                         Destructors(s.shared[h := None], s.members, s.held, s.members[b]))
    ensures h !in Dropped(Destructors(s.shared[h := None], s.members, s.held, s.members[b]))
  {
    var u := Destructors(s.shared[h := None], s.members, s.held, s.members[b]);
    SharedIsCounted(s, h, b);
    if h != root {
      var d :| d in s.dying && d in s.members && h in s.members[d];
      DoomedIsValid(s, h, b);
      assert s.Counted(d) && s.HasObject(d);
      assert h !in s.members[b];
      DyingMembersStay(Doomed(s, h, b), s.members[b], d, h);
    } else if h in Dropped(u) {
      CorruptingSparesRoot(s.weak, s.dying + {b}, root, u);
    }
  }

  /** No member of an object that starts to die is being destroyed already, except root. */
  lemma DeletionStarts(s: State, h: Handle, b: Block, root: Handle)
    requires s.Valid() && h in s.shared && s.shared[h] == Some(b) && s.blocks[b].refCount == 1 && Running(s, root)
    requires h == root || (root in s.inFlight && InsideDying(s, h))
    ensures b in s.members && Running(Doomed(s, h, b), root) && Waiting(s, s.members[b])
    ensures forall g {:trigger g in s.inFlight} :: g in s.inFlight + {h} && g in s.members[b] ==> g == root
    ensures Waiting(Doomed(s, h, b), s.members[b])
  {
    SharedIsCounted(s, h, b);
    forall g | g in s.inFlight + {h} && g != root
      ensures g !in s.members[b] && InsideDying(Doomed(s, h, b), g)
    {
      assert InsideDying(s, g);
      var d :| d in s.dying && d in s.members && g in s.members[d];
      assert s.Counted(d) && s.HasObject(d);
      assert d in Doomed(s, h, b).dying;
    }
  }

  /** The smart pointers that a running destructor has still to destroy. */
  ghost predicate Waiting(s: State, ms: seq<Handle>) {
    forall g {:trigger g in ms} :: g in ms ==> g in s.shared || g in s.weak
  }

  /** The destructor of the object of b, with events t in all, has come as far as p and has ms left to destroy. */
  ghost predicate Deleting(s0: State, s: State, b: Block, p: seq<Event>, t: seq<Event>, ms: seq<Handle>) {
    && s.Valid() && Outcome(s0, s, p) && s.shared == s0.shared - Dropped(p)
    && t == p + Destructors(s.shared, s.members, s.held, ms)
    && Waiting(s, ms) && Open(s0.dying, p) == s0.dying
  }

  lemma NextDestructor(s0: State, s: State, b: Block, p: seq<Event>, t: seq<Event>, ms: seq<Handle>, i: nat,
                       root: Handle)
    requires i < |ms| && Deleting(s0, s, b, p, t, ms[i..]) && !Corrupting(s0.weak, s0.dying, root, p)
    ensures var e := Destructor(s.shared, s.members, s.held, ms[i]);
            && p + e <= t && (ms[i] in s.shared || ms[i] in s.weak)
            && References(s.shared) <= References(s0.shared)
            && (Corrupting(s0.weak, s0.dying, root, p + e) <==> Corrupting(s.weak, s.dying, root, e))
  {
    var e := Destructor(s.shared, s.members, s.held, ms[i]);
    assert ms[i] in ms[i..] && ms[i..][1..] == ms[i + 1..];
    RemovingShrinks(s0.shared, Dropped(p));
    CorruptingJoins(s0.weak, s0.dying, root, p, e);
  }

  lemma DestructorDone(s0: State, s1: State, s: State, b: Block, p: seq<Event>, e: seq<Event>, t: seq<Event>,
                       ms: seq<Handle>, i: nat)
    requires i < |ms| && Deleting(s0, s1, b, p, t, ms[i..]) && b in s1.dying && b in s1.members && ms == s1.members[b]
    requires e == Destructor(s1.shared, s1.members, s1.held, ms[i]) && s.Valid() && Outcome(s1, s, e)
    requires s.shared == s1.shared - Dropped(e)
    ensures Deleting(s0, s, b, p + e, t, ms[i + 1..])
  {
    assert ms[i..][0] == ms[i] && ms[i..][1..] == ms[i + 1..];
    OutcomeJoins(s0, s1, s, p, e);
    DestructorsCloseHere(s1, ms[i]);
    CorruptingJoins(map[], s0.dying, 0, p, e);
    RestWaits(s1, s, b, ms, i);
  }

  lemma RestWaits(s1: State, s: State, b: Block, ms: seq<Handle>, i: nat)
    requires s1.Valid() && b in s1.dying && b in s1.members && ms == s1.members[b] && i < |ms| && Waiting(s1, ms[i..])
    requires s.shared == s1.shared - Dropped(Destructor(s1.shared, s1.members, s1.held, ms[i]))
    requires s.weak == s1.weak - Dropped(Destructor(s1.shared, s1.members, s1.held, ms[i]))
    ensures Waiting(s, ms[i + 1..])
  {
    assert s1.Counted(b) && s1.HasObject(b);
    forall g {:trigger g in ms[i + 1..]} | g in ms[i + 1..]
      ensures g in s.shared || g in s.weak
    {
      var k :| i + 1 <= k < |ms| && ms[k] == g;
      assert ms[i] != ms[k] && g in ms[i..];
      DyingMembersStayOne(s1, ms[i], b, g);
    }
  }

  lemma DestructorsStart(s: State, b: Block, t: seq<Event>, ms: seq<Handle>)
    requires s.Valid() && Waiting(s, ms) && t == Destructors(s.shared, s.members, s.held, ms)
    ensures Deleting(s, s, b, [], t, ms)
  {
    assert Dropped([]) == {} && Died([]) == {};
  }

  lemma DestructorsDone(s0: State, s: State, b: Block, p: seq<Event>, t: seq<Event>, root: Handle, corrupt: bool)
    requires p <= t && (corrupt <==> Corrupting(s0.weak, s0.dying, root, p))
    requires !corrupt ==> Deleting(s0, s, b, p, t, [])
    ensures corrupt <==> Corrupting(s0.weak, s0.dying, root, t)
    ensures !corrupt ==> p == t
  {
    CorruptingJoins(s0.weak, s0.dying, root, p, t[|p|..]);
    assert p + t[|p|..] == t;
  }

  /** Only weak handles and control blocks change. */
  predicate Untouched(s: State, s': State) {
    && s'.shared == s.shared && s'.members == s.members && s'.dying == s.dying && s'.inFlight == s.inFlight
    && s'.held == s.held && s'.heldWeak == s.heldWeak && s'.next == s.next && s'.deleted == s.deleted
  }

  lemma DropOne(weak: Handles, dying: set<Block>, root: Handle, g: Handle)
    ensures Corrupting(weak, dying, root, [Drops(g)]) <==> g == root || LastOfDying(weak, dying, g)
  {
    assert [Drops(g)][1..] == [];
  }

  lemma CascadeClosesHere(s: State, g: Handle)
    requires s.Valid() && g in s.shared
    ensures Open(s.dying, s.Cascade(s.held, g)) == s.dying
  {
    forall x {:trigger s.shared[x]} | x in s.shared && s.shared[x].Some?
      ensures s.shared[x].value !in s.dying
    {
      NoPointerToDying(s, x);
    }
    CascadeCloses(s.shared, s.members, s.held, g, s.dying);
  }

  /** The events of the destructor of one smart pointer inside a dying object, and when they corrupt. */
  lemma EndsOfMember(s: State, g: Handle, root: Handle)
    requires s.Valid()
    ensures var t := Destructor(s.shared, s.members, s.held, g);
            if g in s.shared then
              var c := s.Cascade(s.held, g);
              && Dropped(t) == Dropped(c) + {g} && Died(t) == Died(c)
              && (Corrupting(s.weak, s.dying, root, t) <==>
                  Corrupting(s.weak, s.dying, root, c) || g == root || LastOfDying(s.weak - Dropped(c), s.dying, g))
            else
              && Dropped(t) == {g} && Died(t) == {}
              && (Corrupting(s.weak, s.dying, root, t) <==> g == root || LastOfDying(s.weak, s.dying, g))
  {
    var c := if g in s.shared then s.Cascade(s.held, g) else [];
    CorruptingJoins(s.weak, s.dying, root, c, [Drops(g)]);
    DropOne(s.weak - Dropped(c), s.dying, root, g);
    EventsOfDrop(c, g);
    if g in s.shared {
      CascadeClosesHere(s, g);
    } else {
      assert Dropped([]) == {} && Died([]) == {};
      assert s.weak - {} == s.weak;
    }
  }

  lemma WeakMemberOutcome(s0: State, s: State, g: Handle)
    requires g !in s0.shared && g in s0.weak && s.weak == s0.weak[g := None] && Untouched(s0, s)
    ensures Outcome(s0, Without(s, g), Destructor(s0.shared, s0.members, s0.held, g))
    ensures Without(s, g).shared == s0.shared - Dropped(Destructor(s0.shared, s0.members, s0.held, g))
  {
    EventsOfDrop([], g);
    assert Dropped([]) == {} && Died([]) == {};
    assert Without(s, g).weak == s0.weak - {g};
  }

  /** A null smart pointer inside a dying object may end. */
  lemma EndOfMember(s: State, b: Block, g: Handle)
    requires s.Valid() && b in s.dying && b in s.members && g in s.members[b] && s.Target(g) == None && g !in s.inFlight
    ensures Without(s, g).Valid()
  {
    assert s.Counted(b);
    forall d {:trigger s.IsAlive(d)} | s.IsAlive(d)
      ensures g !in s.members[d]
    {
    }
    WithoutIsValid(s, g);
  }

  /** No object comes or goes and no block is freed. */
  predicate SameObjects(s: State, s': State) {
    s'.members == s.members && s'.deleted == s.deleted && s'.freed == s.freed && s'.next == s.next
  }

  lemma OwnableStays(s: State, h: Handle, own: seq<Handle>)
    requires s.Valid() && h !in s.shared && h !in s.weak && Ownable(s, own)
    ensures Ownable(WithShared(s, h), own)
  {
    var s' := WithShared(s, h);
    forall g {:trigger g in own} | g in own
      ensures !s'.IsMember(g)
    {
      forall b | s'.HasObject(b) && b in s'.members
        ensures g !in s'.members[b]
      {
        assert s.HasObject(b);
      }
    }
  }

  /** Objects only go, so a handle outside all objects stays outside. */
  lemma StillNotMember(s: State, s': State, h: Handle)
    requires s.Valid() && s'.Valid() && s.dying == {} && s'.members == s.members && s'.next == s.next
    requires s.deleted <= s'.deleted && !s.IsMember(h)
    ensures forall b: Block {:trigger s'.IsAlive(b)} :: s'.IsAlive(b) ==> h !in s'.members[b]
  {
    forall b: Block {:trigger s'.IsAlive(b)} | s'.IsAlive(b)
      ensures h !in s'.members[b]
    {
      assert b !in s'.deleted && b !in s.deleted && b < s.next;
      assert s.IsAlive(b) && s.HasObject(b);
    }
  }

  // ----- The heap of handles and control blocks -----

  function Empty(): State {
    State(map[], map[], map[], map[], {}, {}, None, None, 0, {}, {}, false)
  }

  lemma EmptyIsValid()
    ensures Empty().Valid()
  {
  }

  class PointerHeap {
    var s: State

    constructor ()
      ensures Quiet() && s == Empty()
    {
      EmptyIsValid();
      s := Empty();
    }

    /** No destructor is running, every counted reference is stored and nothing has been corrupted. */
    ghost predicate Quiet()
      reads this
    {
      s.Valid() && s.dying == {} && s.inFlight == {} && s.held == None && s.heldWeak == None
    }

    /** shared_ptr::destroy */
    method DestroyShared(h: Handle, ghost root: Handle)
      requires s.Valid() && h in s.shared && h !in s.inFlight && s.heldWeak == None && Running(s, root)
      requires h == root || (root in s.inFlight && InsideDying(s, h))
      modifies this
      ensures var t := old(s).Cascade(old(s.held), h);
              && (s.corrupt <==> Corrupting(old(s.weak), old(s.dying), root, t))
              && (!s.corrupt ==> s.Valid() && Outcome(old(s), s, t))
              && (!s.corrupt ==> s.shared == (old(s.shared) - Dropped(t))[h := None])
      decreases References(s.shared), 0
    {
      hide State.MembersOk, State.LogsOk, State.Counted;
      if s.shared[h].Some? {
        var b := s.shared[h].value;
        SharedIsCounted(s, h, b);
        if s.blocks[b].refCount > 1 {
          ReleasedIsValid(s, h, b);
          s := Released(s, h, b);
        } else {
          ghost var s0 := s;
          ClearingShrinks(s.shared, h);
          DoomedIsValid(s, h, b);
          DeletionStarts(s, h, b, root);
          ghost var u := Destructors(s.shared[h := None], s.members, s.held, s.members[b]);
          s := Doomed(s, h, b);
          DeleteObject(b, h, root);
          DeletionCorrupts(s0, h, b, u, root);
          if !s.corrupt {
            HandleStays(s0, h, b, root);
            DeletionOutcome(s0, h, b, s, u);
            FinishedIsValid(s, h, b);
            s := Finished(s, h, b);
          }
        }
      }
    }

    /** delete data->ptr: the destructors of the object's smart pointers, one after the other. */
    method DeleteObject(b: Block, ghost h: Handle, ghost root: Handle)
      requires s.Valid() && b in s.dying && b in s.members && s.heldWeak == None && Running(s, root)
      requires root in s.inFlight && Waiting(s, s.members[b])
      requires forall g {:trigger g in s.inFlight} :: g in s.inFlight && g in s.members[b] ==> g == root
      modifies this
      ensures var t := Destructors(old(s.shared), old(s.members), old(s.held), old(s.members[b]));
              && (s.corrupt <==> Corrupting(old(s.weak), old(s.dying), root, t))
              && (!s.corrupt ==> s.Valid() && Outcome(old(s), s, t) && s.shared == old(s.shared) - Dropped(t))
      decreases References(s.shared), 2
    {
      var ms, i := s.members[b], 0;
      ghost var s0 := s;
      ghost var t := Destructors(s.shared, s.members, s.held, ms);
      ghost var p: seq<Event> := [];
      DestructorsStart(s, b, t, ms);
      assert ms[0..] == ms;
      while i < |ms| && !s.corrupt
        invariant i <= |ms| && p <= t
        invariant s.corrupt <==> Corrupting(s0.weak, s0.dying, root, p)
        invariant !s.corrupt ==> Deleting(s0, s, b, p, t, ms[i..])
      {
        ghost var s1, e := s, Destructor(s.shared, s.members, s.held, ms[i]);
        NextDestructor(s0, s, b, p, t, ms, i, root);
        DestroyMember(ms[i], b, root);
        if !s.corrupt {
          DestructorDone(s0, s1, s, b, p, e, t, ms, i);
        }
        p, i := p + e, i + 1;
      }
      assert !s.corrupt ==> ms[i..] == [];
      DestructorsDone(s0, s, b, p, t, root, s.corrupt);
    }

    /** The destructor of one smart pointer inside the object of b. */
    method DestroyMember(g: Handle, ghost b: Block, ghost root: Handle)
      requires s.Valid() && b in s.dying && b in s.members && g in s.members[b] && s.heldWeak == None
      requires Running(s, root) && root in s.inFlight && (g in s.shared || g in s.weak)
      requires g in s.inFlight ==> g == root
      modifies this
      ensures var t := Destructor(old(s.shared), old(s.members), old(s.held), g);
              && (s.corrupt <==> Corrupting(old(s.weak), old(s.dying), root, t))
              && (!s.corrupt ==> s.Valid() && Outcome(old(s), s, t) && s.shared == old(s.shared) - Dropped(t))
      decreases References(s.shared), 1
    {
      if g in s.inFlight {
        EndsOfMember(s, g, root);
        s := s.(corrupt := true);
      } else if g in s.shared {
        DestroySharedMember(g, b, root);
      } else {
        DestroyWeakMember(g, b, root);
      }
    }

    method DestroySharedMember(g: Handle, ghost b: Block, ghost root: Handle)
      requires s.Valid() && b in s.dying && b in s.members && g in s.members[b] && s.heldWeak == None
      requires Running(s, root) && root in s.inFlight && g in s.shared && g !in s.inFlight
      modifies this
      ensures var t := Destructor(old(s.shared), old(s.members), old(s.held), g);
              && (s.corrupt <==> Corrupting(old(s.weak), old(s.dying), root, t))
              && (!s.corrupt ==> s.Valid() && Outcome(old(s), s, t) && s.shared == old(s.shared) - Dropped(t))
      decreases References(s.shared), 1, 0
    {
      hide State.MembersOk, State.LogsOk, State.Counted;
      EndsOfMember(s, g, root);
      DestroyShared(g, root);
      if !s.corrupt {
        EndOfMember(s, b, g);
        s := Without(s, g);
      }
    }

    method DestroyWeakMember(g: Handle, ghost b: Block, ghost root: Handle)
      requires s.Valid() && b in s.dying && b in s.members && g in s.members[b] && s.heldWeak == None
      requires root in s.inFlight && g in s.weak && g !in s.inFlight
      modifies this
      ensures var t := Destructor(old(s.shared), old(s.members), old(s.held), g);
              && (s.corrupt <==> Corrupting(old(s.weak), old(s.dying), root, t))
              && (!s.corrupt ==> s.Valid() && Outcome(old(s), s, t) && s.shared == old(s.shared) - Dropped(t))
    {
      hide State.MembersOk, State.LogsOk, State.Counted;
      ghost var s0 := s;
      EndsOfMember(s, g, root);
      DestroyWeak(g);
      if !s.corrupt {
        EndOfMember(s, b, g);
        WeakMemberOutcome(s0, s, g);
        s := Without(s, g);
      }
    }

    /** weak_ptr::destroy */
    method DestroyWeak(h: Handle)
      requires s.Valid() && h in s.weak && (s.heldWeak == None || s.dying == {})
      modifies this
      ensures s.corrupt <==> LastOfDying(old(s.weak), old(s.dying), h)
      ensures !s.corrupt ==> s.Valid()
      ensures s.weak == old(s.weak)[h := None] && Untouched(old(s), s)
    {
      if s.weak[h].Some? {
        var b := s.weak[h].value;
        WeakReleaseCorrupts(s, h, b);
        WeakReleaseChanges(s, h, b);
        s := WeakReleased(s, h, b);
      } else {
        NullStays(s.weak, h);
      }
    }

    // ----- The operations of the two classes -----

    /** shared_ptr() */
    method NullShared(h: Handle)
      requires Quiet() && h !in s.shared && h !in s.weak
      modifies this
      ensures Quiet() && s == WithShared(old(s), h)
    {
      WithSharedIsValid(s, h);
      s := WithShared(s, h);
    }

    /** weak_ptr() */
    method NullWeak(h: Handle)
      requires Quiet() && h !in s.shared && h !in s.weak
      modifies this
      ensures Quiet() && s == WithWeak(old(s), h)
    {
      WithWeakIsValid(s, h);
      s := WithWeak(s, h);
    }

    /** shared_ptr(T*): a control block with one reference for an object that owns the given smart pointers. */
    method MakeShared(h: Handle, own: seq<Handle>)
      requires Quiet() && h !in s.shared && h !in s.weak && Ownable(s, own)
      modifies this
      ensures Quiet() && s == Created(WithShared(old(s), h), h, own)
    {
      OwnableStays(s, h, own);
      NullShared(h);
      CreatedIsValid(s, h, own);
      s := Created(s, h, own);
    }

    /** Copy construction: one more reference. */
    method CopyShared(h: Handle, other: Handle)
      requires Quiet() && h !in s.shared && h !in s.weak && other in s.shared && |s.shared| + 1 < 0xFFFF_FFFF
      modifies this
      ensures Quiet() && s.shared == old(s.shared)[h := old(s.shared[other])]
      ensures SameObjects(old(s), s) && s.weak == old(s.weak)
    {
      NullShared(h);
      if s.shared[other].Some? {
        var b := s.shared[other].value;
        SharedIsCounted(s, other, b);
        TakenIsValid(s, b);
        s := Taken(s, b);
        StoredIsValid(s, h);
        s := Stored(s, h);
        Overwritten(old(s.shared), h, Some(b));
      }
    }

    /** Move construction: the reference changes its owner. */
    method MoveShared(h: Handle, other: Handle)
      requires Quiet() && h !in s.shared && h !in s.weak && other in s.shared
      modifies this
      ensures Quiet() && s.shared == old(s.shared)[h := old(s.shared[other])][other := None]
      ensures SameObjects(old(s), s) && s.weak == old(s.weak) && s.blocks == old(s.blocks)
    {
      NullShared(h);
      MovedIsValid(s, h, other);
      s := Moved(s, h, other);
    }

    /** ~shared_ptr of a handle that is not inside an object. */
    method DestructShared(h: Handle)
      requires Quiet() && h in s.shared && !s.IsMember(h)
      modifies this
      ensures var t := old(s).Cascade(None, h);
              && (s.corrupt <==> old(s).Corrupts(None, h))
              && (!s.corrupt ==> Quiet() && Outcome(old(s), s, t) && s.shared == old(s.shared) - Dropped(t) - {h})
    {
      hide State.MembersOk, State.LogsOk, State.Counted;
      ghost var s0 := s;
      DestroyShared(h, h);
      if !s.corrupt {
        StillNotMember(s0, s, h);
        WithoutIsValid(s, h);
        s := Without(s, h);
      }
    }

    /** Copy assignment: counts the new reference, destroys the old one, then reads other again. That read hits a
        handle that has ended exactly when other is inside an object that the destruction deletes. */
    method AssignShared(h: Handle, other: Handle)
      requires Quiet() && h in s.shared && other in s.shared && |s.shared| < 0xFFFF_FFFF
      modifies this
      ensures h == other ==> s == old(s)
      ensures h != other ==>
                var keep := old(s.shared[other]);
                var t := old(s).Cascade(keep, h);
                && (s.corrupt <==> old(s).Corrupts(keep, h) || other in Dropped(t))
                && (!s.corrupt ==> Quiet() && Outcome(old(s), s, t))
                && (!s.corrupt ==> s.shared == (old(s.shared) - Dropped(t))[h := keep])
    {
      if h == other {
        return;
      }
      CountReference(other);
      ghost var t := s.Cascade(s.held, h);
      DestroyShared(h, h);
      if !s.corrupt {
        StoreReference(h, other, old(s.shared) - Dropped(t));
      }
    }

    /** The reference of other is counted before it is stored. */
    method CountReference(other: Handle)
      requires Quiet() && other in s.shared && |s.shared| < 0xFFFF_FFFF
      modifies this
      ensures s.Valid() && s == old(s).(blocks := s.blocks, held := old(s.shared[other]))
    {
      if s.shared[other].Some? {
        var b := s.shared[other].value;
        SharedIsCounted(s, other, b);
        TakenIsValid(s, b);
        s := Taken(s, b);
      }
    }

    /** The counted reference is read again from other and stored in h, if other has not ended. */
    method StoreReference(h: Handle, other: Handle, ghost left: Handles)
      requires s.Valid() && s.dying == {} && s.inFlight == {} && s.heldWeak == None && h != other
      requires s.shared == left[h := None] && (other in s.shared ==> s.shared[other] == s.held)
      modifies this
      ensures s.corrupt <==> other !in left
      ensures !s.corrupt ==> Quiet() && s == old(s).(shared := left[h := old(s.held)], held := None)
    {
      if other in s.shared {
        StoredIsValid(s, h);
        Overwritten(left, h, s.held);
        s := s.(shared := s.shared[h := s.shared[other]], held := None);
      } else {
        s := s.(corrupt := true);
      }
    }

    /** Move assignment: destroys the old reference, then takes over other's. */
    method MoveAssignShared(h: Handle, other: Handle)
      requires Quiet() && h in s.shared && other in s.shared
      modifies this
      ensures h == other ==> s == old(s)
      ensures h != other ==>
                var t := old(s).Cascade(None, h);
                && (s.corrupt <==> old(s).Corrupts(None, h) || other in Dropped(t))
                && (!s.corrupt ==> Quiet() && Outcome(old(s), s, t))
                && (!s.corrupt ==> s.shared == (old(s.shared) - Dropped(t))[h := old(s.shared[other])][other := None])
    {
      hide State.MembersOk, State.LogsOk, State.Counted;
      if h == other {
        return;
      }
      DestroyShared(h, h);
      if !s.corrupt {
        if other in s.shared {
          MovedIsValid(s, h, other);
          s := Moved(s, h, other);
        } else {
          s := s.(corrupt := true);
        }
      }
    }

    /** weak_ptr(shared_ptr) and weak_ptr(weak_ptr): construction on a block, if any. */
    method MakeWeak(h: Handle, source: Handle)
      requires Quiet() && h !in s.shared && h !in s.weak && (source in s.shared || source in s.weak)
      requires |s.weak| + 1 < 0xFFFF_FFFF
      modifies this
      ensures Quiet() && s.weak == old(s.weak)[h := old(s.Target(source))]
      ensures SameObjects(old(s), s) && s.shared == old(s.shared)
    {
      NullWeak(h);
      if s.Target(source).Some? {
        var b := s.Target(source).value;
        WeakTakenIsValid(s, b);
        s := WeakTaken(s, b);
        WeakStoredIsValid(s, h);
        s := WeakStored(s, h);
        Overwritten(old(s.weak), h, Some(b));
      }
    }

    /** Assignment from a shared_ptr that is not null. */
    method AssignWeakFromShared(h: Handle, source: Handle)
      requires Quiet() && h in s.weak && source in s.shared && s.shared[source].Some? && |s.weak| < 0xFFFF_FFFF
      modifies this
      ensures Quiet() && s.weak == old(s.weak)[h := old(s.shared[source])] && Untouched(old(s), s)
    {
      DestroyWeak(h);
      var b := s.shared[source].value;
      SharedIsCounted(s, source, b);
      WeakTakenIsValid(s, b);
      s := WeakTaken(s, b);
      WeakStoredIsValid(s, h);
      s := WeakStored(s, h);
    }

    /** Copy assignment from a weak_ptr that is not null: counts the new reference before it drops the old one. */
    method AssignWeak(h: Handle, other: Handle)
      requires Quiet() && h in s.weak && other in s.weak && s.weak[other].Some? && |s.weak| < 0xFFFF_FFFF
      modifies this
      ensures Quiet() && s.weak == old(s.weak)[h := old(s.weak[other])] && Untouched(old(s), s)
    {
      hide State.MembersOk, State.LogsOk, State.Counted;
      if h == other {
        return;
      }
      WeakTakenIsValid(s, s.weak[other].value);
      s := WeakTaken(s, s.weak[other].value);
      DestroyWeak(h);
      WeakStoredIsValid(s, h);
      s := s.(weak := s.weak[h := s.weak[other]], heldWeak := None);
    }

    /** Move assignment. */
    method MoveAssignWeak(h: Handle, other: Handle)
      requires Quiet() && h in s.weak && other in s.weak
      modifies this
      ensures Quiet() && Untouched(old(s), s)
      ensures s.weak == if h == other then old(s.weak) else old(s.weak)[h := old(s.weak[other])][other := None]
    {
      if h == other {
        return;
      }
      DestroyWeak(h);
      WeakMovedIsValid(s, h, other);
      s := WeakMoved(s, h, other);
    }

    /** ~weak_ptr of a handle that is not inside an object. */
    method DestructWeak(h: Handle)
      requires Quiet() && h in s.weak && !s.IsMember(h)
      modifies this
      ensures Quiet() && s.weak == old(s.weak) - {h} && Untouched(old(s), s)
    {
      ghost var s0 := s;
      DestroyWeak(h);
      StillNotMember(s0, s, h);
      WithoutIsValid(s, h);
      s := Without(s, h);
      assert s.shared == s0.shared;
    }

    /** weak_ptr::lock: a new shared handle, not null exactly when the object is alive. */
    method Lock(w: Handle, h: Handle)
      requires Quiet() && w in s.weak && h !in s.shared && h !in s.weak && |s.shared| + 1 < 0xFFFF_FFFF
      modifies this
      ensures Quiet() && h in s.shared && s.shared == old(s.shared)[h := s.shared[h]] && s.weak == old(s.weak)
      ensures s.shared[h] == if old(s.weak[w]).Some? && old(s).IsAlive(old(s.weak[w]).value) then old(s.weak[w])
                             else None
      ensures SameObjects(old(s), s)
    {
      hide State.MembersOk;
      var expired := s.weak[w].None? || s.blocks[s.weak[w].value].refCount == 0;
      assert s.weak[w].Some? ==> s.Counted(s.weak[w].value);
      NullShared(h);
      if !expired {
        var b := s.weak[w].value;
        TakenIsValid(s, b);
        s := Taken(s, b);
        StoredIsValid(s, h);
        s := Stored(s, h);
      }
    }
  }

  // ----- What holds between operations -----

  /** Between operations the logs say exactly which handles are left: an object has been deleted iff no shared
      handle refers to its block, and the block has been freed iff no handle of either kind does. */
  lemma LogsMatchHandles(s: State, b: Block)
    requires s.Valid() && s.dying == {} && s.held == None && s.heldWeak == None && b < s.next
    ensures b in s.deleted <==> Pointing(s.shared, b) == {}
    ensures b in s.freed <==> Pointing(s.shared, b) == {} && Pointing(s.weak, b) == {}
    ensures b !in s.freed ==> s.blocks[b].refCount == |Pointing(s.shared, b)|
    ensures b !in s.freed ==> s.blocks[b].weakCount == |Pointing(s.weak, b)|
  {
    if b in s.blocks {
      assert s.Counted(b);
    } else {
      assert b in s.freed && b in s.deleted;
    }
  }

  /** If every object that destroying h deletes keeps an observer outside, or has none, nothing is corrupted. */
  lemma OutsideObserversAreSafe(s: State, keep: Option<Block>, h: Handle)
    requires h in s.shared && h !in Dropped(s.Cascade(keep, h))
    requires forall b {:trigger Pointing(s.weak, b)} :: b in Died(s.Cascade(keep, h)) ==>
               Pointing(s.weak, b) == {} || !(Pointing(s.weak, b) <= Dropped(s.Cascade(keep, h)))
    ensures !s.Corrupts(keep, h)
  {
    var t := s.Cascade(keep, h);
    CorruptsIff(s.shared, s.weak, s.members, keep, h);
    forall b: Block, i: nat, j: nat | LosesWeakHandles(s.weak, t, b, i, j)
      ensures b in Died(t) && Pointing(s.weak, b) != {} && Pointing(s.weak, b) <= Dropped(t)
    {
      LostInside(s.weak, t, b, i, j);
    }
  }

  // ----- The storages of the kernel -----

  /** Destroying a handle that is null or not the last one sets nothing off. */
  lemma NothingHappens(s: State, keep: Option<Block>, h: Handle)
    requires h in s.shared && (s.shared[h] == None || Pointing(s.shared, s.shared[h].value) != {h})
    ensures s.Cascade(keep, h) == [] && !s.Corrupts(keep, h)
    ensures s.shared - Dropped(s.Cascade(keep, h)) == s.shared && s.weak - Dropped(s.Cascade(keep, h)) == s.weak
    ensures s.deleted + Died(s.Cascade(keep, h)) == s.deleted
  {
    assert Dropped([]) == {} && Died([]) == {};
  }

  /** addStorage: the storage (block 0, handle 0) has next (1) and partition (2). */
  method NewStorage() returns (heap: PointerHeap)
    ensures fresh(heap) && heap.Quiet() && heap.s.next == 1
    ensures heap.s.shared == map[0 := Some(0), 1 := None, 2 := None] && heap.s.weak == map[]
    ensures heap.s.members == map[0 := [2, 1]]
  {
    heap := new PointerHeap();
    heap.NullShared(1);
    heap.NullShared(2);
    NullsOfStorage(heap.s);
    heap.MakeShared(0, [2, 1]);
  }

  lemma NullsOfStorage(s: State)
    requires s.shared == map[1 := None][2 := None] && s.members == map[]
    ensures Ownable(s, [2, 1])
    ensures s.shared[0 := None][0 := Some(0)] == map[0 := Some(0), 1 := None, 2 := None]
  {
  }

  /** Its partition table (block 1, handle 5 while it is set up) has storage (3) and self (4). */
  method AddTable(heap: PointerHeap)
    requires heap.Quiet() && heap.s.next == 1
    requires heap.s.shared == map[0 := Some(0), 1 := None, 2 := None] && heap.s.weak == map[]
    requires heap.s.members == map[0 := [2, 1]]
    modifies heap
    ensures heap.Quiet() && heap.s.shared == map[0 := Some(0), 1 := None, 2 := None, 5 := Some(1)]
    ensures heap.s.weak == map[3 := Some(0), 4 := Some(1)] && heap.s.members == map[0 := [2, 1], 1 := [4, 3]]
  {
    ghost var m := heap.s.shared;
    heap.MakeWeak(3, 0);
    heap.NullWeak(4);
    assert heap.s.weak == map[3 := Some(0), 4 := None];
    MakeTable(heap, m);
  }

  method MakeTable(heap: PointerHeap, ghost m: Handles)
    requires heap.Quiet() && heap.s.next == 1 && heap.s.weak == map[3 := Some(0), 4 := None]
    requires heap.s.shared == m == map[0 := Some(0), 1 := None, 2 := None] && heap.s.members == map[0 := [2, 1]]
    modifies heap
    ensures heap.Quiet() && heap.s.shared == map[0 := Some(0), 1 := None, 2 := None, 5 := Some(1)]
    ensures heap.s.weak == map[3 := Some(0), 4 := Some(1)] && heap.s.members == map[0 := [2, 1], 1 := [4, 3]]
  {
    OutsideObjects(heap.s, 3);
    OutsideObjects(heap.s, 4);
    heap.MakeShared(5, [4, 3]);
    Overwritten(m, 5, Some(1));
    ghost var w := heap.s.weak;
    heap.AssignWeakFromShared(4, 5);
    TableKnowsItself(w);
  }

  lemma TableKnowsItself(w: Handles)
    requires w == map[3 := Some(0), 4 := None]
    ensures w[4 := Some(1)] == map[3 := Some(0), 4 := Some(1)]
  {
  }

  lemma OutsideObjects(s: State, h: Handle)
    requires s.members == map[0 := [2, 1]] && h > 2
    ensures !s.IsMember(h)
  {
  }

  /** setPartition. */
  method SetPartition(heap: PointerHeap)
    requires heap.Quiet() && heap.s.shared == map[0 := Some(0), 1 := None, 2 := None, 5 := Some(1)]
    modifies heap
    ensures heap.Quiet() && heap.s.shared == map[0 := Some(0), 1 := None, 2 := Some(1), 5 := Some(1)]
    ensures heap.s.weak == old(heap.s.weak) && heap.s.members == old(heap.s.members)
  {
    ghost var m := heap.s.shared;
    NothingHappens(heap.s, Some(1), 2);
    heap.AssignShared(2, 5);
    PartitionIsSet(m);
  }

  lemma PartitionIsSet(m: Handles)
    requires m == map[0 := Some(0), 1 := None, 2 := None, 5 := Some(1)]
    ensures m[2 := Some(1)] == map[0 := Some(0), 1 := None, 2 := Some(1), 5 := Some(1)]
  {
  }

  /** The local handle on the table goes at the end of addStorage. */
  method EndLocal(heap: PointerHeap)
    requires heap.Quiet() && heap.s.shared == map[0 := Some(0), 1 := None, 2 := Some(1), 5 := Some(1)]
    requires heap.s.members == map[0 := [2, 1], 1 := [4, 3]]
    modifies heap
    ensures heap.Quiet() && heap.s.shared == map[0 := Some(0), 1 := None, 2 := Some(1)]
    ensures heap.s.weak == old(heap.s.weak) && heap.s.members == old(heap.s.members)
  {
    ghost var s := heap.s;
    TableHasOwner(s);
    NothingHappens(s, None, 5);
    heap.DestructShared(5);
  }

  lemma TableHasOwner(s: State)
    requires s.shared == map[0 := Some(0), 1 := None, 2 := Some(1), 5 := Some(1)]
    requires s.members == map[0 := [2, 1], 1 := [4, 3]]
    ensures Pointing(s.shared, 1) != {5} && !s.IsMember(5)
    ensures s.shared - {5} == map[0 := Some(0), 1 := None, 2 := Some(1)]
  {
    assert 2 in Pointing(s.shared, 1);
  }

  /** A storage with its partition table and one handle on it. */
  method AddStorage() returns (heap: PointerHeap)
    ensures fresh(heap) && heap.Quiet() && heap.s.shared == map[0 := Some(0), 1 := None, 2 := Some(1)]
    ensures heap.s.weak == map[3 := Some(0), 4 := Some(1)] && heap.s.members == map[0 := [2, 1], 1 := [4, 3]]
  {
    heap := NewStorage();
    AddTable(heap);
    SetPartition(heap);
    EndLocal(heap);
  }

  lemma StorageGraphIsFatal(s: State)
    requires s.shared == map[0 := Some(0), 1 := None, 2 := Some(1)] && s.weak == map[3 := Some(0), 4 := Some(1)]
    requires s.members == map[0 := [2, 1], 1 := [4, 3]]
    ensures s.Corrupts(None, 0) && FreedTooEarly(s.weak, s.Cascade(None, 0), 0) && !s.IsMember(0)
  {
    assert Pointing(s.shared, 0) == {0} && Pointing(s.shared, 1) == {2} && Pointing(s.weak, 0) == {3};
    BackPointerIsFatal(s.shared, s.weak, s.members, None, 0, 0, 2, 1, 3);
  }

  /** When the last handle on such a storage goes, its control block is freed under its running destructor. */
  method LastStorageHandleGoes() returns (heap: PointerHeap)
    ensures fresh(heap) && heap.s.corrupt
  {
    heap := AddStorage();
    StorageGraphIsFatal(heap.s);
    heap.DestructShared(0);
  }
}

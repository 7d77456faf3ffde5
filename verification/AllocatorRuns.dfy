/** Whole runs of the allocator: grants interleaved with arbitrary client writes to granted pages. */
module AllocatorRuns {
  import opened Machine
  import opened FreeList
  import opened MemoryMap

  datatype Event =
    | Allocate(count: nat)
    | ClientWrite(page: nat, index: nat, word: nat)

  datatype State = State(mem: Memory, nodes: seq<Region>, granted: seq<Region>)

  /** A client writes only pages it was granted; an allocation that finds no region halts and changes nothing. */
  function Step(s: State, e: Event): State
    requires |s.nodes| >= 1
  {
    match e
    case Allocate(count) =>
      var k := FirstFit(s.nodes, count, 1);
      if k < |s.nodes| then
        State(GrantMemory(s.mem, s.nodes, k, count), AfterGrant(s.nodes, k, count), s.granted + [Granted(s.nodes, k,
            count)])
      else s
    case ClientWrite(page, index, word) =>
      if exists g :: g in s.granted && g.Has(page) then s.(mem := Write(s.mem, page, index, word)) else s
  }

  /** No page lies in both. */
  predicate Apart(r: Region, s: Region) {
    r.count == 0 || s.count == 0 || Disjoint(r, s)
  }

  /** The list stays readable, grants are disjoint, and grants and free pages together are the free pages at the
      start. */
  ghost predicate Safe(start: seq<Region>, s: State) {
    && WellFormed(s.nodes) && Chain(s.mem, s.nodes)
    && (forall i, j {:trigger s.granted[i], s.granted[j]} :: 0 <= i < j < |s.granted| ==>
        Apart(s.granted[i], s.granted[j]))
    && (forall p {:trigger Free(s.nodes, p)} {:trigger Covered(s.granted, p)} ::
          && (Free(start, p) <==> Free(s.nodes, p) || Covered(s.granted, p))
          && !(Free(s.nodes, p) && Covered(s.granted, p)))
    && Pages(s.nodes) + Pages(s.granted) == Pages(start)
  }

  lemma AllocateIsSafe(start: seq<Region>, s: State, count: nat)
    requires WellFormed(start) && Safe(start, s)
    ensures Safe(start, Step(s, Allocate(count)))
  {
    var k := FirstFit(s.nodes, count, 1);
    if k < |s.nodes| {
      var s', g := Step(s, Allocate(count)), Granted(s.nodes, k, count);
      GrantKeepsChain(s.mem, s.nodes, k, count);
      GrantConservesPages(s.nodes, k, count);
      PagesConcat(s.granted, [g]);
      forall p
        ensures Free(start, p) <==> Free(s'.nodes, p) || Covered(s'.granted, p)
        ensures !(Free(s'.nodes, p) && Covered(s'.granted, p))
      {
        GrantIsSetMinus(s.nodes, k, count, p);
        CoveredConcat(s.granted, [g], p);
        CoveredOne(g, p);
      }
      forall i | 0 <= i < |s.granted|
        ensures Apart(s.granted[i], g)
      {
        ApartFromGrant(s, i, k, count);
      }
    }
  }

  lemma CoveredOne(g: Region, p: int)
    ensures Covered([g], p) <==> g.Has(p)
  {
    assert forall r :: r in [g] <==> r == g;
  }

  lemma ApartFromGrant(s: State, i: nat, k: nat, count: nat)
    requires i < |s.granted| && 1 <= k < |s.nodes| && count <= s.nodes[k].count
    requires forall p {:trigger Free(s.nodes, p)} :: !(Free(s.nodes, p) && Covered(s.granted, p))
    ensures Apart(s.granted[i], Granted(s.nodes, k, count))
  {
    var g, h := Granted(s.nodes, k, count), s.granted[i];
    if !Apart(h, g) {
      var p := if h.start <= g.start then g.start else h.start;
      assert h.Has(p) && s.nodes[k].Has(p);
      assert Free(s.nodes, p) && h in s.granted && Covered(s.granted, p);
    }
  }

  lemma ClientWriteIsSafe(start: seq<Region>, s: State, page: nat, index: nat, word: nat)
    requires Safe(start, s) && !Free(start, 0)
    ensures Safe(start, Step(s, ClientWrite(page, index, word)))
  {
    if exists g :: g in s.granted && g.Has(page) {
      var m' := Write(s.mem, page, index, word);
      assert Covered(s.granted, page) && Free(start, page);
      forall p: nat {:trigger Agree(s.mem, m', p)} | Free(s.nodes, p)
        ensures Agree(s.mem, m', p)
      {
      }
      ChainFrame(s.mem, m', s.nodes);
    }
  }

  function Run(s: State, events: seq<Event>): (s': State)
    requires |s.nodes| >= 1
    ensures |s'.nodes| >= 1
    decreases |events|
  {
    if events == [] then s else
    var before := Run(s, events[..|events| - 1]);
    StepKeepsSentinel(before, events[|events| - 1]);
    Step(before, events[|events| - 1])
  }

  lemma StepKeepsSentinel(s: State, e: Event)
    requires |s.nodes| >= 1
    ensures |Step(s, e).nodes| >= 1
  {
  }

  /** Safety over every run. */
  lemma {:induction false} RunIsSafe(start: seq<Region>, m: Memory, events: seq<Event>)
    requires WellFormed(start) && Chain(m, start)
    ensures Safe(start, Run(State(m, start, []), events))
    decreases |events|
  {
    if events != [] {
      var n := |events| - 1;
      RunIsSafe(start, m, events[..n]);
      var s := Run(State(m, start, []), events[..n]);
      match events[n]
      case Allocate(count) => AllocateIsSafe(start, s, count);
      case ClientWrite(page, index, word) => ClientWriteIsSafe(start, s, page, index, word);
    }
  }

  /** From boot on, whatever is allocated and whatever clients write into it: granted pages are never granted twice,
      never page 0, always whole pages of a usable entry, and hold no byte of the kernel or the trampoline. */
  lemma BootedRunIsSafe(es: seq<MemoryEntry>, kernelStart: nat, kernelEnd: nat, trampolineStart: nat,
                        trampolineEnd: nat, m: Memory, events: seq<Event>)
    requires Sane(es) && kernelStart <= kernelEnd && trampolineStart <= trampolineEnd
    requires Chain(m, KernelList(es, kernelStart, kernelEnd, trampolineStart, trampolineEnd))
    ensures var start := KernelList(es, kernelStart, kernelEnd, trampolineStart, trampolineEnd);
            var granted := Run(State(m, start, []), events).granted;
            && (forall i, j {:trigger granted[i], granted[j]} :: 0 <= i < j < |granted| ==>
                  Apart(granted[i], granted[j]))
            && (forall i, p {:trigger granted[i].Has(p)} :: 0 <= i < |granted| && granted[i].Has(p) ==>
                  && p != 0 && UsablePage(es, p)
                  && !Touches(p, kernelStart, kernelEnd) && !Touches(p, trampolineStart, trampolineEnd))
  {
    var start := KernelList(es, kernelStart, kernelEnd, trampolineStart, trampolineEnd);
    KernelListWellFormed(es, kernelStart, kernelEnd, trampolineStart, trampolineEnd);
    RunIsSafe(start, m, events);
    var s := Run(State(m, start, []), events);
    forall i, p {:trigger s.granted[i].Has(p)} | 0 <= i < |s.granted| && s.granted[i].Has(p)
      ensures p != 0 && UsablePage(es, p)
      ensures !Touches(p, kernelStart, kernelEnd) && !Touches(p, trampolineStart, trampolineEnd)
    {
      assert s.granted[i] in s.granted && Covered(s.granted, p);
      KernelListIsSafe(es, kernelStart, kernelEnd, trampolineStart, trampolineEnd, p);
    }
  }
}

/** Starting the other processors one after the other, as interleaved steps of the boot processor and the
    processors it starts. Memory is sequentially consistent; delays are not modelled. */
module SecondaryCpu {
  import opened Wrappers

  /** A processor number of 8 bits: its upper half and its four lower bits. */
  datatype Id = Id(high: bv8, b3: bool, b2: bool, b1: bool, b0: bool) {
    /** The four lower bits of this number are set in other. */
    predicate LowBitsIn(other: Id) {
      (b3 ==> other.b3) && (b2 ==> other.b2) && (b1 ==> other.b1) && (b0 ==> other.b0)
    }
  }

  function IdOf(x: bv8): Id { Id(x >> 4, x & 8 != 0, x & 4 != 0, x & 2 != 0, x & 1 != 0) }

  /** Where a processor other than the boot processor is: halted after INIT, on its way to secondaryCpuMain, after
      reading secondaryCpuId, and after clearing secondaryCpuInInit. */
  datatype Status = Idle | Waiting | Started | HasRead(id: Id) | Done(id: Id)

  /** The next statement of initCPU. */
  datatype Pc = SetFlag | Init | Deassert | WriteId | Startup | Wait

  /** The processors to start, in order, and those that exist; icr is the destination byte of the interrupt
      command register before the first interrupt. */
  datatype Config = Config(ids: seq<Id>, boot: Id, others: set<Id>, icr: Id) {
    /** The loop visits each of the other processors of the bitmap once. */
    ghost predicate Valid() {
      && (forall i, j {:trigger ids[i], ids[j]} :: 0 <= i < j < |ids| ==> ids[i] != ids[j])
      && (forall i {:trigger ids[i]} :: 0 <= i < |ids| ==> ids[i] in others)
      && boot !in others
    }
  }

  datatype State = State(phase: nat, pc: Pc, inInit: bool, sharedId: Id, icr: Id, cpus: map<Id, Status>, crashed: bool)

  /** sendInterrupt keeps the low four bits of the old destination and adds the bits of the new one. */
  function Destination(icr: Id, cpu: Id): Id {
    Id(cpu.high, icr.b3 || cpu.b3, icr.b2 || cpu.b2, icr.b1 || cpu.b1, icr.b0 || cpu.b0)
  }

  lemma DestinationIsBitwise(icr: bv8, cpu: bv8)
    ensures Destination(IdOf(icr), IdOf(cpu)) == IdOf((icr & 0x0F) | cpu)
  {
  }

  function Initial(c: Config): State {
    State(0, SetFlag, false, IdOf(0), c.icr, map cpu | cpu in c.others :: Idle, false)
  }

  /** One statement of the boot processor. An INIT to itself is the end of the run. */
  function BootStep(c: Config, s: State): State {
    if s.crashed || s.phase >= |c.ids| then s
    else
      var cpu := c.ids[s.phase];
      var d := Destination(s.icr, cpu);
      match s.pc
      case SetFlag => s.(inInit := true, pc := Init)
      case Init =>
        if d == c.boot then s.(icr := d, crashed := true)
        else s.(icr := d, pc := Deassert, cpus := if d in s.cpus then s.cpus[d := Waiting] else s.cpus)
      case Deassert => s.(icr := d, pc := WriteId)
      case WriteId => s.(sharedId := cpu, pc := Startup)
      case Startup =>
        s.(icr := d, pc := Wait, cpus := if d in s.cpus && s.cpus[d] == Waiting then s.cpus[d := Started] else s.cpus)
      case Wait => if s.inInit then s else s.(phase := s.phase + 1, pc := SetFlag)
  }

  /** One statement of secondaryCpuMain. */
  function CpuStep(s: State, cpu: Id): State {
    if s.crashed || cpu !in s.cpus then s
    else match s.cpus[cpu]
      case Started => s.(cpus := s.cpus[cpu := HasRead(s.sharedId)])
      case HasRead(id) => s.(cpus := s.cpus[cpu := Done(id)], inInit := false)
      case _ => s
  }

  datatype Label = Boot | Cpu(id: Id)

  function Step(c: Config, s: State, l: Label): State {
    match l
    case Boot => BootStep(c, s)
    case Cpu(id) => CpuStep(s, id)
  }

  function Run(c: Config, labels: seq<Label>): State {
    if labels == [] then Initial(c) else Step(c, Run(c, labels[..|labels| - 1]), labels[|labels| - 1])
  }

  // ----- Which processor each interrupt reaches -----

  /** The destination byte before processor number n is started. */
  function IcrBefore(c: Config, n: nat): Id
    requires n <= |c.ids|
    decreases n, 0
  {
    if n == 0 then c.icr else Reached(c, n - 1)
  }

  /** The processor that the interrupts for processor number n reach. */
  function Reached(c: Config, n: nat): Id
    requires n < |c.ids|
    decreases n, 1
  {
    Destination(IcrBefore(c, n), c.ids[n])
  }

  /** The last of the first n rounds that reached this processor. */
  function LastRound(c: Config, n: nat, cpu: Id): Option<nat>
    requires n <= |c.ids|
  {
    if n == 0 then None else if Reached(c, n - 1) == cpu then Some(n - 1) else LastRound(c, n - 1, cpu)
  }

  /** Every identifier contains the low four bits of the one before it. */
  ghost predicate Chain(c: Config) {
    && (c.ids != [] ==> c.icr.LowBitsIn(c.ids[0]))
    && (forall n {:trigger c.ids[n]} :: 1 <= n < |c.ids| ==> c.ids[n - 1].LowBitsIn(c.ids[n]))
  }

  lemma DestinationIff(icr: Id, cpu: Id)
    ensures Destination(icr, cpu) == cpu <==> icr.LowBitsIn(cpu)
  {
  }

  /** Every interrupt reaches the processor it is meant for exactly if the identifiers form a chain. */
  lemma {:induction false} ReachedIff(c: Config, n: nat)
    requires n <= |c.ids|
    ensures (forall k :: 0 <= k < n ==> Reached(c, k) == c.ids[k])
       <==> (n > 0 ==> c.icr.LowBitsIn(c.ids[0])) && (forall k {:trigger c.ids[k]} :: 1 <= k < n ==>
           c.ids[k - 1].LowBitsIn(c.ids[k]))
  {
    if n > 0 {
      ReachedIff(c, n - 1);
      DestinationIff(IcrBefore(c, n - 1), c.ids[n - 1]);
      assert Reached(c, n - 1) == Destination(IcrBefore(c, n - 1), c.ids[n - 1]);
    }
  }

  // ----- What holds in every reachable state -----

  /** A processor that is not being started: untouched, or finished with the number of the last round that reached
      it. */
  ghost predicate Settled(c: Config, n: nat, cpu: Id, status: Status)
    requires n <= |c.ids|
  {
    match LastRound(c, n, cpu)
    case None => status == Idle
    case Some(k) => k < |c.ids| && status == Done(c.ids[k])
  }

  /** The processor being started. */
  ghost predicate Starting(s: State, id: Id, status: Status) {
    match s.pc
    case SetFlag => false
    case Init => false
    case Deassert => status == Waiting && s.inInit
    case WriteId => status == Waiting && s.inInit
    case Startup => status == Waiting && s.inInit && s.sharedId == id
    case Wait => || (status == Started && s.inInit && s.sharedId == id)
                 || (status == HasRead(id) && s.inInit)
                 || (status == Done(id) && !s.inInit)
  }

  ghost predicate Place(c: Config, s: State, cpu: Id)
    requires s.phase <= |c.ids| && (s.phase == |c.ids| ==> s.pc == SetFlag) && cpu in s.cpus
  {
    if s.pc != SetFlag && s.pc != Init && cpu == Reached(c, s.phase) then Starting(s, c.ids[s.phase], s.cpus[cpu])
    else Settled(c, s.phase, cpu, s.cpus[cpu])
  }

  ghost predicate Inv(c: Config, s: State) {
    && s.phase <= |c.ids| && s.cpus.Keys == c.others
    && (s.phase == |c.ids| ==> s.pc == SetFlag)
    && s.icr == (if s.pc == SetFlag || (s.pc == Init && !s.crashed) then IcrBefore(c, s.phase) else Reached(c, s.phase))
    && (s.crashed ==> s.phase < |c.ids| && s.pc == Init && Reached(c, s.phase) == c.boot)
    && (forall n {:trigger Reached(c, n)} :: 0 <= n < s.phase ==> Reached(c, n) in c.others)
    && (forall cpu {:trigger Place(c, s, cpu)} :: cpu in s.cpus ==> Place(c, s, cpu))
    && (s.pc != SetFlag && (s.pc == Init || Reached(c, s.phase) !in c.others) ==> s.inInit)
  }

  lemma {:induction false} ReachableInv(c: Config, labels: seq<Label>)
    requires c.Valid()
    ensures Inv(c, Run(c, labels))
  {
    if labels != [] {
      var s, l := Run(c, labels[..|labels| - 1]), labels[|labels| - 1];
      ReachableInv(c, labels[..|labels| - 1]);
      match l
      case Boot => BootKeepsInv(c, s);
      case Cpu(id) => CpuKeepsInv(c, s, id);
    }
  }

  /** The boot processor changes the status of no processor but the one it reaches. */
  lemma BootKeepsPlace(c: Config, s: State, cpu: Id)
    requires c.Valid() && Inv(c, s) && cpu in s.cpus && !s.crashed && s.phase < |c.ids|
    requires Destination(s.icr, c.ids[s.phase]) == Reached(c, s.phase)
    ensures var s' := BootStep(c, s);
            s'.phase <= |c.ids| && (s'.phase == |c.ids| ==> s'.pc == SetFlag) && Place(c, s', cpu)
  {
    assert Place(c, s, cpu);
    var s', d := BootStep(c, s), Reached(c, s.phase);
    match s.pc
    case SetFlag =>
    case Init => assert cpu == d && d != c.boot ==> s'.cpus[cpu] == Waiting;
    case Deassert =>
    case WriteId =>
    case Startup => assert cpu == d ==> s'.cpus[cpu] == Started;
    case Wait =>
      assert d in s.cpus ==> Place(c, s, d);
      if !s.inInit {
        assert LastRound(c, s.phase + 1, cpu) == if d == cpu then Some(s.phase) else LastRound(c, s.phase, cpu);
      }
  }

  lemma BootKeepsInv(c: Config, s: State)
    requires c.Valid() && Inv(c, s)
    ensures Inv(c, BootStep(c, s))
  {
    if !s.crashed && s.phase < |c.ids| {
      var d := Reached(c, s.phase);
      DestinationAgain(IcrBefore(c, s.phase), c.ids[s.phase]);
      assert Destination(s.icr, c.ids[s.phase]) == d;
      var s' := BootStep(c, s);
      if s.pc == Wait {
        assert d in s.cpus ==> Place(c, s, d);
      }
      forall cpu {:trigger Place(c, s', cpu)} | cpu in s'.cpus
        ensures Place(c, s', cpu)
      {
        BootKeepsPlace(c, s, cpu);
      }
    }
  }

  lemma DestinationAgain(icr: Id, cpu: Id)
    ensures Destination(Destination(icr, cpu), cpu) == Destination(icr, cpu)
  {
  }

  lemma CpuKeepsInv(c: Config, s: State, cpu: Id)
    requires c.Valid() && Inv(c, s)
    ensures Inv(c, CpuStep(s, cpu))
  {
    var s' := CpuStep(s, cpu);
    if cpu in s.cpus {
      assert Place(c, s, cpu);
    }
    forall x {:trigger Place(c, s', x)} | x in s'.cpus
      ensures Place(c, s', x)
    {
      assert Place(c, s, x);
    }
  }

  // ----- What the handshake guarantees -----

  lemma {:induction false} LastRoundIs(c: Config, n: nat, cpu: Id, k: nat)
    requires k < n <= |c.ids| && Reached(c, k) == cpu
    requires forall m {:trigger Reached(c, m)} :: k < m < n ==> Reached(c, m) != cpu
    ensures LastRound(c, n, cpu) == Some(k)
  {
    if n - 1 > k {
      LastRoundIs(c, n - 1, cpu, k);
    }
  }

  lemma {:induction false} LastRoundReached(c: Config, n: nat, cpu: Id)
    requires n <= |c.ids|
    ensures LastRound(c, n, cpu).Some? ==>
              LastRound(c, n, cpu).value < n && Reached(c, LastRound(c, n, cpu).value) == cpu
  {
    if n > 0 && Reached(c, n - 1) != cpu {
      LastRoundReached(c, n - 1, cpu);
    }
  }

  lemma ChainReaches(c: Config, n: nat)
    requires Chain(c) && n < |c.ids|
    ensures Reached(c, n) == c.ids[n]
  {
    ReachedIff(c, |c.ids|);
  }

  /** When initAllCPUs has returned, every processor of the list has read its own number and signalled, exactly if
      the numbers form a chain. */
  lemma AllSignalledIff(c: Config, labels: seq<Label>)
    requires c.Valid() && Run(c, labels).phase == |c.ids|
    ensures var cpus := Run(c, labels).cpus;
            (forall j {:trigger c.ids[j]} ::
               0 <= j < |c.ids| ==> c.ids[j] in cpus && cpus[c.ids[j]] == Done(c.ids[j])) <==> Chain(c)
  {
    hide Run, Reached, LastRound;
    var s, n := Run(c, labels), |c.ids|;
    ReachableInv(c, labels);
    ReachedIff(c, n);
    if Chain(c) {
      forall j | 0 <= j < n
        ensures c.ids[j] in s.cpus && s.cpus[c.ids[j]] == Done(c.ids[j])
      {
        assert Place(c, s, c.ids[j]);
        LastRoundIs(c, n, c.ids[j], j);
      }
    }
    if forall j {:trigger c.ids[j]} :: 0 <= j < n ==> c.ids[j] in s.cpus && s.cpus[c.ids[j]] == Done(c.ids[j]) {
      forall j | 0 <= j < n
        ensures Reached(c, j) == c.ids[j]
      {
        assert Place(c, s, c.ids[j]);
        LastRoundReached(c, n, c.ids[j]);
      }
    }
  }

  /** With a chain, a processor never reads a number that is not its own. */
  lemma EveryReadIsOwn(c: Config, labels: seq<Label>, cpu: Id)
    requires c.Valid() && Chain(c) && cpu in c.others
    ensures var s := Run(c, labels);
            cpu in s.cpus && (s.cpus[cpu].HasRead? || s.cpus[cpu].Done? ==> s.cpus[cpu].id == cpu)
  {
    var s := Run(c, labels);
    ReachableInv(c, labels);
    assert Place(c, s, cpu);
    LastRoundReached(c, s.phase, cpu);
    if LastRound(c, s.phase, cpu).Some? {
      ChainReaches(c, LastRound(c, s.phase, cpu).value);
    }
    if s.phase < |c.ids| {
      ChainReaches(c, s.phase);
    }
  }

  /** Whatever the numbers, the boot processor writes secondaryCpuId only when no processor is about to read it or
      has read it without having signalled. */
  lemma NoNumberIsOverwritten(c: Config, labels: seq<Label>, cpu: Id)
    requires c.Valid() && cpu in c.others && Run(c, labels).pc == WriteId
    ensures cpu in Run(c, labels).cpus && !Run(c, labels).cpus[cpu].Started? && !Run(c, labels).cpus[cpu].HasRead?
  {
    ReachableInv(c, labels);
    assert Place(c, Run(c, labels), cpu);
  }

  /** With a chain the boot processor never waits in vain. */
  lemma NobodyWaitsInVain(c: Config, labels: seq<Label>)
    requires c.Valid() && Chain(c)
    ensures var s := Run(c, labels);
            && !s.crashed
            && (s.phase < |c.ids| && s.pc == Wait && s.inInit ==>
                  c.ids[s.phase] in s.cpus && (s.cpus[c.ids[s.phase]].Started? || s.cpus[c.ids[s.phase]].HasRead?))
  {
    var s := Run(c, labels);
    ReachableInv(c, labels);
    if s.phase < |c.ids| {
      ChainReaches(c, s.phase);
      assert Place(c, s, c.ids[s.phase]);
    }
  }

  /** If an interrupt reaches no processor, the boot processor waits for it for ever. */
  lemma WaitsForMissingProcessor(c: Config, labels: seq<Label>, n: nat)
    requires c.Valid() && n < |c.ids| && Reached(c, n) !in c.others
    ensures Run(c, labels).phase <= n
  {
    ReachableInv(c, labels);
  }

  /** On a machine with the processors 0 to 3, started from 0, number 2 is never reached and number 3 is started
      twice. */
  lemma FourProcessors(c: Config)
    requires c == Config([IdOf(1), IdOf(2), IdOf(3)], IdOf(0), {IdOf(1), IdOf(2), IdOf(3)}, IdOf(0))
    ensures !Chain(c) && Reached(c, 0) == IdOf(1) && Reached(c, 1) == IdOf(3) && Reached(c, 2) == IdOf(3)
  {
    assert Reached(c, 0) == IdOf(1);
    assert c.ids[1] == IdOf(2) && !c.ids[1 - 1].LowBitsIn(c.ids[1]);
    assert Reached(c, 1) == Destination(IdOf(1), IdOf(2)) == IdOf(3);
  }

  // ----- The processors of the bitmap -----

  function Cpu(i: nat): Id
    requires i < 64
  {
    IdOf(i as bv8)
  }

  lemma NumbersDiffer(x: bv8, y: bv8)
    requires IdOf(x) == IdOf(y)
    ensures x == y
  {
  }

  lemma CpusDiffer(i: nat, j: nat)
    requires i < 64 && j < 64 && Cpu(i) == Cpu(j)
    ensures i == j
  {
    NumbersDiffer(i as bv8, j as bv8);
    ByteAndBack(i);
    ByteAndBack(j);
  }

  lemma ByteAndBack(i: nat)
    requires i < 64
    ensures (i as bv8) as nat == i
  {
  }

  /** Processor i is in the bitmap and is not the one that runs the loop. */
  predicate Other(bitmap: seq<bool>, boot: nat, i: int) {
    0 <= i < |bitmap| && bitmap[i] && i != boot
  }

  /** The processors that the loop of initAllCPUs has started before it looks at bit n. */
  function Targets(bitmap: seq<bool>, boot: nat, n: nat): (t: seq<nat>)
    requires |bitmap| == 64 && n <= 64
    ensures forall k {:trigger t[k]} :: 0 <= k < |t| ==> t[k] < n && Other(bitmap, boot, t[k])
    ensures forall k, l {:trigger t[k], t[l]} :: 0 <= k < l < |t| ==> t[k] < t[l]
    ensures forall i {:trigger Other(bitmap, boot, i)} :: i < n && Other(bitmap, boot, i) ==> i in t
  {
    if n == 0 then []
    else Targets(bitmap, boot, n - 1) + if Other(bitmap, boot, n - 1) then [n - 1] else []
  }

  /** The machine whose processors are those of the bitmap. */
  function Machine(bitmap: seq<bool>, boot: nat, icr: Id): Config
    requires |bitmap| == 64 && boot < 64
  {
    var t := Targets(bitmap, boot, 64);
    Config(seq(|t|, k requires 0 <= k < |t| => Cpu(t[k])), Cpu(boot),
           set i | 0 <= i < 64 && Other(bitmap, boot, i) :: Cpu(i), icr)
  }

  lemma MachineIsValid(bitmap: seq<bool>, boot: nat, icr: Id)
    requires |bitmap| == 64 && boot < 64
    ensures Machine(bitmap, boot, icr).Valid()
  {
    var c, t := Machine(bitmap, boot, icr), Targets(bitmap, boot, 64);
    forall i, j {:trigger c.ids[i], c.ids[j]} | 0 <= i < j < |c.ids|
      ensures c.ids[i] != c.ids[j]
    {
      if c.ids[i] == c.ids[j] {
        CpusDiffer(t[i], t[j]);
      }
    }
    if c.boot in c.others {
      var i :| 0 <= i < 64 && Other(bitmap, boot, i) && Cpu(i) == Cpu(boot);
      CpusDiffer(i, boot);
    }
  }

  /** Of any two processors to start, the one with the larger number has the low four bits of the other, and all of
      them have those of the destination byte. */
  ghost predicate BitsGrow(bitmap: seq<bool>, boot: nat, icr: Id)
    requires |bitmap| == 64
  {
    && (forall i {:trigger Other(bitmap, boot, i)} :: Other(bitmap, boot, i) ==> icr.LowBitsIn(Cpu(i)))
    && (forall i, j {:trigger Other(bitmap, boot, i), Other(bitmap, boot, j)} ::
          Other(bitmap, boot, i) && Other(bitmap, boot, j) && i < j ==> Cpu(i).LowBitsIn(Cpu(j)))
  }

  lemma {:induction false} ChainIsTransitive(c: Config, k: nat, l: nat)
    requires Chain(c) && k <= l < |c.ids|
    ensures c.ids[k].LowBitsIn(c.ids[l]) && c.icr.LowBitsIn(c.ids[k])
    decreases l
  {
    if k < l {
      ChainIsTransitive(c, k, l - 1);
    } else if k > 0 {
      ChainIsTransitive(c, k - 1, k - 1);
      assert c.ids[k - 1].LowBitsIn(c.ids[k]);
    }
  }

  lemma AscendingIndex(t: seq<nat>, k: nat, l: nat)
    requires forall i, j {:trigger t[i], t[j]} :: 0 <= i < j < |t| ==> t[i] < t[j]
    requires k < |t| && l < |t| && t[k] < t[l]
    ensures k < l
  {
  }

  lemma ChainGrows(bitmap: seq<bool>, boot: nat, icr: Id, i: nat, j: nat)
    requires |bitmap| == 64 && boot < 64 && Chain(Machine(bitmap, boot, icr))
    requires Other(bitmap, boot, i) && Other(bitmap, boot, j) && i <= j
    ensures icr.LowBitsIn(Cpu(i)) && (i < j ==> Cpu(i).LowBitsIn(Cpu(j)))
  {
    var c, t := Machine(bitmap, boot, icr), Targets(bitmap, boot, 64);
    assert i in t && j in t;
    var k :| 0 <= k < |t| && t[k] == i;
    var l :| 0 <= l < |t| && t[l] == j;
    assert c.ids[k] == Cpu(i) && c.ids[l] == Cpu(j);
    ChainIsTransitive(c, k, k);
    if i < j {
      AscendingIndex(t, k, l);
      ChainIsTransitive(c, k, l);
    }
  }

  lemma NeighboursGrow(bitmap: seq<bool>, boot: nat, icr: Id, t: seq<nat>, n: nat)
    requires |bitmap| == 64 && BitsGrow(bitmap, boot, icr) && 1 <= n < |t| && t[n - 1] < t[n]
    requires Other(bitmap, boot, t[n - 1]) && Other(bitmap, boot, t[n])
    ensures Cpu(t[n - 1]).LowBitsIn(Cpu(t[n]))
  {
  }

  lemma GrowingIsChain(bitmap: seq<bool>, boot: nat, icr: Id)
    requires |bitmap| == 64 && boot < 64 && BitsGrow(bitmap, boot, icr)
    ensures Chain(Machine(bitmap, boot, icr))
  {
    var c, t := Machine(bitmap, boot, icr), Targets(bitmap, boot, 64);
    forall n {:trigger c.ids[n]} | 1 <= n < |c.ids|
      ensures c.ids[n - 1].LowBitsIn(c.ids[n])
    {
      assert t[n - 1] < t[n] && Other(bitmap, boot, t[n - 1]) && Other(bitmap, boot, t[n]);
      NeighboursGrow(bitmap, boot, icr, t, n);
      assert c.ids[n - 1] == Cpu(t[n - 1]) && c.ids[n] == Cpu(t[n]);
    }
    if c.ids != [] {
      assert Other(bitmap, boot, t[0]) && c.ids[0] == Cpu(t[0]);
    }
  }

  lemma ChainIff(bitmap: seq<bool>, boot: nat, icr: Id)
    requires |bitmap| == 64 && boot < 64
    ensures Chain(Machine(bitmap, boot, icr)) <==> BitsGrow(bitmap, boot, icr)
  {
    if Chain(Machine(bitmap, boot, icr)) {
      forall i, j {:trigger Other(bitmap, boot, i), Other(bitmap, boot, j)} |
        Other(bitmap, boot, i) && Other(bitmap, boot, j) && i <= j
        ensures icr.LowBitsIn(Cpu(i)) && (i < j ==> Cpu(i).LowBitsIn(Cpu(j)))
      {
        ChainGrows(bitmap, boot, icr, i, j);
      }
    }
    if BitsGrow(bitmap, boot, icr) {
      GrowingIsChain(bitmap, boot, icr);
    }
  }

  /** When initAllCPUs has returned, every other processor of the bitmap has read its own number and signalled, exactly
      if the numbers in the bitmap grow bit by bit. */
  lemma BitmapSignalledIff(bitmap: seq<bool>, boot: nat, icr: Id, labels: seq<Label>)
    requires |bitmap| == 64 && boot < 64
    requires Run(Machine(bitmap, boot, icr), labels).phase == |Machine(bitmap, boot, icr).ids|
    ensures var s := Run(Machine(bitmap, boot, icr), labels);
            (forall i {:trigger Other(bitmap, boot, i)} ::
               Other(bitmap, boot, i) ==> Cpu(i) in s.cpus && s.cpus[Cpu(i)] == Done(Cpu(i)))
            <==> BitsGrow(bitmap, boot, icr)
  {
    var c, t := Machine(bitmap, boot, icr), Targets(bitmap, boot, 64);
    var s := Run(c, labels);
    MachineIsValid(bitmap, boot, icr);
    AllSignalledIff(c, labels);
    ChainIff(bitmap, boot, icr);
    if BitsGrow(bitmap, boot, icr) {
      forall i {:trigger Other(bitmap, boot, i)} | Other(bitmap, boot, i)
        ensures Cpu(i) in s.cpus && s.cpus[Cpu(i)] == Done(Cpu(i))
      {
        var k :| 0 <= k < |t| && t[k] == i;
        assert c.ids[k] == Cpu(i);
      }
    }
    if forall i {:trigger Other(bitmap, boot, i)} ::
         Other(bitmap, boot, i) ==> Cpu(i) in s.cpus && s.cpus[Cpu(i)] == Done(Cpu(i)) {
      forall j {:trigger c.ids[j]} | 0 <= j < |c.ids|
        ensures c.ids[j] in s.cpus && s.cpus[c.ids[j]] == Done(c.ids[j])
      {
        assert Other(bitmap, boot, t[j]);
      }
    }
  }

  /** No machine with processors 1 and 2 beside the boot processor starts all of them. */
  lemma ThirdProcessorIsLost(bitmap: seq<bool>, boot: nat, icr: Id)
    requires |bitmap| == 64 && Other(bitmap, boot, 1) && Other(bitmap, boot, 2)
    ensures !BitsGrow(bitmap, boot, icr)
  {
    assert Cpu(1) == IdOf(1) && Cpu(2) == IdOf(2);
    assert !Cpu(1).LowBitsIn(Cpu(2));
  }
}

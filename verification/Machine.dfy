/**
 The machine: a core stepped over guest memory until it halts or the step bound is reached, with counters
 that add up over runs, and snapshots that carry a run to another machine.
 */
module Machine {
  import opened Outcomes
  import opened Words
  import opened Memory
  import opened Snapshot
  import CW = ChunkedWrite

  datatype Outcome = Executed(cycles: nat) | MmioAccess | Trap(cause: nat, tval: nat) | Fault

  /** What one step does: the core's next state, the bytes it stored, in order, and how the step ended. */
  datatype Stepped<C> = Stepped(core: C, writes: seq<(nat, Byte)>, outcome: Outcome)

  /** A core is a deterministic function of its state and of the memory it sees. */
  datatype Core<!C> = Core(
    step: (C, View) -> Stepped<C>,
    halt: C -> Option<(nat, nat)>,
    pc: C -> nat,
    console: C -> seq<Byte>,
    save: C -> Result<seq<Byte>>,
    load: (C, seq<Byte>) -> Result<C>)

  /** The core never asks the host to serve a device: such a step is not counted, so a run might not end. */
  ghost predicate NoMmio<C(!new)>(core: Core<C>) {
    forall c, v :: !core.step(c, v).outcome.MmioAccess?
  }

  function PokeAll(mem: Mem, writes: seq<(nat, Byte)>): Mem
    decreases |writes|
  {
    if writes == [] then mem else PokeAll(Poke(mem, writes[0].0, writes[0].1), writes[1..])
  }

  lemma {:induction false} PokeAllKeeps(a: Mem, b: Mem, writes: seq<(nat, Byte)>)
    requires Valid(a) && Valid(b) && ViewOf(a) == ViewOf(b)
    ensures Valid(PokeAll(a, writes)) && Valid(PokeAll(b, writes))
    ensures ViewOf(PokeAll(a, writes)) == ViewOf(PokeAll(b, writes))
    decreases |writes|
  {
    hide ViewOf, CellAt, RegionAt, Addresses, Poke, Valid;
    if writes != [] {
      PokeIsLocal(a, writes[0].0, writes[0].1);
      PokeIsLocal(b, writes[0].0, writes[0].1);
      PokeAllKeeps(Poke(a, writes[0].0, writes[0].1), Poke(b, writes[0].0, writes[0].1), writes[1..]);
    }
  }

  // ---- one run ----

  datatype Stop = StepBound | Halted(cause: nat, tval: nat) | Trapped(cause: nat, tval: nat) | Faulted

  /** A run's end: the core and memory reached, what was counted, and why it stopped. */
  datatype Leg<C> = Leg(cpu: C, mem: Mem, steps: nat, cycles: nat, stop: Stop) {
    /** The same end with earlier steps counted in. */
    function After(steps: nat, cycles: nat): Leg<C> {
      this.(steps := this.steps + steps, cycles := this.cycles + cycles)
    }
  }

  /** The memory a step leaves. */
  function AfterStores<C>(s: Stepped<C>, mem: Mem): (next: Mem)
    requires Valid(mem)
    ensures Valid(next)
  {
    PokeAllKeeps(mem, mem, s.writes);
    PokeAll(mem, s.writes)
  }

  ghost function RunLeg<C(!new)>(core: Core<C>, cpu: C, mem: Mem, n: nat): (leg: Leg<C>)
    requires Valid(mem) && NoMmio(core)
    ensures Valid(leg.mem)
    ensures leg.stop.StepBound? ==> leg.steps == n
    decreases n
  {
    if n == 0 then Leg(cpu, mem, 0, 0, StepBound)
    else
      var s := core.step(cpu, ViewOf(mem));
      var mem' := AfterStores(s, mem);
      match s.outcome
      case Executed(cycles) =>
        (match core.halt(s.core)
         case Some(why) => Leg(s.core, mem', 1, cycles, Halted(why.0, why.1))
         case None => RunLeg(core, s.core, mem', n - 1).After(1, cycles))
      case Trap(cause, tval) => Leg(s.core, mem', 1, 0, Trapped(cause, tval))
      case Fault => Leg(s.core, mem', 0, 0, Faulted)
  }

  lemma LegEnd<C(!new)>(core: Core<C>, cpu: C, mem: Mem)
    requires Valid(mem) && NoMmio(core)
    ensures RunLeg(core, cpu, mem, 0) == Leg(cpu, mem, 0, 0, StepBound)
  {
  }

  lemma LegStep<C(!new)>(core: Core<C>, cpu: C, mem: Mem, n: nat)
    requires Valid(mem) && NoMmio(core) && n > 0
    ensures var s := core.step(cpu, ViewOf(mem));
            var mem' := AfterStores(s, mem);
            && !s.outcome.MmioAccess?
            && RunLeg(core, cpu, mem, n) ==
               match s.outcome
               case Executed(cycles) =>
                 (match core.halt(s.core)
                  case Some(why) => Leg(s.core, mem', 1, cycles, Halted(why.0, why.1))
                  case None => RunLeg(core, s.core, mem', n - 1).After(1, cycles))
               case Trap(cause, tval) => Leg(s.core, mem', 1, 0, Trapped(cause, tval))
               case Fault => Leg(s.core, mem', 0, 0, Faulted)
  {
    hide ViewOf, AfterStores;
  }

  /** A machine's whole state; the counters add up over runs. */
  datatype Image<C> = Image(cpu: C, mem: Mem, steps: nat, cycles: nat)

  datatype RunResult =
    | Ran(steps: nat, cycles: nat, pc: nat, halted: bool, cause: nat, tval: nat, console: seq<Byte>)
    | CpuFault

  /** A fault leaves the counters as they were before the run. */
  function Advance<C>(s: Image<C>, leg: Leg<C>): Image<C> {
    if leg.stop.Faulted? then Image(leg.cpu, leg.mem, s.steps, s.cycles)
    else Image(leg.cpu, leg.mem, s.steps + leg.steps, s.cycles + leg.cycles)
  }

  function Report<C>(core: Core<C>, s: Image<C>, stop: Stop): RunResult {
    var console := core.console(s.cpu);
    match stop
    case StepBound => Ran(s.steps, s.cycles, core.pc(s.cpu), false, 0, 0, console)
    case Halted(cause, tval) => Ran(s.steps, s.cycles, tval, true, cause, tval, console)
    case Trapped(cause, tval) => Ran(s.steps, s.cycles, core.pc(s.cpu), true, cause, tval, console)
    case Faulted => CpuFault
  }

  /** The state a bounded run leaves, and what it reports. */
  ghost function RunMachine<C(!new)>(core: Core<C>, s: Image<C>, n: nat): (Image<C>, RunResult)
    requires Valid(s.mem) && NoMmio(core)
  {
    var leg := RunLeg(core, s.cpu, s.mem, n);
    (Advance(s, leg), Report(core, Advance(s, leg), leg.stop))
  }

  // ---- what a run does, step by step ----

  /** Write `k` is the last one to address `x`. */
  predicate IsLast(writes: seq<(nat, Byte)>, x: nat, k: nat) {
    k < |writes| && writes[k].0 == x && forall j :: k < j < |writes| ==> writes[j].0 != x
  }

  /** The byte at `x`: the last one written there if it can be written, and otherwise the byte it held. */
  ghost predicate LastWriter(after: Mem, before: Mem, writes: seq<(nat, Byte)>, x: nat)
    requires Valid(after) && Valid(before)
  {
    && (forall k: nat :: IsLast(writes, x, k) && CW.Writable(before, x) ==> CW.ByteAt(after, x) == Some(writes[k].1))
    && ((forall k :: 0 <= k < |writes| ==> writes[k].0 != x) || !CW.Writable(before, x) ==>
          CW.ByteAt(after, x) == CW.ByteAt(before, x))
  }

  /** The same regions, and every byte is its last writer's. */
  ghost predicate Stores(after: Mem, before: Mem, writes: seq<(nat, Byte)>) {
    Valid(after) && Valid(before) && CW.SameLayout(after, before) && forall x: nat :: LastWriter(after, before, writes, x)
  }

  lemma PokeStores(mem: Mem, a: nat, b: Byte)
    requires Valid(mem)
    ensures Stores(Poke(mem, a, b), mem, [(a, b)])
  {
    var next := Poke(mem, a, b);
    PokeIsLocal(mem, a, b);
    hide ViewOf;
    forall x: nat
      ensures LastWriter(next, mem, [(a, b)], x)
    {
      PokedByte(mem, a, b, x);
      assert [(a, b)][0].0 == a;
      assert x == a ==> IsLast([(a, b)], x, 0);
    }
  }

  lemma PokedByte(mem: Mem, a: nat, b: Byte, x: nat)
    requires Valid(mem) && Valid(Poke(mem, a, b))
    ensures CW.SameLayout(Poke(mem, a, b), mem)
    ensures CW.ByteAt(Poke(mem, a, b), x) == if x == a && CW.Writable(mem, a) then Some(b) else CW.ByteAt(mem, x)
  {
    var at := RegionAt(mem, a);
    if at.Some? && mem[at.value].kind != Rom {
      var r := WriteSlice(mem[at.value], a, [b]).value;
      CW.ByteAfterWrite(mem, at.value, r, a, [b], x);
    }
  }

  /** Stores add up. */
  lemma StoresJoin(after: Mem, between: Mem, before: Mem, a: seq<(nat, Byte)>, b: seq<(nat, Byte)>)
    requires Stores(between, before, a) && Stores(after, between, b)
    ensures Stores(after, before, a + b)
  {
    hide Valid, CW.ByteAt;
    CW.LayoutJoins(after, between, before);
    forall x: nat
      ensures LastWriter(after, before, a + b, x)
    {
      CW.LayoutWritable(between, before, x);
      assert LastWriter(between, before, a, x) && LastWriter(after, between, b, x);
      hide CW.Writable, CW.SameLayout, Stores;
      LastOfTwo(a, b, x);
    }
  }

  lemma LastOfTwo(a: seq<(nat, Byte)>, b: seq<(nat, Byte)>, x: nat)
    ensures forall k: nat :: IsLast(a + b, x, k) ==>
              if k < |a| then IsLast(a, x, k) && forall j :: 0 <= j < |b| ==> b[j].0 != x else IsLast(b, x, k - |a|)
    ensures forall j :: 0 <= j < |a| ==> (a + b)[j] == a[j]
    ensures forall j :: 0 <= j < |b| ==> (a + b)[|a| + j] == b[j]
  {
    var c := a + b;
    assert forall j :: 0 <= j < |a| ==> c[j] == a[j];
    assert forall j :: 0 <= j < |b| ==> c[|a| + j] == b[j];
    forall k: nat | IsLast(c, x, k)
      ensures if k < |a| then IsLast(a, x, k) && forall j :: 0 <= j < |b| ==> b[j].0 != x else IsLast(b, x, k - |a|)
    {
      forall j | 0 <= j < |b| && k < |a| + j
        ensures b[j].0 != x
      {
        assert c[|a| + j].0 != x;
      }
      forall j | k < j < |a|
        ensures a[j].0 != x
      {
        assert c[j].0 != x;
      }
    }
  }

  lemma NothingStored(mem: Mem)
    requires Valid(mem)
    ensures Stores(mem, mem, [])
  {
    hide CW.ByteAt;
  }

  lemma {:induction false} PokeAllStores(mem: Mem, writes: seq<(nat, Byte)>)
    requires Valid(mem)
    ensures Stores(PokeAll(mem, writes), mem, writes)
    decreases |writes|
  {
    hide Stores, Valid, Poke;
    if writes == [] {
      NothingStored(mem);
    } else {
      var (a, b) := writes[0];
      PokeStores(mem, a, b);
      PokeIsLocal(mem, a, b);
      PokeAllStores(Poke(mem, a, b), writes[1..]);
      StoresJoin(PokeAll(mem, writes), Poke(mem, a, b), mem, [(a, b)], writes[1..]);
      assert [(a, b)] + writes[1..] == writes;
    }
  }

  /** The bytes stored by some steps, one after the other. */
  function Log<C>(steps: seq<Stepped<C>>): seq<(nat, Byte)> {
    if steps == [] then [] else steps[0].writes + Log(steps[1..])
  }

  function CyclesOf(o: Outcome): nat {
    match o
    case Executed(cycles) => cycles
    case _ => 0
  }

  function Cycles<C>(steps: seq<Stepped<C>>): nat {
    if steps == [] then 0 else CyclesOf(steps[0].outcome) + Cycles(steps[1..])
  }

  /** The core before step `i`. */
  function CoreAt<C>(cpu: C, steps: seq<Stepped<C>>, i: nat): C
    requires i <= |steps|
  {
    if i == 0 then cpu else steps[i - 1].core
  }

  /** A run goes on after a step that executes and does not halt the core. */
  ghost predicate GoesOn<C(!new)>(core: Core<C>, s: Stepped<C>) {
    s.outcome.Executed? && core.halt(s.core).None?
  }

  /**
   These are the steps of a run from `cpu` and `mem`, and `mems` the memories before, between and after them: each
   memory holds what the steps before it stored last, and each step is the core's in the memory it finds.
   */
  ghost predicate AreSteps<C(!new)>(core: Core<C>, cpu: C, mem: Mem, steps: seq<Stepped<C>>, mems: seq<Mem>) {
    && |mems| == |steps| + 1 && mems[0] == mem
    && (forall i :: 0 <= i <= |steps| ==> Stores(mems[i], mem, Log(steps[..i])))
    && (forall i :: 0 <= i < |steps| ==> steps[i] == core.step(CoreAt(cpu, steps, i), ViewOf(mems[i])))
    && (forall i :: 0 <= i < |steps| - 1 ==> GoesOn(core, steps[i]))
  }

  /** Why a run of at most `n` steps stopped: its bound is reached, or else its last step halts, traps or faults. */
  ghost predicate StoppedBy<C(!new)>(core: Core<C>, steps: seq<Stepped<C>>, n: nat, stop: Stop) {
    if steps == [] then n == 0 && stop == StepBound
    else
      var last := steps[|steps| - 1];
      match last.outcome
      case Executed(_) =>
        (match core.halt(last.core)
         case Some(why) => |steps| <= n && stop == Halted(why.0, why.1)
         case None => |steps| == n && stop == StepBound)
      case Trap(cause, tval) => |steps| <= n && stop == Trapped(cause, tval)
      case Fault => |steps| <= n && stop == Faulted
      case MmioAccess => false
  }

  /** The steps are those of the run that ends in `leg`. */
  ghost predicate AreStepsOf<C(!new)>(core: Core<C>, cpu: C, mem: Mem, n: nat, steps: seq<Stepped<C>>, mems: seq<Mem>,
                                      leg: Leg<C>)
  {
    && AreSteps(core, cpu, mem, steps, mems) && StoppedBy(core, steps, n, leg.stop)
    && leg.cpu == CoreAt(cpu, steps, |steps|) && leg.mem == mems[|steps|]
    && leg.steps == |steps| - (if leg.stop.Faulted? then 1 else 0) && leg.cycles == Cycles(steps)
  }

  lemma OneStep<C(!new)>(core: Core<C>, cpu: C, mem: Mem, s: Stepped<C>, next: Mem)
    requires Valid(mem) && s == core.step(cpu, ViewOf(mem)) && next == PokeAll(mem, s.writes)
    ensures AreSteps(core, cpu, mem, [s], [mem, next]) && Cycles([s]) == CyclesOf(s.outcome)
  {
    OneLog(s);
    NothingStored(mem);
    PokeAllStores(mem, s.writes);
    hide Stores, ViewOf, PokeAll, GoesOn, Log, Cycles, Valid;
    assert [s][..0] == [] && [s][..1] == [s];
  }

  lemma OneLog<C>(s: Stepped<C>)
    ensures Log([s]) == s.writes && Cycles([s]) == CyclesOf(s.outcome) && Log<C>([]) == []
  {
    assert [s][1..] == [];
    assert Cycles<C>([]) == 0;
  }

  lemma MoreLog<C>(s: Stepped<C>, steps: seq<Stepped<C>>)
    ensures Log([s] + steps) == s.writes + Log(steps) && Cycles([s] + steps) == CyclesOf(s.outcome) + Cycles(steps)
  {
    assert ([s] + steps)[1..] == steps;
  }

  lemma MoreSteps<C(!new)>(core: Core<C>, cpu: C, mem: Mem, s: Stepped<C>, next: Mem, steps: seq<Stepped<C>>, mems: seq<Mem>)
    requires Valid(mem) && s == core.step(cpu, ViewOf(mem)) && next == PokeAll(mem, s.writes)
    requires GoesOn(core, s) && AreSteps(core, s.core, next, steps, mems)
    ensures AreSteps(core, cpu, mem, [s] + steps, [mem] + mems)
    ensures Cycles([s] + steps) == CyclesOf(s.outcome) + Cycles(steps)
  {
    var all, ms := [s] + steps, [mem] + mems;
    MoreLog(s, steps);
    NothingStored(mem);
    PokeAllStores(mem, s.writes);
    hide ViewOf, PokeAll, GoesOn, Cycles, Stores, Valid, Log, CoreAt;
    forall i | 0 <= i <= |all|
      ensures Stores(ms[i], mem, Log(all[..i]))
    {
      if i == 0 {
        NoLog<C>();
      } else {
        assert all[..i] == [s] + steps[..i - 1] && ms[i] == mems[i - 1];
        MoreLog(s, steps[..i - 1]);
        StoresJoin(ms[i], next, mem, s.writes, Log(steps[..i - 1]));
      }
    }
    forall i | 0 <= i < |all|
      ensures Valid(ms[i]) && all[i] == core.step(CoreAt(cpu, all, i), ViewOf(ms[i]))
    {
      StoresValid(ms[i], mem, Log(all[..i]));
      MoreCores(cpu, s, steps, i);
      if i > 0 {
        assert all[i] == steps[i - 1] && ms[i] == mems[i - 1];
      }
    }
    forall i | 0 <= i < |all| - 1
      ensures GoesOn(core, all[i])
    {
      if i > 0 {
        assert all[i] == steps[i - 1];
      }
    }
  }

  lemma NoLog<C>()
    ensures Log<C>([]) == []
  {
  }

  lemma MoreCores<C>(cpu: C, s: Stepped<C>, steps: seq<Stepped<C>>, i: nat)
    requires i <= |steps| + 1
    ensures CoreAt(cpu, [s] + steps, i) == if i == 0 then cpu else CoreAt(s.core, steps, i - 1)
  {
  }

  lemma StoresValid(after: Mem, before: Mem, writes: seq<(nat, Byte)>)
    requires Stores(after, before, writes)
    ensures Valid(after)
  {
  }

  lemma FirstEnds<C(!new)>(core: Core<C>, cpu: C, mem: Mem, n: nat, s: Stepped<C>, next: Mem)
    requires Valid(mem) && NoMmio(core) && n > 0 && s == core.step(cpu, ViewOf(mem)) && next == AfterStores(s, mem)
    requires !GoesOn(core, s)
    ensures AreStepsOf(core, cpu, mem, n, [s], [mem, next], RunLeg(core, cpu, mem, n))
  {
    LegStep(core, cpu, mem, n);
    OneStep(core, cpu, mem, s, next);
    hide AreSteps, Cycles, AfterStores, RunLeg, ViewOf, Valid, NoMmio;
  }

  lemma LastOf<C(!new)>(core: Core<C>, s: Stepped<C>, steps: seq<Stepped<C>>, n: nat, stop: Stop, cpu: C)
    requires GoesOn(core, s) && StoppedBy(core, steps, n, stop)
    ensures StoppedBy(core, [s] + steps, n + 1, stop)
    ensures CoreAt(cpu, [s] + steps, |steps| + 1) == CoreAt(s.core, steps, |steps|)
  {
    if steps == [] {
      assert [s] + steps == [s];
    } else {
      assert ([s] + steps)[|steps|] == steps[|steps| - 1];
    }
  }

  lemma FirstGoesOn<C(!new)>(core: Core<C>, cpu: C, mem: Mem, n: nat, s: Stepped<C>, next: Mem,
                             steps: seq<Stepped<C>>, mems: seq<Mem>)
    requires Valid(mem) && NoMmio(core) && n > 0 && s == core.step(cpu, ViewOf(mem)) && next == AfterStores(s, mem)
    requires GoesOn(core, s) && AreStepsOf(core, s.core, next, n - 1, steps, mems, RunLeg(core, s.core, next, n - 1))
    ensures AreStepsOf(core, cpu, mem, n, [s] + steps, [mem] + mems, RunLeg(core, cpu, mem, n))
  {
    LegGoesOn(core, cpu, mem, n);
    MoreSteps(core, cpu, mem, s, next, steps, mems);
    LastOf(core, s, steps, n - 1, RunLeg(core, s.core, next, n - 1).stop, cpu);
    assert ([mem] + mems)[|steps| + 1] == mems[|steps|];
    hide AreSteps, Cycles, AfterStores, RunLeg, ViewOf, Valid, NoMmio, StoppedBy, CoreAt, GoesOn, CyclesOf;
  }

  lemma LegGoesOn<C(!new)>(core: Core<C>, cpu: C, mem: Mem, n: nat)
    requires Valid(mem) && NoMmio(core) && n > 0 && GoesOn(core, core.step(cpu, ViewOf(mem)))
    ensures var s := core.step(cpu, ViewOf(mem));
            RunLeg(core, cpu, mem, n) == RunLeg(core, s.core, AfterStores(s, mem), n - 1).After(1, CyclesOf(s.outcome))
  {
    LegStep(core, cpu, mem, n);
    hide ViewOf, AfterStores, RunLeg, Valid, NoMmio;
  }

  lemma {:induction false} LegHasSteps<C(!new)>(core: Core<C>, cpu: C, mem: Mem, n: nat)
      returns (steps: seq<Stepped<C>>, mems: seq<Mem>)
    requires Valid(mem) && NoMmio(core)
    ensures AreStepsOf(core, cpu, mem, n, steps, mems, RunLeg(core, cpu, mem, n))
    decreases n
  {
    if n == 0 {
      steps, mems := [], [mem];
      NothingStored(mem);
      LegEnd(core, cpu, mem);
      hide Stores, RunLeg;
    } else {
      var s := core.step(cpu, ViewOf(mem));
      var next := AfterStores(s, mem);
      hide *;
      if GoesOn(core, s) {
        var rest, ms := LegHasSteps(core, s.core, next, n - 1);
        steps, mems := [s] + rest, [mem] + ms;
        FirstGoesOn(core, cpu, mem, n, s, next, rest, ms);
      } else {
        steps, mems := [s], [mem, next];
        FirstEnds(core, cpu, mem, n, s, next);
      }
    }
  }

  /**
   What a run does to the machine and reports, said of its steps: they are counted, unless the last one faults, and
   their cycles summed; a run that no step ends takes all of its `n`.
   */
  ghost predicate Reports<C(!new)>(core: Core<C>, before: Image<C>, after: Image<C>, n: nat, steps: seq<Stepped<C>>, r: RunResult) {
    && |steps| <= n && after.cpu == CoreAt(before.cpu, steps, |steps|)
    && if steps != [] && steps[|steps| - 1].outcome.Fault?
       then r == CpuFault && after.steps == before.steps && after.cycles == before.cycles
       else
         && r.Ran? && r.console == core.console(after.cpu)
         && r.steps == after.steps == before.steps + |steps|
         && r.cycles == after.cycles == before.cycles + Cycles(steps)
         && if steps == [] || GoesOn(core, steps[|steps| - 1])
            then |steps| == n && !r.halted && r.cause == 0 && r.tval == 0 && r.pc == core.pc(after.cpu)
            else
              var last := steps[|steps| - 1];
              && r.halted
              && match last.outcome
                 case Executed(_) => core.halt(last.core) == Some((r.cause, r.tval)) && r.pc == r.tval
                 case Trap(cause, tval) => r.cause == cause && r.tval == tval && r.pc == core.pc(after.cpu)
                 case _ => false
  }

  /** A run: its steps, each in the memory its predecessors leave, and what comes of them. */
  ghost predicate IsRun<C(!new)>(core: Core<C>, before: Image<C>, after: Image<C>, n: nat, steps: seq<Stepped<C>>,
                                 mems: seq<Mem>, r: RunResult)
  {
    && AreSteps(core, before.cpu, before.mem, steps, mems) && after.mem == mems[|steps|]
    && Reports(core, before, after, n, steps, r)
  }

  /** A run ends like this by some steps. */
  ghost predicate HasSteps<C(!new)>(core: Core<C>, before: Image<C>, n: nat, end: (Image<C>, RunResult)) {
    exists steps, mems :: IsRun(core, before, end.0, n, steps, mems, end.1)
  }

  /** Every bounded run has its steps. */
  lemma RunHasSteps<C(!new)>(core: Core<C>, s: Image<C>, n: nat)
    requires Valid(s.mem) && NoMmio(core)
    ensures HasSteps(core, s, n, RunMachine(core, s, n))
  {
    var steps, mems := LegHasSteps(core, s.cpu, s.mem, n);
    StepsReport(core, s, n, steps, mems);
    var (after, r) := RunMachine(core, s, n);
    hide IsRun, RunMachine;
    assert IsRun(core, s, after, n, steps, mems, r);
  }

  lemma StepsReport<C(!new)>(core: Core<C>, s: Image<C>, n: nat, steps: seq<Stepped<C>>, mems: seq<Mem>)
    requires Valid(s.mem) && NoMmio(core) && AreStepsOf(core, s.cpu, s.mem, n, steps, mems, RunLeg(core, s.cpu, s.mem, n))
    ensures var (after, r) := RunMachine(core, s, n); IsRun(core, s, after, n, steps, mems, r)
  {
    hide AreSteps, RunLeg, Cycles, Valid, NoMmio;
  }

  // ---- segmentation ----

  /** A run that stops before its bound is not changed by a larger bound; one that reaches it goes on from there. */
  lemma {:induction false} LegsJoin<C(!new)>(core: Core<C>, cpu: C, mem: Mem, n: nat, m: nat)
    requires Valid(mem) && NoMmio(core)
    ensures var first := RunLeg(core, cpu, mem, n);
            RunLeg(core, cpu, mem, n + m) ==
            if first.stop.StepBound?
            then RunLeg(core, first.cpu, first.mem, m).After(first.steps, first.cycles)
            else first
    decreases n
  {
    hide ViewOf, PokeAll, Valid;
    if n > 0 {
      var s := core.step(cpu, ViewOf(mem));
      if s.outcome.Executed? && core.halt(s.core).None? {
        LegsJoin(core, s.core, AfterStores(s, mem), n - 1, m);
      }
    }
  }

  /**
   Running `n` steps and then at most `m` more is running at most `n + m`: the same core, memory and report.
   The counters agree as well exactly if the second part does not fault, or there was no first part: a fault
   throws away what its own run has counted, and only that.
   */
  lemma RunsJoin<C(!new)>(core: Core<C>, s: Image<C>, n: nat, m: nat)
    requires Valid(s.mem) && NoMmio(core) && RunLeg(core, s.cpu, s.mem, n).stop.StepBound?
    ensures var (half, _) := RunMachine(core, s, n);
            var (joined, whole) := (RunMachine(core, half, m), RunMachine(core, s, n + m));
            && joined.0.cpu == whole.0.cpu && joined.0.mem == whole.0.mem && joined.1 == whole.1
            && (joined.0 == whole.0 <==> !joined.1.CpuFault? || n == 0)
  {
    LegsJoin(core, s.cpu, s.mem, n, m);
  }

  // ---- only the view matters ----

  lemma {:induction false} LooksAlikeRunsAlike<C(!new)>(core: Core<C>, cpu: C, a: Mem, b: Mem, n: nat)
    requires Valid(a) && Valid(b) && NoMmio(core) && ViewOf(a) == ViewOf(b)
    ensures var (x, y) := (RunLeg(core, cpu, a, n), RunLeg(core, cpu, b, n));
            ViewOf(x.mem) == ViewOf(y.mem) && x.(mem := y.mem) == y
    decreases n
  {
    hide ViewOf, PokeAll, Valid;
    if n > 0 {
      var s := core.step(cpu, ViewOf(a));
      PokeAllKeeps(a, b, s.writes);
      if s.outcome.Executed? && core.halt(s.core).None? {
        LooksAlikeRunsAlike(core, s.core, PokeAll(a, s.writes), PokeAll(b, s.writes), n - 1);
      }
    }
  }

  lemma AlikeMachines<C(!new)>(core: Core<C>, a: Image<C>, b: Image<C>, n: nat)
    requires Valid(a.mem) && Valid(b.mem) && NoMmio(core) && ViewOf(a.mem) == ViewOf(b.mem) && a.(mem := b.mem) == b
    ensures var (x, y) := (RunMachine(core, a, n), RunMachine(core, b, n));
            x.1 == y.1 && ViewOf(x.0.mem) == ViewOf(y.0.mem) && x.0.(mem := y.0.mem) == y.0
  {
    LooksAlikeRunsAlike(core, a.cpu, a.mem, b.mem, n);
    hide ViewOf, RunLeg, Valid;
  }

  // ---- snapshots ----

  function TakeSnapshot<C>(core: Core<C>, s: Image<C>): Result<MachineSnapshot> {
    var blob :- core.save(s.cpu);
    Ok(MachineSnapshot(s.steps, s.cycles, blob, SnapRegions(s.mem)))
  }

  /**
   The core is restored first, so it stays restored even if the regions then turn out not to fit; a region
   that fails half way leaves the regions before it restored. The counters change only on success.
   */
  ghost function RestoreImage<C>(core: Core<C>, s: Image<C>, snap: MachineSnapshot): (Image<C>, bool) {
    match core.load(s.cpu, snap.cpu)
    case Err => (s, false)
    case Ok(cpu) =>
      if !OneToOne(s.mem, snap.regions) then (s.(cpu := cpu), false)
      else
        var (mem, ok) := RestoreRegions(s.mem, snap.regions);
        if ok then (Image(cpu, mem, snap.steps, snap.cycles), true) else (Image(cpu, mem, s.steps, s.cycles), false)
  }

  /**
   A snapshot of other regions is refused, and the machine is left as it was exactly if the core refuses
   the snapshot too or is already in the saved state.
   */
  lemma MismatchKeepsIff<C>(core: Core<C>, s: Image<C>, snap: MachineSnapshot)
    requires !OneToOne(s.mem, snap.regions)
    ensures var (left, ok) := RestoreImage(core, s, snap);
            && !ok && left.(cpu := s.cpu) == s
            && (left == s <==> core.load(s.cpu, snap.cpu).Err? || core.load(s.cpu, snap.cpu) == Ok(s.cpu))
  {
  }

  /** A core with one byte of state, which saves and loads it. */
  function ByteCore(): Core<Byte> {
    Core((c, v) => Stepped(c, [], Executed(1)), c => None, c => 0, c => [], c => Ok([c]),
         (c, blob) => if |blob| == 1 then Ok(blob[0]) else Err)
  }

  /** An instance: the snapshot of a machine without memory, restored on one with a region, fails and changes the core. */
  lemma RefusedSnapshotChangesCore(r: Region)
    requires r.Wf()
    ensures var core := ByteCore();
            var saved := TakeSnapshot(core, Image(7, [], 0, 0)).value;
            RestoreImage(core, Image(0, [r], 0, 0), saved) == (Image(7, [r], 0, 0), false)
  {
    assert KeyOf(r) in Keys([r]) by {
      assert Keys([r])[0] == KeyOf(r);
    }
    assert SavedKeys([]) == [];
  }

  /**
   Moving a run through a snapshot changes nothing. Machine `b`, whatever its memory and counters held, takes
   `a`'s snapshot if its core accepts the blob, its regions are `a`'s in any order and of the same kinds, and
   no read-only region of `a` holds anything but zeros; and then every bounded run reports the same on both,
   leaving the same core, counters and visible memory.
   */
  lemma SnapshotIsTransparent<C(!new)>(core: Core<C>, a: Image<C>, b: Image<C>, n: nat)
    requires Valid(a.mem) && Valid(b.mem) && NoMmio(core)
    requires core.save(a.cpu).Ok? && core.load(b.cpu, core.save(a.cpu).value) == Ok(a.cpu)
    requires OneToOne(b.mem, SnapRegions(a.mem)) && SameKinds(b.mem, a.mem)
    ensures var (restored, ok) := RestoreImage(core, b, TakeSnapshot(core, a).value);
            && Valid(restored.mem)
            && (ok <==> forall t :: 0 <= t < |a.mem| && a.mem[t].kind == Rom ==> AllZero(a.mem[t].bytes))
            && (ok ==>
                  var (x, y) := (RunMachine(core, a, n), RunMachine(core, restored, n));
                  && x.1 == y.1 && ViewOf(x.0.mem) == ViewOf(y.0.mem) && x.0.(mem := y.0.mem) == y.0)
  {
    hide OneToOne, SameKinds, RestoreRegions, SnapRegions, ViewOf, RunMachine, Valid, AllZero, Accepts;
    RestoreRoundTrip(b.mem, a.mem);
    RestoredLooksSaved(b.mem, a.mem);
    RomsAccept(b.mem, a.mem);
    var (mem, ok) := RestoreRegions(b.mem, SnapRegions(a.mem));
    if ok {
      AlikeMachines(core, a, Image(a.cpu, mem, a.steps, a.cycles), n);
    }
  }

  lemma {:induction false} RomsAccept(b: Mem, a: Mem)
    requires OneToOne(b, SnapRegions(a)) && SameKinds(b, a)
    ensures (forall t :: 0 <= t < |a| ==> Accepts(b, a[t]))
       <==> (forall t :: 0 <= t < |a| && a[t].kind == Rom ==> AllZero(a[t].bytes))
  {
    forall t | 0 <= t < |a| && a[t].kind == Rom
      ensures Accepts(b, a[t]) ==> AllZero(a[t].bytes)
    {
      var i := SavedRegion(b, a, t);
    }
  }

  /** Running `n` steps, saving, restoring elsewhere and running `m` more is running `n + m` in one go. */
  lemma SavedRunGoesOn<C(!new)>(core: Core<C>, a: Image<C>, b: Image<C>, n: nat, m: nat)
    requires Valid(a.mem) && Valid(b.mem) && NoMmio(core) && RunLeg(core, a.cpu, a.mem, n).stop.StepBound?
    requires var (half, _) := RunMachine(core, a, n);
             && core.save(half.cpu).Ok? && core.load(b.cpu, core.save(half.cpu).value) == Ok(half.cpu)
             && OneToOne(b.mem, SnapRegions(half.mem)) && SameKinds(b.mem, half.mem)
    ensures var (half, _) := RunMachine(core, a, n);
            var (restored, ok) := RestoreImage(core, b, TakeSnapshot(core, half).value);
            var whole := RunMachine(core, a, n + m);
            && Valid(restored.mem)
            && (ok && !whole.1.CpuFault? ==>
                  var end := RunMachine(core, restored, m);
                  && end.1 == whole.1 && ViewOf(end.0.mem) == ViewOf(whole.0.mem)
                  && end.0.(mem := whole.0.mem) == whole.0)
  {
    var (half, _) := RunMachine(core, a, n);
    RunsJoin(core, a, n, m);
    SnapshotIsTransparent(core, half, b, m);
  }

  // ---- the machine ----

  method StoreAll(mem: Mem, writes: seq<(nat, Byte)>) returns (next: Mem)
    ensures next == PokeAll(mem, writes)
  {
    next := mem;
    for i := 0 to |writes|
      invariant PokeAll(mem, writes) == PokeAll(next, writes[i..])
    {
      assert writes[i..][1..] == writes[i + 1..];
      next := Poke(next, writes[i].0, writes[i].1);
    }
  }

  /** Zeroes a region and writes the saved pages, stopping at the first that does not fit. */
  method WriteBack(r: Region, pages: seq<Page>) returns (next: Region, ok: bool)
    ensures (next, ok) == RestoreRegion(r, pages)
  {
    next := r.(bytes := Zeros(|r.bytes|));
    for i := 0 to |pages|
      invariant RestoreRegion(r, pages) == WritePages(next, pages[i..])
    {
      var (index, data) := pages[i];
      assert pages[i..][0] == pages[i] && pages[i..][1..] == pages[i + 1..];
      if index * PAGE + |data| > next.size {
        return next, false;
      }
      var written := WriteSlice(next, next.base + index * PAGE, data);
      if written.Err? {
        return next, false;
      }
      next := written.value;
    }
    ok := true;
  }

  /** Restores the region of the saved key. */
  method PutBack(mem: Mem, saved: RegionSnapshot) returns (next: Mem, ok: bool)
    ensures (next, ok) == RestoreOne(mem, saved)
  {
    var at := Find(mem, saved.key);
    if at.None? {
      return mem, false;
    }
    var region, written := WriteBack(mem[at.value], saved.pages);
    next, ok := mem[at.value := region], written;
  }

  lemma NothingToRestore(mem: Mem, saved: seq<RegionSnapshot>)
    ensures RestoreRegions(mem, saved[..0]) == (mem, true)
  {
  }

  class Machine<C(!new)> {
    const core: Core<C>
    const maxSteps: nat
    var cpu: C
    var mem: Mem
    var steps: nat
    var cycles: nat

    function State(): Image<C>
      reads this
    {
      Image(cpu, mem, steps, cycles)
    }

    constructor (core: Core<C>, cpu: C, mem: Mem, maxSteps: nat)
      ensures this.core == core && this.maxSteps == maxSteps && State() == Image(cpu, mem, 0, 0)
    {
      this.core, this.maxSteps := core, maxSteps;
      this.cpu, this.mem, steps, cycles := cpu, mem, 0, 0;
    }

    /** Runs until a halt, a trap, a fault or the bound. */
    method Run() returns (r: RunResult)
      requires Valid(mem) && NoMmio(core)
      modifies this
      ensures Valid(mem)
      ensures HasSteps(core, old(State()), maxSteps, (State(), r))
      ensures (State(), r) == RunMachine(core, old(State()), maxSteps)
    {
      hide ViewOf, Poke, PokeAll, RunLeg, NoMmio, HasSteps;
      RunHasSteps(core, State(), maxSteps);
      var runSteps, runCycles := 0, 0;
      ghost var start := RunLeg(core, cpu, mem, maxSteps);
      while runSteps < maxSteps
        invariant runSteps <= maxSteps && Valid(mem)
        invariant start == RunLeg(core, cpu, mem, maxSteps - runSteps).After(runSteps, runCycles)
        invariant steps == old(steps) && cycles == old(cycles)
      {
        LegStep(core, cpu, mem, maxSteps - runSteps);
        var s := core.step(cpu, ViewOf(mem));
        cpu := s.core;
        mem := StoreAll(mem, s.writes);
        match s.outcome {
          case Executed(c) =>
            runSteps, runCycles := runSteps + 1, runCycles + c;
            var halt := core.halt(cpu);
            if halt.Some? {
              steps, cycles := steps + runSteps, cycles + runCycles;
              return Ran(steps, cycles, halt.value.1, true, halt.value.0, halt.value.1, core.console(cpu));
            }
          case Trap(cause, tval) =>
            steps, cycles := steps + runSteps + 1, cycles + runCycles;
            return Ran(steps, cycles, core.pc(cpu), true, cause, tval, core.console(cpu));
          case Fault =>
            return CpuFault;
        }
      }
      LegEnd(core, cpu, mem);
      steps, cycles := steps + runSteps, cycles + runCycles;
      r := Ran(steps, cycles, core.pc(cpu), false, 0, 0, core.console(cpu));
    }

    /** Saves the core, every region and the counters; fails if the core cannot be saved. */
    method Save() returns (r: Result<MachineSnapshot>)
      ensures r == TakeSnapshot(core, State())
      ensures r.Ok? <==> core.save(cpu).Ok?
      ensures r.Ok? ==> r.value.steps == steps && r.value.cycles == cycles && r.value.cpu == core.save(cpu).value
    {
      var blob := core.save(cpu);
      if blob.Err? {
        return Err;
      }
      var regions := [];
      for i := 0 to |mem|
        invariant regions == SnapRegions(mem)[..i]
      {
        var pages := EncodePages(mem[i].bytes);
        regions := regions + [RegionSnapshot(KeyOf(mem[i]), pages)];
      }
      assert regions == SnapRegions(mem);
      r := Ok(MachineSnapshot(steps, cycles, blob.value, regions));
    }

    /** Restores a snapshot; says exactly what is left when it fails. */
    method Restore(snap: MachineSnapshot) returns (ok: bool)
      requires Valid(mem)
      modifies this
      ensures (State(), ok) == RestoreImage(core, old(State()), snap)
      ensures if ok then steps == snap.steps && cycles == snap.cycles else steps == old(steps) && cycles == old(cycles)
    {
      hide Valid, OneToOne, RestoreRegions, RestoreOne;
      var loaded := core.load(cpu, snap.cpu);
      if loaded.Err? {
        return false;
      }
      cpu := loaded.value;
      var paired := MatchRegions(mem, snap.regions);
      if !paired {
        return false;
      }
      NothingToRestore(mem, snap.regions);
      for i := 0 to |snap.regions|
        invariant cpu == loaded.value && steps == old(steps) && cycles == old(cycles)
        invariant (mem, true) == RestoreRegions(old(mem), snap.regions[..i])
      {
        var saved := snap.regions[i];
        RestoreNext(old(mem), snap.regions, i);
        RestoreFails(old(mem), snap.regions, i + 1);
        var restored, written := PutBack(mem, saved);
        mem := restored;
        if !written {
          return false;
        }
      }
      assert snap.regions[..|snap.regions|] == snap.regions;
      steps, cycles := snap.steps, snap.cycles;
      ok := true;
    }
  }
}

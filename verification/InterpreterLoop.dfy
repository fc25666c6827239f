/** `interpret`: the run loop with its calls out and its cycle accounting. */
module InterpreterLoop {
  import opened Words
  import opened Memory
  import opened Sh4Isa
  import opened Sh4Core
  import opened Sh4Interp

  const MAX_STRAIGHT_LINE: nat := 64
  const SLEEP_SLICE_CYCLES: nat := 512
  const SLEEP_MAX_SLICES: nat := 0x4_0000

  /** How a call of the loop ends. */
  datatype Ending =
    | Redirected                  // the scheduler, a trap or a callee sent execution elsewhere
    | HandedOver(target: Word)    // tail jump into compiled code
    | FrameDone                   // RTS
    | Threw                       // illegal or unmodelled instruction
    | OutOfBudget(straight: nat, cycles: nat)

  /** What the scheduler and callees get to see: the PC and the cycles of each tick; for each call the
      PC, the target, the cycles flushed before it, the processor's state, and how it came back; for
      each trap its number, its resume address and the cycles flushed. */
  datatype Event =
    | Tick(at: Word, spent: nat)
    | Called(at: Word, target: Word, pending: nat, cpu: Cpu, back: Word, redirected: bool)
    | Trapped(imm: nat, resume: Word, pending: nat)

  /** n slices of sleep at the resume address. */
  function Slices(resume: Word, n: nat): seq<Event> {
    if n == 0 then [] else Slices(resume, n - 1) + [Tick(resume, SLEEP_SLICE_CYCLES)]
  }

  /** `after` is `before` with one call: from where, to where, with what flushed, in which state. */
  ghost predicate CallLogged(before: seq<Event>, after: seq<Event>, at: Word, target: Word, pending: nat, cpu: Cpu) {
    && |after| > |before| && after[..|before|] == before
    && var c := after[|before|];
       c.Called? && c.at == at && c.target == target && c.pending == pending && c.cpu == cpu
  }

  /** A jump calls a compiled target and ticks at any other. */
  ghost predicate JumpLogged(before: seq<Event>, after: seq<Event>, at: Word, target: Word, compiled: set<Word>, pending: nat, cycles: nat, cpu: Cpu) {
    if target in compiled then |after| == |before| + 1 && CallLogged(before, after, at, target, pending + cycles, cpu)
    else after == before + [Tick(target, cycles)]
  }

  /** A delayed transfer, its slot executed: a return shows nothing, a call flushes and sets PR. */
  ghost predicate TransferLogged(before: seq<Event>, after: seq<Event>, at: Word, signal: Signal, compiled: set<Word>, pending: nat, cycles: nat, cpu: Cpu)
    requires signal.Slot?
  {
    match signal.transfer
    case Return => after == before
    case Call => CallLogged(before, after, at, signal.target, pending + cycles, cpu.(pr := signal.returnPc))
    case _ =>
      if signal.transfer == Jump || signal.taken then JumpLogged(before, after, at, signal.target, compiled, pending, cycles, cpu)
      else after == before + [Tick(Plus(at, 4), cycles)]
  }

  /** The state after the instruction in the delay slot. */
  ghost function AfterSlot(decode: Decoder, cpu: Cpu, at: Word): Cpu
    requires Fits(decode, |cpu.mem.ram|)
  {
    var pc := Plus(at, 2);
    Exec(decode, cpu, pc, Read16(decode, cpu.mem, pc), true).cpu
  }

  /** What one iteration shows, by the signal of its instruction; `slotted` is the state after the slot. */
  ghost predicate IterationLogged(before: seq<Event>, after: seq<Event>, at: Word, step: Step, slotted: Cpu,
                                  ended: bool, ending: Ending, compiled: set<Word>, pending: nat, cycles: nat, slept: int)
  {
    match step.signal
    case Branch(target, taken) =>
      if taken then JumpLogged(before, after, at, target, compiled, pending, cycles, step.cpu)
      else after == before + [Tick(Plus(at, 2), cycles)]
    case Slot(_, _, _, _) =>
      if ended && ending == Threw then after == before
      else TransferLogged(before, after, at, step.signal, compiled, pending, cycles + 1, slotted)
    case Sleep =>
      && 1 <= slept <= SLEEP_MAX_SLICES
      && ((ended && after == before + Slices(Plus(at, 2), slept))
          || after == before + Slices(Plus(at, 2), SLEEP_MAX_SLICES) + [Tick(Plus(at, 2), 1)])
    case Trap(imm) => ended && ending == Redirected && after == before + [Trapped(imm, Plus(at, 2), pending + cycles)]
    case _ => after == before
  }

  /** Where control goes after an instruction, if the frame goes on. */
  function Successor(at: Word, signal: Signal): Word {
    match signal
    case Branch(target, taken) => if taken then target else Plus(at, 2)
    case Slot(transfer, target, ret, taken) =>
      if transfer == Call then ret else if transfer != CondJump || taken then target else Plus(at, 4)
    case _ => Plus(at, 2)
  }

  /** An instruction of the frame: where it stood and what it asked for. */
  datatype Visit = Visit(at: Word, signal: Signal)

  /** From start to at, each instruction where the one before it led. */
  ghost predicate Path(visits: seq<Visit>, start: Word, at: Word) {
    if visits == [] then at == start
    else
      var n := |visits| - 1;
      at == Successor(visits[n].at, visits[n].signal) && Path(visits[..n], start, visits[n].at)
  }

  /** The instructions of a frame that was entered at start, n of them. */
  ghost predicate Chained(visits: seq<Visit>, start: Word, n: nat) {
    |visits| == n && (n > 0 ==> Path(visits[..n - 1], start, visits[n - 1].at))
  }

  predicate Returns(signal: Signal, target: Word) { signal.Slot? && signal.transfer == Return && signal.target == target }

  /** The last instruction was a return to target. */
  ghost predicate Ended(visits: seq<Visit>, target: Word) { visits != [] && Returns(visits[|visits| - 1].signal, target) }

  lemma NoVisits(start: Word)
    ensures Path([], start, start) && Chained([], start, 0)
  {
  }

  lemma VisitsOn(visits: seq<Visit>, start: Word, at: Word, signal: Signal, n: nat)
    requires Path(visits, start, at) && Chained(visits, start, n)
    ensures var more := visits + [Visit(at, signal)]; Chained(more, start, n + 1) && Path(more, start, Successor(at, signal))
    ensures forall target :: Returns(signal, target) ==> Ended(visits + [Visit(at, signal)], target)
  {
    assert (visits + [Visit(at, signal)])[..|visits|] == visits;
  }

  /** The parts of the runtime the loop shares with the scheduler. Ghost counters record what was
      executed and what was charged for it. */
  class Runtime {
    const core: Core
    const compiled: set<Word>
    const batch: nat
    var pc: Word
    var pending: nat
    var asyncRedirect: bool

    ghost var disturbed: nat        // scheduler passes that changed or redirected anything, calls, traps, sleeps
    ghost var log: seq<Event>
    ghost var handed: nat           // cycles given to the full scheduler tick
    ghost var executed: nat         // instructions executed, delay slots included
    ghost var emptyTicks: nat       // block ticks that had nothing to charge
    ghost var slices: nat           // SLEEP slices
    ghost var calleeCycles: nat     // cycles charged inside calls made by the loop
    ghost var sinceTick: nat        // instructions since the last tick or call return
    ghost var longest: nat          // the largest value sinceTick had

    ghost predicate Valid()
      reads this, core, core.r, core.ram
    {
      core.Valid() && batch >= 1
    }

    constructor (core: Core, compiled: set<Word>, batch: nat, pc: Word)
      requires core.Valid() && batch >= 1
      ensures Valid() && this.core == core && this.compiled == compiled && this.pc == pc && fresh(this)
      ensures Charged() == Due() == 0 && longest == sinceTick == 0
    {
      this.core, this.compiled, this.batch, this.pc := core, compiled, batch, pc;
      pending, asyncRedirect := 0, false;
      disturbed, log := 0, [];
      handed, executed, emptyTicks, slices, calleeCycles, sinceTick, longest := 0, 0, 0, 0, 0, 0, 0;
    }

    /** Cycles charged so far, whether or not the scheduler has seen them. */
    ghost function Charged(): nat
      reads this
    {
      handed + pending
    }

    /** What should have been charged. */
    ghost function Due(): nat
      reads this
    {
      executed + emptyTicks + SLEEP_SLICE_CYCLES * slices + calleeCycles
    }

    // ----- The scheduler and calls: code outside the interpreter, any effect on the machine

    /** A full scheduler pass: most leave processor, memory and PC alone; any other counts as a disturbance. */
    method TickFull() returns (redirect: bool)
      requires Valid()
      modifies this`pc, this`asyncRedirect, this`disturbed, core, core.r, core.ram
      ensures Valid() && disturbed >= old(disturbed)
      ensures disturbed == old(disturbed) ==>
                !redirect && core.State() == old(core.State()) && pc == old(pc) && asyncRedirect == old(asyncRedirect)
    {
      var quiet: bool := *;
      if quiet { return false; }
      modify core, core.r, core.ram;
      pc, asyncRedirect, redirect := *, *, *;
      disturbed := disturbed + 1;
    }

    /** dc_runtime_tick_fast: accumulate, and run the scheduler once a batch is full. */
    method TickFast(spent: nat) returns (redirect: bool)
      requires Valid()
      modifies this`pc, this`asyncRedirect, this`disturbed, this`log, this`pending, this`handed, core, core.r, core.ram
      ensures Valid() && disturbed >= old(disturbed)
      ensures log == old(log) + [Tick(old(pc), spent)]
      ensures Charged() == old(Charged()) + spent
      ensures if old(pending) + spent < batch then pending == old(pending) + spent && disturbed == old(disturbed)
              else pending == 0
      ensures disturbed == old(disturbed) ==>
                !redirect && core.State() == old(core.State()) && pc == old(pc) && asyncRedirect == old(asyncRedirect)
    {
      log := log + [Tick(pc, spent)];
      pending := pending + spent;
      if pending < batch { return false; }
      handed := handed + pending;
      pending := 0;
      redirect := TickFull();
    }

    /** call_recompiled: another frame runs and charges what it spends. */
    method CallRecompiled(target: Word)
      requires Valid()
      modifies this`pc, this`asyncRedirect, this`disturbed, this`log, this`pending, this`handed, this`calleeCycles,
               core, core.r, core.ram
      ensures Valid() && disturbed == old(disturbed) + 1
      ensures log == old(log) + [Called(old(pc), target, old(pending), old(core.State()), pc, asyncRedirect)]
      ensures calleeCycles >= old(calleeCycles) && Charged() - old(Charged()) == calleeCycles - old(calleeCycles)
    {
      ghost var at, cpu, flushed := pc, core.State(), pending;
      var x: int, y: int := *, *;
      var spent := if x >= 0 then x else 0;
      var left := if 0 <= y <= pending + spent then y else 0;
      calleeCycles := calleeCycles + spent;
      handed := handed + (pending + spent - left);
      pending := left;
      modify core, core.r, core.ram;
      pc, asyncRedirect := *, *;
      disturbed := disturbed + 1;
      log := log + [Called(at, target, flushed, cpu, pc, asyncRedirect)];
    }

    /** TRAPA's architectural exception entry: SSR/SPC/SGR, the trap registers and the vector. */
    method EnterTrap(imm: nat, resume: Word)
      requires Valid()
      modifies this`pc, this`asyncRedirect, this`disturbed, this`log, core, core.r, core.ram
      ensures Valid() && asyncRedirect && disturbed > old(disturbed)
      ensures log == old(log) + [Trapped(imm, resume, pending)]
    {
      log := log + [Trapped(imm, resume, pending)];
      modify core, core.r, core.ram;
      pc := *;
      asyncRedirect := true;
      disturbed := disturbed + 1;
    }

    // ----- The loop

    /** block_tick: publish the PC and charge the cycles since the last tick, at least one. */
    method BlockTick(at: Word, cycles: nat) returns (redirect: bool)
      requires Valid()
      modifies this, core, core.r, core.ram
      ensures Valid() && disturbed >= old(disturbed)
      ensures Charged() - Due() == old(Charged() - Due()) + cycles
      ensures sinceTick == 0 && longest == old(longest) && executed == old(executed)
      ensures slices == old(slices) && calleeCycles == old(calleeCycles)
      ensures emptyTicks == old(emptyTicks) + if cycles == 0 then 1 else 0
      ensures log == old(log) + [Tick(at, if cycles == 0 then 1 else cycles)]
      ensures disturbed == old(disturbed) ==> !redirect && core.State() == old(core.State()) && pc == at
    {
      pc := at;
      var spent := if cycles != 0 then cycles else 1;
      if cycles == 0 { emptyTicks := emptyTicks + 1; }
      sinceTick := 0;
      redirect := TickFast(spent);
    }

    /** Executing one instruction, in the loop or in a delay slot. */
    method Execute(at: Word, slot: bool) returns (signal: Signal)
      requires Valid()
      modifies this`executed, this`sinceTick, this`longest, core, core.r, core.ram
      ensures Valid()
      ensures var before := old(core.State());
              Step(core.State(), signal) == Exec(core.decode, before, at, Read16(core.decode, before.mem, at), slot)
      ensures executed == old(executed) + 1 && sinceTick == old(sinceTick) + 1
      ensures longest == if sinceTick > old(longest) then sinceTick else old(longest)
    {
      var op := core.Rd16(at);
      executed := executed + 1;
      sinceTick := sinceTick + 1;
      longest := if sinceTick > longest then sinceTick else longest;
      signal := core.ExecOne(at, op, slot);
    }

    /** SLEEP: tick in slices until something interrupts, at most SLEEP_MAX_SLICES times. */
    method SleepSlices(resume: Word) returns (redirect: bool)
      requires Valid()
      modifies this, core, core.r, core.ram
      ensures Valid() && disturbed > old(disturbed)
      ensures Charged() - Due() == old(Charged() - Due())
      ensures sinceTick <= old(sinceTick) && longest == old(longest) && executed == old(executed)
      ensures 1 <= slices - old(slices) <= SLEEP_MAX_SLICES && (!redirect ==> slices == old(slices) + SLEEP_MAX_SLICES)
      ensures log == old(log) + Slices(resume, slices - old(slices))
    {
      disturbed := disturbed + 1;
      for slice := 0 to SLEEP_MAX_SLICES
        invariant Valid() && disturbed > old(disturbed)
        invariant Charged() - Due() == old(Charged() - Due())
        invariant sinceTick <= old(sinceTick) && longest == old(longest) && executed == old(executed)
        invariant slices == old(slices) + slice
        invariant log == old(log) + Slices(resume, slices - old(slices))
      {
        pc := resume;
        slices := slices + 1;
        sinceTick := 0;
        redirect := TickFast(SLEEP_SLICE_CYCLES);
        if redirect { return; }
      }
      redirect := false;
    }

    /** flush_cycles: charge without asking the scheduler. */
    method Flush(cycles: nat)
      requires Valid()
      modifies this`pending
      ensures Valid() && Charged() == old(Charged()) + cycles
    {
      pending := pending + cycles;
    }

    /** jump_to: a compiled target takes over the rest of the path, any other is ticked and continued. */
    method JumpTo(from: Word, target: Word, cycles: nat) returns (ended: bool, ending: Ending)
      requires Valid() && cycles > 0
      modifies this, core, core.r, core.ram
      ensures Valid() && disturbed >= old(disturbed)
      ensures Charged() - Due() == old(Charged() - Due()) + cycles
      ensures longest == old(longest) && executed == old(executed) && (!ended ==> sinceTick == 0)
      ensures disturbed == old(disturbed) ==>
                emptyTicks == old(emptyTicks) && slices == old(slices) && calleeCycles == old(calleeCycles)
      ensures ended ==> ending == (if target in compiled then HandedOver(target) else Redirected) && disturbed > old(disturbed)
      ensures target in compiled ==> ended && disturbed == old(disturbed) + 1
      ensures JumpLogged(old(log), log, from, target, compiled, old(pending), cycles, old(core.State()))
      ensures disturbed == old(disturbed) ==>
                !ended && target !in compiled && core.State() == old(core.State()) && pc == target
    {
      if target in compiled {
        Flush(cycles);
        pc := from;
        CallRecompiled(target);
        return true, HandedOver(target);
      }
      ended := BlockTick(target, cycles);
      ending := Redirected;
    }

    /** A call from interpreted code: flush, run the callee, and go on only if it came back to ret. */
    method CallOut(from: Word, target: Word, ret: Word, cycles: nat) returns (ended: bool)
      requires Valid()
      modifies this, core, core.r, core.ram
      ensures Valid() && disturbed > old(disturbed)
      ensures Charged() - Due() == old(Charged() - Due()) + cycles
      ensures longest == old(longest) && executed == old(executed) && (!ended ==> sinceTick == 0)
      ensures CallLogged(old(log), log, from, target, old(pending) + cycles, old(core.State()).(pr := ret))
      ensures var c := log[|old(log)|];
              if c.redirected || c.back != ret then ended && |log| == |old(log)| + 1
              else log == old(log) + [c, Tick(ret, 1)]
    {
      Flush(cycles);
      pc := from;
      core.pr := ret;
      CallRecompiled(target);
      sinceTick := 0;
      if asyncRedirect || pc != ret { return true; }
      ended := BlockTick(ret, 0);
    }

    /** The outcome of an iteration, as the transition function would report it. */
    ghost function Report(ended: bool, ending: Ending, at: Word): Outcome
      requires core.Valid()
      reads this, core, core.r, core.ram
    {
      if !ended then Running(core.State(), at)
      else if ending.FrameDone? then Returned(core.State(), pc)
      else Stopped(core.State(), pc, Illegal)
    }

    /** The rest of an iteration whose instruction asked for a delay slot: execute it, then transfer. */
    method FinishTransfer(at: Word, signal: Signal, cycles: nat) returns (next: Word, ended: bool, ending: Ending)
      requires Valid() && signal.Slot? && cycles > 0
      modifies this, core, core.r, core.ram
      ensures Valid() && disturbed >= old(disturbed)
      ensures if ended && ending == Threw then Charged() - Due() == old(Charged() - Due()) - 1
              else Charged() - Due() == old(Charged() - Due()) + cycles
      ensures longest <= (if old(sinceTick) + 1 > old(longest) then old(sinceTick) + 1 else old(longest))
      ensures !ended ==> sinceTick == 0
      ensures ended ==> !ending.OutOfBudget? && (ending in {Threw, FrameDone} || disturbed > old(disturbed))
      ensures executed == old(executed) + 1
      ensures disturbed == old(disturbed) ==>
                emptyTicks == old(emptyTicks) && slices == old(slices) && calleeCycles == old(calleeCycles)
      ensures disturbed == old(disturbed) ==>
                var o := Dispatch(core.decode, compiled, at, Step(old(core.State()), signal));
                if ended && ending == Threw then o.Stopped? else o == Report(ended, ending, next)
      ensures |log| >= |old(log)|
      ensures if ended && ending == Threw then log == old(log)
              else TransferLogged(old(log), log, at, signal, compiled, old(pending), cycles + 1, AfterSlot(core.decode, old(core.State()), at))
      ensures ended && ending.HandedOver? ==>
                && disturbed == old(disturbed) + 1 && |log| == |old(log)| + 1 && log[|old(log)|].Called?
                && log[|old(log)|].target == ending.target
                && Dispatch(core.decode, compiled, at, Step(old(core.State()), signal)) == Handed(log[|old(log)|].cpu, ending.target)
      ensures ended && ending == FrameDone ==> signal.transfer == Return && pc == signal.target
      ensures !ended ==> next == Successor(at, signal)
    {
      hide Exec, Fits;
      next, ended, ending := at, false, Redirected;
      var slotSignal := Execute(Plus(at, 2), true);
      if slotSignal != Next { return at, true, Threw; }
      var cycles' := cycles + 1;
      if signal.transfer == Return {
        Flush(cycles');
        pc := signal.target;
        return at, true, FrameDone;
      } else if signal.transfer == Call {
        ended := CallOut(at, signal.target, signal.returnPc, cycles');
        next := signal.returnPc;
      } else if signal.transfer == Jump || signal.taken {
        ended, ending := JumpTo(at, signal.target, cycles');
        next := signal.target;
      } else {
        next := Plus(at, 4);
        ended := BlockTick(next, cycles');
      }
    }

    /** A branch without a delay slot. */
    method FinishBranch(at: Word, target: Word, taken: bool, cycles: nat) returns (next: Word, ended: bool, ending: Ending)
      requires Valid() && cycles > 0
      modifies this, core, core.r, core.ram
      ensures Valid() && disturbed >= old(disturbed) && |log| >= |old(log)|
      ensures Charged() - Due() == old(Charged() - Due()) + cycles
      ensures longest == old(longest) && executed == old(executed) && (!ended ==> sinceTick == 0)
      ensures ended ==> (ending == Redirected || ending == HandedOver(target)) && disturbed > old(disturbed)
      ensures next == if taken then target else Plus(at, 2)
      ensures disturbed == old(disturbed) ==>
                emptyTicks == old(emptyTicks) && slices == old(slices) && calleeCycles == old(calleeCycles)
      ensures var o := if taken then Sh4Interp.JumpTo(compiled, old(core.State()), target) else Running(old(core.State()), Plus(at, 2));
              && (disturbed == old(disturbed) ==> !ended && o == Running(core.State(), next))
              && (ended && ending.HandedOver? ==>
                    && disturbed == old(disturbed) + 1 && |log| == |old(log)| + 1 && log[|old(log)|].Called?
                    && log[|old(log)|].target == target && o == Handed(log[|old(log)|].cpu, target))
      ensures if taken then JumpLogged(old(log), log, at, target, compiled, old(pending), cycles, old(core.State()))
              else log == old(log) + [Tick(Plus(at, 2), cycles)]
    {
      ended, ending := false, Redirected;
      if taken {
        next := target;
        ended, ending := JumpTo(at, target, cycles);
      } else {
        next := Plus(at, 2);
        ended := BlockTick(next, cycles);
      }
    }

    /** SLEEP inside the loop. */
    method FinishSleep(at: Word, cycles: nat) returns (next: Word, ended: bool)
      requires Valid()
      modifies this, core, core.r, core.ram
      ensures Valid() && disturbed > old(disturbed)
      ensures Charged() - Due() == old(Charged() - Due()) + cycles
      ensures longest == old(longest) && executed == old(executed) && (!ended ==> sinceTick == 0)
      ensures |log| >= |old(log)|
      ensures next == Plus(at, 2) && 1 <= slices - old(slices) <= SLEEP_MAX_SLICES
      ensures (log == old(log) + Slices(next, slices - old(slices)) && ended)
              || (slices == old(slices) + SLEEP_MAX_SLICES
                  && log == old(log) + Slices(next, SLEEP_MAX_SLICES) + [Tick(next, 1)])
    {
      next := Plus(at, 2);
      Flush(cycles);
      ended := SleepSlices(next);
      if !ended { ended := BlockTick(next, 0); }
    }

    /** One pass through the loop after the straight-line check: fetch, execute, and act on the signal. */
    method Iterate(at: Word, cycles: nat, straight: nat) returns (next: Word, cycles': nat, straight': nat, ended: bool, ending: Ending, ghost signal: Signal)
      requires Valid() && sinceTick == straight < MAX_STRAIGHT_LINE && cycles == straight
      modifies this, core, core.r, core.ram
      ensures Valid() && disturbed >= old(disturbed)
      ensures var open := Charged() - Due() - old(Charged() - Due()) - cycles;
              if !ended then open + cycles' == 0 else if ending == Threw then -2 <= open + cycles <= 0 else open == 0
      ensures |log| >= |old(log)|
      ensures longest <= if old(longest) > 65 then old(longest) else 65
      ensures !ended ==> sinceTick == straight' <= MAX_STRAIGHT_LINE && cycles' == straight'
      ensures ended ==> !ending.OutOfBudget? && (ending in {Threw, FrameDone} || disturbed > old(disturbed))
      ensures executed == old(executed) + Weight(core.decode, old(core.State()), at)
      ensures disturbed == old(disturbed) ==>
                emptyTicks == old(emptyTicks) && slices == old(slices) && calleeCycles == old(calleeCycles)
      ensures disturbed == old(disturbed) ==>
                var o := InterpStep(core.decode, compiled, old(core.State()), at);
                if ended && ending == Threw then o.Stopped? else o == Report(ended, ending, next)
      ensures ended && ending.HandedOver? ==>
                && disturbed == old(disturbed) + 1 && |log| == |old(log)| + 1 && log[|old(log)|].Called?
                && log[|old(log)|].target == ending.target
                && InterpStep(core.decode, compiled, old(core.State()), at) == Handed(log[|old(log)|].cpu, ending.target)
      ensures signal == Exec(core.decode, old(core.State()), at, Read16(core.decode, old(core.State()).mem, at), false).signal
      ensures !ended ==> next == Successor(at, signal)
      ensures ended && ending == FrameDone ==> Returns(signal, pc)
      ensures var step := Exec(core.decode, old(core.State()), at, Read16(core.decode, old(core.State()).mem, at), false);
              IterationLogged(old(log), log, at, step, AfterSlot(core.decode, step.cpu, at), ended, ending, compiled,
                              old(pending), cycles + 1, slices - old(slices))
    {
      hide Exec, Fits, Dispatch, IterationLogged, AfterSlot;
      var asked := Execute(at, false);
      signal := asked;
      next, cycles', ended, ending := Act(at, asked, cycles + 1);
      straight' := cycles';
    }

    /** What follows the execution of an instruction. */
    method Act(at: Word, signal: Signal, cycles: nat) returns (next: Word, cycles': nat, ended: bool, ending: Ending)
      requires Valid() && 0 < cycles == sinceTick <= MAX_STRAIGHT_LINE
      modifies this, core, core.r, core.ram
      ensures Valid() && disturbed >= old(disturbed)
      ensures var open := Charged() - Due() - old(Charged() - Due());
              if !ended then open + cycles' == cycles else if ending == Threw then -1 <= open <= 0 else open == cycles
      ensures |log| >= |old(log)|
      ensures longest <= if old(longest) > 65 then old(longest) else 65
      ensures !ended ==> sinceTick == cycles' <= MAX_STRAIGHT_LINE
      ensures ended ==> !ending.OutOfBudget? && (ending in {Threw, FrameDone} || disturbed > old(disturbed))
      ensures executed == old(executed) + if signal.Slot? then 1 else 0
      ensures disturbed == old(disturbed) ==>
                emptyTicks == old(emptyTicks) && slices == old(slices) && calleeCycles == old(calleeCycles)
      ensures var o := Dispatch(core.decode, compiled, at, Step(old(core.State()), signal));
              && (disturbed == old(disturbed) ==> if ended && ending == Threw then o.Stopped? else o == Report(ended, ending, next))
              && (ended && ending.HandedOver? ==>
                    && disturbed == old(disturbed) + 1 && |log| == |old(log)| + 1 && log[|old(log)|].Called?
                    && log[|old(log)|].target == ending.target && o == Handed(log[|old(log)|].cpu, ending.target))
      ensures !ended ==> next == Successor(at, signal)
      ensures ended && ending == FrameDone ==> Returns(signal, pc)
      ensures IterationLogged(old(log), log, at, Step(old(core.State()), signal), AfterSlot(core.decode, old(core.State()), at),
                              ended, ending, compiled, old(pending), cycles, slices - old(slices))
    {
      hide Exec, Fits, JumpLogged, TransferLogged, CallLogged, AfterSlot, Slices;
      next, ended, ending := at, false, Redirected;
      cycles' := 0;
      match signal {
        case Next =>
          next := Plus(at, 2);
          cycles' := cycles;
        case Branch(target, taken) => next, ended, ending := FinishBranch(at, target, taken, cycles);
        case Slot(_, _, _, _) => next, ended, ending := FinishTransfer(at, signal, cycles);
        case Sleep => next, ended := FinishSleep(at, cycles);
        case Trap(imm) =>
          Flush(cycles);
          EnterTrap(imm, Plus(at, 2));
          ended := true;
        case Illegal => ended, ending := true, Threw;
        case Unmodelled => ended, ending := true, Threw;
      }
    }

    /** One turn of the loop: a tick if the straight line has become too long, then one pass, unless the
        tick redirected. */
    method Turn(at: Word, cycles: nat, straight: nat)
        returns (next: Word, cycles': nat, straight': nat, ended: bool, ending: Ending, ghost ran: bool, ghost signal: Signal)
      requires Valid() && sinceTick == straight == cycles <= MAX_STRAIGHT_LINE
      modifies this, core, core.r, core.ram
      ensures Valid() && disturbed >= old(disturbed) && |log| >= |old(log)|
      ensures var open := Charged() - Due() - old(Charged() - Due()) - cycles;
              if !ended then open + cycles' == 0 else if ending == Threw then -65 <= open <= 0 else open == 0
      ensures longest <= if old(longest) > 65 then old(longest) else 65
      ensures !ended ==> sinceTick == straight' == cycles' <= MAX_STRAIGHT_LINE
      ensures ended ==> !ending.OutOfBudget? && (ending in {Threw, FrameDone} || disturbed > old(disturbed))
      ensures !ran ==> ended && ending == Redirected
      ensures ran ==> (!ended ==> next == Successor(at, signal)) && (ended && ending == FrameDone ==> Returns(signal, pc))
      ensures disturbed == old(disturbed) ==>
                && ran && Due() == old(Due()) + Weight(core.decode, old(core.State()), at)
                && var o := InterpStep(core.decode, compiled, old(core.State()), at);
                   if ended && ending == Threw then o.Stopped? else o == Report(ended, ending, next)
      ensures ended && ending.HandedOver? ==>
                && |log| > |old(log)| && log[|log| - 1].Called? && log[|log| - 1].target == ending.target
                && (disturbed == old(disturbed) + 1 ==>
                      InterpStep(core.decode, compiled, old(core.State()), at) == Handed(log[|log| - 1].cpu, ending.target))
    {
      hide Fits, InterpStep, Weight, Exec, IterationLogged, AfterSlot, Successor, Returns;
      next, cycles', straight' := at, cycles, straight;
      if straight >= MAX_STRAIGHT_LINE {
        ended := BlockTick(at, cycles);
        cycles', straight' := 0, 0;
        if ended { return at, 0, 0, true, Redirected, false, Next; }
      }
      next, cycles', straight', ended, ending, signal := Iterate(at, cycles', straight');
      ran := true;
    }

    /** What the loop has established when it gives up control, whichever way. */
    twostate predicate Accounted(ending: Ending)
      reads this, core, core.r, core.ram
    {
      var open := Charged() - Due() - old(Charged() - Due());
      match ending
      case OutOfBudget(straight, cycles) => open + cycles == 0
      case Threw => -65 <= open <= 0
      case _ => open == 0
    }

    /** The loop: conserves cycles, never runs more than 65 instructions between two ticks of its
        frame, and, as long as the scheduler disturbs nothing, is exactly `InterpRun`: it returns where
        that returns, stops where that stops, and charges one cycle per instruction and one for its
        entry tick. */
    method Interpret(budget: nat) returns (ending: Ending, ghost steps: nat, ghost visits: seq<Visit>)
      requires Valid()
      modifies this, core, core.r, core.ram
      ensures Valid() && Accounted(ending) && disturbed >= old(disturbed)
      ensures longest <= if old(longest) > 65 then old(longest) else 65
      ensures disturbed == old(disturbed) ==>
                Ends(InterpRun(core.decode, compiled, old(core.State()), old(pc), steps), ending, budget, steps)
      ensures ending.HandedOver? ==>
                && |log| > |old(log)| && log[|log| - 1].Called? && log[|log| - 1].target == ending.target
                && (disturbed == old(disturbed) + 1 ==>
                      InterpRun(core.decode, compiled, old(core.State()), old(pc), steps) == Handed(log[|log| - 1].cpu, ending.target))
      ensures Chained(visits, old(pc), steps) && (ending.FrameDone? ==> Ended(visits, pc))
      ensures disturbed == old(disturbed) && ending.FrameDone? ==>
                Charged() == old(Charged()) + 1 + Instructions(core.decode, compiled, old(core.State()), old(pc), steps)
    {
      hide Fits, InterpRun, InterpStep, Instructions, Weight, Exec, IterationLogged, AfterSlot, Path, Chained, Returns, Ended, Successor;
      ghost var start, entry := core.State(), pc;
      var at := pc;
      var cycles: nat, straight: nat := 0, 0;
      steps, visits := 0, [];
      NoVisits(pc);
      NoRun(core.decode, compiled, start, entry);
      var ended := BlockTick(at, 0);
      if ended { return Redirected, steps, visits; }
      var left := budget;
      while left > 0
        invariant Valid() && disturbed >= old(disturbed) && left + steps == budget && left >= 0
        invariant |log| >= |old(log)|
        invariant Chained(visits, entry, steps) && Path(visits, entry, at)
        invariant Charged() - Due() - old(Charged() - Due()) + cycles == 0
        invariant sinceTick == straight <= MAX_STRAIGHT_LINE && cycles == straight
        invariant longest <= if old(longest) > 65 then old(longest) else 65
        invariant disturbed == old(disturbed) ==>
                    InterpRun(core.decode, compiled, start, entry, steps) == Running(core.State(), at)
        invariant disturbed == old(disturbed) ==>
                    Due() == old(Due()) + 1 + Instructions(core.decode, compiled, start, entry, steps)
      {
        left := left - 1;
        ghost var before, from, calm := core.State(), at, disturbed == old(disturbed);
        ghost var ran: bool, signal: Signal;
        at, cycles, straight, ended, ending, ran, signal := Turn(at, cycles, straight);
        if ran {
          VisitsOn(visits, entry, from, signal, steps);
          visits, steps := visits + [Visit(from, signal)], steps + 1;
        }
        if calm && ran {
          RunOneMore(core.decode, compiled, start, entry, steps - 1, before, from);
        }
        if ended { return ending, steps, visits; }
      }
      return OutOfBudget(straight, cycles), steps, visits;
    }

    /** How the transition function's outcome after `steps` iterations answers to the loop's ending. */
    ghost predicate Ends(o: Outcome, ending: Ending, budget: nat, steps: nat)
      requires core.Valid()
      reads this, core, core.r, core.ram
    {
      match ending
      case FrameDone => o == Returned(core.State(), pc)
      case Threw => o.Stopped?
      case OutOfBudget(_, _) => o.Running? && steps == budget
      case _ => false
    }
  }
}

/** The run loop of the interpreter as a transition function, for stretches in which the
    scheduler does not redirect execution. `InterpreterLoop` proves the loop itself, with its
    cycle accounting, equal to this. */
module Sh4Interp {
  import opened Words
  import opened Memory
  import opened Sh4Isa

  datatype Outcome =
    | Running(cpu: Cpu, pc: Word)
    | Returned(cpu: Cpu, pc: Word)               // RTS: the frame is finished
    | Handed(cpu: Cpu, target: Word)             // jump to an address that has compiled code
    | Stopped(cpu: Cpu, pc: Word, signal: Signal) // call, SLEEP, TRAPA, illegal, not modelled

  function JumpTo(compiled: set<Word>, cpu: Cpu, target: Word): Outcome {
    if target in compiled then Handed(cpu, target) else Running(cpu, target)
  }

  /** What the loop does with the signal of the instruction it executed at pc. */
  function Dispatch(decode: Decoder, compiled: set<Word>, pc: Word, step: Step): (o: Outcome)
    requires Fits(decode, |step.cpu.mem.ram|)
    ensures |o.cpu.mem.ram| == |step.cpu.mem.ram|
  {
    match step.signal
    case Next => Running(step.cpu, Plus(pc, 2))
    case Branch(target, taken) =>
      if taken then JumpTo(compiled, step.cpu, target) else Running(step.cpu, Plus(pc, 2))
    case Slot(transfer, target, returnPc, taken) =>
      var slotPc := Plus(pc, 2);
      var slot := Exec(decode, step.cpu, slotPc, Read16(decode, step.cpu.mem, slotPc), true);
      if slot.signal != Next then Stopped(slot.cpu, pc, Illegal)
      else (match transfer
            case Return => Returned(slot.cpu, target)
            case Jump => JumpTo(compiled, slot.cpu, target)
            case CondJump => if taken then JumpTo(compiled, slot.cpu, target) else Running(slot.cpu, Plus(pc, 4))
            case Call => Stopped(slot.cpu, pc, step.signal))
    case _ => Stopped(step.cpu, pc, step.signal)
  }

  function InterpStep(decode: Decoder, compiled: set<Word>, cpu: Cpu, pc: Word): (o: Outcome)
    requires Fits(decode, |cpu.mem.ram|)
    ensures |o.cpu.mem.ram| == |cpu.mem.ram|
  {
    Dispatch(decode, compiled, pc, Exec(decode, cpu, pc, Read16(decode, cpu.mem, pc), false))
  }

  /** At most n iterations of the loop. */
  function InterpRun(decode: Decoder, compiled: set<Word>, cpu: Cpu, pc: Word, n: nat): (o: Outcome)
    requires Fits(decode, |cpu.mem.ram|)
    ensures |o.cpu.mem.ram| == |cpu.mem.ram|
    decreases n
  {
    if n == 0 then Running(cpu, pc)
    else
      var o := InterpStep(decode, compiled, cpu, pc);
      if o.Running? then InterpRun(decode, compiled, o.cpu, o.pc, n - 1) else o
  }

  /** Instructions one iteration executes: a delayed transfer brings its slot along. */
  function Weight(decode: Decoder, cpu: Cpu, pc: Word): nat
    requires Fits(decode, |cpu.mem.ram|)
  {
    if Exec(decode, cpu, pc, Read16(decode, cpu.mem, pc), false).signal.Slot? then 2 else 1
  }

  /** Instructions executed by those iterations. */
  function Instructions(decode: Decoder, compiled: set<Word>, cpu: Cpu, pc: Word, n: nat): nat
    requires Fits(decode, |cpu.mem.ram|)
    decreases n
  {
    if n == 0 then 0
    else
      var o := InterpStep(decode, compiled, cpu, pc);
      Weight(decode, cpu, pc) + if o.Running? then Instructions(decode, compiled, o.cpu, o.pc, n - 1) else 0
  }

  /** Runs, and their instruction counts, compose. */
  lemma {:induction false} InterpRunAdd(decode: Decoder, compiled: set<Word>, cpu: Cpu, pc: Word, a: nat, b: nat)
    requires Fits(decode, |cpu.mem.ram|)
    ensures var mid := InterpRun(decode, compiled, cpu, pc, a);
            && InterpRun(decode, compiled, cpu, pc, a + b)
               == (if mid.Running? then InterpRun(decode, compiled, mid.cpu, mid.pc, b) else mid)
            && Instructions(decode, compiled, cpu, pc, a + b)
               == Instructions(decode, compiled, cpu, pc, a)
                  + if mid.Running? then Instructions(decode, compiled, mid.cpu, mid.pc, b) else 0
    decreases a
  {
    hide InterpStep, Weight, Fits;
    if a > 0 {
      var o := InterpStep(decode, compiled, cpu, pc);
      if o.Running? {
        InterpRunAdd(decode, compiled, o.cpu, o.pc, a - 1, b);
      }
    }
  }

  /** A run that has stopped stays as it is: two finished runs of the same start agree. */
  lemma FinishedRunsAgree(decode: Decoder, compiled: set<Word>, cpu: Cpu, pc: Word, a: nat, b: nat)
    requires Fits(decode, |cpu.mem.ram|)
    requires !InterpRun(decode, compiled, cpu, pc, a).Running?
    ensures a <= b || !InterpRun(decode, compiled, cpu, pc, b).Running? ==>
              InterpRun(decode, compiled, cpu, pc, b) == InterpRun(decode, compiled, cpu, pc, a)
              && Instructions(decode, compiled, cpu, pc, b) == Instructions(decode, compiled, cpu, pc, a)
  {
    hide InterpRun, Instructions, Fits;
    if a <= b {
      InterpRunAdd(decode, compiled, cpu, pc, a, b - a);
    } else {
      InterpRunAdd(decode, compiled, cpu, pc, b, a - b);
    }
  }

  lemma NoRun(decode: Decoder, compiled: set<Word>, cpu: Cpu, pc: Word)
    requires Fits(decode, |cpu.mem.ram|)
    ensures InterpRun(decode, compiled, cpu, pc, 0) == Running(cpu, pc)
    ensures Instructions(decode, compiled, cpu, pc, 0) == 0
  {
  }

  /** One more iteration. */
  lemma RunOneMore(decode: Decoder, compiled: set<Word>, start: Cpu, entry: Word, n: nat, cpu: Cpu, pc: Word)
    requires Fits(decode, |start.mem.ram|) && Fits(decode, |cpu.mem.ram|)
    requires InterpRun(decode, compiled, start, entry, n) == Running(cpu, pc)
    ensures InterpRun(decode, compiled, start, entry, n + 1) == InterpStep(decode, compiled, cpu, pc)
    ensures Instructions(decode, compiled, start, entry, n + 1)
            == Instructions(decode, compiled, start, entry, n) + Weight(decode, cpu, pc)
  {
    hide InterpStep, Weight, Fits;
    InterpRunAdd(decode, compiled, start, entry, n, 1);
    var o := InterpStep(decode, compiled, cpu, pc);
    if o.Running? {
      NoRun(decode, compiled, o.cpu, o.pc);
    }
  }
}

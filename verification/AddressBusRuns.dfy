/** `_memTestAddressBus` on the runtime, scheduler ticks and all: through the interpreter's loop and
    as generated code. */
module AddressBusRuns {
  import opened Words
  import opened Memory
  import opened Sh4Isa
  import opened Sh4Interp
  import opened InterpreterLoop
  import opened AddressBusProgram
  import opened RecompiledFunction
  import opened TranslationValidation

  /** The interpreter's loop, entered at the function and undisturbed by the scheduler, ends the frame
      given budget enough, in the state of the generated function and for its cycles. */
  method InterpretText(rt: Runtime, budget: nat) returns (ending: Ending, ghost needed: nat)
    requires rt.Valid() && rt.compiled == {} && rt.pc == TEXT && Guarded(rt.core.decode, rt.core.State(), B80)
    modifies rt, rt.core, rt.core.r, rt.core.ram
    ensures rt.Valid() && rt.disturbed >= old(rt.disturbed)
    ensures InterpRun(rt.core.decode, {}, old(rt.core.State()), TEXT, needed).Returned?
    ensures rt.disturbed == old(rt.disturbed) ==> ending.FrameDone? || (ending.OutOfBudget? && budget < needed)
    ensures rt.disturbed == old(rt.disturbed) && ending.FrameDone? ==>
              var decode, cpu := rt.core.decode, old(rt.core.State());
              && rt.core.State() == Recompiled(decode, cpu, B80) && rt.pc == cpu.pr
              && rt.Charged() == old(rt.Charged()) + RecompiledCycles(decode, cpu, B80)
  {
    hide InterpRun, Instructions, Recompiled, RecompiledCycles, Fits;
    ghost var cpu := rt.core.State();
    needed := ValidatedFrom(rt.core.decode, cpu);
    ghost var steps, visits;
    ending, steps, visits := rt.Interpret(budget);
    FinishedRunsAgree(rt.core.decode, {}, cpu, TEXT, needed, steps);
  }

  lemma ValidatedFrom(decode: Decoder, cpu: Cpu) returns (n: nat)
    requires Fits(decode, |cpu.mem.ram|) && Guarded(decode, cpu, B80)
    ensures InterpRun(decode, {}, cpu, TEXT, n) == Returned(Recompiled(decode, cpu, B80), cpu.pr)
    ensures 1 + Instructions(decode, {}, cpu, TEXT, n) == RecompiledCycles(decode, cpu, B80)
  {
    hide InterpRun, Instructions, Recompiled, RecompiledCycles, Fits, TextLoaded, MissesText, WalkMissesText;
    n := TranslationValidated(decode, cpu);
  }

  /** The function behaves the same whether it was recompiled or not: on two runtimes that start alike,
      one without compiled code, undisturbed runs that finish leave the same state, PC and charge. */
  method BothWays(interpreted: Runtime, recompiled: Runtime, budget: nat) returns (ending: Ending, finished: bool)
    requires interpreted.Valid() && recompiled.Valid()
    requires {interpreted, interpreted.core, interpreted.core.r, interpreted.core.ram}
             !! {recompiled, recompiled.core, recompiled.core.r, recompiled.core.ram}
    requires interpreted.compiled == {} && interpreted.pc == recompiled.pc == TEXT
    requires interpreted.core.decode == recompiled.core.decode && interpreted.core.State() == recompiled.core.State()
    requires Guarded(interpreted.core.decode, interpreted.core.State(), B80)
    modifies interpreted, interpreted.core, interpreted.core.r, interpreted.core.ram
    modifies recompiled, recompiled.core, recompiled.core.r, recompiled.core.ram
    ensures interpreted.Valid() && recompiled.Valid()
    ensures interpreted.disturbed == old(interpreted.disturbed) && recompiled.disturbed == old(recompiled.disturbed)
            && ending.FrameDone? && finished ==>
              && interpreted.core.State() == recompiled.core.State()
              && interpreted.pc == recompiled.pc
              && interpreted.Charged() - old(interpreted.Charged()) == recompiled.Charged() - old(recompiled.Charged())
  {
    hide Recompiled, RecompiledCycles, Fits, Guarded, InterpRun, Spent;
    ghost var needed;
    ending, needed := InterpretText(interpreted, budget);
    finished := RunGenerated(recompiled, budget);
  }

  /** The two ways combined: the interpreter starts at label b, meets a label that is registered as
      compiled and hands over; the generated code goes on from there. Undisturbed, state, PC and cycles
      are those of the generated function from b on. */
  method HandedOver(rt: Runtime, budget: nat, ghost start: Cpu, ghost b: Block, ghost n: nat) returns (finished: bool)
    requires rt.Valid() && |start.mem.ram| == rt.core.ram.Length && Guarded(rt.core.decode, start, b)
    requires InterpRun(rt.core.decode, rt.compiled, start, Label(b), n) == Handed(rt.core.State(), rt.pc)
    modifies rt, rt.core, rt.core.r, rt.core.ram
    ensures rt.Valid() && rt.disturbed >= old(rt.disturbed)
    ensures rt.disturbed == old(rt.disturbed) && finished ==>
              var decode := rt.core.decode;
              && rt.core.State() == Recompiled(decode, start, b) && rt.pc == start.pr
              && Instructions(decode, rt.compiled, start, Label(b), n) + rt.Charged() - old(rt.Charged())
                 == RecompiledCycles(decode, start, b)
  {
    hide InterpRun, Instructions, Recompiled, RecompiledCycles, Fits, Guarded, Spent, Label, EntryOf;
    ghost var t := HandOverTarget(rt.core.decode, rt.compiled, start, b, n, rt.core.State(), rt.pc);
    finished := RunGenerated(rt, budget);
  }

  /** Where a hand-over lands: at a label, with the rest of the generated computation to do. */
  lemma HandOverTarget(decode: Decoder, compiled: set<Word>, start: Cpu, b: Block, n: nat, cpu: Cpu, target: Word) returns (t: Block)
    requires Fits(decode, |start.mem.ram|) && Guarded(decode, start, b)
    requires InterpRun(decode, compiled, start, Label(b), n) == Handed(cpu, target)
    ensures Fits(decode, |cpu.mem.ram|) && Label(t) == target && target in compiled
    ensures Recompiled(decode, cpu, t) == Recompiled(decode, start, b) && cpu.pr == start.pr
    ensures Instructions(decode, compiled, start, Label(b), n) + RecompiledCycles(decode, cpu, t) == RecompiledCycles(decode, start, b)
  {
    hide InterpRun, Instructions, RecompiledCycles, Fits, Guarded, Label, RunBlock, OuterBits, InnerBits;
    var k := InterpretedEqualsRecompiled(decode, compiled, start, b);
    FinishedRunsAgree(decode, compiled, start, Label(b), n, k);
    t :| Label(t) == target && Recompiled(decode, cpu, t) == Recompiled(decode, start, b)
         && Instructions(decode, compiled, start, Label(b), k) + RecompiledCycles(decode, cpu, t) == RecompiledCycles(decode, start, b);
  }
}

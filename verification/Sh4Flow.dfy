/** Branches, calls and counted loops on the SH-4. */
module Sh4Flow {
  import opened Options
  import opened Words
  import opened Memory
  import opened Sh4Isa
  import opened Sh4Program
  import opened Sh4Interp
  import opened Sh4Laws
  import opened Sh4Access

  // ----- Delay slots

  /** Instructions that must not stand in a delay slot: those that transfer, trap or sleep. */
  predicate Transfers(signal: Signal) { signal.Branch? || signal.Slot? || signal.Sleep? || signal.Trap? || signal.Illegal? }

  /** In a delay slot exactly these are illegal, and change nothing; every other instruction does what
      it does elsewhere. */
  lemma SlotExact(decode: Decoder, cpu: Cpu, pc: Word, op: Half)
    requires Fits(decode, |cpu.mem.ram|)
    ensures var there, here := Exec(decode, cpu, pc, op, false), Exec(decode, cpu, pc, op, true);
            here == if Transfers(there.signal) then Step(cpu, Illegal) else there
  {
    hide Read32, Read16, Write32, Plus, Minus, Times, Wrap, Exec0, Exec2, Exec3, Exec4, Exec6, Exec8, ExecC;
    SlotGroups(decode, cpu, pc, op);
    SlotGroup0(decode, cpu, pc, op);
    SlotGroup4(decode, cpu, pc, op);
    SlotGroups8C(cpu, pc, op);
  }

  lemma SlotGroups(decode: Decoder, cpu: Cpu, pc: Word, op: Half)
    requires Fits(decode, |cpu.mem.ram|)
    ensures !Transfers(Exec2(decode, cpu, op).signal) && !Transfers(Exec3(cpu, op).signal) && !Transfers(Exec6(decode, cpu, op).signal)
  {
    hide Read32, Read16, Write32, MacL, MacW, Div1, Div0s, Rotcl, Rotcr, Addc, Subc, Negc, And, Plus, Minus, Times, Wrap;
  }

  lemma SlotGroup0(decode: Decoder, cpu: Cpu, pc: Word, op: Half)
    requires Fits(decode, |cpu.mem.ram|)
    ensures var there, here := Exec0(decode, cpu, pc, op, false), Exec0(decode, cpu, pc, op, true);
            here == if Transfers(there.signal) then Step(cpu, Illegal) else there
  {
    hide Read32, Write32, MacL, Plus, Minus, Times, Wrap;
  }

  lemma SlotGroup4(decode: Decoder, cpu: Cpu, pc: Word, op: Half)
    requires Fits(decode, |cpu.mem.ram|)
    ensures var there, here := Exec4(decode, cpu, pc, op, false), Exec4(decode, cpu, pc, op, true);
            here == if Transfers(there.signal) then Step(cpu, Illegal) else there
  {
    hide Read32, Write32, MacW, Rotcl, Rotcr, Plus, Minus, Times, Wrap;
  }

  lemma SlotGroups8C(cpu: Cpu, pc: Word, op: Half)
    ensures var there, here := Exec8(cpu, pc, op, false), Exec8(cpu, pc, op, true);
            here == if Transfers(there.signal) then Step(cpu, Illegal) else there
    ensures var there, here := ExecC(cpu, pc, op, false), ExecC(cpu, pc, op, true);
            here == if Transfers(there.signal) then Step(cpu, Illegal) else there
  {
    hide And, Plus, Minus, Times, Wrap;
  }

  // ----- Branches

  /** BT, BF, BT/S and BF/S: two times the signed displacement from the next-but-one instruction, on T
      set or clear; the last two with a delay slot. */
  lemma ConditionalBranches(decode: Decoder, cpu: Cpu, pc: Word, i: nat)
    requires Fits(decode, |cpu.mem.ram|) && i < 0x100
    ensures var target := Wrap(pc as int + 4 + 2 * SignedByte(i));
            && Exec(decode, cpu, pc, 0x8900 + i, false) == Step(cpu, Branch(target, cpu.sr.t))
            && Exec(decode, cpu, pc, 0x8B00 + i, false) == Step(cpu, Branch(target, !cpu.sr.t))
            && Exec(decode, cpu, pc, 0x8D00 + i, false) == Step(cpu, Slot(CondJump, target, 0, cpu.sr.t))
            && Exec(decode, cpu, pc, 0x8F00 + i, false) == Step(cpu, Slot(CondJump, target, 0, !cpu.sr.t))
  {
    hide Wrap, Exec0, Exec2, Exec3, Exec4, Exec6, ExecC, Read32, Read16, Write32;
    ConditionalFields(0x9, i);
    ConditionalFields(0xB, i);
    ConditionalFields(0xD, i);
    ConditionalFields(0xF, i);
    BackAround(pc as int + 4, 2, if i < 0x80 then 0 else 1, i);
  }

  lemma ConditionalFields(k: nat, i: nat)
    requires k < 0x10 && i < 0x100
    ensures var op := 0x8000 + 0x100 * k + i; op / 0x1000 == 8 && FieldN(op) == k && op % 0x100 == i
  {
    var op := 0x8000 + 0x100 * k + i;
    DivModUnique(op, 0x1000, 8, 0x100 * k + i);
    DivModUnique(op, 0x100, 0x80 + k, i);
    DivModUnique(0x80 + k, 0x10, 8, k);
  }

  /** A sign-extended displacement, added modulo 2^32, is the signed one. */
  lemma BackAround(x: int, factor: int, k: int, i: int)
    ensures Wrap(x + (i + TWO_32 * k) * factor) == Wrap(x + factor * i)
    ensures Wrap(x + (i - 0x100 * k + TWO_32 * k) * factor) == Wrap(x + factor * (i - 0x100 * k))
  {
    WholeTurns(x + factor * i, k * factor);
    WholeTurns(x + factor * (i - 0x100 * k), k * factor);
    assert (i + TWO_32 * k) * factor == factor * i + TWO_32 * (k * factor);
    assert (i - 0x100 * k + TWO_32 * k) * factor == factor * (i - 0x100 * k) + TWO_32 * (k * factor);
  }

  lemma WholeTurns(x: int, k: int)
    ensures Wrap(x + TWO_32 * k) == Wrap(x)
  {
    var q := x / TWO_32;
    assert x == TWO_32 * q + Wrap(x);
    DivModUnique(x + TWO_32 * k, TWO_32, q + k, Wrap(x));
  }

  function SignedTwelve(d: nat): int
    requires d < 0x1000
  {
    if d < 0x800 then d else d - 0x1000
  }

  /** BRA and BSR: twelve-bit displacements; BSR leaves the return address in PR. */
  lemma LongBranches(decode: Decoder, cpu: Cpu, pc: Word, d: nat)
    requires Fits(decode, |cpu.mem.ram|) && d < 0x1000
    ensures var target, ret := Wrap(pc as int + 4 + 2 * SignedTwelve(d)), Wrap(pc as int + 4);
            && Exec(decode, cpu, pc, 0xA000 + d, false) == Step(cpu, Slot(Jump, target, 0, true))
            && Exec(decode, cpu, pc, 0xB000 + d, false) == Step(cpu.(pr := ret), Slot(Call, target, ret, true))
  {
    hide Wrap, Exec0, Exec2, Exec3, Exec4, Exec6, Exec8, ExecC, Read32, Read16, Write32;
    var k := if d < 0x800 then 0 else 1;
    WholeTurns(pc as int + 4 + 2 * SignedTwelve(d), 2 * k);
    assert (0xA000 + d) % 0x1000 == d && (0xB000 + d) % 0x1000 == d && (0xA000 + d) / 0x1000 == 0xA && (0xB000 + d) / 0x1000 == 0xB;
  }

  /** BRAF, BSRF, JMP, JSR and RTS: targets in registers, relative or absolute, or in PR. */
  lemma RegisterBranches(decode: Decoder, cpu: Cpu, pc: Word, n: RegIndex)
    requires Fits(decode, |cpu.mem.ram|)
    ensures var far, ret := Wrap(pc as int + 4 + cpu.r[n] as int), Wrap(pc as int + 4);
            && Exec(decode, cpu, pc, Op1(0x0023, n), false) == Step(cpu, Slot(Jump, far, 0, true))
            && Exec(decode, cpu, pc, Op1(0x0003, n), false) == Step(cpu.(pr := ret), Slot(Call, far, ret, true))
            && Exec(decode, cpu, pc, Op1(0x402B, n), false) == Step(cpu, Slot(Jump, cpu.r[n], 0, true))
            && Exec(decode, cpu, pc, Op1(0x400B, n), false) == Step(cpu.(pr := ret), Slot(Call, cpu.r[n], ret, true))
            && Exec(decode, cpu, pc, 0x000B, false) == Step(cpu, Slot(Return, cpu.pr, 0, true))
  {
    hide Wrap, Op1, Rotcl, Rotcr, Times, MacL, MacW, Exec2, Exec3, Exec6, Exec8, ExecC, Read32, Read16, Write32;
    Fields1(0x0023, n);
    Fields1(0x0003, n);
    Fields1(0x402B, n);
    Fields1(0x400B, n);
  }

  lemma TrapAndSleep(decode: Decoder, cpu: Cpu, pc: Word, imm: nat)
    requires Fits(decode, |cpu.mem.ram|) && imm < 0x100
    ensures Exec(decode, cpu, pc, 0xC300 + imm, false) == Step(cpu, Trap(imm))
    ensures Exec(decode, cpu, pc, 0x001B, false) == Step(cpu, Sleep)
  {
    hide Wrap, MacL, Exec2, Exec3, Exec4, Exec6, Exec8, Read32, Read16, Write32;
    assert (0xC300 + imm) / 0x1000 == 0xC && FieldN(0xC300 + imm) == 3 && (0xC300 + imm) % 0x100 == imm;
  }

  // ----- Iterations of the run loop

  /** op is fetched at pc, x from the delay slot behind it, and x, executed from cpu1, falls through to
      `after`. */
  ghost predicate WithSlot(decode: Decoder, cpu: Cpu, pc: Word, op: Half, cpu1: Cpu, after: Cpu)
    requires Fits(decode, |cpu.mem.ram|)
  {
    && cpu1.mem == cpu.mem && Read16(decode, cpu.mem, pc) == op
    && Exec(decode, cpu1, Plus(pc, 2), Read16(decode, cpu.mem, Plus(pc, 2)), false) == Step(after, Next)
  }

  lemma SlotRuns(decode: Decoder, compiled: set<Word>, cpu: Cpu, pc: Word, op: Half, cpu1: Cpu, after: Cpu)
    requires Fits(decode, |cpu.mem.ram|) && WithSlot(decode, cpu, pc, op, cpu1, after)
    requires Exec(decode, cpu, pc, op, false) == Step(cpu1, Exec(decode, cpu, pc, op, false).signal)
    ensures var s := Exec(decode, cpu, pc, op, false).signal;
            s.Slot? ==>
              && Weight(decode, cpu, pc) == 2
              && InterpStep(decode, compiled, cpu, pc) == match s.transfer
                 case Return => Returned(after, s.target)
                 case Jump => JumpTo(compiled, after, s.target)
                 case CondJump => if s.taken then JumpTo(compiled, after, s.target) else Running(after, Plus(pc, 4))
                 case Call => Stopped(after, pc, s)
  {
    hide Exec, Read16, Plus;
    SlotExact(decode, cpu1, Plus(pc, 2), Read16(decode, cpu.mem, Plus(pc, 2)));
  }

  /** BT/S and BF/S decide on T as it was before the delay slot, and execute the slot either way. */
  lemma ConditionalIterations(decode: Decoder, compiled: set<Word>, cpu: Cpu, pc: Word, i: nat, after: Cpu)
    requires Fits(decode, |cpu.mem.ram|) && i < 0x100
    ensures var target := Wrap(pc as int + 4 + 2 * SignedByte(i));
            && (WithSlot(decode, cpu, pc, 0x8D00 + i, cpu, after) ==>
                  InterpStep(decode, compiled, cpu, pc) == if cpu.sr.t then JumpTo(compiled, after, target) else Running(after, Wrap(pc as int + 4)))
            && (WithSlot(decode, cpu, pc, 0x8F00 + i, cpu, after) ==>
                  InterpStep(decode, compiled, cpu, pc) == if !cpu.sr.t then JumpTo(compiled, after, target) else Running(after, Wrap(pc as int + 4)))
            && (Read16(decode, cpu.mem, pc) == 0x8900 + i ==>
                  InterpStep(decode, compiled, cpu, pc) == if cpu.sr.t then JumpTo(compiled, cpu, target) else Running(cpu, Wrap(pc as int + 2)))
            && (Read16(decode, cpu.mem, pc) == 0x8B00 + i ==>
                  InterpStep(decode, compiled, cpu, pc) == if !cpu.sr.t then JumpTo(compiled, cpu, target) else Running(cpu, Wrap(pc as int + 2)))
  {
    hide Exec, Read16, Wrap, WithSlot, JumpTo;
    ConditionalBranches(decode, cpu, pc, i);
    if WithSlot(decode, cpu, pc, 0x8D00 + i, cpu, after) {
      SlotRuns(decode, compiled, cpu, pc, 0x8D00 + i, cpu, after);
    }
    if WithSlot(decode, cpu, pc, 0x8F00 + i, cpu, after) {
      SlotRuns(decode, compiled, cpu, pc, 0x8F00 + i, cpu, after);
    }
  }

  /** RTS returns to PR as it was before the delay slot, even if the slot loads PR; jumps go to the target
      their register had; and a call leaves PR before its slot runs. */
  lemma DelayedIterations(decode: Decoder, compiled: set<Word>, cpu: Cpu, pc: Word, n: RegIndex, after: Cpu)
    requires Fits(decode, |cpu.mem.ram|)
    ensures WithSlot(decode, cpu, pc, 0x000B, cpu, after) ==> InterpStep(decode, compiled, cpu, pc) == Returned(after, cpu.pr)
    ensures WithSlot(decode, cpu, pc, Op1(0x402B, n), cpu, after) ==> InterpStep(decode, compiled, cpu, pc) == JumpTo(compiled, after, cpu.r[n])
    ensures var ret := Wrap(pc as int + 4);
            WithSlot(decode, cpu, pc, Op1(0x400B, n), cpu.(pr := ret), after) ==>
              InterpStep(decode, compiled, cpu, pc) == Stopped(after, pc, Slot(Call, cpu.r[n], ret, true))
  {
    hide Exec, Read16, Op1, Wrap, WithSlot, JumpTo, InterpStep, Weight;
    RegisterBranches(decode, cpu, pc, n);
    var ret := Wrap(pc as int + 4);
    if WithSlot(decode, cpu, pc, 0x000B, cpu, after) {
      SlotRuns(decode, compiled, cpu, pc, 0x000B, cpu, after);
    }
    if WithSlot(decode, cpu, pc, Op1(0x402B, n), cpu, after) {
      SlotRuns(decode, compiled, cpu, pc, Op1(0x402B, n), cpu, after);
    }
    if WithSlot(decode, cpu, pc, Op1(0x400B, n), cpu.(pr := ret), after) {
      SlotRuns(decode, compiled, cpu, pc, Op1(0x400B, n), cpu.(pr := ret), after);
    }
  }

  // ----- Calls

  /** The call instructions. */
  ghost predicate IsCall(op: Half) {
    || (exists n: RegIndex :: op == Op1(0x400B, n) || op == Op1(0x0003, n))
    || 0xB000 <= op < 0xC000
  }

  /** JSR, BSRF and BSR, and RTS at any later state that has PR as the call left it: the return goes
      behind the call's delay slot, where the run loop goes on as well. */
  lemma CallReturns(decode: Decoder, cpu: Cpu, pc: Word, op: Half, later: Cpu, pc': Word)
    requires Fits(decode, |cpu.mem.ram|) && Fits(decode, |later.mem.ram|) && IsCall(op)
    requires later.pr == Exec(decode, cpu, pc, op, false).cpu.pr
    ensures var call := Exec(decode, cpu, pc, op, false).signal; var ret := Wrap(pc as int + 4);
            && call.Slot? && call.transfer == Call && call.returnPc == ret
            && Exec(decode, later, pc', 0x000B, false) == Step(later, Slot(Return, ret, 0, true))
  {
    hide Exec, Op1, Wrap;
    RegisterBranches(decode, later, pc', 0);
    if 0xB000 <= op < 0xC000 {
      LongBranches(decode, cpu, pc, op - 0xB000);
    } else {
      var n: RegIndex :| op == Op1(0x400B, n) || op == Op1(0x0003, n);
      RegisterBranches(decode, cpu, pc, n);
    }
  }

  /** A function that calls others saves PR on its stack: with the stack as it left it, the restored PR
      leads RTS back to its own caller, whatever the inner calls put into PR. */
  lemma NestedCallReturns(decode: Decoder, cpu: Cpu, pc: Word, op: Half, entered: Cpu, at: Word, n: RegIndex, later: Cpu, pc': Word)
    requires Fits(decode, |cpu.mem.ram|) && Fits(decode, |entered.mem.ram|) && |later.mem.ram| == |entered.mem.ram| && IsCall(op)
    requires entered.pr == Exec(decode, cpu, pc, op, false).cpu.pr
    requires var saved := Exec(decode, entered, at, Op1(0x4022, n), false).cpu;
             later.r[n] == saved.r[n] && Read32(decode, later.mem, saved.r[n]) == Read32(decode, saved.mem, saved.r[n])
    ensures var popped := Exec(decode, later, pc', Op1(0x4026, n), false).cpu;
            |popped.mem.ram| == |later.mem.ram|
            && Exec(decode, popped, Plus(pc', 2), 0x000B, false).signal == Slot(Return, Wrap(pc as int + 4), 0, true)
  {
    hide Exec, Op1, Wrap, Read32, IsCall;
    PrSurvives(decode, entered, at, n, later, pc');
    CallReturns(decode, cpu, pc, op, Exec(decode, later, pc', Op1(0x4026, n), false).cpu, Plus(pc', 2));
  }

  // ----- Counted loops

  function DT(n: RegIndex): Half { Op1(0x4010, n) }

  lemma CountsDown(decode: Decoder, cpu: Cpu, pc: Word, n: RegIndex)
    requires Fits(decode, |cpu.mem.ram|)
    ensures var v := Wrap(cpu.r[n] as int - 1);
            Exec(decode, cpu, pc, DT(n), false) == Step(cpu.(r := cpu.r[n := v], sr := cpu.sr.(t := v == 0)), Next)
  {
    hide Op1, Wrap, Rotcl, Rotcr, Times, MacW, Exec0, Exec2, Exec3, Exec6, Exec8, ExecC, Read32, Write32;
    Fields1(0x4010, n);
  }

  /** How often a loop on DT runs: as often as the register says, and 2^32 times from zero. */
  function Rounds(v: Word): nat { if v == 0 then TWO_32 else v }

  /** After j rounds. */
  function AfterRounds(cpu: Cpu, n: RegIndex, j: nat): Cpu {
    if j == 0 then cpu
    else cpu.(r := cpu.r[n := Wrap(cpu.r[n] as int - j)], sr := cpu.sr.(t := j == Rounds(cpu.r[n])))
  }

  /** DT Rn; BF to it: the loop goes back exactly until its count is over, and then falls through with
      the register at zero. */
  lemma {:induction false} DtLoop(decode: Decoder, compiled: set<Word>, cpu: Cpu, pc: Word, n: RegIndex, j: nat)
    requires Fits(decode, |cpu.mem.ram|) && pc !in compiled && j <= Rounds(cpu.r[n])
    requires Read16(decode, cpu.mem, pc) == DT(n) && Read16(decode, cpu.mem, Plus(pc, 2)) == 0x8BFD
    ensures InterpRun(decode, compiled, cpu, pc, 2 * j)
            == Running(AfterRounds(cpu, n, j), if j == Rounds(cpu.r[n]) then Plus(pc, 4) else pc)
  {
    hide InterpStep, Exec, DT, Wrap, Plus, Read16, Fits;
    if j == 0 {
      NoRun(decode, compiled, cpu, pc);
    } else {
      DtLoop(decode, compiled, cpu, pc, n, j - 1);
      DtRound(decode, compiled, AfterRounds(cpu, n, j - 1), pc, n);
      InterpRunAdd(decode, compiled, cpu, pc, 2 * (j - 1), 2);
      Counted(cpu.r[n], j);
    }
  }

  lemma Counted(v: Word, j: nat)
    requires 0 < j <= Rounds(v)
    ensures Wrap(Wrap(v as int - (j - 1)) as int - 1) == Wrap(v as int - j)
    ensures Wrap(v as int - j) == 0 <==> j == Rounds(v)
    ensures j == 1 ==> Wrap(v as int - (j - 1)) == v
  {
    WrapNear(v as int - (j - 1));
    WrapNear(v as int - j);
    WrapNear(Wrap(v as int - (j - 1)) as int - 1);
  }

  lemma DtRound(decode: Decoder, compiled: set<Word>, cpu: Cpu, pc: Word, n: RegIndex)
    requires Fits(decode, |cpu.mem.ram|) && pc !in compiled
    requires Read16(decode, cpu.mem, pc) == DT(n) && Read16(decode, cpu.mem, Plus(pc, 2)) == 0x8BFD
    ensures var v := Wrap(cpu.r[n] as int - 1);
            InterpRun(decode, compiled, cpu, pc, 2)
            == Running(cpu.(r := cpu.r[n := v], sr := cpu.sr.(t := v == 0)), if v == 0 then Plus(pc, 4) else pc)
  {
    hide Exec, DT, Wrap, Plus, Read16, Fits;
    CountsDown(decode, cpu, pc, n);
    var v := Wrap(cpu.r[n] as int - 1);
    var next := cpu.(r := cpu.r[n := v], sr := cpu.sr.(t := v == 0));
    ConditionalBranches(decode, next, Plus(pc, 2), 0xFD);
    BackToStart(pc);
    NoRun(decode, compiled, next, if v == 0 then Plus(pc, 4) else pc);
  }

  lemma BackToStart(pc: Word)
    ensures Wrap(Plus(pc, 2) as int + 4 + 2 * SignedByte(0xFD)) == pc && Plus(Plus(pc, 2), 2) == Plus(pc, 4)
  {
  }
}

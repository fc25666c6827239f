/** Moves between registers, status and memory on the SH-4: what is stored is what is loaded. */
module Sh4Access {
  import opened Options
  import opened Words
  import opened Memory
  import opened Sh4Isa
  import opened Sh4Program
  import opened Sh4Laws

  // ----- The three addressing forms with a base register

  datatype Form = Direct | Displaced(d: nat) | Indexed

  predicate Proper(form: Form) { form.Displaced? ==> form.d < 16 }

  /** MOV.L Rm,@Rn; MOV.L Rm,@(d,Rn); MOV.L Rm,@(R0,Rn) */
  function StoreOp(form: Form, m: RegIndex, n: RegIndex): Half
    requires Proper(form)
  {
    match form case Direct => Op2(0x2002, m, n) case Displaced(d) => Op2(0x1000 + d, m, n) case Indexed => Op2(0x0006, m, n)
  }

  /** MOV.L @Rm,Rn; MOV.L @(d,Rm),Rn; MOV.L @(R0,Rm),Rn */
  function LoadOp(form: Form, m: RegIndex, n: RegIndex): Half
    requires Proper(form)
  {
    match form case Direct => Op2(0x6002, m, n) case Displaced(d) => Op2(0x5000 + d, m, n) case Indexed => Op2(0x000E, m, n)
  }

  /** The address, modulo 2^32. */
  function Address(cpu: Cpu, base: RegIndex, form: Form): Word {
    match form case Direct => cpu.r[base] case Displaced(d) => Wrap(cpu.r[base] as int + 4 * d)
    case Indexed => Wrap(cpu.r[base] as int + cpu.r[0] as int)
  }

  lemma Stores(decode: Decoder, cpu: Cpu, pc: Word, form: Form, m: RegIndex, n: RegIndex)
    requires Fits(decode, |cpu.mem.ram|) && Proper(form)
    ensures Exec(decode, cpu, pc, StoreOp(form, m, n), false)
            == Step(cpu.(mem := Write32(decode, cpu.mem, Address(cpu, n, form), cpu.r[m])), Next)
  {
    hide Exec, StoreOp, Address;
    match form
    case Direct => StoresDirect(decode, cpu, pc, m, n);
    case Displaced(d) => StoresDisplaced(decode, cpu, pc, d, m, n);
    case Indexed => StoresIndexed(decode, cpu, pc, m, n);
  }

  lemma StoresDirect(decode: Decoder, cpu: Cpu, pc: Word, m: RegIndex, n: RegIndex)
    requires Fits(decode, |cpu.mem.ram|)
    ensures Exec(decode, cpu, pc, StoreOp(Direct, m, n), false)
            == Step(cpu.(mem := Write32(decode, cpu.mem, Address(cpu, n, Direct), cpu.r[m])), Next)
  {
    hide Op2, Write32, Wrap, MacL, And, Exec3, Exec4, Exec6, Exec8, ExecC;
    Fields2(0x2002, m, n);
  }

  lemma StoresDisplaced(decode: Decoder, cpu: Cpu, pc: Word, d: nat, m: RegIndex, n: RegIndex)
    requires Fits(decode, |cpu.mem.ram|) && Proper(Displaced(d))
    ensures Exec(decode, cpu, pc, StoreOp(Displaced(d), m, n), false)
            == Step(cpu.(mem := Write32(decode, cpu.mem, Address(cpu, n, Displaced(d)), cpu.r[m])), Next)
  {
    hide Op2, Write32, Wrap, MacL, And, Exec3, Exec4, Exec6, Exec8, ExecC;
    Fields2(0x1000 + d, m, n);
  }

  lemma StoresIndexed(decode: Decoder, cpu: Cpu, pc: Word, m: RegIndex, n: RegIndex)
    requires Fits(decode, |cpu.mem.ram|)
    ensures Exec(decode, cpu, pc, StoreOp(Indexed, m, n), false)
            == Step(cpu.(mem := Write32(decode, cpu.mem, Address(cpu, n, Indexed), cpu.r[m])), Next)
  {
    hide Op2, Write32, Wrap, MacL, And, Exec3, Exec4, Exec6, Exec8, ExecC;
    Fields2(0x0006, m, n);
  }

  lemma Loads(decode: Decoder, cpu: Cpu, pc: Word, form: Form, m: RegIndex, n: RegIndex)
    requires Fits(decode, |cpu.mem.ram|) && Proper(form)
    ensures Exec(decode, cpu, pc, LoadOp(form, m, n), false)
            == Step(cpu.(r := cpu.r[n := Read32(decode, cpu.mem, Address(cpu, m, form))]), Next)
  {
    hide Exec, LoadOp, Address;
    match form
    case Direct => LoadsDirect(decode, cpu, pc, m, n);
    case Displaced(d) => LoadsDisplaced(decode, cpu, pc, d, m, n);
    case Indexed => LoadsIndexed(decode, cpu, pc, m, n);
  }

  lemma LoadsDirect(decode: Decoder, cpu: Cpu, pc: Word, m: RegIndex, n: RegIndex)
    requires Fits(decode, |cpu.mem.ram|)
    ensures Exec(decode, cpu, pc, LoadOp(Direct, m, n), false)
            == Step(cpu.(r := cpu.r[n := Read32(decode, cpu.mem, Address(cpu, m, Direct))]), Next)
  {
    hide Op2, Read32, Write32, Wrap, MacL, Negc, Exec2, Exec3, Exec4, Exec8, ExecC;
    Fields2(0x6002, m, n);
  }

  lemma LoadsDisplaced(decode: Decoder, cpu: Cpu, pc: Word, d: nat, m: RegIndex, n: RegIndex)
    requires Fits(decode, |cpu.mem.ram|) && Proper(Displaced(d))
    ensures Exec(decode, cpu, pc, LoadOp(Displaced(d), m, n), false)
            == Step(cpu.(r := cpu.r[n := Read32(decode, cpu.mem, Address(cpu, m, Displaced(d)))]), Next)
  {
    hide Op2, Read32, Write32, Wrap, MacL, Negc, Exec2, Exec3, Exec4, Exec8, ExecC;
    Fields2(0x5000 + d, m, n);
  }

  lemma LoadsIndexed(decode: Decoder, cpu: Cpu, pc: Word, m: RegIndex, n: RegIndex)
    requires Fits(decode, |cpu.mem.ram|)
    ensures Exec(decode, cpu, pc, LoadOp(Indexed, m, n), false)
            == Step(cpu.(r := cpu.r[n := Read32(decode, cpu.mem, Address(cpu, m, Indexed))]), Next)
  {
    hide Op2, Read32, Write32, Wrap, MacL, Negc, Exec2, Exec3, Exec4, Exec8, ExecC;
    Fields2(0x000E, m, n);
  }

  /** A word stored through a form of addressing is the word loaded through it, and through any other
      form that leads to the same address. */
  lemma StoreLoad(decode: Decoder, cpu: Cpu, pc: Word, f: Form, m: RegIndex, b: RegIndex, g: Form, c: RegIndex, n: RegIndex)
    requires Fits(decode, |cpu.mem.ram|) && Proper(f) && Proper(g) && Address(cpu, b, f) == Address(cpu, c, g)
    ensures var run := Run(decode, cpu, pc, [StoreOp(f, m, b), LoadOp(g, c, n)]);
            run.Some? && run.value.r == cpu.r[n := cpu.r[m]]
  {
    hide Exec, StoreOp, LoadOp, Read32, Write32;
    Stores(decode, cpu, pc, f, m, b);
    var s := Exec(decode, cpu, pc, StoreOp(f, m, b), false);
    Loads(decode, s.cpu, Plus(pc, 2), g, c, n);
    TwoSteps(decode, cpu, pc, StoreOp(f, m, b), LoadOp(g, c, n));
    ReadAfterWrite(decode, cpu.mem, Address(cpu, b, f), cpu.r[m], Address(cpu, b, f));
  }

  // ----- The stack

  lemma Pushes(decode: Decoder, cpu: Cpu, pc: Word, m: RegIndex, n: RegIndex)
    requires Fits(decode, |cpu.mem.ram|)
    ensures var top := Wrap(cpu.r[n] as int - 4); var moved := cpu.(r := cpu.r[n := top]);
            Exec(decode, cpu, pc, Op2(0x2006, m, n), false)
            == Step(moved.(mem := Write32(decode, cpu.mem, top, moved.r[m])), Next)
  {
    hide Op2, Write32, Wrap, And, Exec0, Exec3, Exec4, Exec6, Exec8, ExecC;
    Fields2(0x2006, m, n);
  }

  lemma Pops(decode: Decoder, cpu: Cpu, pc: Word, m: RegIndex, n: RegIndex)
    requires Fits(decode, |cpu.mem.ram|)
    ensures Exec(decode, cpu, pc, Op2(0x6006, m, n), false)
            == Step(cpu.(r := cpu.r[m := Wrap(cpu.r[m] as int + 4)][n := Read32(decode, cpu.mem, cpu.r[m])]), Next)
  {
    hide Op2, Read32, Wrap, Negc, Exec0, Exec2, Exec3, Exec4, Exec8, ExecC;
    Fields2(0x6006, m, n);
  }

  lemma DownAndUp(a: Word)
    ensures Wrap(Wrap(a as int - 4) as int + 4) == a
  {
  }

  /** MOV.L Rm,@-Rs; MOV.L @Rs+,Rk: the register arrives, the stack pointer is back. A stack pointer
      that pushes itself pushes its new value, and one that is popped into keeps the loaded word. */
  lemma PushPop(decode: Decoder, cpu: Cpu, pc: Word, m: RegIndex, s: RegIndex, k: RegIndex)
    requires Fits(decode, |cpu.mem.ram|)
    ensures var run := Run(decode, cpu, pc, [Op2(0x2006, m, s), Op2(0x6006, s, k)]);
            run.Some? && run.value.r == cpu.r[k := if m == s then Wrap(cpu.r[s] as int - 4) else cpu.r[m]]
  {
    hide Exec, Op2, Read32, Write32, Wrap;
    Pushes(decode, cpu, pc, m, s);
    var a := Exec(decode, cpu, pc, Op2(0x2006, m, s), false).cpu;
    Pops(decode, a, Plus(pc, 2), s, k);
    TwoSteps(decode, cpu, pc, Op2(0x2006, m, s), Op2(0x6006, s, k));
    ReadAfterWrite(decode, cpu.mem, Wrap(cpu.r[s] as int - 4), a.r[m], Wrap(cpu.r[s] as int - 4));
    DownAndUp(cpu.r[s]);
  }

  lemma PushesPr(decode: Decoder, cpu: Cpu, pc: Word, n: RegIndex)
    requires Fits(decode, |cpu.mem.ram|)
    ensures var top := Wrap(cpu.r[n] as int - 4);
            Exec(decode, cpu, pc, Op1(0x4022, n), false)
            == Step(cpu.(r := cpu.r[n := top], mem := Write32(decode, cpu.mem, top, cpu.pr)), Next)
    ensures Exec(decode, cpu, pc, Op1(0x4026, n), false)
            == Step(cpu.(r := cpu.r[n := Wrap(cpu.r[n] as int + 4)], pr := Read32(decode, cpu.mem, cpu.r[n])), Next)
  {
    hide Op1, Read32, Write32, Wrap, Times, Rotcl, Rotcr, MacW, Exec0, Exec2, Exec3, Exec6, Exec8, ExecC;
    Fields1(0x4022, n);
    Fields1(0x4026, n);
  }

  /** STS.L PR,@-Rn and, later, LDS.L @Rn+,PR: whatever happened to PR in between, with the stack
      pointer back and the word still there PR and stack pointer are restored. */
  lemma PrSurvives(decode: Decoder, cpu: Cpu, pc: Word, n: RegIndex, later: Cpu, pc': Word)
    requires Fits(decode, |cpu.mem.ram|) && |later.mem.ram| == |cpu.mem.ram|
    requires var a := Exec(decode, cpu, pc, Op1(0x4022, n), false).cpu;
             later.r[n] == a.r[n] && Read32(decode, later.mem, a.r[n]) == Read32(decode, a.mem, a.r[n])
    ensures var out := Exec(decode, later, pc', Op1(0x4026, n), false);
            out.signal == Next && out.cpu.pr == cpu.pr && out.cpu.r == later.r[n := cpu.r[n]]
  {
    hide Exec, Op1, Read32, Write32, Wrap;
    PushesPr(decode, cpu, pc, n);
    PushesPr(decode, later, pc', n);
    ReadAfterWrite(decode, cpu.mem, Wrap(cpu.r[n] as int - 4), cpu.pr, Wrap(cpu.r[n] as int - 4));
    DownAndUp(cpu.r[n]);
  }

  // ----- Relative to the PC

  /** MOV.W @(d,PC),Rn: the signed half word at pc + 4 + 2 * d. */
  lemma LoadsHalf(decode: Decoder, cpu: Cpu, pc: Word, n: RegIndex, d: nat)
    requires Fits(decode, |cpu.mem.ram|) && d < 0x100
    ensures var step := Exec(decode, cpu, pc, Op1(0x9000, n) + d, false);
            OnlyReg(step, cpu, n) && Signed(step.cpu.r[n]) == SignedHalf(Read16(decode, cpu.mem, Wrap(pc as int + 4 + 2 * d)))
  {
    hide Read16, Wrap, Exec0, Exec2, Exec3, Exec4, Exec6, Exec8, ExecC;
    WithLowByte(0x9000, n, d);
  }

  /** MOVA @(d,PC),R0 gives the address that MOV.L @(d,PC),Rn loads from: the aligned one that is d
      words behind the next-but-one instruction's word. */
  lemma LiteralAddresses(decode: Decoder, cpu: Cpu, pc: Word, n: RegIndex, d: nat)
    requires Fits(decode, |cpu.mem.ram|) && d < 0x100
    ensures var a := Exec(decode, cpu, pc, 0xC700 + d, false);
            && OnlyReg(a, cpu, 0) && a.cpu.r[0] % 4 == 0
            && Congruent(a.cpu.r[0], pc as int + 4 - (pc as int + 4) % 4 + 4 * d)
            && Exec(decode, cpu, pc, Op1(0xD000, n) + d, false)
               == Step(cpu.(r := cpu.r[n := Read32(decode, cpu.mem, a.cpu.r[0])]), Next)
  {
    hide Read32, Wrap, Congruent, Exec0, Exec2, Exec3, Exec4, Exec6, Exec8;
    WithLowByte(0xD000, n, d);
    LiteralIsAligned(pc, 0xC700 + d);
    assert LiteralAddress(pc, 0xC700 + d) == LiteralAddress(pc, Op1(0xD000, n) + d);
  }

  lemma LiteralIsAligned(pc: Word, op: Half)
    ensures var a := LiteralAddress(pc, op);
            a % 4 == 0 && Congruent(a, pc as int + 4 - (pc as int + 4) % 4 + 4 * (op % 0x100))
  {
    WrapNear(pc as int + 4);
    var next := Plus(pc, 4);
    WrapCongruent(next - next % 4 + op % 0x100 * 4);
    WrapNear(next - next % 4 + op % 0x100 * 4);
  }

  // ----- Status and system registers

  lemma StatusMoves(decode: Decoder, cpu: Cpu, pc: Word, n: RegIndex)
    requires Fits(decode, |cpu.mem.ram|)
    ensures Exec(decode, cpu, pc, 0x0018, false) == Step(cpu.(sr := cpu.sr.(t := true)), Next)
    ensures Exec(decode, cpu, pc, 0x0008, false) == Step(cpu.(sr := cpu.sr.(t := false)), Next)
    ensures Exec(decode, cpu, pc, 0x0058, false) == Step(cpu.(sr := cpu.sr.(s := true)), Next)
    ensures Exec(decode, cpu, pc, 0x0048, false) == Step(cpu.(sr := cpu.sr.(s := false)), Next)
    ensures Exec(decode, cpu, pc, 0x0028, false) == Step(cpu.(mach := 0, macl := 0), Next)
    ensures Exec(decode, cpu, pc, 0x0009, false) == Step(cpu, Next)
  {
    hide MacL, Read32, Write32, Exec2, Exec3, Exec4, Exec6, Exec8, ExecC;
  }

  lemma RegisterMoves(decode: Decoder, cpu: Cpu, pc: Word, n: RegIndex)
    requires Fits(decode, |cpu.mem.ram|)
    ensures Exec(decode, cpu, pc, Op1(0x0029, n), false) == Step(cpu.(r := cpu.r[n := if cpu.sr.t then 1 else 0]), Next)
    ensures Exec(decode, cpu, pc, Op1(0x000A, n), false) == Step(cpu.(r := cpu.r[n := cpu.mach]), Next)
    ensures Exec(decode, cpu, pc, Op1(0x001A, n), false) == Step(cpu.(r := cpu.r[n := cpu.macl]), Next)
    ensures Exec(decode, cpu, pc, Op1(0x002A, n), false) == Step(cpu.(r := cpu.r[n := cpu.pr]), Next)
  {
    hide Exec, Op1;
    MovesT(decode, cpu, pc, n);
    MovesMach(decode, cpu, pc, n);
    MovesMacl(decode, cpu, pc, n);
    MovesPr(decode, cpu, pc, n);
  }

  lemma MovesT(decode: Decoder, cpu: Cpu, pc: Word, n: RegIndex)
    requires Fits(decode, |cpu.mem.ram|)
    ensures Exec(decode, cpu, pc, Op1(0x0029, n), false) == Step(cpu.(r := cpu.r[n := if cpu.sr.t then 1 else 0]), Next)
  {
    hide Op1, MacL, Read32, Write32, Exec2, Exec3, Exec4, Exec6, Exec8, ExecC;
    Fields1(0x0029, n);
    NotEncodings(n);
  }

  lemma MovesMach(decode: Decoder, cpu: Cpu, pc: Word, n: RegIndex)
    requires Fits(decode, |cpu.mem.ram|)
    ensures Exec(decode, cpu, pc, Op1(0x000A, n), false) == Step(cpu.(r := cpu.r[n := cpu.mach]), Next)
  {
    hide Op1, MacL, Read32, Write32, Exec2, Exec3, Exec4, Exec6, Exec8, ExecC;
    Fields1(0x000A, n);
    NotEncodings(n);
  }

  lemma MovesMacl(decode: Decoder, cpu: Cpu, pc: Word, n: RegIndex)
    requires Fits(decode, |cpu.mem.ram|)
    ensures Exec(decode, cpu, pc, Op1(0x001A, n), false) == Step(cpu.(r := cpu.r[n := cpu.macl]), Next)
  {
    hide Op1, MacL, Read32, Write32, Exec2, Exec3, Exec4, Exec6, Exec8, ExecC;
    Fields1(0x001A, n);
    NotEncodings(n);
  }

  lemma MovesPr(decode: Decoder, cpu: Cpu, pc: Word, n: RegIndex)
    requires Fits(decode, |cpu.mem.ram|)
    ensures Exec(decode, cpu, pc, Op1(0x002A, n), false) == Step(cpu.(r := cpu.r[n := cpu.pr]), Next)
  {
    hide Op1, MacL, Read32, Write32, Exec2, Exec3, Exec4, Exec6, Exec8, ExecC;
    Fields1(0x002A, n);
    NotEncodings(n);
  }

  lemma NotEncodings(n: RegIndex)
    ensures forall low | low in {0x29, 0x0A, 0x1A, 0x2A} :: Op1(low, n) !in {0x0008, 0x0018, 0x0028, 0x0048, 0x0058, 0x0009, 0x0019}
  {
  }

  /** SETT or CLRT and then MOVT puts the bit into a register; T is a value like any other. */
  lemma TReadsBack(decode: Decoder, cpu: Cpu, pc: Word, n: RegIndex)
    requires Fits(decode, |cpu.mem.ram|)
    ensures var run := Run(decode, cpu, pc, [0x0018, Op1(0x0029, n)]); run.Some? && run.value.r[n] == 1
    ensures var run := Run(decode, cpu, pc, [0x0008, Op1(0x0029, n)]); run.Some? && run.value.r[n] == 0
  {
    hide Exec, Op1;
    StatusMoves(decode, cpu, pc, n);
    RegisterMoves(decode, Exec(decode, cpu, pc, 0x0018, false).cpu, Plus(pc, 2), n);
    RegisterMoves(decode, Exec(decode, cpu, pc, 0x0008, false).cpu, Plus(pc, 2), n);
    TwoSteps(decode, cpu, pc, 0x0018, Op1(0x0029, n));
    TwoSteps(decode, cpu, pc, 0x0008, Op1(0x0029, n));
  }

  /** MUL.L and then STS MACL,Rk: the product as a register, from all four ways to read the operands. */
  lemma ProductReadsBack(decode: Decoder, cpu: Cpu, pc: Word, m: RegIndex, n: RegIndex, k: RegIndex)
    requires Fits(decode, |cpu.mem.ram|)
    ensures var run := Run(decode, cpu, pc, [Op2(0x0007, m, n), Op1(0x001A, k)]);
            run.Some? && Congruent(run.value.r[k], cpu.r[n] as int * cpu.r[m] as int)
            && Congruent(run.value.r[k], Signed(cpu.r[n]) * Signed(cpu.r[m]))
  {
    hide Exec, Op1, Op2, Congruent;
    Multiply(decode, cpu, pc, m, n);
    RegisterMoves(decode, Exec(decode, cpu, pc, Op2(0x0007, m, n), false).cpu, Plus(pc, 2), k);
    TwoSteps(decode, cpu, pc, Op2(0x0007, m, n), Op1(0x001A, k));
  }
}

/** Interpreting the machine code of `_memTestAddressBus` and running the recompiled C++ leave
    the same registers, status, PC and memory, and charge the same cycles. */
module TranslationValidation {
  import opened Words
  import opened Memory
  import opened Sh4Isa
  import opened Sh4Interp
  import opened AddressBusProgram
  import opened RecompiledFunction
  import AddressBusTest

  /** One interpreted instruction of the text, by its index. */
  function TextStep(decode: Decoder, cpu: Cpu, i: nat): (step: Step)
    requires Fits(decode, |cpu.mem.ram|) && i < 64
    ensures |step.cpu.mem.ram| == |cpu.mem.ram|
  {
    Exec(decode, cpu, At(i), TextOp(i), false)
  }

  lemma FetchText(decode: Decoder, compiled: set<Word>, cpu: Cpu, i: nat)
    requires Fits(decode, |cpu.mem.ram|) && i < 64 && TextLoaded(decode, cpu.mem)
    ensures InterpStep(decode, compiled, cpu, At(i)) == Dispatch(decode, compiled, At(i), TextStep(decode, cpu, i))
    ensures Weight(decode, cpu, At(i)) == if TextStep(decode, cpu, i).signal.Slot? then 2 else 1
  {
    hide Exec, Dispatch, TextOp, Read32;
  }

  // ----- What each opcode of the text does

  lemma DecodeMoves(decode: Decoder, cpu: Cpu, pc: Word)
    requires Fits(decode, |cpu.mem.ram|)
    ensures Exec(decode, cpu, pc, 0x6653, false) == Step(WithReg(cpu, 6, cpu.r[5]), Next)
    ensures Exec(decode, cpu, pc, 0x6073, false) == Step(WithReg(cpu, 0, cpu.r[7]), Next)
    ensures Exec(decode, cpu, pc, 0x6083, false) == Step(WithReg(cpu, 0, cpu.r[8]), Next)
  {
    hide Wrap, Plus, Read32, Read16, Write32, MacL, MacW, Exec0, Exec2, Exec3, Exec4, Exec8, ExecC;
  }

  lemma DecodeImmediates(decode: Decoder, cpu: Cpu, pc: Word)
    requires Fits(decode, |cpu.mem.ram|)
    ensures Exec(decode, cpu, pc, 0xE701, false) == Step(WithReg(cpu, 7, 1), Next)
    ensures Exec(decode, cpu, pc, 0xE801, false) == Step(WithReg(cpu, 8, 1), Next)
    ensures Exec(decode, cpu, pc, 0xE000, false) == Step(WithReg(cpu, 0, 0), Next)
    ensures Exec(decode, cpu, pc, 0x76FF, false) == Step(WithReg(cpu, 6, Plus(cpu.r[6], 0xFFFF_FFFF)), Next)
    ensures Exec(decode, cpu, pc, 0x304C, false) == Step(WithReg(cpu, 0, Plus(cpu.r[0], cpu.r[4])), Next)
  {
    hide Wrap, Plus, Read32, Read16, Write32, MacL, MacW, Exec0, Exec2, Exec4, Exec6, Exec8, ExecC;
  }

  lemma DecodeShifts(decode: Decoder, cpu: Cpu, pc: Word)
    requires Fits(decode, |cpu.mem.ram|)
    ensures Exec(decode, cpu, pc, 0x4609, false) == Step(WithReg(cpu, 6, cpu.r[6] / 4), Next)
    ensures Exec(decode, cpu, pc, 0x4008, false) == Step(WithReg(cpu, 0, Times(4, cpu.r[0])), Next)
    ensures Exec(decode, cpu, pc, 0x4700, false) == Step(Shll(cpu, 7), Next)
    ensures Exec(decode, cpu, pc, 0x4800, false) == Step(Shll(cpu, 8), Next)
  {
    hide Wrap, Plus, Times, And, Read32, Read16, Write32, MacL, MacW, Div1, Exec0, Exec2, Exec3, Exec6, Exec8, ExecC;
  }

  lemma DecodeTests(decode: Decoder, cpu: Cpu, pc: Word)
    requires Fits(decode, |cpu.mem.ram|)
    ensures Exec(decode, cpu, pc, 0x2068, false) == Step(WithT(cpu, And(cpu.r[0], cpu.r[6]) == 0), Next)
    ensures Exec(decode, cpu, pc, 0x3190, false) == Step(WithT(cpu, cpu.r[1] == cpu.r[9]), Next)
    ensures Exec(decode, cpu, pc, 0x3780, false) == Step(WithT(cpu, cpu.r[7] == cpu.r[8]), Next)
  {
    hide Wrap, Plus, Times, And, Read32, Read16, Write32, MacL, MacW, Div1, Exec0, Exec4, Exec6, Exec8, ExecC;
  }

  lemma DecodeMemory(decode: Decoder, cpu: Cpu, pc: Word)
    requires Fits(decode, |cpu.mem.ram|)
    ensures Exec(decode, cpu, pc, 0x0496, false) == Step(Store(decode, cpu, Plus(cpu.r[4], cpu.r[0]), cpu.r[9]), Next)
    ensures Exec(decode, cpu, pc, 0x04A6, false) == Step(Store(decode, cpu, Plus(cpu.r[4], cpu.r[0]), cpu.r[10]), Next)
    ensures Exec(decode, cpu, pc, 0x014E, false) == Step(WithReg(cpu, 1, Read32(decode, cpu.mem, Plus(cpu.r[4], cpu.r[0]))), Next)
  {
    hide Wrap, Plus, Read32, Read16, Write32, MacL, MacW, Exec2, Exec3, Exec4, Exec6, Exec8, ExecC;
  }

  lemma DecodeBaseAccess(decode: Decoder, cpu: Cpu, pc: Word)
    requires Fits(decode, |cpu.mem.ram|)
    ensures Exec(decode, cpu, pc, 0x24A2, false) == Step(Store(decode, cpu, cpu.r[4], cpu.r[10]), Next)
    ensures Exec(decode, cpu, pc, 0x2492, false) == Step(Store(decode, cpu, cpu.r[4], cpu.r[9]), Next)
    ensures Exec(decode, cpu, pc, 0x6142, false) == Step(WithReg(cpu, 1, Read32(decode, cpu.mem, cpu.r[4])), Next)
  {
    hide Wrap, Plus, Read32, Read16, Write32, MacL, MacW, Exec0, Exec3, Exec4, Exec8, ExecC;
  }

  lemma DecodeLiterals(decode: Decoder, cpu: Cpu)
    requires Fits(decode, |cpu.mem.ram|)
    ensures Exec(decode, cpu, 0x8C01_0086, 0xD91E, false) == Step(WithReg(cpu, 9, Read32(decode, cpu.mem, PATTERN_AT)), Next)
    ensures Exec(decode, cpu, 0x8C01_0088, 0xDA1E, false) == Step(WithReg(cpu, 10, Read32(decode, cpu.mem, ANTIPATTERN_AT)), Next)
  {
    hide Read32, Read16, Write32, MacL, MacW;
  }

  lemma DecodeBranches(decode: Decoder, cpu: Cpu)
    requires Fits(decode, |cpu.mem.ram|)
    ensures Exec(decode, cpu, 0x8C01_0098, 0x8BF8, false) == Step(cpu, Branch(Label(B8C), !cpu.sr.t))
    ensures Exec(decode, cpu, 0x8C01_00A6, 0x8B21, false) == Step(cpu, Branch(Label(BEC), !cpu.sr.t))
    ensures Exec(decode, cpu, 0x8C01_00AE, 0x8BF6, false) == Step(cpu, Branch(Label(B9E), !cpu.sr.t))
    ensures Exec(decode, cpu, 0x8C01_00BE, 0x8B1A, false) == Step(cpu, Branch(Label(BF6), !cpu.sr.t))
  {
    hide Read32, Read16, Write32, MacL, MacW, Exec0, Exec2, Exec3, Exec4, Exec6, ExecC;
  }

  lemma DecodeScanBranches(decode: Decoder, cpu: Cpu)
    requires Fits(decode, |cpu.mem.ram|)
    ensures Exec(decode, cpu, 0x8C01_00CA, 0x8901, false) == Step(cpu, Branch(Label(BD0), cpu.sr.t))
    ensures Exec(decode, cpu, 0x8C01_00CE, 0x8B12, false) == Step(cpu, Branch(Label(BF6), !cpu.sr.t))
    ensures Exec(decode, cpu, 0x8C01_00D6, 0x8BF4, false) == Step(cpu, Branch(Label(BC2), !cpu.sr.t))
    ensures Exec(decode, cpu, 0x8C01_00E4, 0x8BE6, false) == Step(cpu, Branch(Label(BB4), !cpu.sr.t))
  {
    hide Read32, Read16, Write32, MacL, MacW, Exec0, Exec2, Exec3, Exec4, Exec6, ExecC;
  }

  lemma DecodeReturn(decode: Decoder, cpu: Cpu, pc: Word)
    requires Fits(decode, |cpu.mem.ram|)
    ensures Exec(decode, cpu, pc, 0x000B, false) == Step(cpu, Slot(Return, cpu.pr, 0, true))
    ensures Exec(decode, cpu, pc, 0x0009, true) == Step(cpu, Next)
  {
    hide Read32, Read16, Write32, MacL, MacW;
  }

  // ----- Straight stretches of the text

  /** A fall-through instruction of the text takes the run loop one instruction further. */
  lemma RunNext(decode: Decoder, compiled: set<Word>, cpu: Cpu, i: nat, cpu': Cpu, n: nat)
    requires Fits(decode, |cpu.mem.ram|) && i < 63 && TextLoaded(decode, cpu.mem)
    requires TextStep(decode, cpu, i) == Step(cpu', Next)
    ensures InterpRun(decode, compiled, cpu, At(i), n + 1) == InterpRun(decode, compiled, cpu', At(i + 1), n)
    ensures Instructions(decode, compiled, cpu, At(i), n + 1) == 1 + Instructions(decode, compiled, cpu', At(i + 1), n)
  {
    hide TextStep, TextOp, Exec, TextLoaded, Fits, Weight;
    FetchText(decode, compiled, cpu, i);
    assert Plus(At(i), 2) == At(i + 1);
  }

  lemma RunBranch(decode: Decoder, compiled: set<Word>, cpu: Cpu, i: nat, target: Word, taken: bool)
    requires Fits(decode, |cpu.mem.ram|) && i < 63 && TextLoaded(decode, cpu.mem)
    requires TextStep(decode, cpu, i) == Step(cpu, Branch(target, taken))
    ensures InterpRun(decode, compiled, cpu, At(i), 1)
            == if taken then JumpTo(compiled, cpu, target) else Running(cpu, At(i + 1))
    ensures Instructions(decode, compiled, cpu, At(i), 1) == 1
  {
    hide TextStep, TextOp, Exec, TextLoaded, Fits, Weight;
    FetchText(decode, compiled, cpu, i);
    assert Plus(At(i), 2) == At(i + 1);
    NoRun(decode, compiled, cpu, At(i + 1));
    if taken { NoRun(decode, compiled, cpu, target); }
  }

  /** RTS with a NOP in its delay slot leaves the frame at PR. */
  lemma RunReturn(decode: Decoder, compiled: set<Word>, cpu: Cpu, i: nat)
    requires Fits(decode, |cpu.mem.ram|) && i < 63 && TextLoaded(decode, cpu.mem)
    requires TextOp(i) == 0x000B && TextOp(i + 1) == 0x0009
    ensures InterpRun(decode, compiled, cpu, At(i), 1) == Returned(cpu, cpu.pr)
    ensures Instructions(decode, compiled, cpu, At(i), 1) == 2
  {
    hide Exec, TextOp, Fits, Weight;
    FetchText(decode, compiled, cpu, i);
    DecodeReturn(decode, cpu, At(i));
    DecodeReturn(decode, cpu, At(i + 1));
    assert Plus(At(i), 2) == At(i + 1);
  }

  // ----- Groups of instructions that recur in the text

  /** From instruction i in state cpu the loop gets to instruction i + k in state out, text intact. */
  ghost predicate Reaches(decode: Decoder, compiled: set<Word>, cpu: Cpu, i: nat, k: nat, out: Cpu)
    requires Fits(decode, |cpu.mem.ram|) && i + k < 64
  {
    && |out.mem.ram| == |cpu.mem.ram|
    && TextLoaded(decode, out.mem)
    && InterpRun(decode, compiled, cpu, At(i), k) == Running(out, At(i + k))
    && Instructions(decode, compiled, cpu, At(i), k) == k
  }

  lemma ReachOne(decode: Decoder, compiled: set<Word>, cpu: Cpu, i: nat, out: Cpu)
    requires Fits(decode, |cpu.mem.ram|) && i < 63 && TextLoaded(decode, cpu.mem)
    requires |out.mem.ram| == |cpu.mem.ram| && TextLoaded(decode, out.mem)
    requires TextStep(decode, cpu, i) == Step(out, Next)
    ensures Reaches(decode, compiled, cpu, i, 1, out)
  {
    hide TextStep, TextOp, Exec, TextLoaded, Fits;
    RunNext(decode, compiled, cpu, i, out, 0);
  }

  lemma ReachOn(decode: Decoder, compiled: set<Word>, cpu: Cpu, i: nat, k: nat, mid: Cpu, l: nat, out: Cpu)
    requires Fits(decode, |cpu.mem.ram|) && i + k + l < 64
    requires Reaches(decode, compiled, cpu, i, k, mid) && Reaches(decode, compiled, mid, i + k, l, out)
    ensures Reaches(decode, compiled, cpu, i, k + l, out)
  {
    hide TextLoaded, Fits, InterpRun, Instructions;
    InterpRunAdd(decode, compiled, cpu, At(i), k, l);
  }

  /** MOV Rn,R0; SHLL2 R0 */
  lemma ReachOffset(decode: Decoder, compiled: set<Word>, cpu: Cpu, i: nat, n: RegIndex)
    requires Fits(decode, |cpu.mem.ram|) && i < 62 && TextLoaded(decode, cpu.mem)
    requires n in {7, 8} && TextOp(i) == (if n == 7 then 0x6073 else 0x6083) && TextOp(i + 1) == 0x4008
    ensures Reaches(decode, compiled, cpu, i, 2, OffsetOf(cpu, n))
  {
    hide Exec, Fits, Times, TextLoaded, TextOp, Reaches;
    var c1 := WithReg(cpu, 0, cpu.r[n]);
    DecodeMoves(decode, cpu, At(i));
    DecodeShifts(decode, c1, At(i + 1));
    ReachOne(decode, compiled, cpu, i, c1);
    assert WithReg(c1, 0, Times(4, c1.r[0])) == OffsetOf(cpu, n);
    ReachOne(decode, compiled, c1, i + 1, OffsetOf(cpu, n));
    ReachOn(decode, compiled, cpu, i, 1, c1, 1, OffsetOf(cpu, n));
  }

  /** SHLL Rn; MOV Rn,R0; TST R6,R0 */
  lemma ReachNextBit(decode: Decoder, compiled: set<Word>, cpu: Cpu, i: nat, n: RegIndex)
    requires Fits(decode, |cpu.mem.ram|) && i < 61 && TextLoaded(decode, cpu.mem)
    requires n in {7, 8} && TextOp(i) == (if n == 7 then 0x4700 else 0x4800)
    requires TextOp(i + 1) == (if n == 7 then 0x6073 else 0x6083) && TextOp(i + 2) == 0x2068
    ensures Reaches(decode, compiled, cpu, i, 3, NextBit(cpu, n))
  {
    hide Exec, Fits, Times, And, Negative, TextLoaded, TextOp, Reaches;
    var c1 := Shll(cpu, n);
    var c2 := WithReg(c1, 0, c1.r[n]);
    DecodeShifts(decode, cpu, At(i));
    DecodeMoves(decode, c1, At(i + 1));
    DecodeTests(decode, c2, At(i + 2));
    ReachOne(decode, compiled, cpu, i, c1);
    ReachOne(decode, compiled, c1, i + 1, c2);
    ReachOne(decode, compiled, c2, i + 2, NextBit(cpu, n));
    ReachOn(decode, compiled, cpu, i, 1, c1, 1, c2);
    ReachOn(decode, compiled, cpu, i, 2, c2, 1, NextBit(cpu, n));
  }

  /** MOV.L Rv,@(R0,R4) */
  lemma ReachStoreIndexed(decode: Decoder, compiled: set<Word>, cpu: Cpu, i: nat, v: RegIndex)
    requires Fits(decode, |cpu.mem.ram|) && i < 63 && TextLoaded(decode, cpu.mem)
    requires v in {9, 10} && TextOp(i) == (if v == 9 then 0x0496 else 0x04A6)
    requires MissesText(decode, Plus(cpu.r[4], cpu.r[0]))
    ensures Reaches(decode, compiled, cpu, i, 1, Store(decode, cpu, Plus(cpu.r[4], cpu.r[0]), cpu.r[v]))
  {
    hide Exec, Fits, Plus, Write32, TextLoaded, TextOp, Reaches, MissesText;
    DecodeMemory(decode, cpu, At(i));
    StoreKeepsText(decode, cpu.mem, Plus(cpu.r[4], cpu.r[0]), cpu.r[v]);
    ReachOne(decode, compiled, cpu, i, Store(decode, cpu, Plus(cpu.r[4], cpu.r[0]), cpu.r[v]));
  }

  /** MOV.L Rv,@R4; MOV #1,Rn */
  lemma ReachStoreBase(decode: Decoder, compiled: set<Word>, cpu: Cpu, i: nat, v: RegIndex, n: RegIndex)
    requires Fits(decode, |cpu.mem.ram|) && i < 62 && TextLoaded(decode, cpu.mem)
    requires v in {9, 10} && TextOp(i) == (if v == 9 then 0x2492 else 0x24A2)
    requires n in {7, 8} && TextOp(i + 1) == (if n == 7 then 0xE701 else 0xE801)
    requires MissesText(decode, cpu.r[4])
    ensures Reaches(decode, compiled, cpu, i, 2, WithReg(Store(decode, cpu, cpu.r[4], cpu.r[v]), n, 1))
  {
    hide Exec, Fits, Plus, Write32, TextLoaded, TextOp, Reaches, MissesText;
    var c1 := Store(decode, cpu, cpu.r[4], cpu.r[v]);
    DecodeBaseAccess(decode, cpu, At(i));
    DecodeImmediates(decode, c1, At(i + 1));
    StoreKeepsText(decode, cpu.mem, cpu.r[4], cpu.r[v]);
    ReachOne(decode, compiled, cpu, i, c1);
    ReachOne(decode, compiled, c1, i + 1, WithReg(c1, n, 1));
    ReachOn(decode, compiled, cpu, i, 1, c1, 1, WithReg(c1, n, 1));
  }

  /** Load a cell into R1 and compare it with the pattern: MOV.L ...,R1; CMP/EQ R9,R1 */
  function Compare(cpu: Cpu, v: Word): Cpu {
    WithT(WithReg(cpu, 1, v), v == cpu.r[9])
  }

  lemma ReachCompare(decode: Decoder, compiled: set<Word>, cpu: Cpu, i: nat, indexed: bool)
    requires Fits(decode, |cpu.mem.ram|) && i < 62 && TextLoaded(decode, cpu.mem)
    requires TextOp(i) == (if indexed then 0x014E else 0x6142) && TextOp(i + 1) == 0x3190
    ensures var a := if indexed then Plus(cpu.r[4], cpu.r[0]) else cpu.r[4];
            Reaches(decode, compiled, cpu, i, 2, Compare(cpu, Read32(decode, cpu.mem, a)))
  {
    hide Exec, Fits, Plus, Read32, TextLoaded, TextOp, Reaches;
    var v := Read32(decode, cpu.mem, if indexed then Plus(cpu.r[4], cpu.r[0]) else cpu.r[4]);
    var c1 := WithReg(cpu, 1, v);
    DecodeMemory(decode, cpu, At(i));
    DecodeBaseAccess(decode, cpu, At(i));
    DecodeTests(decode, c1, At(i + 1));
    ReachOne(decode, compiled, cpu, i, c1);
    ReachOne(decode, compiled, c1, i + 1, Compare(cpu, v));
    ReachOn(decode, compiled, cpu, i, 1, c1, 1, Compare(cpu, v));
  }

  // ----- Where a block may store

  /** No word that the loops address with the walking bit x and its successors overlaps the text.
      A walk ends when the next bit misses the mask. */
  ghost predicate WalkMissesText(decode: Decoder, base: Word, mask: Word, x: Word)
    decreases ShiftsLeft(x)
  {
    && MissesText(decode, Plus(base, Times(4, x)))
    && (And(Times(2, x), mask) != 0 ==>
          (ShiftProgress(x); WalkMissesText(decode, base, mask, Times(2, x))))
  }

  lemma WalkOn(decode: Decoder, base: Word, mask: Word, x: Word)
    requires WalkMissesText(decode, base, mask, x)
    ensures MissesText(decode, Plus(base, Times(4, x)))
    ensures And(Times(2, x), mask) != 0 ==> WalkMissesText(decode, base, mask, Times(2, x))
  {
  }

  /** The address mask: what the first block computes from the size, R6 from then on. */
  function Mask(cpu: Cpu, b: Block): Word {
    if b == B80 then Plus(cpu.r[5] / 4, 0xFFFF_FFFF) else cpu.r[6]
  }

  /** Entering at b, the text is loaded and no store from here on hits it. */
  ghost predicate Guarded(decode: Decoder, cpu: Cpu, b: Block)
    requires Fits(decode, |cpu.mem.ram|)
  {
    var mask := Mask(cpu, b);
    && TextLoaded(decode, cpu.mem)
    && MissesText(decode, cpu.r[4]) && WalkMissesText(decode, cpu.r[4], mask, 1)
    && (b == B8C ==> WalkMissesText(decode, cpu.r[4], mask, cpu.r[7]))
    && (Phase(b) == 4 ==> WalkMissesText(decode, cpu.r[4], mask, cpu.r[8]))
  }

  // ----- Block by block

  /** Number of loop iterations the interpreter spends in a block. */
  function Length(b: Block): nat {
    match b
    case B80 => 6 case B8C => 7 case B9A => 2 case B9E => 5 case BA8 => 4 case BB0 => 2 case BB4 => 6
    case BC0 => 1 case BC2 => 5 case BCC => 2 case BD0 => 4 case BD8 => 7 case BE6 => 2 case BEC => 4 case BF6 => 4
  }

  /** The outcome that corresponds to leaving a block in state cpu through exit e. */
  ghost predicate Arrives(compiled: set<Word>, o: Outcome, cpu: Cpu, e: Exit) {
    match e
    case Leave => o == Returned(cpu, cpu.pr)
    case Goto(t) => o == Running(cpu, Label(t)) || (Label(t) in compiled && o == Handed(cpu, Label(t)))
  }

  ghost predicate Simulates(decode: Decoder, compiled: set<Word>, cpu: Cpu, b: Block)
    requires Fits(decode, |cpu.mem.ram|)
  {
    var (out, exit) := RunBlock(decode, cpu, b);
    && Arrives(compiled, InterpRun(decode, compiled, cpu, Label(b), Length(b)), out, exit)
    && Instructions(decode, compiled, cpu, Label(b), Length(b)) + (if exit.Leave? then 1 else 0) == Cost(b)
  }

  /** A block whose straight part ends in a conditional branch. */
  lemma EndInBranch(decode: Decoder, compiled: set<Word>, cpu: Cpu, i: nat, k: nat, out: Cpu, target: Block, next: Block, taken: bool)
    requires Fits(decode, |cpu.mem.ram|) && i + k < 63
    requires Reaches(decode, compiled, cpu, i, k, out)
    requires TextStep(decode, out, i + k) == Step(out, Branch(Label(target), taken))
    requires Label(next) == At(i + k + 1)
    ensures Arrives(compiled, InterpRun(decode, compiled, cpu, At(i), k + 1), out, Goto(if taken then target else next))
    ensures Instructions(decode, compiled, cpu, At(i), k + 1) == k + 1
  {
    hide TextStep, TextOp, Exec, TextLoaded, Fits, Label, At, InterpRun, Instructions;
    RunBranch(decode, compiled, out, i + k, Label(target), taken);
    InterpRunAdd(decode, compiled, cpu, At(i), k, 1);
  }

  lemma EndInReturn(decode: Decoder, compiled: set<Word>, cpu: Cpu, i: nat, k: nat, out: Cpu)
    requires Fits(decode, |cpu.mem.ram|) && i + k < 63
    requires Reaches(decode, compiled, cpu, i, k, out)
    requires TextOp(i + k) == 0x000B && TextOp(i + k + 1) == 0x0009
    ensures Arrives(compiled, InterpRun(decode, compiled, cpu, At(i), k + 1), out, Leave)
    ensures Instructions(decode, compiled, cpu, At(i), k + 1) == k + 2
  {
    hide TextStep, TextOp, Exec, TextLoaded, Fits, At, InterpRun, Instructions;
    RunReturn(decode, compiled, out, i + k);
    InterpRunAdd(decode, compiled, cpu, At(i), k, 1);
  }

  lemma Reached(decode: Decoder, compiled: set<Word>, cpu: Cpu, i: nat, k: nat, out: Cpu)
    requires Fits(decode, |cpu.mem.ram|) && i + k < 64 && Reaches(decode, compiled, cpu, i, k, out)
    ensures |out.mem.ram| == |cpu.mem.ram| && TextLoaded(decode, out.mem)
    ensures InterpRun(decode, compiled, cpu, At(i), k) == Running(out, At(i + k))
    ensures Instructions(decode, compiled, cpu, At(i), k) == k
  {
  }

  lemma SimulateB80(decode: Decoder, compiled: set<Word>, cpu: Cpu)
    requires Fits(decode, |cpu.mem.ram|) && TextLoaded(decode, cpu.mem)
    ensures Simulates(decode, compiled, cpu, B80)
  {
    hide Exec, InterpRun, Instructions, TextLoaded, TextStep, LoadLiteral, Fits, Plus, Reaches;
    var c1 := WithReg(cpu, 6, cpu.r[5]);
    var c2 := WithReg(c1, 6, c1.r[6] / 4);
    var c3 := WithReg(c2, 6, Plus(c2.r[6], 0xFFFF_FFFF));
    var c4 := WithReg(c3, 9, PATTERN);
    var c5 := WithReg(c4, 10, ANTIPATTERN);
    var c6 := WithReg(c5, 7, 1);
    MaskSteps(decode, cpu); MaskSteps(decode, c1); MaskSteps(decode, c2); MaskSteps(decode, c5);
    LiteralSteps(decode, c3); LiteralSteps(decode, c4);
    ReachOne(decode, compiled, cpu, 0, c1);
    ReachOne(decode, compiled, c1, 1, c2);
    ReachOne(decode, compiled, c2, 2, c3);
    ReachOne(decode, compiled, c3, 3, c4);
    ReachOne(decode, compiled, c4, 4, c5);
    ReachOne(decode, compiled, c5, 5, c6);
    ReachOn(decode, compiled, cpu, 0, 1, c1, 1, c2);
    ReachOn(decode, compiled, cpu, 0, 2, c2, 1, c3);
    ReachOn(decode, compiled, cpu, 0, 3, c3, 1, c4);
    ReachOn(decode, compiled, cpu, 0, 4, c4, 1, c5);
    ReachOn(decode, compiled, cpu, 0, 5, c5, 1, c6);
    Reached(decode, compiled, cpu, 0, 6, c6);
    assert c3 == WithReg(cpu, 6, Plus(cpu.r[5] / 4, 0xFFFF_FFFF));
  }

  lemma MaskSteps(decode: Decoder, cpu: Cpu)
    requires Fits(decode, |cpu.mem.ram|)
    ensures TextStep(decode, cpu, 0) == Step(WithReg(cpu, 6, cpu.r[5]), Next)
    ensures TextStep(decode, cpu, 1) == Step(WithReg(cpu, 6, cpu.r[6] / 4), Next)
    ensures TextStep(decode, cpu, 2) == Step(WithReg(cpu, 6, Plus(cpu.r[6], 0xFFFF_FFFF)), Next)
    ensures TextStep(decode, cpu, 5) == Step(WithReg(cpu, 7, 1), Next)
  {
    hide Exec, Fits, Plus;
    DecodeMoves(decode, cpu, At(0));
    DecodeShifts(decode, cpu, At(1));
    DecodeImmediates(decode, cpu, At(2));
    DecodeImmediates(decode, cpu, At(5));
  }

  /** While the text is intact, the interpreted literal loads and the generated ones agree. */
  lemma LiteralSteps(decode: Decoder, cpu: Cpu)
    requires Fits(decode, |cpu.mem.ram|) && TextLoaded(decode, cpu.mem)
    ensures TextStep(decode, cpu, 3) == Step(WithReg(cpu, 9, PATTERN), Next)
    ensures TextStep(decode, cpu, 4) == Step(WithReg(cpu, 10, ANTIPATTERN), Next)
    ensures LoadLiteral(decode, cpu.mem, PATTERN_AT, PATTERN) == PATTERN
    ensures LoadLiteral(decode, cpu.mem, ANTIPATTERN_AT, ANTIPATTERN) == ANTIPATTERN
  {
    hide Exec, Fits, Read32, Read16;
    DecodeLiterals(decode, cpu);
  }

  lemma SimulateB8C(decode: Decoder, compiled: set<Word>, cpu: Cpu)
    requires Fits(decode, |cpu.mem.ram|) && TextLoaded(decode, cpu.mem)
    requires MissesText(decode, Plus(cpu.r[4], Times(4, cpu.r[7])))
    ensures Simulates(decode, compiled, cpu, B8C)
  {
    hide Exec, InterpRun, Instructions, TextLoaded, MissesText, Fits, Write32, NextBit, Plus, Times, Reaches, Arrives;
    var c1 := OffsetOf(cpu, 7);
    var c2 := Store(decode, c1, Plus(c1.r[4], c1.r[0]), c1.r[9]);
    var c3 := NextBit(c2, 7);
    ReachOffset(decode, compiled, cpu, 6, 7);
    ReachStoreIndexed(decode, compiled, c1, 8, 9);
    ReachOn(decode, compiled, cpu, 6, 2, c1, 1, c2);
    Reached(decode, compiled, cpu, 6, 3, c2);
    ReachNextBit(decode, compiled, c2, 9, 7);
    ReachOn(decode, compiled, cpu, 6, 3, c2, 3, c3);
    Reached(decode, compiled, cpu, 6, 6, c3);
    DecodeBranches(decode, c3);
    EndInBranch(decode, compiled, cpu, 6, 6, c3, B8C, B9A, !c3.sr.t);
  }

  lemma SimulateStoreBase(decode: Decoder, compiled: set<Word>, cpu: Cpu, b: Block)
    requires Fits(decode, |cpu.mem.ram|) && TextLoaded(decode, cpu.mem)
    requires b in {B9A, BB0} && MissesText(decode, cpu.r[4])
    ensures Simulates(decode, compiled, cpu, b)
  {
    hide Exec, InterpRun, Instructions, TextLoaded, MissesText, Fits, Write32, Store, Reaches;
    if b == B9A {
      ReachStoreBase(decode, compiled, cpu, 13, 10, 7);
      Reached(decode, compiled, cpu, 13, 2, WithReg(Store(decode, cpu, cpu.r[4], cpu.r[10]), 7, 1));
    } else {
      ReachStoreBase(decode, compiled, cpu, 24, 9, 8);
      Reached(decode, compiled, cpu, 24, 2, WithReg(Store(decode, cpu, cpu.r[4], cpu.r[9]), 8, 1));
    }
  }

  /** The two blocks that look at a cell selected by R7 share their straight part. */
  lemma LookSteps(decode: Decoder, compiled: set<Word>, cpu: Cpu, i: nat) returns (out: Cpu)
    requires Fits(decode, |cpu.mem.ram|) && TextLoaded(decode, cpu.mem) && i in {15, 33}
    ensures var c1 := OffsetOf(cpu, 7);
            out == Compare(c1, Read32(decode, c1.mem, Plus(c1.r[4], c1.r[0]))) && |out.mem.ram| == |cpu.mem.ram|
    ensures Reaches(decode, compiled, cpu, i, 4, out)
  {
    hide Exec, InterpRun, Instructions, TextLoaded, Fits, Read32, Plus, Times, Reaches;
    var c1 := OffsetOf(cpu, 7);
    out := Compare(c1, Read32(decode, c1.mem, Plus(c1.r[4], c1.r[0])));
    ReachOffset(decode, compiled, cpu, i, 7);
    ReachCompare(decode, compiled, c1, i + 2, true);
    ReachOn(decode, compiled, cpu, i, 2, c1, 2, out);
  }

  lemma SimulateB9E(decode: Decoder, compiled: set<Word>, cpu: Cpu)
    requires Fits(decode, |cpu.mem.ram|) && TextLoaded(decode, cpu.mem)
    ensures Simulates(decode, compiled, cpu, B9E)
  {
    hide Exec, InterpRun, Instructions, TextLoaded, Fits, Read32, Plus, Times, Reaches, Arrives;
    var out := LookSteps(decode, compiled, cpu, 15);
    DecodeBranches(decode, out);
    EndInBranch(decode, compiled, cpu, 15, 4, out, BEC, BA8, !out.sr.t);
  }

  lemma SimulateBC2(decode: Decoder, compiled: set<Word>, cpu: Cpu)
    requires Fits(decode, |cpu.mem.ram|) && TextLoaded(decode, cpu.mem)
    ensures Simulates(decode, compiled, cpu, BC2)
  {
    hide Exec, InterpRun, Instructions, TextLoaded, Fits, Read32, Plus, Times, Reaches, Arrives;
    var out := LookSteps(decode, compiled, cpu, 33);
    DecodeScanBranches(decode, out);
    EndInBranch(decode, compiled, cpu, 33, 4, out, BD0, BCC, out.sr.t);
  }

  /** The two blocks that only move the inner walking bit. */
  lemma SimulateNextBit(decode: Decoder, compiled: set<Word>, cpu: Cpu, b: Block)
    requires Fits(decode, |cpu.mem.ram|) && TextLoaded(decode, cpu.mem)
    requires b in {BA8, BD0}
    ensures Simulates(decode, compiled, cpu, b)
  {
    hide Exec, InterpRun, Instructions, TextLoaded, Fits, NextBit, Reaches, Arrives;
    var i := if b == BA8 then 20 else 40;
    var c1 := NextBit(cpu, 7);
    ReachNextBit(decode, compiled, cpu, i, 7);
    Reached(decode, compiled, cpu, i, 3, c1);
    DecodeBranches(decode, c1);
    DecodeScanBranches(decode, c1);
    if b == BA8 {
      EndInBranch(decode, compiled, cpu, 20, 3, c1, B9E, BB0, !c1.sr.t);
    } else {
      EndInBranch(decode, compiled, cpu, 40, 3, c1, BC2, BD8, !c1.sr.t);
    }
  }

  lemma SimulateBB4(decode: Decoder, compiled: set<Word>, cpu: Cpu)
    requires Fits(decode, |cpu.mem.ram|) && TextLoaded(decode, cpu.mem)
    requires MissesText(decode, Plus(cpu.r[4], Times(4, cpu.r[8])))
    ensures Simulates(decode, compiled, cpu, BB4)
  {
    hide Exec, InterpRun, Instructions, TextLoaded, MissesText, Fits, Read32, Write32, Plus, Times, Reaches, Arrives;
    var c1 := OffsetOf(cpu, 8);
    var c2 := Store(decode, c1, Plus(c1.r[4], c1.r[0]), c1.r[10]);
    var c3 := Compare(c2, Read32(decode, c2.mem, c2.r[4]));
    ReachOffset(decode, compiled, cpu, 26, 8);
    ReachStoreIndexed(decode, compiled, c1, 28, 10);
    ReachOn(decode, compiled, cpu, 26, 2, c1, 1, c2);
    Reached(decode, compiled, cpu, 26, 3, c2);
    ReachCompare(decode, compiled, c2, 29, false);
    ReachOn(decode, compiled, cpu, 26, 3, c2, 2, c3);
    Reached(decode, compiled, cpu, 26, 5, c3);
    DecodeBranches(decode, c3);
    EndInBranch(decode, compiled, cpu, 26, 5, c3, BF6, BC0, !c3.sr.t);
  }

  lemma SimulateBC0(decode: Decoder, compiled: set<Word>, cpu: Cpu)
    requires Fits(decode, |cpu.mem.ram|) && TextLoaded(decode, cpu.mem)
    ensures Simulates(decode, compiled, cpu, BC0)
  {
    hide Exec, InterpRun, Instructions, TextLoaded, Fits, Reaches;
    DecodeImmediates(decode, cpu, At(32));
    ReachOne(decode, compiled, cpu, 32, WithReg(cpu, 7, 1));
    Reached(decode, compiled, cpu, 32, 1, WithReg(cpu, 7, 1));
  }

  lemma SimulateBCC(decode: Decoder, compiled: set<Word>, cpu: Cpu)
    requires Fits(decode, |cpu.mem.ram|) && TextLoaded(decode, cpu.mem)
    ensures Simulates(decode, compiled, cpu, BCC)
  {
    hide Exec, InterpRun, Instructions, TextLoaded, Fits, Reaches, Arrives;
    var c1 := WithT(cpu, cpu.r[7] == cpu.r[8]);
    DecodeTests(decode, cpu, At(38));
    ReachOne(decode, compiled, cpu, 38, c1);
    DecodeScanBranches(decode, c1);
    EndInBranch(decode, compiled, cpu, 38, 1, c1, BF6, BD0, !c1.sr.t);
  }

  lemma SimulateBD8(decode: Decoder, compiled: set<Word>, cpu: Cpu)
    requires Fits(decode, |cpu.mem.ram|) && TextLoaded(decode, cpu.mem)
    requires MissesText(decode, Plus(cpu.r[4], Times(4, cpu.r[8])))
    ensures Simulates(decode, compiled, cpu, BD8)
  {
    hide Exec, InterpRun, Instructions, TextLoaded, MissesText, Fits, Write32, NextBit, Plus, Times, Reaches, Arrives;
    var c1 := OffsetOf(cpu, 8);
    var c2 := Store(decode, c1, Plus(c1.r[4], c1.r[0]), c1.r[9]);
    var c3 := NextBit(c2, 8);
    ReachOffset(decode, compiled, cpu, 44, 8);
    ReachStoreIndexed(decode, compiled, c1, 46, 9);
    ReachOn(decode, compiled, cpu, 44, 2, c1, 1, c2);
    Reached(decode, compiled, cpu, 44, 3, c2);
    ReachNextBit(decode, compiled, c2, 47, 8);
    ReachOn(decode, compiled, cpu, 44, 3, c2, 3, c3);
    Reached(decode, compiled, cpu, 44, 6, c3);
    DecodeScanBranches(decode, c3);
    EndInBranch(decode, compiled, cpu, 44, 6, c3, BB4, BE6, !c3.sr.t);
  }

  lemma SimulateSuccess(decode: Decoder, compiled: set<Word>, cpu: Cpu)
    requires Fits(decode, |cpu.mem.ram|) && TextLoaded(decode, cpu.mem)
    ensures Simulates(decode, compiled, cpu, BE6)
  {
    hide Exec, InterpRun, Instructions, TextLoaded, Fits, Reaches, Arrives;
    DecodeImmediates(decode, cpu, At(51));
    ReachOne(decode, compiled, cpu, 51, WithReg(cpu, 0, 0));
    EndInReturn(decode, compiled, cpu, 51, 1, WithReg(cpu, 0, 0));
  }

  lemma FailureSteps(decode: Decoder, compiled: set<Word>, cpu: Cpu, i: nat, n: RegIndex)
    requires Fits(decode, |cpu.mem.ram|) && i < 60 && TextLoaded(decode, cpu.mem)
    requires n in {7, 8} && TextOp(i) == (if n == 7 then 0x6073 else 0x6083) && TextOp(i + 1) == 0x4008
    requires TextOp(i + 2) == 0x304C && TextOp(i + 3) == 0x000B && TextOp(i + 4) == 0x0009
    ensures var out := WithReg(cpu, 0, Plus(Times(4, cpu.r[n]), cpu.r[4]));
            Arrives(compiled, InterpRun(decode, compiled, cpu, At(i), 4), out, Leave)
            && Instructions(decode, compiled, cpu, At(i), 4) == 5
  {
    hide Exec, InterpRun, Instructions, TextLoaded, TextOp, Fits, Plus, Times, Reaches, Arrives;
    var c1 := OffsetOf(cpu, n);
    var c2 := WithReg(c1, 0, Plus(c1.r[0], c1.r[4]));
    ReachOffset(decode, compiled, cpu, i, n);
    DecodeImmediates(decode, c1, At(i + 2));
    ReachOne(decode, compiled, c1, i + 2, c2);
    ReachOn(decode, compiled, cpu, i, 2, c1, 1, c2);
    EndInReturn(decode, compiled, cpu, i, 3, c2);
    assert c2 == WithReg(cpu, 0, Plus(Times(4, cpu.r[n]), cpu.r[4]));
  }

  lemma SimulateFailure(decode: Decoder, compiled: set<Word>, cpu: Cpu, b: Block)
    requires Fits(decode, |cpu.mem.ram|) && TextLoaded(decode, cpu.mem)
    requires b in {BEC, BF6}
    ensures Simulates(decode, compiled, cpu, b)
  {
    hide Exec, InterpRun, Instructions, TextLoaded, Fits, Plus, Times, Arrives;
    if b == BEC {
      FailureSteps(decode, compiled, cpu, 54, 7);
    } else {
      FailureSteps(decode, compiled, cpu, 59, 8);
    }
  }

  // ----- The whole function

  lemma SimulateBlock(decode: Decoder, compiled: set<Word>, cpu: Cpu, b: Block)
    requires Fits(decode, |cpu.mem.ram|) && Guarded(decode, cpu, b)
    ensures Simulates(decode, compiled, cpu, b)
  {
    hide Simulates, TextLoaded, MissesText, WalkMissesText, Fits;
    match b
    case B80 => SimulateB80(decode, compiled, cpu);
    case B8C =>
      WalkOn(decode, cpu.r[4], cpu.r[6], cpu.r[7]);
      SimulateB8C(decode, compiled, cpu);
    case B9A => SimulateStoreBase(decode, compiled, cpu, b);
    case BB0 => SimulateStoreBase(decode, compiled, cpu, b);
    case B9E => SimulateB9E(decode, compiled, cpu);
    case BC2 => SimulateBC2(decode, compiled, cpu);
    case BA8 => SimulateNextBit(decode, compiled, cpu, b);
    case BD0 => SimulateNextBit(decode, compiled, cpu, b);
    case BB4 =>
      WalkOn(decode, cpu.r[4], cpu.r[6], cpu.r[8]);
      SimulateBB4(decode, compiled, cpu);
    case BC0 => SimulateBC0(decode, compiled, cpu);
    case BCC => SimulateBCC(decode, compiled, cpu);
    case BD8 =>
      WalkOn(decode, cpu.r[4], cpu.r[6], cpu.r[8]);
      SimulateBD8(decode, compiled, cpu);
    case BE6 => SimulateSuccess(decode, compiled, cpu);
    case BEC => SimulateFailure(decode, compiled, cpu, b);
    case BF6 => SimulateFailure(decode, compiled, cpu, b);
  }

  /** The guard carries over to the next block: base kept, text intact, walking bits still clear of it. */
  lemma GuardedOn(decode: Decoder, cpu: Cpu, b: Block)
    requires Fits(decode, |cpu.mem.ram|) && Guarded(decode, cpu, b)
    ensures var (out, exit) := RunBlock(decode, cpu, b);
            exit.Goto? ==> Guarded(decode, out, exit.block)
  {
    hide TextLoaded, MissesText, WalkMissesText, Fits, Write32, Read32, Plus, Times, LoadLiteral, And, Negative;
    match b
    case B8C =>
      WalkOn(decode, cpu.r[4], cpu.r[6], cpu.r[7]);
      var c1 := OffsetOf(cpu, 7);
      StoreKeepsText(decode, c1.mem, Plus(c1.r[4], c1.r[0]), c1.r[9]);
    case B9A => StoreKeepsText(decode, cpu.mem, cpu.r[4], cpu.r[10]);
    case BB0 => StoreKeepsText(decode, cpu.mem, cpu.r[4], cpu.r[9]);
    case BB4 =>
      WalkOn(decode, cpu.r[4], cpu.r[6], cpu.r[8]);
      var c1 := OffsetOf(cpu, 8);
      StoreKeepsText(decode, c1.mem, Plus(c1.r[4], c1.r[0]), c1.r[10]);
    case BD8 =>
      WalkOn(decode, cpu.r[4], cpu.r[6], cpu.r[8]);
      var c1 := OffsetOf(cpu, 8);
      StoreKeepsText(decode, c1.mem, Plus(c1.r[4], c1.r[0]), c1.r[9]);
    case _ =>
  }

  /** An interpreter outcome after `count` instructions that ends in `result` for `cycles`: it
      returned with it, the extra cycle of the generated exit aside, or it handed over to a compiled
      label in a state from which the generated function computes it for the rest of the cycles. */
  ghost predicate EndsIn(decode: Decoder, compiled: set<Word>, o: Outcome, count: nat, result: Cpu, cycles: nat)
  {
    match o
    case Returned(cpu, pc) => cpu == result && pc == result.pr && count + 1 == cycles
    case Handed(cpu, target) =>
      Fits(decode, |cpu.mem.ram|) && target in compiled
      && exists t :: Label(t) == target && Recompiled(decode, cpu, t) == result && count + RecompiledCycles(decode, cpu, t) == cycles
    case _ => false
  }

  /** Entered at any label, and whichever labels are registered as compiled, interpretation
      terminates in the state the generated function computes, for the cycles it charges. */
  lemma {:induction false} InterpretedEqualsRecompiled(decode: Decoder, compiled: set<Word>, cpu: Cpu, b: Block)
    returns (n: nat)
    requires Fits(decode, |cpu.mem.ram|) && Guarded(decode, cpu, b)
    ensures EndsIn(decode, compiled, InterpRun(decode, compiled, cpu, Label(b), n), Instructions(decode, compiled, cpu, Label(b), n),
                   Recompiled(decode, cpu, b), RecompiledCycles(decode, cpu, b))
    decreases Phase(b), OuterBits(cpu, b), Stage(b), InnerBits(cpu, b), Position(b)
  {
    hide Guarded, RunBlock, OuterBits, InnerBits, Fits, Label, InterpRun, Instructions, Cost;
    SimulateBlock(decode, compiled, cpu, b);
    var (out, exit) := RunBlock(decode, cpu, b);
    n := Length(b);
    if exit.Goto? {
      BlockProgress(decode, cpu, b);
      GuardedOn(decode, cpu, b);
      var rest := InterpretedEqualsRecompiled(decode, compiled, out, exit.block);
      InterpRunAdd(decode, compiled, cpu, Label(b), n, rest);
      if InterpRun(decode, compiled, cpu, Label(b), n).Running? {
        n := n + rest;
      }
    }
  }

  /** The machine code at 0x8C010080, interpreted, returns with exactly the registers, status,
      PC and memory of the recompiled function. With the interpreter's entry tick, which charges one
      cycle, both charge the same. */
  lemma TranslationValidated(decode: Decoder, cpu: Cpu) returns (n: nat)
    requires Fits(decode, |cpu.mem.ram|) && TextLoaded(decode, cpu.mem)
    requires MissesText(decode, cpu.r[4]) && WalkMissesText(decode, cpu.r[4], Mask(cpu, B80), 1)
    ensures InterpRun(decode, {}, cpu, TEXT, n) == Returned(Recompiled(decode, cpu, B80), cpu.pr)
    ensures 1 + Instructions(decode, {}, cpu, TEXT, n) == RecompiledCycles(decode, cpu, B80)
  {
    hide TextLoaded, MissesText, WalkMissesText, Fits, InterpRun, Instructions, Recompiled, RecompiledCycles, Mask;
    n := InterpretedEqualsRecompiled(decode, {}, cpu, B80);
  }

  /** So the interpreted machine code is the same test of the address bus, exact where no address
      under test is zero. */
  lemma MachineCodeIsExact(decode: Decoder, cpu: Cpu, k: nat) returns (n: nat, out: Cpu)
    requires Fits(decode, |cpu.mem.ram|) && TextLoaded(decode, cpu.mem)
    requires MissesText(decode, cpu.r[4]) && WalkMissesText(decode, cpu.r[4], Mask(cpu, B80), 1)
    requires AddressBusTest.LineCount(Minus(cpu.r[5] / 4, 1), k) && AddressBusTest.WholeWords(decode, cpu.r[4], k)
    ensures InterpRun(decode, {}, cpu, TEXT, n) == Returned(out, cpu.pr)
    ensures out.r[0] == AddressBusTest.Verdict(decode, cpu.r[4], k)
    ensures AddressBusTest.NoLineIsZero(cpu.r[4], k) ==> (out.r[0] == 0 <==> AddressBusTest.Injective(decode, cpu.r[4], k))
  {
    hide TextLoaded, MissesText, WalkMissesText, Fits, InterpRun, Instructions, Recompiled, RecompiledCycles, Mask, Minus, LoadLiteral;
    hide AddressBusTest.LineCount, AddressBusTest.WholeWords, AddressBusTest.NoLineIsZero, AddressBusTest.Injective;
    n := TranslationValidated(decode, cpu);
    out := Recompiled(decode, cpu, B80);
    LiteralSteps(decode, cpu);
    AddressBusTest.TestIsExact(decode, cpu, k);
    AddressBusTest.TestReturnsVerdict(decode, cpu, k);
  }
}

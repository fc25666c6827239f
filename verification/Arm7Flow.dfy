/** Executed multiplications, branches and status-register moves of the ARM7. */
module Arm7Flow {
  import opened Options
  import opened Words
  import opened Bits
  import opened Arm7Isa
  import opened Arm7Step
  import opened Arm7Encoding
  import opened Arm7Shifter
  import opened Arm7Data
  import opened Arm7Flags
  import opened Arm7Access

  // ----- MUL and MLA

  function MulOp(cond: Nibble, accumulate: bool, s: bool, rd: Nibble, rn: Nibble, rs: Nibble, rm: Nibble): Word {
    Instruction(cond, 2 * Bit(accumulate) + Bit(s), rd, rn, 0x100 * rs + 0x90 + rm)
  }

  lemma MulDecodes(cond: Nibble, accumulate: bool, s: bool, rd: Nibble, rn: Nibble, rs: Nibble, rm: Nibble)
    ensures var op := MulOp(cond, accumulate, s, rd, rn, rs, rm);
            && Decode(op) == MUL && op / 0x1000_0000 == cond && Flag(op, 21) == accumulate && Flag(op, 20) == s
            && RegField(op, 16) == rd && RegField(op, 12) == rn && RegField(op, 8) == rs && RegField(op, 0) == rm
  {
    hide Field, Flag, RegField, Instruction;
    var top, low := 2 * Bit(accumulate) + Bit(s), 0x100 * rs + 0x90 + rm;
    DivModUnique(low, 0x10, 0x10 * rs + 9, rm);
    DivModUnique(0x10 * rs + 9, 0x10, rs, 9);
    DivModUnique(low, 0x100, rs, 0x90 + rm);
    Registers(cond, top, rd, rn, low);
    Classes(cond, top, rd, rn, low);
    Subclasses(cond, top, rd, rn, low);
    OpcodeBits(cond, top, rd, rn, low);
    CrossFields(cond, top, rd, rn, low);
  }

  /** The product, or product plus addend, modulo 2^32; with S, N and Z follow it. */
  lemma MultiplyExact(m: Machine, cond: Nibble, accumulate: bool, s: bool, rd: Nibble, rn: Nibble, rs: Nibble, rm: Nibble) returns (r: Word)
    requires Executes(m, MulOp(cond, accumulate, s, rd, rn, rs, rm))
    ensures Congruent(r, Source(m, rm) as int * Source(m, rs) as int + if accumulate then Source(m, rn) as int else 0)
    ensures rd != 15 ==>
              StepOnce(m) == Step(m.(pc := Next(m), file := Update(m.file, Mode(m), rd, r),
                                     cpsr := if s then m.cpsr.(n := Signed(r) < 0, z := r == 0) else m.cpsr), Executed)
    ensures rd == 15 ==> StepOnce(m) == Stop(m, Unsupported)
  {
    hide Decode, Flag, RegField, MulOp, Index, AlignTo, Bus32, ConditionPassed, StepOnce, MultiplyAdd;
    var op := MulOp(cond, accumulate, s, rd, rn, rs, rm);
    MulDecodes(cond, accumulate, s, rd, rn, rs, rm);
    StepExecutes(m, op);
    var x, y, z := Source(m, rm), Source(m, rs), if accumulate then Source(m, rn) else 0;
    r := MultiplyAdd(x, y, z);
    SumOfProduct(x, y, z);
  }

  lemma SumOfProduct(x: Word, y: Word, z: Word)
    ensures Congruent(MultiplyAdd(x, y, z), x as int * y as int + z as int)
  {
    WrapCongruent(x as int * y as int + z as int);
  }

  // ----- Coprocessors and software interrupts

  /** The core has neither. */
  lemma CoprocessorRefused(m: Machine, cond: Nibble, top: nat, rn: Nibble, rd: Nibble, low: nat)
    requires 0xC0 <= top < 0x100 && low < 0x1000 && Executes(m, Instruction(cond, top, rn, rd, low))
    ensures StepOnce(m) == Stop(m, Unsupported)
  {
    hide Field, Flag, RegField, Instruction, StepOnce, Bus32, ConditionPassed, AlignTo;
    Registers(cond, top, rn, rd, low);
    Classes(cond, top, rn, rd, low);
    Subclasses(cond, top, rn, rd, low);
    CrossFields(cond, top, rn, rd, low);
    StepExecutes(m, Instruction(cond, top, rn, rd, low));
  }

  // ----- B and BL

  function Offset24(offset: int): (o: nat)
    requires -0x80_0000 <= offset < 0x80_0000
    ensures o < 0x100_0000
  {
    if offset >= 0 then offset else offset + 0x100_0000
  }

  function BranchOp(cond: Nibble, link: bool, offset: int): Word
    requires -0x80_0000 <= offset < 0x80_0000
  {
    var o := Offset24(offset);
    Instruction(cond, 0xA0 + 0x10 * Bit(link) + o / 0x10_0000, o / 0x1_0000 % 0x10, o / 0x1000 % 0x10, o % 0x1000)
  }

  lemma OffsetDigits(o: nat)
    requires o < 0x100_0000
    ensures o == 0x10_0000 * (o / 0x10_0000) + 0x1_0000 * (o / 0x1_0000 % 0x10) + 0x1000 * (o / 0x1000 % 0x10) + o % 0x1000
    ensures o / 0x10_0000 < 0x10
  {
    DivTwice(o, 0x1000, 0x10);
    DivTwice(o, 0x1_0000, 0x10);
  }

  lemma BranchDecodes(cond: Nibble, link: bool, offset: int)
    requires -0x80_0000 <= offset < 0x80_0000
    ensures var op := BranchOp(cond, link, offset);
            Decode(op) == BRANCH && op / 0x1000_0000 == cond && Flag(op, 24) == link && op % 0x100_0000 == Offset24(offset)
  {
    hide Field, Flag, RegField;
    var o := Offset24(offset);
    OffsetDigits(o);
    var top, rn, rd, low := 0xA0 + 0x10 * Bit(link) + o / 0x10_0000, o / 0x1_0000 % 0x10, o / 0x1000 % 0x10, o % 0x1000;
    BranchTop(Bit(link), o / 0x10_0000);
    Registers(cond, top, rn, rd, low);
    Classes(cond, top, rn, rd, low);
    Subclasses(cond, top, rn, rd, low);
    OpcodeBits(cond, top, rn, rd, low);
    CrossFields(cond, top, rn, rd, low);
    DivModUnique(BranchOp(cond, link, offset), 0x100_0000, 0x10 * cond + 0xA + Bit(link), o);
  }

  lemma BranchTop(l: nat, h: nat)
    requires l < 2 && h < 0x10
    ensures var top := 0xA0 + 0x10 * l + h; top / 0x40 == 2 && top / 0x20 == 5 && top / 0x10 % 2 == l && top / 8 >= 20 && top / 4 >= 40
  {
    DivModUnique(0xA0 + 0x10 * l + h, 0x10, 10 + l, h);
  }

  /** A branch reaches the instruction's address plus 8 plus four times the signed offset; BL keeps the
      address of the instruction behind it in R14. */
  lemma BranchExact(m: Machine, cond: Nibble, link: bool, offset: int) returns (target: Word)
    requires -0x80_0000 <= offset < 0x80_0000 && Executes(m, BranchOp(cond, link, offset))
    ensures Congruent(target, AlignTo(m.pc, 4) as int + 8 + 4 * offset)
    ensures StepOnce(m) == Step(m.(pc := target, file := if link then Update(m.file, Mode(m), 14, Next(m)) else m.file), Executed)
  {
    hide Decode, Flag, BranchOp, Index, AlignTo, Bus32, ConditionPassed, StepOnce, Wrap, Congruent;
    BranchDecodes(cond, link, offset);
    StepExecutes(m, BranchOp(cond, link, offset));
    target := Wrap(AlignTo(m.pc, 4) as int + 8 + 4 * offset);
    WrapCongruent(AlignTo(m.pc, 4) as int + 8 + 4 * offset);
  }

  // ----- BX

  function BxOp(cond: Nibble, rm: Nibble): Word { Instruction(cond, 0x12, 0xF, 0xF, 0xF10 + rm) }

  lemma BxDecodes(cond: Nibble, rm: Nibble)
    ensures var op := BxOp(cond, rm); Decode(op) == BX && op / 0x1000_0000 == cond && RegField(op, 0) == rm
  {
    hide Flag, RegField, Instruction, Field;
    DivModUnique(0xF10 + rm, 0x10, 0xF1, rm);
    Registers(cond, 0x12, 0xF, 0xF, 0xF10 + rm);
    CrossFields(cond, 0x12, 0xF, 0xF, 0xF10 + rm);
  }

  function Odd(w: Word): bool { w % 2 == 1 }

  /** Bit 0 of the register chooses the state; the rest is the target, aligned for that state. */
  lemma ExchangeExact(m: Machine, cond: Nibble, rm: Nibble)
    requires Executes(m, BxOp(cond, rm))
    ensures var w := Source(m, rm);
            StepOnce(m) == Step(m.(cpsr := m.cpsr.(t := Odd(w)), pc := AlignTo(w, if Odd(w) then 2 else 4)), Executed)
  {
    hide Flag, RegField, BxOp, Decode, Bus32, ConditionPassed, StepOnce, AlignTo, Executes, Source, ReadReg;
    SourceReads(m);
    BxDecodes(cond, rm);
    StepExecutes(m, BxOp(cond, rm));
  }

  lemma AlignedTarget(w: Word)
    ensures Odd(w) ==> AlignTo(w, 2) == w - 1
    ensures w % 4 == 0 ==> !Odd(w) && AlignTo(w, 4) == w
  {
  }

  /** BL, anything that keeps R14, and BX R14: execution goes on behind the BL. */
  lemma CallReturns(m: Machine, cond: Nibble, offset: int, m1: Machine, cond1: Nibble)
    requires -0x80_0000 <= offset < 0x80_0000 && Executes(m, BranchOp(cond, true, offset))
    requires Executes(m1, BxOp(cond1, 14)) && Live(m1, 14) == Live(StepOnce(m).m, 14)
    ensures StepOnce(m1) == Step(m1.(pc := Next(m)), Executed)
  {
    hide Executes, BranchOp, BxOp, StepOnce, Congruent, Next, Odd, AlignTo, Index;
    var target := BranchExact(m, cond, true, offset);
    ExchangeExact(m1, cond1, 14);
    AlignedNext(m);
    AlignedTarget(Next(m));
    ArmState(m1, BxOp(cond1, 14));
  }

  lemma AlignedNext(m: Machine)
    ensures Next(m) % 4 == 0
  {
    hide AlignTo;
    AlignedDown(m.pc);
    WrapNear(AlignTo(m.pc, 4) as int + 4);
  }

  lemma ArmState(m: Machine, op: Word)
    requires Executes(m, op)
    ensures m.cpsr.(t := false) == m.cpsr
  {
    hide Bus32, ConditionPassed, AlignTo;
  }
}

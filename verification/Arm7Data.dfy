/** What executed data-processing instructions compute, in integers and binary digits. */
module Arm7Data {
  import opened Options
  import opened Words
  import opened Bits
  import opened Arm7Isa
  import opened Arm7Step
  import opened Arm7Encoding
  import opened Arm7Shifter
  import opened Arm7Flags

  // ----- Encoding

  /** The second operand: a rotated byte, or a register shifted by a number or by a register. */
  datatype Operand =
    | Constant(value: nat, rot: Nibble)
    | Scaled(rm: Nibble, kind: nat, amount: nat)
    | ScaledBy(rm: Nibble, kind: nat, rs: Nibble)

  predicate Proper(o: Operand) {
    match o case Constant(v, _) => v < 0x100 case Scaled(_, k, n) => k < 4 && n < 32 case ScaledBy(_, k, _) => k < 4
  }

  function OperandBits(o: Operand): (low: nat)
    requires Proper(o)
    ensures low < 0x1000
  {
    match o
    case Constant(v, rot) => 0x100 * rot + v
    case Scaled(rm, kind, amount) => 0x80 * amount + 0x20 * kind + rm
    case ScaledBy(rm, kind, rs) => 0x100 * rs + 0x20 * kind + 0x10 + rm
  }

  predicate Test(opcode: nat) { opcode in {8, 9, 10, 11} }

  function DataTop(opcode: Nibble, s: bool, o: Operand): nat { 0x20 * Bit(o.Constant?) + 2 * opcode + Bit(s) }

  /** AND, EOR, SUB, RSB, ADD, ADC, SBC, RSC, TST, TEQ, CMP, CMN, ORR, MOV, BIC and MVN, in this order. */
  function DataOp(cond: Nibble, opcode: Nibble, s: bool, rn: Nibble, rd: Nibble, o: Operand): Word
    requires Proper(o)
  {
    Instruction(cond, DataTop(opcode, s, o), rn, rd, OperandBits(o))
  }

  lemma DataDecodes(cond: Nibble, opcode: Nibble, s: bool, rn: Nibble, rd: Nibble, o: Operand)
    requires Proper(o) && (Test(opcode) ==> s)
    ensures var op := DataOp(cond, opcode, s, rn, rd, o);
            && Decode(op) == DATA && RegField(op, 21) == opcode && Flag(op, 20) == s && Flag(op, 25) == o.Constant?
            && RegField(op, 16) == rn && RegField(op, 12) == rd && op / 0x1000_0000 == cond
  {
    hide Field, Flag, RegField, Instruction, Decode;
    var top, low := DataTop(opcode, s, o), OperandBits(o);
    Registers(cond, top, rn, rd, low);
    Classes(cond, top, rn, rd, low);
    Subclasses(cond, top, rn, rd, low);
    OpcodeBits(cond, top, rn, rd, low);
    ShiftFields(cond, top, rn, rd, low);
    CrossFields(cond, top, rn, rd, low);
    if !o.Constant? {
      NotMultiply(o);
    }
    NoOtherClass(opcode, s, o, rn, rd);
    IsData(DataOp(cond, opcode, s, rn, rd, o));
  }

  lemma IsData(op: Word)
    requires op / 0x10 % 0x100_0000 != 0x12FFF1 && !(Field(op, 23, 5) == 2 && Field(op, 16, 6) == 0xF)
    requires !(Field(op, 23, 2) == 2 && Field(op, 20, 2) == 2) && Field(op, 26, 2) == 0
    requires Field(op, 25, 3) == 1 || (Field(op, 25, 3) == 0 && RegField(op, 4) != 9 && !(Flag(op, 7) && Flag(op, 4)))
    requires Field(op, 25, 3) == 1 ==> Field(op, 22, 6) != 0
    ensures Decode(op) == DATA
  {
    hide Field, Flag, RegField;
  }

  lemma NotMultiply(o: Operand)
    requires Proper(o) && !o.Constant?
    ensures var low := OperandBits(o); low / 0x10 % 0x10 != 9 && !(low / 0x80 % 2 == 1 && low / 0x10 % 2 == 1)
  {
    var low := OperandBits(o);
    match o
    case Scaled(rm, kind, amount) =>
      DivModUnique(low, 0x10, 8 * amount + 2 * kind, rm);
      DivModUnique(8 * amount + 2 * kind, 2, 4 * amount + kind, 0);
    case ScaledBy(rm, kind, rs) =>
      DivModUnique(low, 0x10, 0x10 * rs + 2 * kind + 1, rm);
      DivModUnique(0x10 * rs + 2 * kind + 1, 0x10, rs, 2 * kind + 1);
      DivModUnique(low, 0x80, 2 * rs, 0x20 * kind + 0x10 + rm);
  }

  lemma NoOtherClass(opcode: Nibble, s: bool, o: Operand, rn: Nibble, rd: Nibble)
    requires Proper(o) && (Test(opcode) ==> s)
    ensures var top, low := DataTop(opcode, s, o), OperandBits(o);
            && (o.Constant? ==> top / 4 != 0) && 0x1_0000 * top + 0x1000 * rn + 0x100 * rd + low / 0x10 != 0x12FFF1
            && !(top / 8 == 2 && top % 4 * 0x10 + rn == 0xF)
            && !(top / 8 % 4 == 2 && top % 4 == 2)
            && top / 0x40 == 0 && top / 0x20 == Bit(o.Constant?) && top / 2 % 16 == opcode && (top % 2 == 1 <==> s)
  {
    hide OperandBits;
    var top, low := DataTop(opcode, s, o), OperandBits(o);
    var i, x, y := Bit(o.Constant?), opcode / 4, opcode % 4;
    DivModUnique(top, 8, 4 * i + x, 2 * y + Bit(s));
    DivModUnique(4 * i + x, 4, i, x);
    DivModUnique(top, 4, 8 * i + 2 * x + y / 2, 2 * (y % 2) + Bit(s));
    DivModUnique(top, 0x20, i, 2 * opcode + Bit(s));
    DivModUnique(top, 2, 0x10 * i + opcode, Bit(s));
    DivModUnique(0x10 * i + opcode, 0x10, i, opcode);
  }

  /** The fields of the second operand. */
  lemma OperandFields(cond: Nibble, opcode: Nibble, s: bool, rn: Nibble, rd: Nibble, o: Operand)
    requires Proper(o)
    ensures var op := DataOp(cond, opcode, s, rn, rd, o);
            match o
            case Constant(v, rot) => op % 0x100 == v && RegField(op, 8) == rot
            case Scaled(rm, kind, amount) => RegField(op, 0) == rm && Field(op, 5, 2) == kind && Field(op, 7, 5) == amount && !Flag(op, 4)
            case ScaledBy(rm, kind, rs) => RegField(op, 0) == rm && Field(op, 5, 2) == kind && RegField(op, 8) == rs && Flag(op, 4)
  {
    hide Field, Flag, RegField, Instruction;
    var top, low := DataTop(opcode, s, o), OperandBits(o);
    Registers(cond, top, rn, rd, low);
    ShiftFields(cond, top, rn, rd, low);
    LowParts(o);
  }

  lemma LowParts(o: Operand)
    requires Proper(o)
    ensures var low := OperandBits(o);
            match o
            case Constant(v, rot) => low % 0x100 == v && low / 0x100 == rot
            case Scaled(rm, kind, amount) => low % 0x10 == rm && low / 0x20 % 4 == kind && low / 0x80 == amount && low / 0x10 % 2 == 0
            case ScaledBy(rm, kind, rs) => low % 0x10 == rm && low / 0x20 % 4 == kind && low / 0x100 == rs && low / 0x10 % 2 == 1
  {
    var low := OperandBits(o);
    match o
    case Constant(v, rot) => DivModUnique(low, 0x100, rot, v);
    case Scaled(rm, kind, amount) =>
      DivModUnique(low, 0x10, 8 * amount + 2 * kind, rm);
      DivModUnique(low, 0x20, 4 * amount + kind, rm);
      DivModUnique(4 * amount + kind, 4, amount, kind);
      DivModUnique(low, 0x80, amount, 0x20 * kind + rm);
      DivModUnique(8 * amount + 2 * kind, 2, 4 * amount + kind, 0);
    case ScaledBy(rm, kind, rs) =>
      DivModUnique(low, 0x10, 0x10 * rs + 2 * kind + 1, rm);
      DivModUnique(low, 0x20, 8 * rs + kind, 0x10 + rm);
      DivModUnique(8 * rs + kind, 4, 2 * rs, kind);
      DivModUnique(low, 0x100, rs, 0x20 * kind + 0x10 + rm);
      DivModUnique(0x10 * rs + 2 * kind + 1, 2, 8 * rs + kind, 1);
  }

  // ----- Execution

  /** The next step executes op: nothing prevents it, and its condition holds. */
  ghost predicate Executes(m: Machine, op: Word) {
    && !m.halted && !TakesFiq(m) && !TakesIrq(m) && !m.cpsr.t
    && Bus32(m.bus, AlignTo(m.pc, 4)) == Some(op) && ConditionPassed(m.cpsr, op / 0x1000_0000)
  }

  lemma StepExecutes(m: Machine, op: Word)
    requires Executes(m, op)
    ensures StepOnce(m) == Execute(m, AlignTo(m.pc, 4), op)
  {
    hide Execute, Bus32, ConditionPassed, AlignTo;
  }

  /** An instruction whose condition fails only moves on. */
  lemma ConditionFails(m: Machine, op: Word)
    requires !m.halted && !TakesFiq(m) && !TakesIrq(m) && !m.cpsr.t
    requires Bus32(m.bus, AlignTo(m.pc, 4)) == Some(op) && !ConditionPassed(m.cpsr, op / 0x1000_0000)
    ensures StepOnce(m) == Step(m.(pc := Plus(AlignTo(m.pc, 4), 4)), Executed)
  {
    hide Execute, Bus32, ConditionPassed, AlignTo;
  }

  /** What keeps an instruction from being fetched at all. */
  lemma NothingFetched(m: Machine)
    ensures m.halted ==> StepOnce(m) == Step(m, Halted)
    ensures !m.halted && !TakesFiq(m) && !TakesIrq(m) ==>
              && (m.cpsr.t ==> StepOnce(m) == Stop(m, Unsupported))
              && (!m.cpsr.t && Bus32(m.bus, AlignTo(m.pc, 4)).None? ==> StepOnce(m) == Stop(m, Fault))
  {
    hide Execute, Bus32, ConditionPassed, AlignTo;
  }

  /** A register as an operand: R15 is the instruction's address plus 8. */
  function Source(m: Machine, i: Nibble): Word { if i == 15 then Wrap(AlignTo(m.pc, 4) as int + 8) else View(m.file, Mode(m), i) }

  /** The value and the carry of the second operand. */
  function SecondOperand(m: Machine, o: Operand): Shifted
    requires Proper(o)
  {
    match o
    case Constant(v, rot) =>
      if rot == 0 then Arm7Isa.Shifted(v, m.cpsr.c, false) else Arm7Isa.Shifted(Rotr(v, 2 * rot), Negative(Rotr(v, 2 * rot)), true)
    case Scaled(rm, kind, amount) => ShiftValue(Source(m, rm), kind, amount, m.cpsr.c, true)
    case ScaledBy(rm, kind, rs) => ShiftValue(Source(m, rm), kind, Source(m, rs) % 0x100, m.cpsr.c, false)
  }

  /** A constant is its byte rotated right by twice the rotation field, digit by digit. */
  lemma ConstantBits(v: nat, rot: Nibble, i: nat)
    requires v < 0x100 && rot > 0 && i < 32
    ensures BitOf(Rotr(v, 2 * rot), i) <==> BitOf(v, (i + 2 * rot) % 32)
  {
    hide BitOf, Rotr;
    RotrBits(v, 2 * rot, i);
    assert (i + 2 * rot) % 32 == if i + 2 * rot < 32 then i + 2 * rot else i + 2 * rot - 32;
  }

  lemma OperandDecodes(m: Machine, cond: Nibble, opcode: Nibble, s: bool, rn: Nibble, rd: Nibble, o: Operand)
    requires Proper(o) && (Test(opcode) ==> s)
    ensures Operand2(m, AlignTo(m.pc, 4), DataOp(cond, opcode, s, rn, rd, o)) == SecondOperand(m, o)
  {
    hide Field, Flag, RegField, DataOp, Rotr, ShiftValue, AlignTo, Index, Decode, ConditionPassed;
    OperandFields(cond, opcode, s, rn, rd, o);
    DataDecodes(cond, opcode, s, rn, rd, o);
    if o.Constant? && o.rot == 0 {
      NoRotation(o.value);
    }
  }

  lemma NoRotation(v: Word)
    ensures Rotr(v, 0) == v
  {
    assert Pow2(0) == 1;
  }

  // ----- Results

  /** r is what the opcode makes of a and b, given the carry flag. */
  ghost predicate Means(opcode: Nibble, a: Word, b: Word, c: bool, r: Word) {
    && (opcode in {0, 8} ==> forall i :: 0 <= i < 32 ==> (BitOf(r, i) <==> BitOf(a, i) && BitOf(b, i)))
    && (opcode in {1, 9} ==> forall i :: 0 <= i < 32 ==> (BitOf(r, i) <==> BitOf(a, i) != BitOf(b, i)))
    && (opcode in {2, 10} ==> Congruent(r, a as int - b as int))
    && (opcode == 3 ==> Congruent(r, b as int - a as int))
    && (opcode in {4, 11} ==> Congruent(r, a as int + b as int))
    && (opcode == 5 ==> Congruent(r, a as int + b as int + Bit(c)))
    && (opcode == 6 ==> Congruent(r, a as int - b as int - Bit(!c)))
    && (opcode == 7 ==> Congruent(r, b as int - a as int - Bit(!c)))
    && (opcode == 12 ==> forall i :: 0 <= i < 32 ==> (BitOf(r, i) <==> BitOf(a, i) || BitOf(b, i)))
    && (opcode == 13 ==> r == b)
    && (opcode == 14 ==> forall i :: 0 <= i < 32 ==> (BitOf(r, i) <==> BitOf(a, i) && !BitOf(b, i)))
    && (opcode == 15 ==> forall i :: 0 <= i < 32 ==> (BitOf(r, i) <==> !BitOf(b, i)))
  }

  /** q is p with the flags the opcode leaves: sign and zero of the result; carry out of additions, no
      borrow of subtractions, the shifter's carry, if any, of the others; signed overflow, with the one
      exception of a borrow on top of 0x7FFFFFFF. */
  ghost predicate FlagsMean(opcode: Nibble, a: Word, b: Shifted, p: Psr, r: Word, q: Psr) {
    && q == p.(n := q.n, z := q.z, c := q.c, v := q.v)
    && (q.n <==> Signed(r) < 0) && (q.z <==> r == 0)
    && (opcode in {4, 11} ==> (q.c <==> a + b.value >= TWO_32) && (q.v <==> !FitsSigned(Signed(a) + Signed(b.value))))
    && (opcode == 5 ==> (q.c <==> a + b.value + Bit(p.c) >= TWO_32) && (q.v <==> !FitsSigned(Signed(a) + Signed(b.value) + Bit(p.c))))
    && (opcode in {2, 10} ==> (q.c <==> a >= b.value) && (q.v <==> !FitsSigned(Signed(a) - Signed(b.value))))
    && (opcode == 3 ==> (q.c <==> b.value >= a) && (q.v <==> !FitsSigned(Signed(b.value) - Signed(a))))
    && (opcode == 6 ==> (q.c <==> a >= b.value + Bit(!p.c))
                        && ((q.v <==> !FitsSigned(Signed(a) - Signed(b.value) - Bit(!p.c))) <==> !(b.value == 0x7FFF_FFFF && !p.c)))
    && (opcode == 7 ==> (q.c <==> b.value >= a + Bit(!p.c))
                        && ((q.v <==> !FitsSigned(Signed(b.value) - Signed(a) - Bit(!p.c))) <==> !(a == 0x7FFF_FFFF && !p.c)))
    && (opcode in {0, 1, 8, 9, 12, 13, 14, 15} ==> (q.c <==> if b.valid then b.carry else p.c) && q.v == p.v)
  }

  lemma LogicFlags(opcode: Nibble, a: Word, sh: Shifted, p: Psr)
    requires opcode in {0, 1, 8, 9, 12, 13, 14, 15}
    ensures var f := Alu(opcode, a, sh, p);
            && FlagsMean(opcode, a, sh, p, f.result, SetFlags(p, f))
            && f.result == if opcode in {0, 8} then And(a, sh.value) else if opcode in {1, 9} then Xor(a, sh.value)
                           else if opcode == 12 then Or(a, sh.value) else if opcode == 13 then sh.value
                           else if opcode == 14 then And(a, Not(sh.value)) else Not(sh.value)
  {
    hide And, Or, Xor, Not;
  }

  lemma LogicMeans(opcode: Nibble, a: Word, sh: Shifted, p: Psr)
    requires opcode in {0, 1, 8, 9, 12, 13, 14, 15}
    ensures var f := Alu(opcode, a, sh, p);
            Means(opcode, a, sh.value, p.c, f.result) && FlagsMean(opcode, a, sh, p, f.result, SetFlags(p, f))
  {
    hide BitOf, And, Or, Xor, Not, Congruent, Alu, SetFlags, FlagsMean;
    LogicFlags(opcode, a, sh, p);
    var r := Alu(opcode, a, sh, p).result;
    forall i | 0 <= i < 32
      ensures opcode in {0, 8} ==> (BitOf(r, i) <==> BitOf(a, i) && BitOf(sh.value, i))
      ensures opcode in {1, 9} ==> (BitOf(r, i) <==> BitOf(a, i) != BitOf(sh.value, i))
      ensures opcode == 12 ==> (BitOf(r, i) <==> BitOf(a, i) || BitOf(sh.value, i))
      ensures opcode == 14 ==> (BitOf(r, i) <==> BitOf(a, i) && !BitOf(sh.value, i))
      ensures opcode == 15 ==> (BitOf(r, i) <==> !BitOf(sh.value, i))
    {
      BitwiseExact(a, sh.value, i);
    }
  }

  lemma SumMeans(opcode: Nibble, a: Word, sh: Shifted, p: Psr)
    requires opcode in {4, 5, 11}
    ensures var f := Alu(opcode, a, sh, p);
            Means(opcode, a, sh.value, p.c, f.result) && FlagsMean(opcode, a, sh, p, f.result, SetFlags(p, f))
  {
    hide BitOf, Congruent, Wrap;
    var carry := opcode == 5 && p.c;
    AddOverflow(a, sh.value, carry);
    WrapCongruent(a as int + sh.value as int + Bit(carry));
  }

  lemma DifferenceMeans(opcode: Nibble, a: Word, sh: Shifted, p: Psr)
    requires opcode in {2, 6, 10}
    ensures var f := Alu(opcode, a, sh, p);
            Means(opcode, a, sh.value, p.c, f.result) && FlagsMean(opcode, a, sh, p, f.result, SetFlags(p, f))
  {
    hide BitOf, Congruent, Wrap;
    var borrow := opcode == 6 && !p.c;
    SubOverflow(a, sh.value, borrow);
    WrapCongruent(a as int - (sh.value as int + Bit(borrow)));
  }

  lemma ReverseMeans(opcode: Nibble, a: Word, sh: Shifted, p: Psr)
    requires opcode in {3, 7}
    ensures var f := Alu(opcode, a, sh, p);
            Means(opcode, a, sh.value, p.c, f.result) && FlagsMean(opcode, a, sh, p, f.result, SetFlags(p, f))
  {
    hide BitOf, Congruent, Wrap;
    var borrow := opcode == 7 && !p.c;
    SubOverflow(sh.value, a, borrow);
    WrapCongruent(sh.value as int - (a as int + Bit(borrow)));
  }

  lemma AluMeans(opcode: Nibble, a: Word, sh: Shifted, p: Psr)
    ensures var f := Alu(opcode, a, sh, p);
            Means(opcode, a, sh.value, p.c, f.result) && FlagsMean(opcode, a, sh, p, f.result, SetFlags(p, f))
  {
    hide Means, FlagsMean, Alu, SetFlags;
    if opcode in {4, 5, 11} {
      SumMeans(opcode, a, sh, p);
    } else if opcode in {2, 6, 10} {
      DifferenceMeans(opcode, a, sh, p);
    } else if opcode in {3, 7} {
      ReverseMeans(opcode, a, sh, p);
    } else {
      LogicMeans(opcode, a, sh, p);
    }
  }

  /** Executing a data-processing instruction: the result goes to Rd, or nowhere for the tests; the flags
      change with S; nothing else does, and the PC moves on. */
  lemma DataExact(m: Machine, cond: Nibble, opcode: Nibble, s: bool, rn: Nibble, rd: Nibble, o: Operand) returns (r: Word)
    requires Proper(o) && (Test(opcode) ==> s) && (rd == 15 ==> Test(opcode))
    requires Executes(m, DataOp(cond, opcode, s, rn, rd, o))
    ensures var a, b, out := Source(m, rn), SecondOperand(m, o), StepOnce(m);
            && out.status == Executed
            && out.m == m.(pc := Plus(AlignTo(m.pc, 4), 4), cpsr := out.m.cpsr,
                           file := if Test(opcode) then m.file else Update(m.file, Mode(m), rd, r))
            && Means(opcode, a, b.value, m.cpsr.c, r)
            && (if s then FlagsMean(opcode, a, b, m.cpsr, r, out.m.cpsr) else out.m.cpsr == m.cpsr)
  {
    hide Decode, Flag, RegField, DataOp, Operand2, SecondOperand, Alu, Means, FlagsMean, Index, AlignTo, Bus32, ConditionPassed, StepOnce;
    var op, pc := DataOp(cond, opcode, s, rn, rd, o), AlignTo(m.pc, 4);
    DataDecodes(cond, opcode, s, rn, rd, o);
    OperandDecodes(m, cond, opcode, s, rn, rd, o);
    StepExecutes(m, op);
    var sh := SecondOperand(m, o);
    AluMeans(opcode, Source(m, rn), sh, m.cpsr);
    r := Alu(opcode, Source(m, rn), sh, m.cpsr).result;
  }

  /** The saved status, as far as it names a mode. */
  function Restored(m: Machine): Psr {
    var p := GetSpsr(m);
    p.(mode := if ValidMode(p.mode) then p.mode else Mode(m))
  }

  /** With R15 as destination the result, word aligned, is where execution goes on; with S the status
      comes back from the SPSR first. */
  lemma DataToPc(m: Machine, cond: Nibble, opcode: Nibble, s: bool, rn: Nibble, o: Operand) returns (r: Word)
    requires Proper(o) && !Test(opcode) && Executes(m, DataOp(cond, opcode, s, rn, 15, o))
    ensures Means(opcode, Source(m, rn), SecondOperand(m, o).value, m.cpsr.c, r)
    ensures var out := StepOnce(m);
            && out == Step(m.(pc := AlignTo(r, 4), cpsr := out.m.cpsr), Executed)
            && (!s ==> out.m.cpsr == m.cpsr)
            && (s && HasSpsr(Mode(m)) ==> out.m.cpsr == Restored(m))
            && (s && !HasSpsr(Mode(m)) ==> FlagsMean(opcode, Source(m, rn), SecondOperand(m, o), m.cpsr, r, out.m.cpsr))
  {
    hide Decode, Flag, RegField, DataOp, Operand2, SecondOperand, Alu, Means, Index, AlignTo, Bus32, ConditionPassed, StepOnce, GetSpsr, SetFlags, FlagsMean, Restored, HasSpsr, ApplyPsrFields, SetCpsr;
    var op, pc := DataOp(cond, opcode, s, rn, 15, o), AlignTo(m.pc, 4);
    DataDecodes(cond, opcode, s, rn, 15, o);
    OperandDecodes(m, cond, opcode, s, rn, 15, o);
    StepExecutes(m, op);
    var sh := SecondOperand(m, o);
    AluMeans(opcode, Source(m, rn), sh, m.cpsr);
    r := Alu(opcode, Source(m, rn), sh, m.cpsr).result;
    SpsrSurvives(m, Alu(opcode, Source(m, rn), sh, m.cpsr));
  }

  /** Setting the flags first does not matter to a full restore from the SPSR. */
  lemma SpsrSurvives(m: Machine, f: Flagged)
    ensures var m1 := m.(cpsr := SetFlags(m.cpsr, f));
            SetCpsr(m1, GetSpsr(m1), 0xF) == m.(cpsr := if HasSpsr(Mode(m)) then Restored(m) else m1.cpsr)
  {
  }

  // ----- Conditions

  /** The conditions on single flags; the sign tests after any instruction that sets them. */
  lemma SingleConditions(p: Psr)
    ensures (ConditionPassed(p, 4) <==> p.n) && (ConditionPassed(p, 5) <==> !p.n)
    ensures (ConditionPassed(p, 6) <==> p.v) && (ConditionPassed(p, 7) <==> !p.v)
    ensures ConditionPassed(p, 14) && !ConditionPassed(p, 15)
  {
  }

  lemma SignConditions(opcode: Nibble, a: Word, b: Shifted, p: Psr, r: Word, q: Psr)
    requires FlagsMean(opcode, a, b, p, r, q)
    ensures (ConditionPassed(q, 4) <==> Signed(r) < 0) && (ConditionPassed(q, 5) <==> Signed(r) >= 0)
    ensures (ConditionPassed(q, 0) <==> r == 0) && (ConditionPassed(q, 1) <==> r != 0)
  {
  }
}

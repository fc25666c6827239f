/** Executed status-register moves of the ARM7: MRS and MSR. */
module Arm7Status {
  import opened Options
  import opened Words
  import opened Bits
  import opened Arm7Isa
  import opened Arm7Step
  import opened Arm7Encoding
  import opened Arm7Shifter
  import opened Arm7Data
  import opened Arm7Flags
  import opened Arm7Access

  // ----- Words and fields

  /** Where the fields of a status register are. */
  lemma PsrDigits(p: Psr)
    ensures var w := PsrWord(p);
            && (BitOf(w, 31) <==> p.n) && (BitOf(w, 30) <==> p.z) && (BitOf(w, 29) <==> p.c) && (BitOf(w, 28) <==> p.v)
            && (BitOf(w, 7) <==> p.i) && (BitOf(w, 6) <==> p.f) && (BitOf(w, 5) <==> p.t) && w % 0x20 == p.mode
  {
    hide PsrWord;
    PsrRoundTrip(p);
    Pow2Table();
    Pow2Small();
    assert Pow2(29) == 0x2000_0000 && Pow2(28) == 0x1000_0000;
  }

  /** A word is what its fields are packed to. */
  lemma WordRoundTrip(w: Word)
    ensures PsrWord(PsrOf(w)) == w
  {
    hide PsrWord, PsrOf, FlagsByte, ControlByte;
    var p := PsrOf(w);
    FourBytes(w);
    FlagsRoundTrip(w);
    ControlRoundTrip(w);
    PsrBytes(p);
    MiddleBytes(w);
  }

  lemma MiddleBytes(w: Word)
    ensures PsrOf(w).status == w / 0x1_0000 % 0x100 && PsrOf(w).extension == w / 0x100 % 0x100
  {
  }

  lemma FlagsRoundTrip(w: Word)
    ensures FlagsByte(PsrOf(w)) == w / 0x100_0000
  {
    hide PsrOf;
    FlagFields(w, w / 0x100_0000);
    FourBytes(w);
    PackedFlags(PsrOf(w), w / 0x100_0000);
  }

  lemma PackedFlags(p: Psr, a: nat)
    requires a < 0x100
    requires (p.n <==> a / 0x80 == 1) && (p.z <==> a / 0x40 % 2 == 1) && (p.c <==> a / 0x20 % 2 == 1)
    requires (p.v <==> a / 0x10 % 2 == 1) && p.reserved == a % 0x10
    ensures FlagsByte(p) == a
  {
    ByteOfDigits(a);
    NibbleOfDigits(a);
  }

  lemma FlagFields(w: Word, a: nat)
    requires w / 0x100_0000 == a
    ensures var p := PsrOf(w);
            && (p.n <==> a / 0x80 == 1) && (p.z <==> a / 0x40 % 2 == 1) && (p.c <==> a / 0x20 % 2 == 1)
            && (p.v <==> a / 0x10 % 2 == 1) && p.reserved == a % 0x10
  {
    TopBits(w, a);
  }

  lemma ControlRoundTrip(w: Word)
    ensures ControlByte(PsrOf(w)) == w % 0x100
  {
    LowBits(w, w % 0x100);
    ByteOfDigits(w % 0x100);
  }

  lemma FourBytes(w: Word)
    ensures w == 0x100_0000 * (w / 0x100_0000) + 0x1_0000 * (w / 0x1_0000 % 0x100) + 0x100 * (w / 0x100 % 0x100) + w % 0x100
    ensures w / 0x100_0000 < 0x100
  {
    BytesOfWord(w);
  }

  lemma ByteOfDigits(a: nat)
    requires a < 0x100
    ensures a == 0x80 * (a / 0x80) + 0x40 * (a / 0x40 % 2) + 0x20 * (a / 0x20 % 2) + a % 0x20 && a / 0x80 < 2
  {
  }

  lemma NibbleOfDigits(a: nat)
    requires a < 0x100
    ensures a % 0x20 == 0x10 * (a / 0x10 % 2) + a % 0x10
  {
  }

  // ----- MRS

  function MrsOp(cond: Nibble, saved: bool, rd: Nibble): Word { Instruction(cond, 0x10 + 4 * Bit(saved), 0xF, rd, 0) }

  lemma MrsDecodes(cond: Nibble, saved: bool, rd: Nibble)
    ensures var op := MrsOp(cond, saved, rd);
            Decode(op) == MRS && op / 0x1000_0000 == cond && RegField(op, 12) == rd && Flag(op, 22) == saved
  {
    hide Flag, RegField, Instruction, Field;
    var top := 0x10 + 4 * Bit(saved);
    Registers(cond, top, 0xF, rd, 0);
    Classes(cond, top, 0xF, rd, 0);
    OpcodeBits(cond, top, 0xF, rd, 0);
    CrossFields(cond, top, 0xF, rd, 0);
  }

  /** The saved status register, or the current one. User and System have none of their own. */
  function Status(m: Machine, saved: bool): Psr { if saved then GetSpsr(m) else m.cpsr }

  /** Rd gets the status register's word; with R15 as Rd it is the next address. */
  lemma MrsExact(m: Machine, cond: Nibble, saved: bool, rd: Nibble)
    requires Executes(m, MrsOp(cond, saved, rd))
    ensures var w := PsrWord(Status(m, saved));
            StepOnce(m) == if rd == 15 then Step(m.(pc := AlignTo(w, 4)), Executed)
                           else Step(m.(pc := Next(m), file := Update(m.file, Mode(m), rd, w)), Executed)
  {
    hide Decode, Flag, RegField, MrsOp, Index, Bus32, ConditionPassed, StepOnce, PsrWord, AlignTo;
    MrsDecodes(cond, saved, rd);
    StepExecutes(m, MrsOp(cond, saved, rd));
  }

  // ----- MSR

  /** The source of an MSR: a constant or a register. */
  predicate PlainOperand(o: Operand) { Arm7Data.Proper(o) && match o case Constant(_, _) => true case Scaled(_, k, n) => k == 0 && n == 0 case _ => false }

  function MsrOp(cond: Nibble, saved: bool, fields: Nibble, o: Operand): Word
    requires PlainOperand(o)
  {
    Instruction(cond, 0x12 + 4 * Bit(saved) + 0x20 * Bit(o.Constant?), fields, 0xF, OperandBits(o))
  }

  lemma MsrTop(saved: bool, constant: bool)
    ensures var top := 0x12 + 4 * Bit(saved) + 0x20 * Bit(constant);
            && top < 0x40 && top / 8 % 4 == 2 && top % 4 == 2 && (top / 4 % 2 == 1 <==> saved) && (top / 0x20 % 2 == 1 <==> constant)
            && (top == 0x12 ==> !constant)
  {
  }

  lemma MsrDecodes(cond: Nibble, saved: bool, fields: Nibble, o: Operand)
    requires PlainOperand(o)
    ensures var op := MsrOp(cond, saved, fields, o);
            && Decode(op) == MSR && op / 0x1000_0000 == cond && Flag(op, 22) == saved && RegField(op, 16) == fields && Flag(op, 25) == o.Constant?
            && match o case Constant(v, rot) => op % 0x100 == v && RegField(op, 8) == rot case Scaled(rm, _, _) => RegField(op, 0) == rm case _ => true
  {
    hide Flag, RegField, Instruction, Field, OperandBits;
    var top, low := 0x12 + 4 * Bit(saved) + 0x20 * Bit(o.Constant?), OperandBits(o);
    MsrTop(saved, o.Constant?);
    LowParts(o);
    if !o.Constant? {
      RegisterOnly(o);
    }
    Registers(cond, top, fields, 0xF, low);
    Classes(cond, top, fields, 0xF, low);
    Subclasses(cond, top, fields, 0xF, low);
    OpcodeBits(cond, top, fields, 0xF, low);
    CrossFields(cond, top, fields, 0xF, low);
  }

  lemma RegisterOnly(o: Operand)
    requires PlainOperand(o) && !o.Constant?
    ensures OperandBits(o) / 0x10 == 0
  {
  }

  /** The word an MSR moves. */
  function MovedWord(m: Machine, o: Operand): Word
    requires PlainOperand(o)
  {
    match o case Constant(v, rot) => Rotr(v, 2 * rot) case Scaled(rm, _, _) => Source(m, rm) case _ => 0
  }

  lemma ValueMoved(m: Machine, o: Operand, op: Word)
    requires PlainOperand(o) && Flag(op, 25) == o.Constant?
    requires match o case Constant(v, rot) => op % 0x100 == v && RegField(op, 8) == rot case Scaled(rm, _, _) => RegField(op, 0) == rm case _ => true
    ensures (if Flag(op, 25) then Immediate(op) else ReadReg(m, RegField(op, 0), AlignTo(m.pc, 4))) == MovedWord(m, o)
  {
    hide Flag, RegField, Index, AlignTo, Rotr;
  }

  /** Byte by byte: from the value where its field bit is set, from before where it is not. */
  ghost predicate Selected(before: Word, value: Word, fields: Nibble, after: Word) {
    && after / 0x100_0000 == (if fields / 8 % 2 == 1 then value else before) / 0x100_0000
    && after / 0x1_0000 % 0x100 == (if fields / 4 % 2 == 1 then value else before) / 0x1_0000 % 0x100
    && after / 0x100 % 0x100 == (if fields / 2 % 2 == 1 then value else before) / 0x100 % 0x100
    && after % 0x100 == (if fields % 2 == 1 then value else before) % 0x100
  }

  /** MSR to the current status: the selected bytes, except that a mode that is none stays as it was. */
  lemma MsrCurrent(m: Machine, cond: Nibble, fields: Nibble, o: Operand) returns (q: Psr)
    requires PlainOperand(o) && Executes(m, MsrOp(cond, false, fields, o))
    ensures Selected(PsrWord(m.cpsr), MovedWord(m, o), fields, PsrWord(q))
    ensures StepOnce(m) == Step(m.(pc := Next(m), cpsr := if ValidMode(q.mode) then q else q.(mode := Mode(m))), Executed)
  {
    hide Decode, Flag, RegField, MsrOp, Index, Bus32, ConditionPassed, StepOnce, PsrWord, PsrOf, AlignTo, MovedWord, Immediate, ReadReg;
    MsrDecodes(cond, false, fields, o);
    ValueMoved(m, o, MsrOp(cond, false, fields, o));
    StepExecutes(m, MsrOp(cond, false, fields, o));
    q := ApplyPsrFields(m.cpsr, PsrOf(MovedWord(m, o)), fields);
    MsrSelectsBytes(m.cpsr, PsrOf(MovedWord(m, o)), fields);
    WordRoundTrip(MovedWord(m, o));
  }

  lemma SavedSelected(m: Machine, value: Psr, fields: Nibble)
    ensures var out, p := SetSpsr(m, value, fields), ApplyPsrFields(GetSpsr(m), value, fields);
            && out == m.(spsr := out.spsr) && (HasSpsr(Mode(m)) ==> GetSpsr(out) == p)
            && (Mode(m) != FIQ ==> out.spsr.fiq == m.spsr.fiq) && (Mode(m) != IRQ ==> out.spsr.irq == m.spsr.irq)
            && (Mode(m) != SVC ==> out.spsr.svc == m.spsr.svc) && (Mode(m) != ABT ==> out.spsr.abt == m.spsr.abt)
            && (Mode(m) != UND ==> out.spsr.und == m.spsr.und)
  {
    hide ApplyPsrFields;
  }

  lemma SavedAdvanced(m: Machine, pc: Word)
    ensures GetSpsr(Advance(m, pc).m) == GetSpsr(m)
  {
  }

  /** MSR to the saved status of the current mode, which User and System do not have. */
  lemma MsrSaved(m: Machine, cond: Nibble, fields: Nibble, o: Operand)
    requires PlainOperand(o) && Executes(m, MsrOp(cond, true, fields, o))
    ensures var out := StepOnce(m);
            && out == Step(m.(pc := Next(m), spsr := out.m.spsr), Executed)
            && (HasSpsr(Mode(m)) ==> Selected(PsrWord(GetSpsr(m)), MovedWord(m, o), fields, PsrWord(GetSpsr(out.m))))
            && (Mode(m) != FIQ ==> out.m.spsr.fiq == m.spsr.fiq) && (Mode(m) != IRQ ==> out.m.spsr.irq == m.spsr.irq)
            && (Mode(m) != SVC ==> out.m.spsr.svc == m.spsr.svc) && (Mode(m) != ABT ==> out.m.spsr.abt == m.spsr.abt)
            && (Mode(m) != UND ==> out.m.spsr.und == m.spsr.und)
  {
    hide Decode, Flag, RegField, MsrOp, Index, Bus32, ConditionPassed, StepOnce, PsrWord, PsrOf, AlignTo, MovedWord, Immediate, ReadReg, ApplyPsrFields, SetSpsr, GetSpsr;
    MsrDecodes(cond, true, fields, o);
    ValueMoved(m, o, MsrOp(cond, true, fields, o));
    StepExecutes(m, MsrOp(cond, true, fields, o));
    SavedSelected(m, PsrOf(MovedWord(m, o)), fields);
    SavedAdvanced(SetSpsr(m, PsrOf(MovedWord(m, o)), fields), AlignTo(m.pc, 4));
    MsrSelectsBytes(GetSpsr(m), PsrOf(MovedWord(m, o)), fields);
    WordRoundTrip(MovedWord(m, o));
  }

  /** A word with a valid mode, moved whole to the current status, is what MRS then reads. */
  lemma StatusReadsBack(m: Machine, cond: Nibble, o: Operand, cond1: Nibble, rd: Nibble)
    requires PlainOperand(o) && Executes(m, MsrOp(cond, false, 0xF, o)) && ValidMode(MovedWord(m, o) % 0x20)
    requires rd != 15 && Executes(StepOnce(m).m, MrsOp(cond1, false, rd))
    ensures Source(StepOnce(StepOnce(m).m).m, rd) == MovedWord(m, o)
  {
    hide StepOnce, Executes, MsrOp, MrsOp, MovedWord, PsrWord, Index, AlignTo;
    var q := MsrCurrent(m, cond, 0xF, o);
    var w := MovedWord(m, o);
    WholeWord(PsrWord(m.cpsr), w, PsrWord(q));
    PsrDigits(q);
    MrsExact(StepOnce(m).m, cond1, false, rd);
  }

  lemma WholeWord(before: Word, w: Word, after: Word)
    requires Selected(before, w, 0xF, after)
    ensures after == w
  {
    FourBytes(w);
    FourBytes(after);
  }
}

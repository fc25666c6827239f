/** What every step of the ARM7 core keeps. */
module Arm7Invariants {
  import opened Words
  import opened Arm7Isa
  import opened Arm7Step

  /** The mode field names a mode, and in ARM state the PC is word aligned. */
  ghost predicate Sound(m: Machine) {
    ValidMode(Mode(m)) && (!m.cpsr.t ==> m.pc % 4 == 0)
  }

  /** arm7_reset */
  function Reset(m: Machine, pc: Word): Machine {
    var zero := PsrOf(0);
    Machine(seq(30, _ => 0), AlignTo(pc, 4), PsrOf(0xD3), Spsrs(zero, zero, zero, zero, zero), m.bus, false, false, false)
  }

  lemma ResetSound(m: Machine, pc: Word)
    ensures Sound(Reset(m, pc)) && Mode(Reset(m, pc)) == SVC
    ensures Reset(m, pc).cpsr.i && Reset(m, pc).cpsr.f && !Reset(m, pc).cpsr.t
  {
    AlignedTo(pc, 4);
  }

  lemma AlignedTo(a: Word, n: Word)
    requires n in {2, 4}
    ensures AlignTo(a, n) % n == 0
  {
  }

  lemma AdvanceAligned(pc: Word)
    requires pc % 4 == 0
    ensures Plus(pc, 4) % 4 == 0
  {
  }

  lemma SetCpsrSound(m: Machine, value: Psr, fields: nat)
    requires ValidMode(Mode(m))
    ensures var m' := SetCpsr(m, value, fields);
            ValidMode(Mode(m')) && m' == m.(cpsr := m'.cpsr)
  {
    hide ApplyPsrFields;
  }

  /** A finished instruction leaves an aligned PC and a valid mode, or stops the core. */
  ghost predicate Landed(s: Step) {
    ValidMode(Mode(s.m)) && (s.status == Executed && !s.m.cpsr.t ==> s.m.pc % 4 == 0)
    && (s.status != Executed ==> s.m.halted)
  }

  lemma FinishTransferSound(m: Machine, pc: Word, op: Word, indexed: Word)
    requires ValidMode(Mode(m)) && pc % 4 == 0
    requires Flag(op, 20) && RegField(op, 12) == 15 ==> m.pc % 4 == 0
    ensures Landed(FinishTransfer(m, pc, op, indexed))
  {
    hide Flag, RegField, Index;
    AdvanceAligned(pc);
  }

  lemma PutLoadedSound(m: Machine, rd: nat, value: Word)
    requires rd < 16 && ValidMode(Mode(m))
    ensures var m' := PutLoaded(m, rd, value); ValidMode(Mode(m')) && (rd == 15 ==> m'.pc % 4 == 0)
  {
    hide Index;
    AlignedTo(value, 4);
  }

  /** Both halves of a single transfer end in `FinishTransfer`. */
  lemma TransferSound(pc: Word, op: Word)
    requires pc % 4 == 0
    ensures forall m1: Machine, v: Word, indexed: Word | ValidMode(Mode(m1)) ::
              Landed(FinishTransfer(PutLoaded(m1, RegField(op, 12), v), pc, op, indexed))
    ensures forall m1: Machine, indexed: Word | ValidMode(Mode(m1)) && !Flag(op, 20) ::
              Landed(FinishTransfer(m1, pc, op, indexed))
  {
    hide Flag, RegField, PutLoaded, FinishTransfer, Landed;
    forall m1: Machine, v: Word, indexed: Word | ValidMode(Mode(m1))
      ensures Landed(FinishTransfer(PutLoaded(m1, RegField(op, 12), v), pc, op, indexed))
    {
      PutLoadedSound(m1, RegField(op, 12), v);
      FinishTransferSound(PutLoaded(m1, RegField(op, 12), v), pc, op, indexed);
    }
    forall m1: Machine, indexed: Word | ValidMode(Mode(m1)) && !Flag(op, 20)
      ensures Landed(FinishTransfer(m1, pc, op, indexed))
    {
      FinishTransferSound(m1, pc, op, indexed);
    }
  }

  lemma HalfSound(m: Machine, pc: Word, op: Word)
    requires Sound(m) && pc % 4 == 0
    ensures Landed(HalfTransfer(m, pc, op))
  {
    hide Flag, RegField, Field, PutLoaded, FinishTransfer, Bus8, Bus16, Store16, ReadReg;
    TransferSound(pc, op);
  }

  lemma SingleSound(m: Machine, pc: Word, op: Word)
    requires Sound(m) && pc % 4 == 0
    ensures Landed(WordTransfer(m, pc, op))
  {
    hide Flag, RegField, Field, PutLoaded, FinishTransfer, Bus8, Bus32, Store8, Store32, ShiftValue, Rotr, AlignTo, ReadReg;
    TransferSound(pc, op);
  }

  lemma BlockSound(m: Machine, pc: Word, b: Block)
    requires Sound(m) && pc % 4 == 0 && b.rn < 16
    ensures Landed(BlockTransfer(m, pc, b))
  {
    hide LoadList, StoreList, StartAddress, NewBase, CountFrom, InList, Index, SetCpsr, GetSpsr, AlignTo;
    AdvanceAligned(pc);
    forall a: Word
      ensures AlignTo(a, 4) % 4 == 0
    {
      AlignedTo(a, 4);
    }
    forall m1: Machine | ValidMode(Mode(m1))
      ensures ValidMode(Mode(SetCpsr(m1, GetSpsr(m1), 0xF)))
    {
      SetCpsrSound(m1, GetSpsr(m1), 0xF);
    }
  }

  lemma DataSound(m: Machine, pc: Word, op: Word)
    requires Sound(m) && pc % 4 == 0
    ensures Landed(DataProcessing(m, pc, op))
  {
    hide Flag, RegField, Index, Alu, Operand2, ReadReg, AlignTo, SetCpsr, GetSpsr, SetFlags;
    var opcode, s, rd := RegField(op, 21), Flag(op, 20), RegField(op, 12);
    var f := Alu(opcode, ReadReg(m, RegField(op, 16), pc), Operand2(m, pc, op), m.cpsr);
    var m1 := if s || 8 <= opcode <= 11 then m.(cpsr := SetFlags(m.cpsr, f)) else m;
    FlagsKeepMode(m.cpsr, f);
    SetCpsrSound(m1, GetSpsr(m1), 0xF);
    AlignedTo(f.result, 4);
    AdvanceAligned(pc);
  }

  lemma FlagsKeepMode(p: Psr, f: Flagged)
    ensures SetFlags(p, f).mode == p.mode && SetFlags(p, f).t == p.t
  {
  }

  lemma StatusSound(m: Machine, pc: Word, op: Word)
    requires Sound(m) && pc % 4 == 0
    ensures Landed(BranchExchange(m, pc, op))
    ensures Landed(MoveFromPsr(m, pc, op))
    ensures Landed(MoveToPsr(m, pc, op))
  {
    hide Flag, RegField, Index, ReadReg, AlignTo, SetCpsr, GetSpsr, SetSpsr, PsrOf, PsrWord, Immediate;
    AdvanceAligned(pc);
    forall a: Word
      ensures AlignTo(a, 4) % 4 == 0
    {
      AlignedTo(a, 4);
    }
    forall m1: Machine, p: Psr, fields: nat | ValidMode(Mode(m1))
      ensures ValidMode(Mode(SetCpsr(m1, p, fields)))
    {
      SetCpsrSound(m1, p, fields);
    }
    forall m1: Machine, p: Psr, fields: nat
      ensures Mode(SetSpsr(m1, p, fields)) == Mode(m1)
    {
      SetSpsrMode(m1, p, fields);
    }
  }

  lemma SetSpsrMode(m: Machine, p: Psr, fields: nat)
    ensures SetSpsr(m, p, fields).cpsr == m.cpsr && SetSpsr(m, p, fields).pc == m.pc
  {
  }

  lemma BranchSound(m: Machine, pc: Word, op: Word)
    requires Sound(m) && pc % 4 == 0
    ensures Landed(Branch(m, pc, op))
  {
    hide Flag, Index;
    BranchTargetAligned(pc, op % 0x100_0000);
  }

  lemma BranchTargetAligned(pc: Word, offset: nat)
    requires pc % 4 == 0
    ensures Wrap(pc + 8 + 4 * (if offset < 0x80_0000 then offset else offset - 0x100_0000)) % 4 == 0
  {
    var x := pc + 8 + 4 * (if offset < 0x80_0000 then offset else offset - 0x100_0000);
    assert Wrap(x) == x - TWO_32 * (x / TWO_32);
  }

  lemma ExecuteSound(m: Machine, pc: Word, op: Word)
    requires Sound(m) && pc % 4 == 0
    ensures Landed(Execute(m, pc, op))
  {
    hide BranchExchange, MoveFromPsr, MoveToPsr, HalfTransfer, WordTransfer, BlockTransfer, Branch, DataProcessing;
    hide Decode, Landed, Sound;
    StatusSound(m, pc, op);
    HalfSound(m, pc, op);
    SingleSound(m, pc, op);
    BlockSound(m, pc, BlockOf(op));
    BranchSound(m, pc, op);
    DataSound(m, pc, op);
    OtherSound(m, pc, op);
  }

  lemma OtherSound(m: Machine, pc: Word, op: Word)
    requires Sound(m) && pc % 4 == 0
    ensures Landed(Multiply(m, pc, op)) && Landed(Stop(m, Unsupported))
  {
    hide Flag, RegField, Index, ReadReg;
    AdvanceAligned(pc);
  }

  /** Every step that executes keeps the machine sound; any other one stops it with a valid mode. */
  lemma StepSound(m: Machine)
    requires Sound(m)
    ensures var s := StepOnce(m);
            && ValidMode(Mode(s.m)) && (s.status == Executed ==> Sound(s.m))
            && (s.status != Executed ==> s.m.halted)
  {
    hide Execute, EnterException, Bus32, ConditionPassed;
    if !m.halted && !TakesFiq(m) && !TakesIrq(m) && !m.cpsr.t {
      AlignedTo(m.pc, 4);
      AdvanceAligned(AlignTo(m.pc, 4));
      var fetched := Bus32(m.bus, AlignTo(m.pc, 4));
      if fetched.Some? { ExecuteSound(m, AlignTo(m.pc, 4), fetched.value); }
    }
    EntrySound(m);
  }

  lemma EntrySound(m: Machine)
    requires Sound(m)
    ensures Sound(EnterException(m, FIQ, 0x1C, true)) && Sound(EnterException(m, IRQ, 0x18, false))
  {
    hide Index;
  }

  /** From reset, or from any sound state, every run ends sound, or halted in a valid mode. */
  lemma {:induction false} RunSound(m: Machine, n: nat)
    requires Sound(m)
    ensures var out := RunSteps(m, n); ValidMode(Mode(out)) && (Sound(out) || out.halted)
    decreases n
  {
    hide StepOnce, Sound;
    SoundMode(m);
    if n > 0 && !m.halted {
      StepSound(m);
      if StepOnce(m).status == Executed {
        RunSound(StepOnce(m).m, n - 1);
      }
    }
  }

  lemma SoundMode(m: Machine)
    requires Sound(m)
    ensures ValidMode(Mode(m))
  {
  }
}

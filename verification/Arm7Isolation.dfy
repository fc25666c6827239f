/** Which registers a step can reach: those its mode sees, the User bank through LDM ^, and on
    exception entry the handler's own R14 and SPSR. */
module Arm7Isolation {
  import opened Words
  import opened Arm7Isa
  import opened Arm7Step

  ghost predicate Visible(mode: nat, k: nat) {
    exists i: Reg :: Index(mode, i) == k
  }

  function SpsrOf(s: Spsrs, mode: nat): Psr
    requires HasSpsr(mode)
  {
    if mode == FIQ then s.fiq else if mode == IRQ then s.irq else if mode == SVC then s.svc
    else if mode == ABT then s.abt else s.und
  }

  /** From m to m', registers invisible in the mode (and in `extra`) and the other modes' SPSRs are unchanged. */
  ghost predicate Confined(m: Machine, m': Machine, mode: nat, extra: bool) {
    && (forall k :: 0 <= k < 30 && !Visible(mode, k) && !(extra && Visible(USR, k)) ==> m'.file[k] == m.file[k])
    && (forall h :: HasSpsr(h) && h != mode ==> SpsrOf(m'.spsr, h) == SpsrOf(m.spsr, h))
  }

  lemma SetLiveConfined(m: Machine, i: Reg, v: Word)
    ensures Confined(m, SetLive(m, i, v), Mode(m), false)
  {
  }

  lemma ConfinedChain(m: Machine, m1: Machine, m2: Machine, mode: nat, extra: bool)
    requires Confined(m, m1, mode, extra) && Confined(m1, m2, mode, extra)
    ensures Confined(m, m2, mode, extra)
  {
    hide Visible, SpsrOf;
  }

  lemma SetSpsrConfined(m: Machine, p: Psr, fields: nat)
    ensures Confined(m, SetSpsr(m, p, fields), Mode(m), false)
  {
    hide ApplyPsrFields, Visible;
  }

  lemma FinishConfined(m: Machine, pc: Word, op: Word, indexed: Word)
    ensures Confined(m, FinishTransfer(m, pc, op, indexed).m, Mode(m), false)
  {
    hide Flag, RegField, Visible, Index;
    var rn := RegField(op, 16);
    if rn < 15 { SetLiveConfined(m, rn, indexed); }
  }

  lemma PutConfined(m: Machine, rd: nat, v: Word)
    requires rd < 16
    ensures Confined(m, PutLoaded(m, rd, v), Mode(m), false) && Mode(PutLoaded(m, rd, v)) == Mode(m)
  {
    hide Visible, Index;
    if rd < 15 { SetLiveConfined(m, rd, v); }
  }

  /** Both single transfers: whatever was loaded goes through `PutLoaded`, then the base. */
  lemma TransferConfined(m: Machine, pc: Word, op: Word)
    ensures forall v: Word, indexed: Word ::
              Confined(m, FinishTransfer(PutLoaded(m, RegField(op, 12), v), pc, op, indexed).m, Mode(m), false)
    ensures forall bus: Bus, indexed: Word ::
              Confined(m, FinishTransfer(m.(bus := bus), pc, op, indexed).m, Mode(m), false)
  {
    hide RegField, PutLoaded, FinishTransfer, Confined;
    forall v: Word, indexed: Word
      ensures Confined(m, FinishTransfer(PutLoaded(m, RegField(op, 12), v), pc, op, indexed).m, Mode(m), false)
    {
      var m1 := PutLoaded(m, RegField(op, 12), v);
      PutConfined(m, RegField(op, 12), v);
      FinishConfined(m1, pc, op, indexed);
      ConfinedChain(m, m1, FinishTransfer(m1, pc, op, indexed).m, Mode(m), false);
    }
    forall bus: Bus, indexed: Word
      ensures Confined(m, FinishTransfer(m.(bus := bus), pc, op, indexed).m, Mode(m), false)
    {
      var m1 := m.(bus := bus);
      FinishConfined(m1, pc, op, indexed);
      ConfinedFrom(m, m1, FinishTransfer(m1, pc, op, indexed).m, Mode(m), false);
    }
  }

  lemma ConfinedFrom(m: Machine, m1: Machine, m2: Machine, mode: nat, extra: bool)
    requires m1.file == m.file && m1.spsr == m.spsr && Confined(m1, m2, mode, extra)
    ensures Confined(m, m2, mode, extra)
  {
  }

  lemma SingleConfined(m: Machine, pc: Word, op: Word)
    ensures Confined(m, HalfTransfer(m, pc, op).m, Mode(m), false)
    ensures Confined(m, WordTransfer(m, pc, op).m, Mode(m), false)
  {
    hide Flag, RegField, Field, PutLoaded, FinishTransfer, Bus8, Bus16, Bus32, Store8, Store16, Store32;
    hide ShiftValue, Rotr, AlignTo, ReadReg, Visible, SpsrOf;
    TransferConfined(m, pc, op);
  }

  lemma {:induction false} LoadListConfined(file: File, mode: nat, bus: Bus, list: nat, i: nat, a: Word, k: nat)
    requires k < 30 && !Visible(mode, k)
    ensures LoadList(file, mode, bus, list, i, a).file[k] == file[k]
    decreases 16 - i
  {
    hide Visible, Bus32, InList, Index;
    if i < 15 {
      InvisibleIndex(mode, i, k);
      LoadListConfined(file, mode, bus, list, i + 1, a, k);
      var w := Bus32(bus, a);
      if w.Some? {
        LoadListConfined(Update(file, mode, i, w.value), mode, bus, list, i + 1, Plus(a, 4), k);
      }
    } else if i == 15 {
      assert LoadList(file, mode, bus, list, 16, a).file == file;
    }
  }

  lemma InvisibleIndex(mode: nat, i: Reg, k: nat)
    requires !Visible(mode, k)
    ensures Index(mode, i) != k
  {
  }

  lemma BlockConfined(m: Machine, pc: Word, b: Block)
    requires b.rn < 16
    ensures Confined(m, BlockTransfer(m, pc, b).m, Mode(m), b.caret && b.load)
  {
    hide LoadList, StoreList, StartAddress, NewBase, CountFrom, InList, Index, SetCpsr, GetSpsr, AlignTo, Visible, SpsrOf;
    var user := b.caret && !(b.load && InList(b.list, 15));
    if b.rn != 15 {
      var base := Live(m, b.rn);
      var l := LoadList(m.file, if user then USR else Mode(m), m.bus, b.list, 0, StartAddress(b, base));
      if b.load {
        forall k | 0 <= k < 30 && !Visible(Mode(m), k) && !(b.caret && Visible(USR, k))
          ensures l.file[k] == m.file[k]
        {
          LoadListConfined(m.file, if user then USR else Mode(m), m.bus, b.list, 0, StartAddress(b, base), k);
        }
      }
      forall k | 0 <= k < 30 && !Visible(Mode(m), k)
        ensures Index(Mode(m), b.rn) != k
      {
        InvisibleIndex(Mode(m), b.rn, k);
      }
      SetCpsrFile();
    }
  }

  lemma SetCpsrFile()
    ensures forall m: Machine, p: Psr, fields: nat ::
              var m' := SetCpsr(m, p, fields); m'.file == m.file && m'.spsr == m.spsr
  {
    hide ApplyPsrFields;
  }

  lemma DataConfined(m: Machine, pc: Word, op: Word)
    ensures Confined(m, DataProcessing(m, pc, op).m, Mode(m), false)
  {
    hide Flag, RegField, Alu, Operand2, ReadReg, AlignTo, SetCpsr, GetSpsr, Visible, SpsrOf, Index;
    SetCpsrFile();
    var rd := RegField(op, 12);
    if rd < 15 {
      forall k | 0 <= k < 30 && !Visible(Mode(m), k)
        ensures Index(Mode(m), rd) != k
      {
        InvisibleIndex(Mode(m), rd, k);
      }
    }
  }

  lemma MiscConfined(m: Machine, pc: Word, op: Word)
    ensures Confined(m, BranchExchange(m, pc, op).m, Mode(m), false)
    ensures Confined(m, MoveFromPsr(m, pc, op).m, Mode(m), false)
    ensures Confined(m, MoveToPsr(m, pc, op).m, Mode(m), false)
    ensures Confined(m, Multiply(m, pc, op).m, Mode(m), false)
    ensures Confined(m, Branch(m, pc, op).m, Mode(m), false)
  {
    hide Flag, RegField, ReadReg, AlignTo, SetCpsr, GetSpsr, SetSpsr, Visible, SpsrOf, Index, PsrOf, PsrWord, Immediate;
    SetCpsrFile();
    var rd, rm := RegField(op, 12), RegField(op, 16);
    forall k | 0 <= k < 30 && !Visible(Mode(m), k)
      ensures (rd < 15 ==> Index(Mode(m), rd) != k) && (rm < 15 ==> Index(Mode(m), rm) != k) && Index(Mode(m), 14) != k
    {
      if rd < 15 { InvisibleIndex(Mode(m), rd, k); }
      if rm < 15 { InvisibleIndex(Mode(m), rm, k); }
      InvisibleIndex(Mode(m), 14, k);
    }
    forall p: Psr, fields: nat
      ensures Confined(m, SetSpsr(m, p, fields), Mode(m), false)
    {
      SetSpsrConfined(m, p, fields);
    }
  }

  /** The instruction at the PC is LDM ^: it may load the User bank. */
  ghost predicate LoadsUserBank(op: Word) {
    Decode(op) == BLOCK && Flag(op, 22) && Flag(op, 20)
  }

  lemma ExecuteConfined(m: Machine, pc: Word, op: Word)
    ensures Confined(m, Execute(m, pc, op).m, Mode(m), LoadsUserBank(op))
  {
    hide BranchExchange, MoveFromPsr, MoveToPsr, Multiply, HalfTransfer, WordTransfer, BlockTransfer, Branch, DataProcessing;
    hide Decode, Visible, SpsrOf;
    MiscConfined(m, pc, op);
    SingleConfined(m, pc, op);
    BlockConfined(m, pc, BlockOf(op));
    DataConfined(m, pc, op);
  }

  /** Isolation: unless an exception is taken, a step leaves alone every register its mode does not
      see (LDM ^ aside, which also reaches the User bank) and every SPSR but its own. */
  lemma StepConfined(m: Machine)
    requires !TakesFiq(m) && !TakesIrq(m)
    ensures var op := Bus32(m.bus, AlignTo(m.pc, 4));
            Confined(m, StepOnce(m).m, Mode(m), op.Some? && LoadsUserBank(op.value))
  {
    hide Execute, Bus32, ConditionPassed, Visible, SpsrOf, LoadsUserBank, AlignTo;
    var op := Bus32(m.bus, AlignTo(m.pc, 4));
    if op.Some? { ExecuteConfined(m, AlignTo(m.pc, 4), op.value); }
  }

  /** Taking an exception writes the handler's R14 and SPSR and no other banked state. */
  lemma EntryConfined(m: Machine)
    requires !m.halted && (TakesFiq(m) || TakesIrq(m))
    ensures var mode := if TakesFiq(m) then FIQ else IRQ;
            var m' := StepOnce(m).m;
            && Mode(m') == mode
            && (forall k :: 0 <= k < 30 && k != Index(mode, 14) ==> m'.file[k] == m.file[k])
            && (forall h :: HasSpsr(h) && h != mode ==> SpsrOf(m'.spsr, h) == SpsrOf(m.spsr, h))
            && SpsrOf(m'.spsr, mode) == m.cpsr
  {
    hide AlignTo;
  }
}
